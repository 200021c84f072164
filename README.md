# DataStructures in Dafny

A model of six small C++ containers: an ordered map kept as a binary
search tree (`Dictionary`), a doubly and a singly linked list, a growable
array (`Vector`), a NUL-terminated string (`String`) and a bounded stack
(`FixedStack`). Each container is a Dafny class whose fields are the C++
members. Buffers are arrays. Linked nodes are objects. The dictionary's
nodes live in an arena of index-linked cells.

Every class carries a `Valid()` invariant and an abstract view:
- `Contents()` for the array-based containers;
- the ghost `contents` sequence for the lists;
- the in-order sequence of key/value pairs for the dictionary.

Each operation states its effect on that view, and exceptions become
`Result`/`Outcome` values (module `Errors`). The dictionary's effects are
stated through pure sequence functions. The lemmas beside them prove what
the source promises about those functions: sorted keys are kept, `add`
inserts or overwrites, `erase` drops exactly one key, and iteration
visits the pairs in key order.

Modules, one per file:

| file | module | container |
|---|---|---|
| errors.dfy | Errors | exception kinds, `Result`, `Outcome` |
| dictionary.dfy | Dictionaries | `Dictionary<TKey, TValue>` with int keys, and its `ConstIterator` |
| dictionary_scenarios.dfy | DictionaryScenarios | the dictionary's documented example runs |
| doubly_linked_list.dfy | DoublyLinkedLists | `DoublyLinkedList<int>` |
| linked_list.dfy | LinkedLists | `LinkedList` |
| vector.dfy | Vectors | `Vector<T>` |
| string.dfy | Strings | `String` |
| fixed_stack.dfy | FixedStacks | `FixedStack<T, Size>` |

## Model

| member | source | states |
|---|---|---|
| Dictionaries.Dictionary.constructor | Dictionary/Dictionary/src/Dictionary.h:27 | a new dictionary is valid and holds no pair |
| Dictionaries.Dictionary.FromPairs | Dictionary/Dictionary/src/Dictionary.h:28 | the initializer-list constructor holds exactly `Build(ps)`, the pairs added one by one |
| Dictionaries.BuildKeeps | Dictionary/Dictionary/src/Dictionary.h:28 | the pairs built from any list ascend by key, and their keys are the list's keys |
| Dictionaries.BuildLastWins | Dictionary/Dictionary/src/Dictionary.h:28 | of several pairs with the same key, the last one is the one kept |
| Dictionaries.Dictionary.Copy | Dictionary/Dictionary/src/Dictionary.h:29 | the copy holds the same pairs in the same order |
| Dictionaries.Dictionary.CopyTree | Dictionary/Dictionary/src/Dictionary.h:66 | copy(root, otherRoot) clones a subtree into fresh cells after the old ones: same in-order pairs, parent links set, old cells untouched |
| Dictionaries.Dictionary.Move | Dictionary/Dictionary/src/Dictionary.h:30 | the new dictionary takes the source's pairs and the source is left valid and empty |
| Dictionaries.Dictionary.CopyAssign | Dictionary/Dictionary/src/Dictionary.h:33 | copy assignment: the target then holds the source's pairs |
| Dictionaries.Dictionary.MoveAssign | Dictionary/Dictionary/src/Dictionary.h:34 | move assignment: the target takes the pairs and the source is emptied; self-assignment changes nothing |
| Dictionaries.Dictionary.At | Dictionary/Dictionary/src/Dictionary.h:37-41 | at and operator[] return the value stored under the key, and throw KeyNotFound when the key is absent, including on an empty dictionary; nothing is inserted |
| Dictionaries.Dictionary.WriteAt | Dictionary/Dictionary/src/Dictionary.h:37-41 | writing through the reference at and operator[] return replaces the value of a present key, leaving `Replace(old, (key, value))`; an absent key throws KeyNotFound and nothing changes |
| Dictionaries.Dictionary.Begin | Dictionary/Dictionary/src/Dictionary.h:44 | begin() points at position 0 of the in-order walk |
| Dictionaries.Dictionary.End | Dictionary/Dictionary/src/Dictionary.h:45 | end() points one past the last position |
| Dictionaries.SlotsDiffer | Dictionary/Dictionary/src/Dictionary.h:88-89 | two iterators over one dictionary are equal exactly when they stand at the same position |
| Dictionaries.Dictionary.Next | Dictionary/Dictionary/src/Dictionary.h:91 | operator++ moves from position i to position i + 1 of the in-order walk |
| Dictionaries.Dictionary.NextDown | Dictionary/Dictionary/src/Dictionary.h:91 | from a node with a right child, the next node is the leftmost node of that child |
| Dictionaries.Dictionary.NextUp | Dictionary/Dictionary/src/Dictionary.h:91 | from a node without a right child, the next node is the first ancestor reached from a left child, or end() |
| Dictionaries.ClimbEnd | Dictionary/Dictionary/src/Dictionary.h:91 | climbing parent links from a right child ends at the in-order successor |
| Dictionaries.Dictionary.Deref | Dictionary/Dictionary/src/Dictionary.h:94 | operator* yields the value of the pair at the iterator's position |
| Dictionaries.Dictionary.Walk | Dictionary/Dictionary/tests/DictionaryTests.cpp:159-163 | walking begin() to end() with ++ reads the values in ascending key order |
| Dictionaries.Dictionary.IsEmpty | Dictionary/Dictionary/src/Dictionary.h:48 | isEmpty() holds exactly when no pair is stored |
| Dictionaries.Dictionary.Size | Dictionary/Dictionary/src/Dictionary.h:49 | size() is the number of pairs |
| Dictionaries.Dictionary.CountNodes | Dictionary/Dictionary/src/Dictionary.h:68 | size(root) counts the nodes of a subtree |
| Dictionaries.Dictionary.Clear | Dictionary/Dictionary/src/Dictionary.h:52 | clear() leaves a valid, empty dictionary |
| Dictionaries.Dictionary.Add | Dictionary/Dictionary/src/Dictionary.h:53 | add(key, value) leaves `Put(old, (key, value))`: an absent key is inserted in key order, and a present key has its value overwritten |
| Dictionaries.PutKeeps | Dictionary/Dictionary/src/Dictionary.h:53 | after add, the keys still ascend, the key set gains the key, the new pair is present, and every pair with another key is kept |
| Dictionaries.Dictionary.InsertNew | Dictionary/Dictionary/src/Dictionary.h:53 | inserting an absent key hangs a new leaf where the search ended and yields the sorted insertion of the pair |
| Dictionaries.InsertSortedKeeps | Dictionary/Dictionary/src/Dictionary.h:53 | inserting an absent key keeps the keys ascending, adds exactly that key and grows the size by one |
| Dictionaries.InsItems | Dictionary/Dictionary/src/Dictionary.h:115-125 | the in-order pairs of the tree with the new leaf are the old pairs with the new one inserted in key order |
| Dictionaries.Dictionary.Overwrite | Dictionary/Dictionary/src/Dictionary.h:53 | overwriting the pair of the node holding the key replaces that key's pair and nothing else |
| Dictionaries.OverwriteKeeps | Dictionary/Dictionary/src/Dictionary.h:53 | an overwrite keeps the keys ascending and the key set unchanged, and keeps every other pair |
| Dictionaries.Dictionary.SearchEnd | Dictionary/Dictionary/src/Dictionary.h:53 | the descent for an absent key ends at the node under which the new leaf hangs |
| Dictionaries.Dictionary.FindKey | Dictionary/Dictionary/src/Dictionary.h:70-71 | findKey returns the node holding the key, or nullptr exactly when the key is absent |
| Dictionaries.Descend | Dictionary/Dictionary/src/Dictionary.h:70-71 | one comparison step: a smaller key can only be on the left and a larger one only on the right |
| Dictionaries.Dictionary.Find | Dictionary/Dictionary/src/Dictionary.h:60 | find(key) points at the position holding the key, or is end() when the key is absent |
| Dictionaries.Dictionary.Contains | Dictionary/Dictionary/src/Dictionary.h:61 | contains(key) holds exactly when the key is stored |
| Dictionaries.Dictionary.Erase | Dictionary/Dictionary/src/Dictionary.h:54 | erase(key) leaves `Without(old, key)`; an absent key changes nothing |
| Dictionaries.WithoutKeeps | Dictionary/Dictionary/src/Dictionary.h:54 | after erase(key) the keys still ascend and the key set loses exactly that key |
| Dictionaries.WithoutAbsent | Dictionary/Dictionary/tests/DictionaryTests.cpp:252-256 | erasing an absent key, including from an empty dictionary, changes nothing |
| Dictionaries.WithoutAt | Dictionary/Dictionary/src/Dictionary.h:54 | erasing the key of position i drops exactly the pair at i |
| Dictionaries.Dictionary.DeleteKey | Dictionary/Dictionary/src/Dictionary.h:73 | deleteKey(root, key) returns the new root of a subtree whose in-order pairs are the old ones without the key |
| Dictionaries.Dictionary.Unlink | Dictionary/Dictionary/src/Dictionary.h:73 | a node with at most one child is replaced by that child |
| Dictionaries.Dictionary.ReplaceBySuccessor | Dictionary/Dictionary/src/Dictionary.h:73 | a node with two children takes its successor's pair and the successor is deleted from the right subtree |
| Dictionaries.WithoutSuccessor | Dictionary/Dictionary/src/Dictionary.h:73 | removing a key whose pair has a successor equals putting the successor in its place and removing the successor from the right side |
| Dictionaries.Dictionary.EraseAt | Dictionary/Dictionary/src/Dictionary.h:55 | erase(pos) removes exactly the pair at the iterator's position |
| Dictionaries.Dictionary.EraseRange | Dictionary/Dictionary/src/Dictionary.h:56 | erase(first, last) removes the positions from first up to, not including, last |
| Dictionaries.Dictionary.KeysBetween | Dictionary/Dictionary/src/Dictionary.h:56 | walking first to last collects the keys of exactly those positions |
| Dictionaries.Dictionary.EraseKeys | Dictionary/Dictionary/src/Dictionary.h:56 | erasing the collected keys one by one removes exactly that run |
| Dictionaries.Dictionary.Swap | Dictionary/Dictionary/src/Dictionary.h:57 | swap exchanges the whole contents of two dictionaries |
| Dictionaries.ItemsUpdate | Dictionary/Dictionary/src/Dictionary.h:115-125 | changing the pair of the node at in-order position i changes exactly position i of the walk |
| Dictionaries.UniqueDistinct | Dictionary/Dictionary/src/Dictionary.h:115-125 | a tree in which no node occurs twice lists each node once in order |
| Dictionaries.ParentLemma | Dictionary/Dictionary/src/Dictionary.h:115-125 | a non-root node's parent link names the node whose left or right child it is |
| DictionaryScenarios.FreshIsEmpty | Dictionary/Dictionary/tests/DictionaryTests.cpp:9-16 | a default dictionary is empty, has size 0 and begin() == end() |
| DictionaryScenarios.FourAdds | Dictionary/Dictionary/tests/DictionaryTests.cpp:150-155 | adding 1:11, 4:44, -1:-11, 3:33 yields the values -11, 11, 33, 44 in key order |
| DictionaryScenarios.AddThenIterate | Dictionary/Dictionary/tests/DictionaryTests.cpp:146-164 | the iteration of that dictionary reads -11, 11, 33, 44 |
| DictionaryScenarios.SevenAdded | Dictionary/Dictionary/tests/DictionaryTests.cpp:392-400 | adding 5, 2, 6, 1, 4, 3, 7 gives the seven pairs in key order |
| DictionaryScenarios.SevenRun | Dictionary/Dictionary/tests/DictionaryTests.cpp:408-409 | in those pairs find(3) is position 2 and find(7) is position 6, and dropping the run between leaves 11, 22, 77 |
| DictionaryScenarios.EraseRun | Dictionary/Dictionary/tests/DictionaryTests.cpp:390-416 | erase(find(3), find(7)) leaves the values 11, 22, 77 |
| DoublyLinkedLists.DoublyLinkedList.constructor | DoublyLinkedList/DoublyLinkedList/src/DoublyLinkedList.h:18 | a new list is valid and empty |
| DoublyLinkedLists.DoublyLinkedList.FromSeq | DoublyLinkedList/DoublyLinkedList/src/DoublyLinkedList.h:21-24 | construction from an array, an iterator range or an initializer list holds those values in order |
| DoublyLinkedLists.DoublyLinkedList.Copy | DoublyLinkedList/DoublyLinkedList/src/DoublyLinkedList.h:19 | the copy holds the same values in fresh nodes |
| DoublyLinkedLists.DoublyLinkedList.CopyFrom | DoublyLinkedList/DoublyLinkedList/src/DoublyLinkedList.h:74 | copy(other) appends the other list's values in order to an empty list |
| DoublyLinkedLists.DoublyLinkedList.Move | DoublyLinkedList/DoublyLinkedList/src/DoublyLinkedList.h:20 | the new list takes the values and the source is left empty |
| DoublyLinkedLists.DoublyLinkedList.Assign | DoublyLinkedList/DoublyLinkedList/src/DoublyLinkedList.h:27 | copy assignment, self-assignment included, leaves the source's values |
| DoublyLinkedLists.DoublyLinkedList.MoveAssign | DoublyLinkedList/DoublyLinkedList/src/DoublyLinkedList.h:28 | move assignment exchanges the two lists' values; self-assignment changes nothing |
| DoublyLinkedLists.DoublyLinkedList.Front | DoublyLinkedList/DoublyLinkedList/src/DoublyLinkedList.h:31-32 | front() returns the first value, and throws on an empty list |
| DoublyLinkedLists.DoublyLinkedList.Back | DoublyLinkedList/DoublyLinkedList/src/DoublyLinkedList.h:34-35 | back() returns the last value, and throws on an empty list |
| DoublyLinkedLists.DoublyLinkedList.Forward | DoublyLinkedList/DoublyLinkedList/src/DoublyLinkedList.h:38-45 | walking `next` from begin() to end() reads the values in order |
| DoublyLinkedLists.DoublyLinkedList.Backward | DoublyLinkedList/DoublyLinkedList/src/DoublyLinkedList.h:41-48 | walking `prev` from rbegin() to rend() reads the values reversed |
| DoublyLinkedLists.DoublyLinkedList.IsEmpty | DoublyLinkedList/DoublyLinkedList/src/DoublyLinkedList.h:51 | isEmpty() holds exactly when there is no value |
| DoublyLinkedLists.DoublyLinkedList.Size | DoublyLinkedList/DoublyLinkedList/src/DoublyLinkedList.h:52 | size() is the number of values |
| DoublyLinkedLists.DoublyLinkedList.PushFront | DoublyLinkedList/DoublyLinkedList/src/DoublyLinkedList.h:55 | pushFront(x) puts x before the old values, in a fresh node |
| DoublyLinkedLists.DoublyLinkedList.PushBack | DoublyLinkedList/DoublyLinkedList/src/DoublyLinkedList.h:56 | pushBack(x) puts x after the old values, in a fresh node |
| DoublyLinkedLists.DoublyLinkedList.PopFront | DoublyLinkedList/DoublyLinkedList/src/DoublyLinkedList.h:57 | popFront() drops the first value, and throws on an empty list |
| DoublyLinkedLists.DoublyLinkedList.PopBack | DoublyLinkedList/DoublyLinkedList/src/DoublyLinkedList.h:58 | popBack() drops the last value, and throws on an empty list |
| DoublyLinkedLists.DoublyLinkedList.Clear | DoublyLinkedList/DoublyLinkedList/src/DoublyLinkedList.h:60 | clear() leaves a valid empty list, whatever the list held |
| DoublyLinkedLists.DoublyLinkedList.Reverse | DoublyLinkedList/DoublyLinkedList/src/DoublyLinkedList.h:63 | reverse() reverses the values by turning every node's links around |
| DoublyLinkedLists.RevRev | DoublyLinkedList/DoublyLinkedList/src/DoublyLinkedList.h:63 | reversing twice restores the list |
| DoublyLinkedLists.ReverseChain | DoublyLinkedList/DoublyLinkedList/src/DoublyLinkedList.h:63 | a chain whose links are all exchanged is the reversed chain of the reversed values |
| DoublyLinkedLists.DoublyLinkedList.Sort | DoublyLinkedList/DoublyLinkedList/src/DoublyLinkedList.h:64 | sort() leaves the values ascending and a permutation of the old ones, moving no node |
| DoublyLinkedLists.SortChain | DoublyLinkedList/DoublyLinkedList/src/DoublyLinkedList.h:64 | the exchange sort over a chain yields a sorted permutation of its values |
| DoublyLinkedLists.DoublyLinkedList.Merge | DoublyLinkedList/DoublyLinkedList/src/DoublyLinkedList.h:65 | merge(other) leaves this list's values followed by the other's, and the other list empty |
| DoublyLinkedLists.DoublyLinkedList.Splice | DoublyLinkedList/DoublyLinkedList/src/DoublyLinkedList.h:65 | two non-empty lists are joined by linking the tail of one to the head of the other |
| DoublyLinkedLists.DoublyLinkedList.Remove | DoublyLinkedList/DoublyLinkedList/src/DoublyLinkedList.h:66 | remove(target) drops every occurrence of the target, keeps the other values in order and counts, and changes nothing when the target is absent |
| DoublyLinkedLists.DoublyLinkedList.RemoveIf | DoublyLinkedList/DoublyLinkedList/src/DoublyLinkedList.h:67-68 | removeIf(pred) keeps, in order, exactly the values the predicate rejects |
| DoublyLinkedLists.DropCounts | DoublyLinkedList/DoublyLinkedList/src/DoublyLinkedList.h:66-68 | after a removal a rejected value keeps its count and a removed value has none |
| DoublyLinkedLists.DropNone | DoublyLinkedList/DoublyLinkedList/tests/DoublyLinkedListTest.cpp:505-521 | removing a value that no element matches changes nothing |
| DoublyLinkedLists.FilterChain | DoublyLinkedList/DoublyLinkedList/src/DoublyLinkedList.h:66-68 | unlinking the matching nodes one by one leaves a chain of the values kept |
| DoublyLinkedLists.Unlink | DoublyLinkedList/DoublyLinkedList/src/DoublyLinkedList.h:107-116 | unlinking the node at position k leaves a chain of the other nodes in order |
| DoublyLinkedLists.Equal | DoublyLinkedList/DoublyLinkedList/src/DoublyLinkedList.h:120 | == holds exactly when both lists hold the same values in the same order |
| DoublyLinkedLists.NotEqual | DoublyLinkedList/DoublyLinkedList/src/DoublyLinkedList.h:122 | != is the negation of == |
| LinkedLists.LinkedList.constructor | LinkedList/LinkedList/LinkedList.cpp:6-9 | a new list is empty |
| LinkedLists.LinkedList.Copy | LinkedList/LinkedList/LinkedList.cpp:11-28 | the copy constructor holds the same values in order, in fresh nodes |
| LinkedLists.CopyNodes | LinkedList/LinkedList/LinkedList.cpp:14-27 | the copying loop builds a fresh chain holding the other list's values |
| LinkedLists.LinkedList.Move | LinkedList/LinkedList/LinkedList.cpp:30-34 | the new list takes the nodes and the source is left empty |
| LinkedLists.LinkedList.Assign | LinkedList/LinkedList/LinkedList.cpp:41-64 | copy assignment leaves the source's values; self-assignment changes nothing |
| LinkedLists.LinkedList.MoveAssign | LinkedList/LinkedList/LinkedList.cpp:66-72 | move assignment exchanges the two lists' values |
| LinkedLists.LinkedList.Write | LinkedList/LinkedList/LinkedList.cpp:74-92 | operator[](i) gives write access to the i-th value only, and throws out_of_range outside 0 ≤ i < length |
| LinkedLists.LinkedList.Read | LinkedList/LinkedList/LinkedList.cpp:248-266 | read(i) and the const operator[] return the i-th value, and throw out_of_range when i < 0, the list is empty or i ≥ length |
| LinkedLists.LinkedList.Search | LinkedList/LinkedList/LinkedList.cpp:114-145 | search(v) finds the first node holding v, and returns null exactly when v is absent |
| LinkedLists.LinkedList.InsertFront | LinkedList/LinkedList/LinkedList.cpp:147-151 | insertFront(v) makes v the first value and keeps the others |
| LinkedLists.LinkedList.InsertBack | LinkedList/LinkedList/LinkedList.cpp:153-167 | insertBack(v) makes v the last value and keeps the others |
| LinkedLists.LinkedList.Remove | LinkedList/LinkedList/LinkedList.cpp:169-203 | remove(v) drops the first occurrence of v and nothing else, and is a no-op when v is absent or the list is empty |
| LinkedLists.LinkedList.RemoveAsWritten | LinkedList/LinkedList/LinkedList.cpp:169-203 | remove(v) as written: when the first v is the last node of a list of two or more, the node is freed but the list keeps reaching it, so the chain and the values it reads are unchanged; otherwise it removes the first v |
| LinkedLists.RemoveTailWitness | LinkedList/LinkedList/LinkedList.cpp:188-196 | the list [1, 2] is a list whose first 2 is its tail, where removing 2 should leave [1] |
| LinkedLists.RemoveFirstAt | LinkedList/LinkedList/LinkedList.cpp:169-203 | removing the first occurrence at k cuts out position k, shortens the list by one and removes one copy of v |
| LinkedLists.RemoveFirstAbsent | LinkedList/LinkedList/LinkedList.cpp:171-172 | removing a value that is not present changes nothing |
| LinkedLists.LinkedList.Sort | LinkedList/LinkedList/LinkedList.cpp:205-234 | sort() leaves the values non-decreasing and a permutation of the old ones, moving no node |
| LinkedLists.SortChain | LinkedList/LinkedList/LinkedList.cpp:216-233 | the nested exchange loops yield a sorted permutation of the chain's values |
| LinkedLists.CompareStep | LinkedList/LinkedList/LinkedList.cpp:222-227 | one exchange step puts the smaller value first and keeps the prefix sorted |
| Vectors.CalculateCapacity | Vector/Vector/Vector.h:279-291 | the capacity for n is greater than n and at least 4; above 16 it is the next multiple of 16 past n. String's calculateCapacity (String/String/String.cpp:310-322) has the same body, and the String model uses this function |
| Vectors.CalculateCapacityMonotone | Vector/Vector/Vector.h:279-291 | a larger request never gets a smaller capacity |
| Vectors.Vector.constructor | Vector/Vector/Vector.h:59-64 | a new vector has no elements and capacity 0 |
| Vectors.Vector.Create | Vector/Vector/Vector.h:67-77 | Vector(data, n) throws invalid_argument when n ≤ 0, and otherwise holds data[0..n) with capacity calculateCapacity(n) |
| Vectors.Vector.Copy | Vector/Vector/Vector.h:80-83 | the copy has the same size, capacity and elements in a fresh buffer |
| Vectors.Vector.Move | Vector/Vector/Vector.h:86-90 | the new vector takes the buffer, size and capacity, and the source is left empty with capacity 0 |
| Vectors.Vector.Assign | Vector/Vector/Vector.h:99-108 | copy assignment leaves the source's size, capacity and elements |
| Vectors.Vector.At | Vector/Vector/Vector.h:132-148 | at(i) returns element i, and throws out_of_range unless 0 ≤ i < size |
| Vectors.Vector.Write | Vector/Vector/Vector.h:132-138 | writing through the reference at(i) returns replaces element i and nothing else; out_of_range unless 0 ≤ i < size, with nothing changed |
| Vectors.Vector.Front | Vector/Vector/Vector.h:159-166 | front() returns the first element, and throws when the vector is empty |
| Vectors.Vector.Back | Vector/Vector/Vector.h:150-157 | back() returns the last element, and throws when the vector is empty |
| Vectors.Vector.Empty | Vector/Vector/Vector.h:204-207 | empty() holds exactly when there is no element |
| Vectors.Vector.Clear | Vector/Vector/Vector.h:210-216 | clear() sets size and capacity to 0 |
| Vectors.Vector.Insert | Vector/Vector/Vector.h:219-225 | insert(data, n) appends data[0..n) in order |
| Vectors.Vector.Erase | Vector/Vector/Vector.h:228-239 | erase(i) throws out_of_range unless 0 ≤ i < size, and otherwise removes element i, shifting the rest down |
| Vectors.Vector.EraseRange | Vector/Vector/Vector.h:242-261 | erase(first, last) throws invalid_argument when first > last and out_of_range when first < 0 or last > size - 1, and otherwise removes first..last inclusive |
| Vectors.ShiftDown | Vector/Vector/Vector.h:253-258 | the shifting loop leaves the elements outside the range, in order, at the front of the buffer |
| Vectors.ShiftDownAsWritten | Vector/Vector/Vector.h:255-258 | the loop as written, bounded by `i <= m_Size`, only meets its result when the buffer has a slot past the last element |
| Vectors.Vector.EraseRangeAsWritten | Vector/Vector/Vector.h:242-261 | erase(first, last) as written: the same three outcomes, but a valid range can only be erased when size < capacity, since the loop reads slot m_Size |
| Vectors.EraseRangeOverrunWitness | Vector/Vector/Vector.h:264-270 | four pushBacks from an empty vector give size = capacity = 4, a state in which erase(0, 1) reads past the buffer |
| Vectors.Vector.PushBack | Vector/Vector/Vector.h:264-270 | pushBack(el) appends el; a full buffer is first replaced by one of calculateCapacity(capacity) slots |
| Vectors.Vector.PopBack | Vector/Vector/Vector.h:273-276 | popBack() drops the last element |
| Vectors.Vector.Resize | Vector/Vector/Vector.h:294-310 | resize(n) makes the capacity calculateCapacity(n), keeps the elements that fit and truncates the size to the new capacity |
| Vectors.Vector.Swap | Vector/Vector/Vector.h:332-337 | swap exchanges buffer, size and capacity. The move assignment (Vector/Vector/Vector.h:110-117) is `swap(other)` guarded by `this != &other`, so it is this member too; a self-swap changes nothing |
| Strings.CLength | String/String/String.cpp:264-270 | the length of a terminated buffer is the index of its first NUL |
| Strings.CLengthUnique | String/String/String.cpp:264-270 | any index holding a NUL with no NUL before it is that length |
| Strings.StringLength | String/String/String.cpp:264-270 | stringLength's loop stops at the first NUL |
| Strings.StringCopy | String/String/String.cpp:272-283 | stringCopy copies the characters up to and including the terminator and nothing else |
| Strings.StringCopyBounded | String/String/String.cpp:285-296 | the bounded stringCopy copies at most `size` characters, stops at the source's NUL, then writes a NUL |
| Strings.CompareStrings | String/String/String.cpp:298-308 | compareStrings holds exactly when both texts up to their terminators are equal |
| Strings.String.BufferText | String/String/String.cpp:255-262 | the buffer of a valid string holds the text followed by a NUL |
| Strings.String.constructor | String/String/String.cpp:5-11 | String() is empty with capacity 2 |
| Strings.String.FromCString | String/String/String.cpp:13-19 | String(s) holds the text of s with capacity calculateCapacity(length) |
| Strings.String.FromChar | String/String/String.cpp:21-28 | String(c) holds the one character with capacity 4 |
| Strings.String.Copy | String/String/String.cpp:30-33 | the copy has the same size, capacity and text |
| Strings.String.Move | String/String/String.cpp:35-39 | the new string takes the buffer and the source becomes the empty string of capacity 2 |
| Strings.String.Assign | String/String/String.cpp:46-55 | copy assignment leaves the source's size, capacity and text |
| Strings.String.AssignCString | String/String/String.cpp:65-80 | assigning a C string holds its text; an empty one gets capacity 2, others calculateCapacity(length) |
| Strings.String.AssignChar | String/String/String.cpp:82-93 | assigning a character holds that character with capacity 4 |
| Strings.String.EqualsCString | String/String/String.cpp:110-113 | == with a C string holds exactly when the texts are equal |
| Strings.String.EqualsChar | String/String/String.cpp:115-121 | == with a character holds exactly when the string is non-empty and starts with it |
| Strings.String.Equals | String/String/String.cpp:123-126 | == with a String holds exactly when the texts are equal |
| Strings.String.At | String/String/String.cpp:153-167 | at(i) returns character i, and throws out_of_range unless 0 ≤ i < size |
| Strings.String.Write | String/String/String.cpp:153-159 | writing a character through the reference at(i) returns replaces character i and nothing else; out_of_range unless 0 ≤ i < size, with nothing changed |
| Strings.String.Front | String/String/String.cpp:177-183 | front() returns the first character, and throws invalid_argument on an empty string |
| Strings.String.Back | String/String/String.cpp:169-175 | back() returns the last character, and throws invalid_argument on an empty string |
| Strings.String.Empty | String/String/String.cpp:221-224 | empty() holds exactly when the size is 0 |
| Strings.String.Append | String/String/String.cpp:226-234 | append(s) adds the text of s at the end |
| Strings.String.AppendChar | String/String/String.cpp:236-241 | append(c) adds c at the end |
| Strings.String.AppendString | String/String/String.cpp:243-248 | append(other) adds the other string's text at the end |
| Strings.String.Clear | String/String/String.cpp:250-253 | clear() leaves the empty string of capacity 2 |
| Strings.String.PushBack | String/String/String.cpp:255-262 | pushBack(c) appends c and re-terminates; when size + 1 reaches the capacity the buffer is first regrown to calculateCapacity(capacity) |
| Strings.String.Resize | String/String/String.cpp:324-342 | resize(n) makes the capacity calculateCapacity(n) and keeps the text that fits before the terminator |
| Strings.CopyPrefix | String/String/String.cpp:329-335 | resize's copying loop copies up to the NUL or the new capacity less one, then terminates |
| Strings.String.Swap | String/String/String.cpp:357-362 | swap exchanges buffer, size and capacity. The move assignment (String/String/String.cpp:57-63) is `swap(other)` guarded by `this != &other`, so it is this member too |
| Strings.Concat | String/String/String.cpp:406-410 | lhs + rhs is a fresh string holding lhs's text followed by rhs's, and lhs is unchanged |
| Strings.ConcatCString | String/String/String.cpp:412-422 | String + C string is a fresh string holding both texts in order |
| Strings.CStringConcat | String/String/String.cpp:424-434 | C string + String is a fresh string holding both texts in order |
| FixedStacks.FixedStack.constructor | Stack/Stack/FixedStack.h:52-55 | a new stack is empty |
| FixedStacks.FixedStack.Copy | Stack/Stack/FixedStack.h:57-65 | the copy constructor copies the used elements and the size |
| FixedStacks.FixedStack.Top | Stack/Stack/FixedStack.h:98-104 | top() returns the most recently pushed element still on the stack, and throws out_of_range when empty |
| FixedStacks.FixedStack.Empty | Stack/Stack/FixedStack.h:107-110 | empty() holds exactly when the size is 0 |
| FixedStacks.FixedStack.Size | Stack/Stack/FixedStack.h:113-116 | size() is the number of elements, never more than the capacity |
| FixedStacks.FixedStack.Pop | Stack/Stack/FixedStack.h:119-125 | pop() throws out_of_range when empty, and otherwise drops the top element and writes no slot |
| FixedStacks.FixedStack.Push | Stack/Stack/FixedStack.h:128-134 | push(x) throws overflow_error when full, and otherwise puts x on top; slots above the top keep their contents |
| FixedStacks.FixedStack.Swap | Stack/Stack/FixedStack.h:137-150 | swap exchanges only the slots below both sizes; the sizes and the other slots stay |
| FixedStacks.Compare | Stack/Stack/FixedStack.h:154-167 | compare is false when the sizes differ, and otherwise holds exactly when the predicate holds at every used index |
| FixedStacks.AllPairsSameIsEquality | Stack/Stack/FixedStack.h:169-173 | comparing with element equality holds exactly when the contents are equal |
| FixedStacks.Equal | Stack/Stack/FixedStack.h:169-173 | == holds exactly when both stacks hold the same elements |
| FixedStacks.NotEqual | Stack/Stack/FixedStack.h:175-179 | != is the negation of == |
| FixedStacks.IsGreater | Stack/Stack/FixedStack.h:181-185 | > holds exactly when the sizes agree and every element is greater |
| FixedStacks.IsGreaterOrEqual | Stack/Stack/FixedStack.h:187-191 | >= holds exactly when the sizes agree and every element is at least its partner |
| FixedStacks.IsLess | Stack/Stack/FixedStack.h:193-197 | < is the negation of >= |
| FixedStacks.IsLessOrEqual | Stack/Stack/FixedStack.h:199-203 | <= is the negation of > |
| FixedStacks.LessIsNotAsymmetric | Stack/Stack/FixedStack.h:193-197 | when the sizes differ, or when each stack is smaller somewhere, both a < b and b < a hold |

## Left out

- Stream input and output (`operator<<`, `operator>>`, `getLine` of String, `LinkedList::print`) are console plumbing and are not modelled.
- Destructors, `freeMemory`, `deleteTree` and the recursive node destructor: deallocation has no counterpart in Dafny. Clearing a container resets its state, and the dictionary's arena does not shrink when nodes are erased.
- Dictionary.inl and DoublyLinkedList.inl are not part of this model. The two classes are modelled from their declarations and from the behaviour their test files check. The algorithms are therefore chosen here:
  - `add` descends and then overwrites the found node or hangs a new leaf;
  - `deleteKey` recurses and promotes the successor for a node with two children;
  - the list's `sort` is an exchange sort on values;
  - the dictionary's move assignment takes the other's pairs and empties it. Its test at Dictionary/Dictionary/tests/DictionaryTests.cpp:126-144 declares the target (`Dictionary dicMove = std::move(dic)`), so it exercises the move constructor, not the assignment;
  - the doubly linked list's move assignment exchanges the two lists, as LinkedList's does with `std::swap` (LinkedList/LinkedList/LinkedList.cpp:66-72). Its only test (DoublyLinkedList/DoublyLinkedList/tests/DoublyLinkedListTest.cpp:138-146) moves into an empty list, where exchanging and emptying the source give the same result. The two classes therefore differ on a non-empty target;
  - the dictionary's `erase(first, last)` walks from first to last collecting the keys (KeysBetween), then erases them one at a time, last first (EraseKeys);
  - `merge` splices the other list at the end. The tests at DoublyLinkedList/DoublyLinkedList/tests/DoublyLinkedListTest.cpp:415-480 only merge lists whose values already follow one another, so an ordered merge would meet them as well; that reading is not modelled.
- Dictionaries.Dictionary.Add: the header (Dictionary/Dictionary/src/Dictionary.h:53) only declares `add` and does not say what happens to a key already present, and no test adds a key twice. The model overwrites that key's value.
- Dictionaries: keys are `int`, the type every test uses. `operator->` of the iterator and the post-increment `operator++(int)` are not modelled; they only wrap `operator*` and `operator++`.
- Dictionaries.Dictionary.EraseAt and Dictionaries.Dictionary.EraseRange require iterators that point at positions of this dictionary, with first not after last. The source does not check this, so behaviour on an invalid position is undefined there and not modelled.
- Two checks of Dictionary/Dictionary/tests/DictionaryTests.cpp state nothing and no property is drawn from them. Line 58 iterates the moved-from, empty dictionary. Line 76 compares without `CHECK`, against a list holding a 2 that was never added.
- DoublyLinkedLists: elements are `int`. The iterator classes are modelled by the walks Forward and Backward, not as objects.
- DoublyLinkedLists.DoublyLinkedList.Merge requires that the two lists share no node and are distinct objects; merging a list with itself is not modelled.
- DoublyLinkedLists.DoublyLinkedList.FromSeq stands for the three constructors from an array, a range and an initializer list; the array is given as a sequence.
- LinkedLists: copy assignment drops the old nodes without freeing them (LinkedList/LinkedList/LinkedList.cpp:45). The leak has no observable effect on values and is not modelled.
- LinkedLists.LinkedList.Search returns the node, where the source returns a pointer to its value.
- Vectors.Vector.PopBack: requires a non-empty vector. The source decrements the size with no check, which makes the size -1 on an empty vector, a state the model's `nat` size cannot hold.
- Strings: `pushBack`, `append(char)`, `String(char)`, `operator=(char)` and a write through `at` (Strings.String.Write) require a non-NUL character. A NUL would end the text early in the buffer while the size counts past it.
- Strings.String.AppendString requires that the other string is not this one. Appending a string to itself reads the buffer that `pushBack` may replace.
- Strings: `c_str`, `size`, `length`, `capacity`, `operator+=`, `!=` and `swapStrings` are one-line forwards to members that are modelled. Vectors: `data()`, `size()` and `capacity()` (Vector/Vector/Vector.h:185-201) read the fields `data`, `size` and `capacity` directly. The `operator+` overloads taking an rvalue string are modelled by the same members as their copying overloads.
- FixedStacks: the move constructor and move assignment (Stack/Stack/FixedStack.h:67-72 and 90-95) pass two arrays to `std::move`, and copy assignment (lines 74-88) compares `this` with a reference. None of them compiles once instantiated, so they have no behaviour to model; the copy constructor is modelled.
- Vectors: the unchecked `operator[]` (Vector/Vector/Vector.h:119-129) has no member of its own. For 0 ≤ i < size it reads what Vectors.Vector.At returns and writes what Vectors.Vector.Write does. For size ≤ i < capacity it reaches a slot past the elements, and outside the buffer its behaviour is undefined; neither case is modelled.
- Strings: the unchecked `operator[]` (String/String/String.cpp:143-151) indexes the buffer with no bounds check and has no member of its own. For 0 ≤ i < size it matches Strings.String.At and Strings.String.Write. At i = size it reaches the terminator, and writing there or past it can break the terminated text; outside the buffer its behaviour is undefined. None of these cases is modelled.
- Vectors.Vector.Front and Vectors.Vector.Back return the element. The source returns a reference (Vector/Vector/Vector.h:150-165), so a caller may also overwrite the first or last element through it. That write is Vectors.Vector.Write at 0 or size - 1 and is not modelled as a member of its own.
- Strings.String.Front and Strings.String.Back return the character. The source returns a reference (String/String/String.cpp:169-183), so a caller may also overwrite the first or last character. That write is Strings.String.Write at 0 or size - 1 and is not modelled as a member of its own.
- DoublyLinkedLists.DoublyLinkedList.Front and DoublyLinkedLists.DoublyLinkedList.Back return the value. The source returns a reference (DoublyLinkedList/DoublyLinkedList/src/DoublyLinkedList.h:31-35), and so does `Iterator::operator*` (line 102). Writing an element through them is not modelled.
- Vectors.Vector.Insert requires that the source array is not the vector's own buffer (as in `v.insert(v.data(), v.size())`). In that case a `pushBack` that grows the vector frees the buffer the loop is still reading, and the later reads are of freed memory. Only the calls that do not grow the vector are defined, and that case is not modelled.
- Strings.String.AssignCString and Strings.String.Append take the C string as a value, so they do not model a C string that lies in the string's own buffer (`s = s.c_str()`, `s.append(s.c_str())`, `s += s.c_str()`). In the source, `operator=(const char*)` frees the buffer before it measures its argument (String/String/String.cpp:67-69). `append(const char*)` reads the characters it has just appended and never meets the old terminator, until a `pushBack` regrows and frees the buffer it reads (lines 228-230, 257-258 and 337). Both calls are undefined there, while the model gives them a defined result.
- FixedStacks.IsGreater, FixedStacks.IsGreaterOrEqual, FixedStacks.IsLess and FixedStacks.IsLessOrEqual are modelled for `int` elements with their built-in order. The source operators are templates over any element type with `>` and `>=` (Stack/Stack/FixedStack.h:181-203); FixedStacks.Compare keeps the general form with the comparison as a parameter.
- Vectors and Strings use unbounded integers: the `int` overflow of `calculateCapacity` for sizes near 2^31 is not modelled.

## Findings

| source | as written | input that shows it | evidently intended | confidence | as-written member | corrected member |
|---|---|---|---|---|---|---|
| Vector/Vector/Vector.h:255-257 | the shifting loop of `erase(first, last)` runs while `i <= m_Size`, so it reads `m_Data[m_Size]`, one slot past the buffer when the vector is full | four `pushBack`s on an empty vector (size 4 = capacity 4), then `erase(0, 1)` | the loop stops at `i < m_Size` | high, not executed | Vectors.Vector.EraseRangeAsWritten, Vectors.EraseRangeOverrunWitness | Vectors.Vector.EraseRange |
| LinkedList/LinkedList/LinkedList.cpp:188-196 | when the first node holding the value is the last node and not the head, the node is deleted but its predecessor is relinked only if a successor exists, so the list still reaches the freed node | the list [1, 2], then `remove(2)` | the predecessor's `next` becomes the successor, null included, leaving [1] | high, not executed | LinkedLists.LinkedList.RemoveAsWritten, LinkedLists.RemoveTailWitness | LinkedLists.LinkedList.Remove |
