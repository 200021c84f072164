/** A singly linked list of ints (LinkedList): `head` points at the first
    of a chain of nodes whose last `next` is null. The ghost `spine` lists
    the nodes in chain order. */
module LinkedLists {
  import opened Errors

  class Node {
    var value: int
    var next: Node?

    /** Node(x, ptr). */
    constructor (x: int, ptr: Node?)
      ensures value == x && next == ptr
    {
      value, next := x, ptr;
    }
  }

  /** `head` starts the chain of the nodes `sp`, each linked to the next
      and the last one to null. */
  ghost predicate Linked(head: Node?, sp: seq<Node>)
    reads sp
  {
    (if sp == [] then head == null else head == sp[0]) &&
    (forall i :: 0 <= i < |sp| - 1 ==> sp[i].next == sp[i + 1]) &&
    (sp != [] ==> sp[|sp| - 1].next == null)
  }

  /** No node occurs twice. */
  predicate Distinct(sp: seq<Node>)
  {
    forall i, j :: 0 <= i < j < |sp| ==> sp[i] != sp[j]
  }

  /** A well-formed chain: linked and without repeated nodes. */
  ghost predicate Chain(head: Node?, sp: seq<Node>)
    reads sp
  {
    Linked(head, sp) && Distinct(sp)
  }

  /** The nodes `sp` hold the values `vs`, in order. */
  ghost predicate Holds(sp: seq<Node>, vs: seq<int>)
    reads sp
  {
    |sp| == |vs| && forall i :: 0 <= i < |sp| ==> sp[i].value == vs[i]
  }

  /** The first occurrence of v removed, the rest kept in order. */
  function RemoveFirst(s: seq<int>, v: int): seq<int>
  {
    if s == [] then []
    else if s[0] == v then s[1..]
    else [s[0]] + RemoveFirst(s[1..], v)
  }

  /** RemoveFirst cuts out exactly the first occurrence, and leaves a
      sequence without v untouched. */
  lemma {:induction false} RemoveFirstAt(s: seq<int>, v: int, k: nat)
    requires k < |s| && s[k] == v && v !in s[..k]
    ensures RemoveFirst(s, v) == s[..k] + s[k + 1..]
    ensures |RemoveFirst(s, v)| == |s| - 1
    ensures multiset(RemoveFirst(s, v)) == multiset(s) - multiset{v}
  {
    RemoveFirstCut(s, v, k);
    assert s == s[..k] + [v] + s[k + 1..];
  }

  /** The induction behind RemoveFirstAt: the cut is at the first v. */
  lemma {:induction false} RemoveFirstCut(s: seq<int>, v: int, k: nat)
    requires k < |s| && s[k] == v && v !in s[..k]
    ensures RemoveFirst(s, v) == s[..k] + s[k + 1..]
  {
    if k == 0 {
      assert s[..k] == [];
    } else {
      assert s[0] in s[..k];
      assert s[1..][..k - 1] == s[..k][1..];
      RemoveFirstCut(s[1..], v, k - 1);
      assert s[..k] == [s[0]] + s[1..][..k - 1];
    }
  }

  lemma {:induction false} RemoveFirstAbsent(s: seq<int>, v: int)
    requires v !in s
    ensures RemoveFirst(s, v) == s
    ensures multiset(s) - multiset{v} == multiset(s)
  {
    if s != [] {
      assert s[0] != v;
      RemoveFirstAbsent(s[1..], v);
      assert s == [s[0]] + s[1..];
    }
  }

  /** Where a node of the chain points. */
  lemma ChainNext(head: Node?, sp: seq<Node>, k: nat)
    requires Chain(head, sp) && k < |sp|
    ensures sp[k].next == if k + 1 < |sp| then sp[k + 1] else null
  {
  }

  /** Non-decreasing order. */
  predicate Sorted(s: seq<int>)
  {
    forall i, j :: 0 <= i < j < |s| ==> s[i] <= s[j]
  }

  /** The first i values are in their final places: each is at most every
      value after it. */
  predicate SortedBelow(s: seq<int>, i: int)
  {
    forall a, b :: 0 <= a < i && a < b < |s| ==> s[a] <= s[b]
  }

  /** Exchanging two values at or after i keeps the first i in place. */
  lemma SwapKeepsSortedBelow(s: seq<int>, i: nat, j: nat)
    requires SortedBelow(s, i) && i < j < |s|
    ensures SortedBelow(s[i := s[j]][j := s[i]], i)
  {
  }

  /** The first index holding v, when there is one. */
  predicate FirstAt(s: seq<int>, v: int, k: int)
  {
    0 <= k < |s| && s[k] == v && v !in s[..k]
  }

  /** One step of a copy: a fresh node holding x is linked after `last`,
      the last node of the chain `sp`; no value changes. */
  method Grow(h: Node?, ghost sp: seq<Node>, last: Node, x: int) returns (n: Node)
    requires Chain(h, sp) && sp != [] && last == sp[|sp| - 1]
    modifies last
    ensures fresh(n) && n.value == x && Chain(h, sp + [n])
    ensures forall i :: 0 <= i < |sp| ==> sp[i].value == old(sp[i].value)
  {
    n := new Node(x, null);
    last.next := n;
  }

  /** Builds fresh nodes holding `other`'s values in order: the loop the
      copy constructor and the copy assignment share. */
  method CopyNodes(other: LinkedList) returns (h: Node?, ghost sp: seq<Node>)
    requires other.Valid()
    ensures Chain(h, sp) && Holds(sp, other.contents)
    ensures forall i :: 0 <= i < |sp| ==> fresh(sp[i])
  {
    h, sp := null, [];
    if other.head != null {
      h := new Node(other.head.value, null);
      sp := [h];
      var currNode := h;
      var otherNode := other.head;
      ghost var k := 0;
      while otherNode.next != null
        invariant other.Valid() && 0 <= k < |other.spine| && otherNode == other.spine[k]
        invariant |sp| == k + 1 && currNode == sp[k] && Chain(h, sp)
        invariant forall i :: 0 <= i < |sp| ==> fresh(sp[i])
        invariant Holds(sp, other.contents[..k + 1])
        decreases |other.spine| - k
      {
        ChainNext(other.head, other.spine, k);
        var n := Grow(h, sp, currNode, otherNode.next.value);
        sp := sp + [n];
        currNode := n;
        otherNode := otherNode.next;
        k := k + 1;
      }
      ChainNext(other.head, other.spine, k);
      assert other.contents[..k + 1] == other.contents;
    }
  }

  /** The walk of insertBack: from the head to the node whose link is null. */
  method LastNode(head: Node?, ghost sp: seq<Node>) returns (n: Node)
    requires Chain(head, sp) && sp != []
    ensures n == sp[|sp| - 1] && n.next == null
  {
    n := head;
    ghost var i := 0;
    while n.next != null
      invariant 0 <= i < |sp| && n == sp[i]
      decreases |sp| - i
    {
      ChainNext(head, sp, i);
      n := n.next;
      i := i + 1;
    }
    ChainNext(head, sp, i);
  }

  /** The exchange step of sort: nodes i and j trade values (the source
      does it with three XORs, which exchange the values of two distinct
      nodes); no link changes. */
  method SwapValues(head: Node?, ghost sp: seq<Node>, ghost vs: seq<int>,
                    a: Node, b: Node, ghost i: nat, ghost j: nat)
    returns (ghost vs': seq<int>)
    requires Chain(head, sp) && Holds(sp, vs) && i < j < |sp| && a == sp[i] && b == sp[j]
    modifies a`value, b`value
    ensures Chain(head, sp) && Holds(sp, vs') && vs' == vs[i := vs[j]][j := vs[i]]
    ensures multiset(vs') == multiset(vs)
  {
    a.value, b.value := b.value, a.value;
    vs' := vs[i := vs[j]][j := vs[i]];
  }

  /** The body of sort's inner loop: node i trades values with node j when
      node j holds the smaller value, so node i holds the least value of
      positions i to j. */
  method CompareStep(head: Node?, ghost sp: seq<Node>, ghost vs: seq<int>,
                     currNode: Node, insideNode: Node, ghost i: nat, ghost j: nat)
    returns (ghost vs': seq<int>)
    requires Chain(head, sp) && Holds(sp, vs) && i < j < |sp| && currNode == sp[i] && insideNode == sp[j]
    requires SortedBelow(vs, i) && forall b :: i < b < j ==> vs[i] <= vs[b]
    modifies currNode`value, insideNode`value
    ensures Chain(head, sp) && Holds(sp, vs') && multiset(vs') == multiset(vs)
    ensures SortedBelow(vs', i) && forall b :: i < b <= j ==> vs'[i] <= vs'[b]
  {
    vs' := vs;
    if currNode.value > insideNode.value {
      SwapKeepsSortedBelow(vs, i, j);
      vs' := SwapValues(head, sp, vs, currNode, insideNode, i, j);
    }
  }

  /** One pass of sort's inner loop: afterwards node i holds the least value
      from i onwards; with the first i values already in their final
      places, so are the first i + 1. */
  method PullMinimum(head: Node?, ghost sp: seq<Node>, ghost vs: seq<int>, currNode: Node, ghost i: nat)
    returns (ghost vs': seq<int>)
    requires Chain(head, sp) && Holds(sp, vs) && i < |sp| && currNode == sp[i] && SortedBelow(vs, i)
    modifies sp
    ensures Chain(head, sp) && Holds(sp, vs') && multiset(vs') == multiset(vs)
    ensures SortedBelow(vs', i + 1)
  {
    vs' := vs;
    ChainNext(head, sp, i);
    var insideNode: Node? := currNode.next;
    ghost var j := i + 1;
    while insideNode != null
      invariant Chain(head, sp) && Holds(sp, vs') && multiset(vs') == multiset(vs)
      invariant i < j <= |sp| && insideNode == if j < |sp| then sp[j] else null
      invariant SortedBelow(vs', i)
      invariant forall b :: i < b < j ==> vs'[i] <= vs'[b]
      decreases |sp| - j
    {
      ChainNext(head, sp, j);
      var nxt := insideNode.next;
      vs' := CompareStep(head, sp, vs', currNode, insideNode, i, j);
      insideNode := nxt;
      j := j + 1;
    }
  }

  /** The outer loop of sort: one pass per node while a successor exists. */
  method SortChain(head: Node?, ghost sp: seq<Node>, ghost vs: seq<int>) returns (ghost vs': seq<int>)
    requires Chain(head, sp) && Holds(sp, vs) && |sp| > 1
    modifies sp
    ensures Chain(head, sp) && Holds(sp, vs') && Sorted(vs') && multiset(vs') == multiset(vs)
  {
    vs' := vs;
    var currNode: Node? := head;
    ghost var i := 0;
    while currNode != null && currNode.next != null
      invariant Chain(head, sp) && Holds(sp, vs') && multiset(vs') == multiset(vs)
      invariant 0 <= i < |sp| && currNode == sp[i]
      invariant SortedBelow(vs', i)
      decreases |sp| - i
    {
      vs' := PullMinimum(head, sp, vs', currNode, i);
      ChainNext(head, sp, i);
      currNode := currNode.next;
      i := i + 1;
    }
    ChainNext(head, sp, i);
    assert i == |vs'| - 1;
  }

  class LinkedList {
    var head: Node?            // m_Head
    ghost var spine: seq<Node>
    /** The values from the head onwards. */
    ghost var contents: seq<int>

    ghost predicate Valid()
      reads this, spine
    {
      Chain(head, spine) && Holds(spine, contents)
    }

    /** LinkedList(): an empty list. */
    constructor ()
      ensures Valid() && contents == []
    {
      head := null;
      spine, contents := [], [];
    }

    /** The copy constructor: fresh nodes with the same values in the same order. */
    constructor Copy(other: LinkedList)
      requires other.Valid()
      ensures Valid() && contents == other.contents
      ensures forall i :: 0 <= i < |spine| ==> fresh(spine[i])
    {
      var h;
      ghost var sp;
      h, sp := CopyNodes(other);
      head := h;
      spine, contents := sp, other.contents;
    }

    /** The move constructor: takes over `other`'s chain and leaves it empty. */
    constructor Move(other: LinkedList)
      requires other.Valid()
      modifies other
      ensures Valid() && other.Valid()
      ensures spine == old(other.spine) && contents == old(other.contents)
      ensures other.contents == []
    {
      head, spine, contents := other.head, other.spine, other.contents;
      other.head, other.spine, other.contents := null, [], [];
    }

    /** operator=(const LinkedList&): unless `other` is this list, becomes a
        fresh copy of it. */
    method Assign(other: LinkedList)
      requires Valid() && other.Valid()
      modifies this
      ensures Valid() && contents == old(other.contents)
    {
      if this != other {
        head := null;
        var h;
        ghost var sp;
        h, sp := CopyNodes(other);
        head, spine, contents := h, sp, other.contents;
      }
    }

    /** operator=(LinkedList&&): unless `other` is this list, exchanges the chains. */
    method MoveAssign(other: LinkedList)
      requires Valid() && other.Valid()
      modifies this, other
      ensures Valid() && other.Valid()
      ensures this != other ==> contents == old(other.contents) && other.contents == old(contents)
      ensures this == other ==> contents == old(contents)
    {
      if this != other {
        head, spine, contents, other.head, other.spine, other.contents :=
          other.head, other.spine, other.contents, head, spine, contents;
      }
    }

    /** read(i) and reading through operator[](i): the i-th value, or
        out_of_range when i < 0, the list is empty or i is past the end. */
    method Read(index: int) returns (r: Result<int>)
      requires Valid()
      ensures 0 <= index < |contents| ==> r == Ok(contents[index])
      ensures !(0 <= index < |contents|) ==> r == Throws(OutOfRange)
    {
      if index < 0 || head == null {
        return Throws(OutOfRange);
      }
      var currNode: Node? := head;
      var i := 0;
      while currNode != null
        invariant 0 <= i <= |spine| && i <= index
        invariant currNode == if i < |spine| then spine[i] else null
        decreases |spine| - i
      {
        if i == index {
          return Ok(currNode.value);
        }
        ChainNext(head, spine, i);
        currNode := currNode.next;
        i := i + 1;
      }
      return Throws(OutOfRange);
    }

    /** Writing through the reference operator[](i) returns: the i-th value
        becomes x, or out_of_range as for reading. */
    method Write(index: int, x: int) returns (o: Outcome)
      requires Valid()
      modifies this, spine
      ensures Valid() && spine == old(spine)
      ensures 0 <= index < |old(contents)| ==> o == Done && contents == old(contents)[index := x]
      ensures !(0 <= index < |old(contents)|) ==> o == Raised(OutOfRange) && contents == old(contents)
    {
      if index < 0 || head == null {
        return Raised(OutOfRange);
      }
      var currNode: Node? := head;
      var i := 0;
      while currNode != null
        invariant 0 <= i <= |spine| && i <= index
        invariant currNode == if i < |spine| then spine[i] else null
        decreases |spine| - i
      {
        if i == index {
          currNode.value := x;
          contents := contents[index := x];
          return Done;
        }
        currNode := currNode.next;
        i := i + 1;
      }
      return Raised(OutOfRange);
    }

    /** search(v): the first node holding v (whose value field the source
        returns a pointer to), or null when no node holds v. */
    method Search(v: int) returns (r: Node?)
      requires Valid()
      ensures r == null <==> v !in contents
      ensures r != null ==> exists k :: FirstAt(contents, v, k) && r == spine[k]
    {
      var currNode: Node? := head;
      ghost var i := 0;
      while currNode != null
        invariant 0 <= i <= |spine|
        invariant currNode == if i < |spine| then spine[i] else null
        invariant v !in contents[..i]
        decreases |spine| - i
      {
        if currNode.value == v {
          assert FirstAt(contents, v, i);
          return currNode;
        }
        assert contents[..i + 1] == contents[..i] + [contents[i]];
        ChainNext(head, spine, i);
        currNode := currNode.next;
        i := i + 1;
      }
      assert contents[..i] == contents;
      return null;
    }

    /** insertFront(v): a new head node holding v. */
    method InsertFront(v: int)
      requires Valid()
      modifies this
      ensures Valid() && contents == [v] + old(contents)
      ensures fresh(spine[0]) && spine[1..] == old(spine)
    {
      var oldHead := head;
      head := new Node(v, oldHead);
      spine, contents := [head] + spine, [v] + contents;
    }

    /** insertBack(v): walks to the last node and links a new node holding v
        after it (or makes it the head of an empty list). */
    method InsertBack(v: int)
      requires Valid()
      modifies this, spine
      ensures Valid() && contents == old(contents) + [v]
      ensures spine[..|spine| - 1] == old(spine) && fresh(spine[|spine| - 1])
    {
      if head == null {
        head := new Node(v, null);
        spine, contents := [head], [v];
        return;
      }
      var currNode := LastNode(head, spine);
      var n := new Node(v, null);
      currNode.next := n;
      spine, contents := spine + [n], contents + [v];
    }

    /** The head case of remove: the head moves to the second node and the
        old head's link is cleared. */
    method UnlinkHead()
      requires Valid() && head != null
      modifies this, spine
      ensures Valid()
      ensures spine == old(spine[1..]) && contents == old(contents[1..])
    {
      var currNode := head;
      ChainNext(head, spine, 0);
      head := head.next;
      currNode.next := null;
      spine, contents := spine[1..], contents[1..];
    }

    /** The relink of remove: the node after `prev` (node i) is cut out of
        the chain and its own link cleared. */
    method UnlinkAfter(prev: Node, ghost i: nat)
      requires Valid() && i + 1 < |spine| && prev == spine[i]
      modifies this, spine
      ensures Valid()
      ensures spine == old(spine[..i + 1] + spine[i + 2..])
      ensures contents == old(contents[..i + 1] + contents[i + 2..])
    {
      ChainNext(head, spine, i);
      ChainNext(head, spine, i + 1);
      var tempNode := prev.next.next;
      prev.next.next := null;
      prev.next := tempNode;
      spine, contents := spine[..i + 1] + spine[i + 2..], contents[..i + 1] + contents[i + 2..];
    }

    /** remove(v) with the relink done in every case: unlinks the first node
        holding v; nothing changes when the list is empty or v is absent. */
    method Remove(v: int)
      requires Valid()
      modifies this, spine
      ensures Valid() && contents == RemoveFirst(old(contents), v)
      ensures v in old(contents) ==> |contents| == |old(contents)| - 1
      ensures multiset(contents) == multiset(old(contents)) - multiset{v}
    {
      if head == null {
        return;
      }
      var currNode := head;
      if currNode.value == v {
        RemoveFirstAt(contents, v, 0);
        UnlinkHead();
        return;
      }
      ghost var i := 0;
      while currNode.next != null
        invariant Valid() && spine == old(spine) && contents == old(contents) && head == old(head)
        invariant 0 <= i < |spine| && currNode == spine[i]
        invariant v !in contents[..i + 1]
        decreases |spine| - i
      {
        ChainNext(head, spine, i);
        if currNode.next.value == v {
          RemoveFirstAt(contents, v, i + 1);
          UnlinkAfter(currNode, i);
          return;
        }
        assert contents[..i + 2] == contents[..i + 1] + [contents[i + 1]];
        currNode := currNode.next;
        i := i + 1;
      }
      ChainNext(head, spine, i);
      assert contents[..i + 1] == contents;
      RemoveFirstAbsent(contents, v);
    }

    /** remove(v) as written: when the first node holding v is the last node
        and not the head, the node is deleted but its predecessor is relinked
        only when a successor exists, so the list still reaches the deleted
        node; every other case removes the first occurrence. */
    method RemoveAsWritten(v: int)
      requires Valid()
      modifies this, spine
      ensures Valid()
      ensures FirstAt(old(contents), v, |old(contents)| - 1) && |old(contents)| > 1 ==>
        spine == old(spine) && contents == old(contents)
      ensures !(FirstAt(old(contents), v, |old(contents)| - 1) && |old(contents)| > 1) ==>
        contents == RemoveFirst(old(contents), v)
    {
      if head == null {
        return;
      }
      var currNode := head;
      if currNode.value == v {
        RemoveFirstAt(contents, v, 0);
        UnlinkHead();
        return;
      }
      ghost var i := 0;
      while currNode.next != null
        invariant Valid() && spine == old(spine) && contents == old(contents) && head == old(head)
        invariant 0 <= i < |spine| && currNode == spine[i]
        invariant v !in contents[..i + 1]
        decreases |spine| - i
      {
        ChainNext(head, spine, i);
        if currNode.next.value == v {
          ChainNext(head, spine, i + 1);
          if currNode.next.next != null {
            RemoveFirstAt(contents, v, i + 1);
            UnlinkAfter(currNode, i);
          } else {
            // the last node is deleted; its predecessor keeps pointing at it
            assert FirstAt(contents, v, |contents| - 1);
          }
          return;
        }
        assert contents[..i + 2] == contents[..i + 1] + [contents[i + 1]];
        currNode := currNode.next;
        i := i + 1;
      }
      ChainNext(head, spine, i);
      assert contents[..i + 1] == contents;
      RemoveFirstAbsent(contents, v);
    }

    /** sort(): an exchange sort on the node values, relinking no node. */
    method Sort()
      requires Valid()
      modifies this, spine
      ensures Valid() && spine == old(spine)
      ensures Sorted(contents) && multiset(contents) == multiset(old(contents))
    {
      if head == null || head.next == null {
        if head != null {
          ChainNext(head, spine, 0);
        }
        assert |contents| <= 1;
        return;
      }
      ChainNext(head, spine, 0);
      contents := SortChain(head, spine, contents);
    }
  }

  /** The tail case of remove as written: in [1, 2], removing 2 leaves both
      values reachable, where the corrected remove yields [1]. */
  method RemoveTailWitness() returns (l: LinkedList)
    ensures l.Valid() && l.contents == [1, 2]
    ensures RemoveFirst(l.contents, 2) == [1]
  {
    l := new LinkedList();
    l.InsertFront(2);
    l.InsertFront(1);
    assert FirstAt(l.contents, 2, 1);
    l.RemoveAsWritten(2);
  }
}
