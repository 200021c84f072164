/** A doubly linked list (DoublyLinkedList): `head` and `tail` point at the
    ends of a chain of nodes linked both ways. The ghost `spine` lists the
    nodes from head to tail and `contents` their values. Elements are ints. */
module DoublyLinkedLists {
  import opened Errors

  class Node {
    var data: int
    var prev: Node?
    var next: Node?

    /** Node(data, prev, next). */
    constructor (x: int, p: Node?, n: Node?)
      ensures data == x && prev == p && next == n
    {
      data, prev, next := x, p, n;
    }
  }

  /** `head` and `tail` are the ends of the chain `sp`: each node's `next`
      is its successor and its `prev` its predecessor, null at the ends. */
  ghost predicate Linked(head: Node?, tail: Node?, sp: seq<Node>)
    reads sp
  {
    (if sp == [] then head == null && tail == null
     else head == sp[0] && tail == sp[|sp| - 1] && sp[0].prev == null && sp[|sp| - 1].next == null) &&
    (forall i {:trigger sp[i].next} :: 0 <= i < |sp| - 1 ==> sp[i].next == sp[i + 1]) &&
    (forall i {:trigger sp[i].prev} :: 0 < i < |sp| ==> sp[i].prev == sp[i - 1])
  }

  /** No node occurs twice. */
  predicate Distinct(sp: seq<Node>)
  {
    forall i, j :: 0 <= i < j < |sp| ==> sp[i] != sp[j]
  }

  /** The nodes `sp` hold the values `vs`, in order. */
  ghost predicate Holds(sp: seq<Node>, vs: seq<int>)
    reads sp
  {
    |sp| == |vs| && forall i {:trigger sp[i].data} :: 0 <= i < |sp| ==> sp[i].data == vs[i]
  }

  /** A well-formed list: a chain from head to tail of distinct nodes
      holding `vs`. */
  ghost predicate Chain(head: Node?, tail: Node?, sp: seq<Node>, vs: seq<int>)
    reads sp
  {
    Linked(head, tail, sp) && Distinct(sp) && Holds(sp, vs)
  }

  /** Both links of a node of the chain. */
  lemma Links(head: Node?, tail: Node?, sp: seq<Node>, k: nat)
    requires Linked(head, tail, sp) && k < |sp|
    ensures sp[k].next == if k + 1 < |sp| then sp[k + 1] else null
    ensures sp[k].prev == if k > 0 then sp[k - 1] else null
  {
  }

  /** A node of a sub-multiset of S is a node of S. */
  lemma Member(sp: seq<Node>, S: seq<Node>, i: nat)
    requires multiset(sp) <= multiset(S) && i < |sp|
    ensures sp[i] in S
  {
    assert sp[i] in multiset(sp);
  }

  /** Taking a node out of a chain leaves a sub-multiset of its nodes. */
  lemma FewerNodes(sp: seq<Node>, k: nat)
    requires k < |sp|
    ensures multiset(sp[..k] + sp[k + 1..]) <= multiset(sp)
  {
    assert sp == sp[..k] + [sp[k]] + sp[k + 1..];
  }

  /** Taking out the first or the last element of a sequence. */
  lemma SliceEnds<A>(s: seq<A>, k: nat)
    requires k < |s|
    ensures k == 0 ==> s[..k] + s[k + 1..] == s[1..]
    ensures k == |s| - 1 ==> s[..k] + s[k + 1..] == s[..|s| - 1]
  {
    if k == 0 {
      assert s[..k] == [];
    }
    if k == |s| - 1 {
      assert s[k + 1..] == [];
    }
  }

  /** The sequence read backwards. */
  function Rev<A>(s: seq<A>): seq<A>
  {
    seq(|s|, i requires 0 <= i < |s| => s[|s| - 1 - i])
  }

  /** Reading backwards twice gives the sequence back. */
  lemma RevRev<A>(s: seq<A>)
    ensures Rev(Rev(s)) == s
  {
    assert forall i :: 0 <= i < |s| ==> Rev(Rev(s))[i] == s[i];
  }

  /** The values of s for which `pred` is false, in their order. */
  function Drop(s: seq<int>, pred: int -> bool): seq<int>
  {
    if s == [] then []
    else Drop(s[..|s| - 1], pred) + (if pred(s[|s| - 1]) then [] else [s[|s| - 1]])
  }

  /** Drop removes exactly the values satisfying `pred`: each other value
      keeps its number of occurrences, each such value has none left. */
  lemma {:induction false} DropCounts(s: seq<int>, pred: int -> bool, y: int)
    ensures multiset(Drop(s, pred))[y] == if pred(y) then 0 else multiset(s)[y]
  {
    if s != [] {
      DropCounts(s[..|s| - 1], pred, y);
      assert s == s[..|s| - 1] + [s[|s| - 1]];
    }
  }

  /** Drop over one more element of a prefix. */
  lemma DropStep(s: seq<int>, k: nat, pred: int -> bool)
    requires k < |s|
    ensures Drop(s[..k + 1], pred) == Drop(s[..k], pred) + (if pred(s[k]) then [] else [s[k]])
  {
    assert s[..k + 1][..k] == s[..k];
  }

  /** The state of removeIf after visiting k values of `c`: the m values
      kept so far, then the values not yet visited. */
  ghost predicate Filtered(cur: seq<int>, c: seq<int>, k: nat, m: nat, pred: int -> bool)
  {
    k <= |c| && cur == Drop(c[..k], pred) + c[k..] && |Drop(c[..k], pred)| == m
  }

  /** Visiting value k: it sits at position m and is either dropped or kept. */
  lemma FilteredStep(cur: seq<int>, c: seq<int>, k: nat, m: nat, pred: int -> bool)
    requires Filtered(cur, c, k, m, pred) && k < |c|
    ensures m < |cur| && cur[m] == c[k]
    ensures pred(c[k]) ==> Filtered(cur[..m] + cur[m + 1..], c, k + 1, m, pred)
    ensures !pred(c[k]) ==> Filtered(cur, c, k + 1, m + 1, pred)
  {
    DropStep(c, k, pred);
    assert c[k..] == [c[k]] + c[k + 1..];
  }

  /** Once every value is visited, the kept ones are all that remain. */
  lemma FilteredDone(cur: seq<int>, c: seq<int>, k: nat, m: nat, pred: int -> bool)
    requires Filtered(cur, c, k, m, pred) && k == |c|
    ensures cur == Drop(c, pred)
  {
    assert c[..k] == c;
  }

  /** With no value satisfying `pred`, Drop changes nothing. */
  lemma {:induction false} DropNone(s: seq<int>, pred: int -> bool)
    requires forall i :: 0 <= i < |s| ==> !pred(s[i])
    ensures Drop(s, pred) == s
  {
    if s != [] {
      DropNone(s[..|s| - 1], pred);
      assert s == s[..|s| - 1] + [s[|s| - 1]];
    }
  }

  /** Non-decreasing order. */
  predicate Sorted(s: seq<int>)
  {
    forall i, j :: 0 <= i < j < |s| ==> s[i] <= s[j]
  }

  /** The first i values are in their final places. */
  predicate SortedBelow(s: seq<int>, i: int)
  {
    forall a, b :: 0 <= a < i && a < b < |s| ==> s[a] <= s[b]
  }

  /** A step of the inner pass of sort: after comparing positions i and j,
      and exchanging their values when position i holds the greater one,
      position i holds the least value of positions i to j, and the first i
      values stay in place. */
  lemma MinimumStep(s: seq<int>, i: nat, j: nat)
    requires SortedBelow(s, i) && i < j < |s|
    requires forall b :: i < b < j ==> s[i] <= s[b]
    ensures var t := if s[i] > s[j] then s[i := s[j]][j := s[i]] else s;
      SortedBelow(t, i) && forall b :: i < b <= j ==> t[i] <= t[b]
  {
  }

  /** The first k nodes of `sp` have their links exchanged: `next` points
      at the predecessor and `prev` at the successor. */
  ghost predicate Flipped(sp: seq<Node>, k: nat)
    reads sp
  {
    (forall i :: 0 < i < k && i < |sp| ==> sp[i].next == sp[i - 1]) &&
    (forall i :: 0 <= i < k && i + 1 < |sp| ==> sp[i].prev == sp[i + 1]) &&
    (0 < k && 0 < |sp| ==> sp[0].next == null) &&
    (k >= |sp| > 0 ==> sp[|sp| - 1].prev == null)
  }

  /** Nodes k and on still have their original links. */
  ghost predicate Unflipped(sp: seq<Node>, k: nat)
    reads sp
  {
    (forall i :: k <= i < |sp| - 1 ==> sp[i].next == sp[i + 1]) &&
    (forall i :: k <= i < |sp| && 0 < i ==> sp[i].prev == sp[i - 1]) &&
    (k < |sp| ==> sp[|sp| - 1].next == null) &&
    (k == 0 < |sp| ==> sp[0].prev == null)
  }

  /** A step of reverse: the node's `prev` and `next` trade places. */
  method Flip(node: Node)
    modifies node`next, node`prev
    ensures node.next == old(node.prev) && node.prev == old(node.next)
  {
    node.next, node.prev := node.prev, node.next;
  }

  /** The loop of reverse: walks the chain from its head, exchanging the
      links of each node; the values stay where they are. */
  method FlipAll(head: Node?, ghost sp: seq<Node>, ghost vs: seq<int>)
    requires sp != [] ==> head == sp[0]
    requires sp == [] ==> head == null
    requires Unflipped(sp, 0) && Distinct(sp) && Holds(sp, vs)
    modifies sp
    ensures Flipped(sp, |sp|) && Holds(sp, vs)
  {
    var curr := head;
    ghost var k := 0;
    while curr != null
      invariant Holds(sp, vs)
      invariant 0 <= k <= |sp| && curr == if k < |sp| then sp[k] else null
      invariant Flipped(sp, k) && Unflipped(sp, k)
      decreases |sp| - k
    {
      var nxt := curr.next;
      assert nxt == if k + 1 < |sp| then sp[k + 1] else null;
      Flip(curr);
      curr := nxt;
      k := k + 1;
    }
  }

  /** Once every node of a chain has its links exchanged, the chain read
      backwards runs from its old tail to its old head, holding the values
      read backwards. */
  lemma ReversedChain(sp: seq<Node>, vs: seq<int>)
    requires Distinct(sp) && Flipped(sp, |sp|) && Holds(sp, vs)
    ensures Chain(if sp == [] then null else sp[|sp| - 1], if sp == [] then null else sp[0], Rev(sp), Rev(vs))
  {
    var r := Rev(sp);
    var n := |sp|;
    assert forall i :: 0 <= i < n ==> r[i] == sp[n - 1 - i];
    if n > 0 {
      assert r[0] == sp[n - 1] && r[n - 1] == sp[0];
    }
    forall i | 0 <= i < n - 1
      ensures r[i].next == r[i + 1]
    {
      assert r[i] == sp[n - 1 - i];
    }
    forall i | 0 < i < n
      ensures r[i].prev == r[i - 1]
    {
      assert r[i] == sp[n - 1 - i];
    }
    forall i | 0 <= i < n
      ensures r[i].data == Rev(vs)[i]
    {
      assert r[i] == sp[n - 1 - i];
    }
  }

  /** reverse on a chain: every node's links are exchanged, then the old
      tail is the head and the old head the tail. */
  method ReverseChain(head: Node?, tail: Node?, ghost sp: seq<Node>, ghost vs: seq<int>)
    returns (h: Node?, t: Node?)
    requires Chain(head, tail, sp, vs)
    modifies sp
    ensures Chain(h, t, Rev(sp), Rev(vs))
  {
    FlipAll(head, sp, vs);
    ReversedChain(sp, vs);
    h, t := tail, head;
  }

  /** Unlinks the first node of a chain: its successor becomes the head. */
  method UnlinkFirst(head: Node?, tail: Node?, ghost sp: seq<Node>, ghost vs: seq<int>)
    returns (h: Node?, t: Node?)
    requires Chain(head, tail, sp, vs) && sp != []
    modifies head.next
    ensures Chain(h, t, sp[1..], vs[1..])
  {
    Links(head, tail, sp, 0);
    if |sp| > 1 {
      Links(head, tail, sp, 1);
    }
    h, t := head.next, tail;
    if h != null {
      h.prev := null;
    } else {
      t := null;
    }
  }

  /** Unlinks the last node of a chain: its predecessor becomes the tail. */
  method UnlinkLast(head: Node?, tail: Node?, ghost sp: seq<Node>, ghost vs: seq<int>)
    returns (h: Node?, t: Node?)
    requires Chain(head, tail, sp, vs) && sp != []
    modifies tail.prev
    ensures Chain(h, t, sp[..|sp| - 1], vs[..|vs| - 1])
  {
    Links(head, tail, sp, |sp| - 1);
    if |sp| > 1 {
      Links(head, tail, sp, |sp| - 2);
    }
    h, t := head, tail.prev;
    if t != null {
      t.next := null;
    } else {
      h := null;
    }
  }

  /** Unlinks a node with neighbours on both sides: they are joined. */
  method UnlinkInner(head: Node?, tail: Node?, ghost sp: seq<Node>, ghost vs: seq<int>, n: Node, ghost k: nat)
    requires Chain(head, tail, sp, vs) && 0 < k < |sp| - 1 && n == sp[k]
    modifies n.prev, n.next
    ensures Chain(head, tail, sp[..k] + sp[k + 1..], vs[..k] + vs[k + 1..])
  {
    Links(head, tail, sp, k);
    Links(head, tail, sp, k - 1);
    Links(head, tail, sp, k + 1);
    n.prev.next, n.next.prev := n.next, n.prev;
  }

  /** Unlinks node k of a chain, at either end or inside. */
  method Unlink(head: Node?, tail: Node?, ghost sp: seq<Node>, ghost vs: seq<int>, n: Node, ghost k: nat)
    returns (h: Node?, t: Node?)
    requires Chain(head, tail, sp, vs) && k < |sp| && n == sp[k]
    modifies n.prev, n.next
    ensures Chain(h, t, sp[..k] + sp[k + 1..], vs[..k] + vs[k + 1..])
  {
    Links(head, tail, sp, k);
    SliceEnds(sp, k);
    SliceEnds(vs, k);
    if n.prev == null {
      h, t := UnlinkFirst(head, tail, sp, vs);
    } else if n.next == null {
      h, t := UnlinkLast(head, tail, sp, vs);
    } else {
      UnlinkInner(head, tail, sp, vs, n, k);
      h, t := head, tail;
    }
  }

  /** The loop of removeIf: walks the chain from its head and unlinks every
      node whose value satisfies `pred`. */
  method FilterChain(head: Node?, tail: Node?, ghost sp: seq<Node>, ghost vs: seq<int>, pred: int -> bool)
    returns (h: Node?, t: Node?, ghost sp': seq<Node>, ghost vs': seq<int>)
    requires Chain(head, tail, sp, vs)
    modifies sp
    ensures Chain(h, t, sp', vs') && vs' == Drop(vs, pred)
  {
    h, t, sp', vs' := head, tail, sp, vs;
    var curr: Node? := head;
    ghost var k := 0;      // values of vs already visited
    ghost var m := 0;      // of which are kept
    while curr != null
      invariant Chain(h, t, sp', vs') && 0 <= k <= |vs| && 0 <= m <= |sp'|
      invariant |sp'| - m == |vs| - k
      invariant Filtered(vs', vs, k, m, pred)
      invariant curr == if m < |sp'| then sp'[m] else null
      invariant multiset(sp') <= multiset(sp)
      decreases |vs| - k
    {
      Links(h, t, sp', m);
      if m > 0 {
        Member(sp', sp, m - 1);
      }
      if m + 1 < |sp'| {
        Member(sp', sp, m + 1);
      }
      var nxt := curr.next;
      h, t, sp', vs', m := Visit(h, t, sp', vs', curr, pred, vs, k, m);
      curr := nxt;
      k := k + 1;
    }
    FilteredDone(vs', vs, k, m, pred);
  }

  /** The body of the removeIf loop for the node at position m, holding the
      k-th of the original values c: unlinked when `pred` holds of it. */
  method Visit(head: Node?, tail: Node?, ghost sp: seq<Node>, ghost vs: seq<int>, curr: Node,
               pred: int -> bool, ghost c: seq<int>, ghost k: nat, ghost m: nat)
    returns (h: Node?, t: Node?, ghost sp': seq<Node>, ghost vs': seq<int>, ghost m': nat)
    requires Chain(head, tail, sp, vs) && Filtered(vs, c, k, m, pred) && k < |c|
    requires m < |sp| && curr == sp[m] && |sp| - m == |c| - k
    modifies curr.prev, curr.next
    ensures Chain(h, t, sp', vs') && Filtered(vs', c, k + 1, m', pred) && |sp'| - m' == |c| - (k + 1)
    ensures m' <= |sp'| && old(curr.next) == if m' < |sp'| then sp'[m'] else null
    ensures multiset(sp') <= multiset(sp)
  {
    Links(head, tail, sp, m);
    FilteredStep(vs, c, k, m, pred);
    if pred(curr.data) {
      if m + 1 < |sp| {
        Links(head, tail, sp, m + 1);
      }
      h, t := Unlink(head, tail, sp, vs, curr, m);
      sp', vs' := sp[..m] + sp[m + 1..], vs[..m] + vs[m + 1..];
      FewerNodes(sp, m);
      m' := m;
    } else {
      h, t, sp', vs', m' := head, tail, sp, vs, m + 1;
    }
  }

  /** The exchange step of sort: nodes i and j trade values; no link
      changes. */
  method SwapValues(head: Node?, tail: Node?, ghost sp: seq<Node>, ghost vs: seq<int>,
                    a: Node, b: Node, ghost i: nat, ghost j: nat)
    returns (ghost vs': seq<int>)
    requires Chain(head, tail, sp, vs) && i < j < |sp| && a == sp[i] && b == sp[j]
    modifies a`data, b`data
    ensures Chain(head, tail, sp, vs') && vs' == vs[i := vs[j]][j := vs[i]]
    ensures multiset(vs') == multiset(vs)
  {
    a.data, b.data := b.data, a.data;
    vs' := vs[i := vs[j]][j := vs[i]];
  }

  /** One pass of sort: walks from node i to the tail and leaves node i
      holding the least value from i on. */
  method PullMinimum(head: Node?, tail: Node?, ghost sp: seq<Node>, ghost vs: seq<int>,
                     curr: Node, ghost i: nat)
    returns (ghost vs': seq<int>)
    requires Chain(head, tail, sp, vs) && i < |sp| && curr == sp[i] && SortedBelow(vs, i)
    modifies sp
    ensures Chain(head, tail, sp, vs') && multiset(vs') == multiset(vs)
    ensures SortedBelow(vs', i + 1)
  {
    vs' := vs;
    Links(head, tail, sp, i);
    var inside: Node? := curr.next;
    ghost var j := i + 1;
    while inside != null
      invariant Chain(head, tail, sp, vs') && multiset(vs') == multiset(vs)
      invariant i < j <= |sp| && inside == if j < |sp| then sp[j] else null
      invariant SortedBelow(vs', i)
      invariant forall b :: i < b < j ==> vs'[i] <= vs'[b]
      decreases |sp| - j
    {
      Links(head, tail, sp, j);
      var nxt := inside.next;
      vs' := CompareStep(head, tail, sp, vs', curr, inside, i, j);
      inside := nxt;
      j := j + 1;
    }
  }

  /** The body of a pass of sort: node i and node j trade values when node
      i holds the greater one, so node i holds the least value of i to j. */
  method CompareStep(head: Node?, tail: Node?, ghost sp: seq<Node>, ghost vs: seq<int>,
                     curr: Node, inside: Node, ghost i: nat, ghost j: nat)
    returns (ghost vs': seq<int>)
    requires Chain(head, tail, sp, vs) && i < j < |sp| && curr == sp[i] && inside == sp[j]
    requires SortedBelow(vs, i) && forall b :: i < b < j ==> vs[i] <= vs[b]
    modifies curr`data, inside`data
    ensures Chain(head, tail, sp, vs') && multiset(vs') == multiset(vs)
    ensures SortedBelow(vs', i) && forall b :: i < b <= j ==> vs'[i] <= vs'[b]
  {
    MinimumStep(vs, i, j);
    vs' := vs;
    if curr.data > inside.data {
      vs' := SwapValues(head, tail, sp, vs, curr, inside, i, j);
    }
  }

  /** The loop of sort: one pass per node from the head, each placing the
      least remaining value. */
  method SortChain(head: Node?, tail: Node?, ghost sp: seq<Node>, ghost vs: seq<int>)
    returns (ghost vs': seq<int>)
    requires Chain(head, tail, sp, vs)
    modifies sp
    ensures Chain(head, tail, sp, vs') && Sorted(vs') && multiset(vs') == multiset(vs)
  {
    vs' := vs;
    if head == null {
      return;
    }
    var curr: Node := head;
    ghost var i := 0;
    while curr.next != null
      invariant Chain(head, tail, sp, vs') && multiset(vs') == multiset(vs)
      invariant 0 <= i < |sp| && curr == sp[i]
      invariant SortedBelow(vs', i)
      decreases |sp| - i
    {
      vs' := PullMinimum(head, tail, sp, vs', curr, i);
      Links(head, tail, sp, i);
      curr := curr.next;
      i := i + 1;
    }
    Links(head, tail, sp, i);
  }

  class DoublyLinkedList {
    var head: Node?            // m_Head
    var tail: Node?            // m_Tail
    ghost var spine: seq<Node>
    /** The values from head to tail. */
    ghost var contents: seq<int>

    ghost predicate Valid()
      reads this, spine
    {
      Chain(head, tail, spine, contents)
    }

    /** DoublyLinkedList(): an empty list. */
    constructor ()
      ensures Valid() && contents == [] && spine == []
    {
      head, tail := null, null;
      spine, contents := [], [];
    }

    /** DoublyLinkedList(data, size) and the initializer-list and iterator
        range constructors: the values pushed back in order. */
    constructor FromSeq(data: seq<int>)
      ensures Valid() && contents == data
      ensures forall i :: 0 <= i < |spine| ==> fresh(spine[i])
    {
      head, tail := null, null;
      spine, contents := [], [];
      new;
      var i := 0;
      while i < |data|
        invariant 0 <= i <= |data|
        invariant Valid() && contents == data[..i]
        invariant forall k :: 0 <= k < |spine| ==> fresh(spine[k])
      {
        PushBack(data[i]);
        i := i + 1;
      }
      assert data[..i] == data;
    }

    /** The copy constructor: fresh nodes with the same values in order. */
    constructor Copy(other: DoublyLinkedList)
      requires other.Valid()
      ensures Valid() && contents == other.contents
      ensures forall i :: 0 <= i < |spine| ==> fresh(spine[i])
    {
      head, tail := null, null;
      spine, contents := [], [];
      new;
      CopyFrom(other);
    }

    /** copy(other): pushes other's values, walked from its head, onto this
        empty list. */
    method CopyFrom(other: DoublyLinkedList)
      requires Valid() && other.Valid() && contents == [] && other != this
      modifies this
      ensures Valid() && contents == other.contents
      ensures forall i :: 0 <= i < |spine| ==> fresh(spine[i])
    {
      spine := [];
      var curr: Node? := other.head;
      ghost var k := 0;
      while curr != null
        invariant other.Valid() && 0 <= k <= |other.spine|
        invariant curr == if k < |other.spine| then other.spine[k] else null
        invariant Valid() && contents == other.contents[..k]
        invariant forall i :: 0 <= i < |spine| ==> fresh(spine[i])
        decreases |other.spine| - k
      {
        Links(other.head, other.tail, other.spine, k);
        PushBack(curr.data);
        curr := curr.next;
        k := k + 1;
      }
      assert other.contents[..k] == other.contents;
    }

    /** The move constructor: takes over `other`'s chain and leaves it empty. */
    constructor Move(other: DoublyLinkedList)
      requires other.Valid()
      modifies other
      ensures Valid() && other.Valid()
      ensures contents == old(other.contents) && other.contents == []
    {
      head, tail, spine, contents := other.head, other.tail, other.spine, other.contents;
      other.head, other.tail, other.spine, other.contents := null, null, [], [];
    }

    /** operator=(const DoublyLinkedList&): unless `other` is this list,
        drops the current nodes and copies `other`. */
    method Assign(other: DoublyLinkedList)
      requires Valid() && other.Valid()
      modifies this
      ensures Valid() && contents == old(other.contents)
    {
      if this != other {
        head, tail := null, null;
        spine, contents := [], [];
        CopyFrom(other);
      }
    }

    /** operator=(DoublyLinkedList&&): unless `other` is this list,
        exchanges the chains. */
    method MoveAssign(other: DoublyLinkedList)
      requires Valid() && other.Valid()
      modifies this, other
      ensures Valid() && other.Valid()
      ensures this != other ==> contents == old(other.contents) && other.contents == old(contents)
      ensures this == other ==> contents == old(contents)
    {
      if this != other {
        head, tail, spine, contents, other.head, other.tail, other.spine, other.contents :=
          other.head, other.tail, other.spine, other.contents, head, tail, spine, contents;
      }
    }

    /** front(): the first value, or an exception on an empty list. */
    method Front() returns (r: Result<int>)
      requires Valid()
      ensures contents == [] ==> r == Throws(EmptyList)
      ensures contents != [] ==> r == Ok(contents[0])
    {
      if head == null {
        return Throws(EmptyList);
      }
      return Ok(head.data);
    }

    /** back(): the last value, or an exception on an empty list. */
    method Back() returns (r: Result<int>)
      requires Valid()
      ensures contents == [] ==> r == Throws(EmptyList)
      ensures contents != [] ==> r == Ok(contents[|contents| - 1])
    {
      if tail == null {
        return Throws(EmptyList);
      }
      return Ok(tail.data);
    }

    /** isEmpty(). */
    method IsEmpty() returns (b: bool)
      requires Valid()
      ensures b <==> contents == []
    {
      b := head == null;
    }

    /** size(): counts the nodes from head to tail. */
    method Size() returns (n: nat)
      requires Valid()
      ensures n == |contents|
    {
      n := 0;
      var curr: Node? := head;
      while curr != null
        invariant 0 <= n <= |spine|
        invariant curr == if n < |spine| then spine[n] else null
        decreases |spine| - n
      {
        Links(head, tail, spine, n);
        curr := curr.next;
        n := n + 1;
      }
    }

    /** Iterating from begin() to end(): the values from head to tail. */
    method Forward() returns (r: seq<int>)
      requires Valid()
      ensures r == contents
    {
      r := [];
      var curr: Node? := head;
      ghost var k := 0;
      while curr != null
        invariant 0 <= k <= |spine| && r == contents[..k]
        invariant curr == if k < |spine| then spine[k] else null
        decreases |spine| - k
      {
        Links(head, tail, spine, k);
        r := r + [curr.data];
        curr := curr.next;
        k := k + 1;
      }
      assert contents[..k] == contents;
    }

    /** Iterating from rbegin() down to rend(): the values from tail to head,
        that is, the contents reversed. */
    method Backward() returns (r: seq<int>)
      requires Valid()
      ensures r == Rev(contents)
    {
      r := [];
      var curr: Node? := tail;
      ghost var k := |spine|;
      while curr != null
        invariant 0 <= k <= |spine| && r == Rev(contents[k..])
        invariant curr == if k > 0 then spine[k - 1] else null
        decreases k
      {
        Links(head, tail, spine, k - 1);
        assert contents[k - 1..] == [contents[k - 1]] + contents[k..];
        r := r + [curr.data];
        curr := curr.prev;
        k := k - 1;
      }
    }

    /** pushFront(x): a new head node holding x. */
    method PushFront(x: int)
      requires Valid()
      modifies this, spine
      ensures Valid() && contents == [x] + old(contents)
      ensures fresh(spine[0]) && spine[1..] == old(spine)
    {
      var n := new Node(x, null, head);
      if head == null {
        tail := n;
      } else {
        Links(head, tail, spine, 0);
        head.prev := n;
      }
      head := n;
      spine, contents := [n] + spine, [x] + contents;
    }

    /** pushBack(x): a new tail node holding x. */
    method PushBack(x: int)
      requires Valid()
      modifies this, spine
      ensures Valid() && contents == old(contents) + [x]
      ensures spine[..|spine| - 1] == old(spine) && fresh(spine[|spine| - 1])
    {
      var n := new Node(x, tail, null);
      if tail == null {
        head := n;
      } else {
        Links(head, tail, spine, |spine| - 1);
        tail.next := n;
      }
      tail := n;
      spine, contents := spine + [n], contents + [x];
    }

    /** popFront(): drops the first value, or an exception on an empty list. */
    method PopFront() returns (o: Outcome)
      requires Valid()
      modifies this, spine
      ensures Valid()
      ensures old(contents) == [] ==> o == Raised(EmptyList) && contents == []
      ensures old(contents) != [] ==> o == Done && contents == old(contents)[1..]
    {
      if head == null {
        return Raised(EmptyList);
      }
      Links(head, tail, spine, 0);
      head, tail := UnlinkFirst(head, tail, spine, contents);
      spine, contents := spine[1..], contents[1..];
      o := Done;
    }

    /** popBack(): drops the last value, or an exception on an empty list. */
    method PopBack() returns (o: Outcome)
      requires Valid()
      modifies this, spine
      ensures Valid()
      ensures old(contents) == [] ==> o == Raised(EmptyList) && contents == []
      ensures old(contents) != [] ==> o == Done && contents == old(contents)[..|old(contents)| - 1]
    {
      if tail == null {
        return Raised(EmptyList);
      }
      Links(head, tail, spine, |spine| - 1);
      head, tail := UnlinkLast(head, tail, spine, contents);
      spine, contents := spine[..|spine| - 1], contents[..|contents| - 1];
      o := Done;
    }

    /** clear(): the list becomes empty. */
    method Clear()
      modifies this
      ensures Valid() && contents == []
    {
      head, tail := null, null;
      spine, contents := [], [];
    }

    /** reverse(): every node exchanges its `prev` and `next`, then head and
        tail are exchanged; no value moves. */
    method Reverse()
      requires Valid()
      modifies this, spine
      ensures Valid() && contents == Rev(old(contents)) && spine == Rev(old(spine))
    {
      head, tail := ReverseChain(head, tail, spine, contents);
      spine, contents := Rev(spine), Rev(contents);
    }

    /** sort(): ascending order by exchanging values between nodes; the
        links are left as they are. */
    method Sort()
      requires Valid()
      modifies this, spine
      ensures Valid() && spine == old(spine) && head == old(head) && tail == old(tail)
      ensures Sorted(contents) && multiset(contents) == multiset(old(contents))
    {
      contents := SortChain(head, tail, spine, contents);
    }

    /** merge(other): other's chain is linked after this list's tail and
        other is left empty. */
    method Merge(other: DoublyLinkedList)
      requires Valid() && other.Valid() && other != this
      requires forall i, j :: 0 <= i < |spine| && 0 <= j < |other.spine| ==> spine[i] != other.spine[j]
      modifies this, spine, other, other.spine
      ensures Valid() && other.Valid()
      ensures contents == old(contents) + old(other.contents) && other.contents == []
    {
      if other.head == null {
        return;
      }
      if head == null {
        head, tail, spine, contents := other.head, other.tail, other.spine, other.contents;
      } else {
        Splice(other);
      }
      other.Clear();
    }

    /** The linking step of merge for two non-empty lists: this tail and
        other's head point at each other and other's tail becomes the tail. */
    method Splice(other: DoublyLinkedList)
      requires Valid() && other.Valid() && other != this && spine != [] && other.spine != []
      requires forall i, j :: 0 <= i < |spine| && 0 <= j < |other.spine| ==> spine[i] != other.spine[j]
      modifies this, spine, other.spine
      ensures Valid()
      ensures spine == old(spine) + old(other.spine) && contents == old(contents) + old(other.contents)
    {
      Links(head, tail, spine, |spine| - 1);
      Links(other.head, other.tail, other.spine, 0);
      tail.next, other.head.prev := other.head, tail;
      tail := other.tail;
      spine, contents := spine + other.spine, contents + other.contents;
    }

    /** removeIf(pred): walks the list once and unlinks every node whose
        value satisfies `pred`; the other nodes keep their order. */
    method RemoveIf(pred: int -> bool)
      requires Valid()
      modifies this, spine
      ensures Valid() && contents == Drop(old(contents), pred)
    {
      ghost var sp, vs;
      head, tail, sp, vs := FilterChain(head, tail, spine, contents, pred);
      spine, contents := sp, vs;
    }

    /** remove(target): every node holding target is unlinked. */
    method Remove(target: int)
      requires Valid()
      modifies this, spine
      ensures Valid() && contents == Drop(old(contents), x => x == target)
      ensures target !in contents
      ensures forall y :: y != target ==> multiset(contents)[y] == multiset(old(contents))[y]
    {
      RemoveIf(x => x == target);
      DropCounts(old(contents), x => x == target, target);
      forall y | y != target
        ensures multiset(contents)[y] == multiset(old(contents))[y]
      {
        DropCounts(old(contents), x => x == target, y);
      }
    }
  }

  /** operator==: walks both lists side by side; true iff they hold the
      same values in the same order. */
  method Equal(lhs: DoublyLinkedList, rhs: DoublyLinkedList) returns (r: bool)
    requires lhs.Valid() && rhs.Valid()
    ensures r <==> lhs.contents == rhs.contents
  {
    var a: Node? := lhs.head;
    var b: Node? := rhs.head;
    ghost var k := 0;
    while a != null && b != null
      invariant 0 <= k <= |lhs.spine| && 0 <= k <= |rhs.spine|
      invariant a == if k < |lhs.spine| then lhs.spine[k] else null
      invariant b == if k < |rhs.spine| then rhs.spine[k] else null
      invariant lhs.contents[..k] == rhs.contents[..k]
      decreases |lhs.spine| - k
    {
      if a.data != b.data {
        assert lhs.contents[k] != rhs.contents[k];
        return false;
      }
      Links(lhs.head, lhs.tail, lhs.spine, k);
      Links(rhs.head, rhs.tail, rhs.spine, k);
      assert lhs.contents[..k + 1] == rhs.contents[..k + 1];
      a, b := a.next, b.next;
      k := k + 1;
    }
    r := a == null && b == null;
    if r {
      assert lhs.contents == lhs.contents[..k] && rhs.contents == rhs.contents[..k];
    } else {
      assert |lhs.contents| != |rhs.contents|;
    }
  }

  /** operator!=: the negation of operator==. */
  method NotEqual(lhs: DoublyLinkedList, rhs: DoublyLinkedList) returns (r: bool)
    requires lhs.Valid() && rhs.Valid()
    ensures r <==> lhs.contents != rhs.contents
  {
    var eq := Equal(lhs, rhs);
    r := !eq;
  }
}
