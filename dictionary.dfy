/** An ordered map (Dictionary<TKey, TValue>) kept as a binary search tree
    of nodes linked by `parent`, `left` and `right`. The nodes live in an
    arena, `cells`, and a link is an index into it (-1 stands for nullptr).
    The ghost `shape` is the tree those links describe. Keys are ints. */
module Dictionaries {
  import opened Errors

  /** nullptr. */
  const NIL := -1

  /** Pair: a key and the value stored under it. */
  datatype Pair<V> = Pair(key: int, value: V)

  /** Node: a pair and the indices of the parent and the two children. */
  datatype Node<V> = Node(data: Pair<V>, parent: int, left: int, right: int)

  /** The shape of a tree of nodes: each fork names the arena index of its
      node. */
  datatype Tree = Nil | Fork(left: Tree, at: nat, right: Tree)

  /** ConstIterator: one node link; end() holds nullptr. */
  datatype ConstIterator = ConstIterator(node: int)

  // ------------------------------------------------------------------
  // Sequences of pairs in key order
  // ------------------------------------------------------------------

  /** Strictly ascending keys. */
  predicate Ascending<V>(s: seq<Pair<V>>)
  {
    forall i, j :: 0 <= i < j < |s| ==> s[i].key < s[j].key
  }

  /** The keys occurring in s. */
  function Keys<V>(s: seq<Pair<V>>): set<int>
  {
    set i | 0 <= i < |s| :: s[i].key
  }

  /** The values of s, in order: what iterating over a dictionary yields. */
  function Values<V>(s: seq<Pair<V>>): (r: seq<V>)
    ensures |r| == |s| && forall i :: 0 <= i < |s| ==> r[i] == s[i].value
  {
    if s == [] then [] else [s[0].value] + Values(s[1..])
  }

  /** The keys of s, in order. */
  function KeyList<V>(s: seq<Pair<V>>): (r: seq<int>)
    ensures |r| == |s|
  {
    if s == [] then [] else KeyList(s[..|s| - 1]) + [s[|s| - 1].key]
  }

  /** Reading the pairs from a up to b, and then one more. */
  lemma KeyListSnoc<V>(s: seq<Pair<V>>, a: nat, b: nat)
    requires a <= b < |s|
    ensures KeyList(s[a..b + 1]) == KeyList(s[a..b]) + [s[b].key]
  {
    assert s[a..b + 1][..b - a] == s[a..b];
  }

  /** The k-th key read is the key of the k-th pair. */
  lemma {:induction false} KeyListAt<V>(s: seq<Pair<V>>, k: nat)
    requires k < |s|
    ensures KeyList(s)[k] == s[k].key
  {
    if k < |s| - 1 {
      assert s[..|s| - 1][k] == s[k];
      KeyListAt(s[..|s| - 1], k);
    }
  }

  /** Reading one more pair reads its value. */
  lemma ValuesPrefix<V>(s: seq<Pair<V>>, i: nat)
    requires i < |s|
    ensures Values(s[..i + 1]) == Values(s[..i]) + [s[i].value]
  {
  }

  /** p placed before the first pair whose key is greater than its own. */
  function InsertSorted<V>(s: seq<Pair<V>>, p: Pair<V>): seq<Pair<V>>
  {
    if s == [] then [p]
    else if p.key < s[0].key then [p] + s
    else [s[0]] + InsertSorted(s[1..], p)
  }

  /** The pairs of s whose key is not k, in order. */
  function Without<V>(s: seq<Pair<V>>, k: int): seq<Pair<V>>
  {
    if s == [] then []
    else (if s[0].key == k then [] else [s[0]]) + Without(s[1..], k)
  }

  /** s with every pair whose key is p's replaced by p. */
  function Replace<V>(s: seq<Pair<V>>, p: Pair<V>): seq<Pair<V>>
  {
    if s == [] then []
    else (if s[0].key == p.key then [p] else [s[0]]) + Replace(s[1..], p)
  }

  /** What add does to the pairs: a present key takes the new value, an
      absent one goes in with it at its sorted place. */
  function Put<V>(s: seq<Pair<V>>, p: Pair<V>): seq<Pair<V>>
  {
    if p.key in Keys(s) then Replace(s, p) else InsertSorted(s, p)
  }

  /** The pairs added one after the other into an empty dictionary. */
  function Build<V>(ps: seq<Pair<V>>): seq<Pair<V>>
  {
    if ps == [] then [] else Put(Build(ps[..|ps| - 1]), ps[|ps| - 1])
  }

  /** The keys of a concatenation. */
  lemma KeysConcat<V>(s: seq<Pair<V>>, u: seq<Pair<V>>)
    ensures Keys(s + u) == Keys(s) + Keys(u)
  {
    forall k | k in Keys(s + u)
      ensures k in Keys(s) + Keys(u)
    {
      var i :| 0 <= i < |s + u| && (s + u)[i].key == k;
      if i >= |s| {
        assert u[i - |s|].key == k;
      }
    }
    forall k | k in Keys(s) + Keys(u)
      ensures k in Keys(s + u)
    {
      if k in Keys(s) {
        var i :| 0 <= i < |s| && s[i].key == k;
        assert (s + u)[i].key == k;
      } else {
        var i :| 0 <= i < |u| && u[i].key == k;
        assert (s + u)[|s| + i].key == k;
      }
    }
  }

  /** An ascending sequence split around one of its pairs: both sides are
      ascending, every key on the left is smaller than the pair's and every
      key on the right greater. */
  lemma AscendingSplit<V>(s: seq<Pair<V>>, x: Pair<V>, u: seq<Pair<V>>)
    requires Ascending(s + [x] + u)
    ensures Ascending(s) && Ascending(u)
    ensures forall i :: 0 <= i < |s| ==> s[i].key < x.key
    ensures forall i :: 0 <= i < |u| ==> x.key < u[i].key
    ensures x.key !in Keys(s) && x.key !in Keys(u)
  {
    var w := s + [x] + u;
    assert forall i :: 0 <= i < |s| ==> w[i] == s[i];
    assert forall i :: 0 <= i < |u| ==> w[|s| + 1 + i] == u[i];
    assert w[|s|] == x;
  }

  /** Conversely, two ascending sides around a pair that separates them make
      an ascending sequence. */
  lemma AscendingJoin<V>(s: seq<Pair<V>>, x: Pair<V>, u: seq<Pair<V>>)
    requires Ascending(s) && Ascending(u)
    requires forall i :: 0 <= i < |s| ==> s[i].key < x.key
    requires forall i :: 0 <= i < |u| ==> x.key < u[i].key
    ensures Ascending(s + [x] + u)
  {
    var w := s + [x] + u;
    forall i, j | 0 <= i < j < |w|
      ensures w[i].key < w[j].key
    {
      if j < |s| {
      } else if j == |s| {
        assert w[i] == s[i];
      } else if i < |s| {
        assert w[i] == s[i] && w[j] == u[j - |s| - 1];
      } else if i == |s| {
        assert w[j] == u[j - |s| - 1];
      } else {
        assert w[i] == u[i - |s| - 1] && w[j] == u[j - |s| - 1];
      }
    }
  }

  /** No pair of s has key k. */
  predicate Absent<V>(s: seq<Pair<V>>, k: int)
  {
    forall i :: 0 <= i < |s| ==> s[i].key != k
  }

  /** k is a key of s exactly when some pair has it. */
  lemma AbsentKeys<V>(s: seq<Pair<V>>, k: int)
    ensures Absent(s, k) <==> k !in Keys(s)
  {
    if !Absent(s, k) {
      var i :| 0 <= i < |s| && s[i].key == k;
      assert s[i].key in Keys(s);
    }
  }

  /** The number of leading pairs whose key is at most k: where InsertSorted
      puts a pair with key k. */
  function Rank<V>(s: seq<Pair<V>>, k: int): (n: nat)
    ensures n <= |s|
  {
    if s == [] || k < s[0].key then 0 else 1 + Rank(s[1..], k)
  }

  /** InsertSorted places p at its rank. */
  lemma {:induction false} InsertSortedAt<V>(s: seq<Pair<V>>, p: Pair<V>)
    ensures InsertSorted(s, p) == s[..Rank(s, p.key)] + [p] + s[Rank(s, p.key)..]
  {
    if s != [] && p.key >= s[0].key {
      InsertSortedAt(s[1..], p);
      var n := Rank(s[1..], p.key);
      assert s[..n + 1] == [s[0]] + s[1..][..n];
      assert s[n + 1..] == s[1..][n..];
    }
  }

  /** In an ascending sequence without key k, the pairs before the rank of k
      have smaller keys and the others greater ones. */
  lemma {:induction false} RankSplits<V>(s: seq<Pair<V>>, k: int)
    requires Ascending(s) && Absent(s, k)
    ensures forall i :: 0 <= i < Rank(s, k) ==> s[i].key < k
    ensures forall i :: Rank(s, k) <= i < |s| ==> k < s[i].key
  {
    if s != [] && k >= s[0].key {
      RankSplits(s[1..], k);
      assert forall i :: 1 <= i < |s| ==> s[i] == s[1..][i - 1];
    }
  }

  /** add's promise on the sequence: the new pair goes where the keys stay
      strictly ascending, and the keys become the old ones and p's. */
  lemma InsertSortedKeeps<V>(s: seq<Pair<V>>, p: Pair<V>)
    requires Ascending(s) && p.key !in Keys(s)
    ensures Ascending(InsertSorted(s, p))
    ensures Keys(InsertSorted(s, p)) == Keys(s) + {p.key}
    ensures |InsertSorted(s, p)| == |s| + 1
  {
    AbsentKeys(s, p.key);
    InsertSortedAt(s, p);
    RankSplits(s, p.key);
    var n := Rank(s, p.key);
    assert s == s[..n] + s[n..];
    AscendingJoin(s[..n], p, s[n..]);
    KeysAround(s[..n], p, s[n..]);
  }

  /** Putting p between two sequences adds exactly p's key. */
  lemma KeysAround<V>(L: seq<Pair<V>>, p: Pair<V>, R: seq<Pair<V>>)
    ensures Keys(L + [p] + R) == Keys(L + R) + {p.key}
  {
    KeysConcat(L + [p], R);
    KeysConcat(L, [p]);
    KeysConcat(L, R);
    assert Keys([p]) == {p.key} by { assert [p][0].key == p.key; }
  }

  /** Without distributes over concatenation. */
  lemma {:induction false} WithoutConcat<V>(s: seq<Pair<V>>, u: seq<Pair<V>>, k: int)
    ensures Without(s + u, k) == Without(s, k) + Without(u, k)
  {
    if s == [] {
      assert s + u == u;
    } else {
      assert (s + u)[0] == s[0] && (s + u)[1..] == s[1..] + u;
      WithoutConcat(s[1..], u, k);
    }
  }

  /** Without changes nothing when k does not occur. */
  lemma {:induction false} WithoutAbsent<V>(s: seq<Pair<V>>, k: int)
    requires Absent(s, k)
    ensures Without(s, k) == s
  {
    if s != [] {
      WithoutAbsent(s[1..], k);
      assert s == [s[0]] + s[1..];
    }
  }

  /** erase's promise on the sequence: removing the key of the pair at
      position i of an ascending sequence removes exactly that pair. */
  lemma {:induction false} WithoutAt<V>(s: seq<Pair<V>>, i: nat)
    requires Ascending(s) && i < |s|
    ensures Without(s, s[i].key) == s[..i] + s[i + 1..]
  {
    var k := s[i].key;
    if i == 0 {
      assert Absent(s[1..], k);
      WithoutAbsent(s[1..], k);
    } else {
      assert s[1..][i - 1] == s[i];
      WithoutAt(s[1..], i - 1);
      assert s[..i] == [s[0]] + s[1..][..i - 1];
      assert s[i + 1..] == s[1..][i..];
    }
  }

  /** What erase leaves: the keys but k, still ascending. */
  lemma WithoutKeeps<V>(s: seq<Pair<V>>, k: int)
    requires Ascending(s)
    ensures Ascending(Without(s, k)) && Keys(Without(s, k)) == Keys(s) - {k}
  {
    AbsentKeys(s, k);
    if Absent(s, k) {
      WithoutAbsent(s, k);
    } else {
      var i :| 0 <= i < |s| && s[i].key == k;
      WithoutAt(s, i);
      AscendingDrop(s, i);
      KeysDrop(s, i);
    }
  }

  /** The keys left after dropping the pair at i of an ascending sequence. */
  lemma KeysDrop<V>(s: seq<Pair<V>>, i: nat)
    requires Ascending(s) && i < |s|
    ensures Keys(s[..i] + s[i + 1..]) == Keys(s) - {s[i].key}
  {
    assert s == s[..i] + [s[i]] + s[i + 1..];
    AscendingSplit(s[..i], s[i], s[i + 1..]);
    KeysConcat(s[..i], s[i + 1..]);
    KeysConcat(s[..i] + [s[i]], s[i + 1..]);
    KeysConcat(s[..i], [s[i]]);
    assert Keys([s[i]]) == {s[i].key} by { assert [s[i]][0].key == s[i].key; }
  }

  /** Dropping one pair keeps an ascending sequence ascending. */
  lemma AscendingDrop<V>(s: seq<Pair<V>>, i: nat)
    requires Ascending(s) && i < |s|
    ensures Ascending(s[..i] + s[i + 1..])
  {
    var r := s[..i] + s[i + 1..];
    forall a, b | 0 <= a < b < |r|
      ensures r[a].key < r[b].key
    {
      var a' := if a < i then a else a + 1;
      var b' := if b < i then b else b + 1;
      assert r[a] == s[a'] && r[b] == s[b'];
    }
  }

  /** In an ascending sequence, replacing under the key of position i
      replaces that pair alone. */
  lemma {:induction false} ReplaceAt<V>(s: seq<Pair<V>>, i: nat, p: Pair<V>)
    requires Ascending(s) && i < |s| && s[i].key == p.key
    ensures Replace(s, p) == s[i := p]
  {
    if i == 0 {
      assert Absent(s[1..], p.key);
      ReplaceAbsent(s[1..], p);
    } else {
      assert s[1..][i - 1] == s[i];
      ReplaceAt(s[1..], i - 1, p);
      assert s[i := p] == [s[0]] + s[1..][i - 1 := p];
    }
  }

  /** Replace changes nothing when p's key does not occur. */
  lemma {:induction false} ReplaceAbsent<V>(s: seq<Pair<V>>, p: Pair<V>)
    requires Absent(s, p.key)
    ensures Replace(s, p) == s
  {
    if s != [] {
      ReplaceAbsent(s[1..], p);
      assert s == [s[0]] + s[1..];
    }
  }

  /** Overwriting the pair at i with one under the same key keeps the keys,
      and every pair under another key. */
  lemma OverwriteKeeps<V>(s: seq<Pair<V>>, i: nat, p: Pair<V>)
    requires Ascending(s) && i < |s| && s[i].key == p.key
    ensures Ascending(s[i := p]) && Keys(s[i := p]) == Keys(s) && p in s[i := p]
    ensures forall q :: q in s && q.key != p.key ==> q in s[i := p]
  {
    var r := s[i := p];
    assert forall a :: 0 <= a < |s| ==> r[a].key == s[a].key;
    assert r[i] == p;
    forall k | k in Keys(s) ensures k in Keys(r) {
      var a :| 0 <= a < |s| && s[a].key == k;
      assert r[a].key == k;
    }
    forall q | q in s && q.key != p.key
      ensures q in r
    {
      var a :| 0 <= a < |s| && s[a] == q;
      assert r[a] == q;
    }
  }

  /** Inserting an absent pair keeps every pair already there. */
  lemma InsertSortedHas<V>(s: seq<Pair<V>>, p: Pair<V>)
    ensures p in InsertSorted(s, p) && forall q :: q in s ==> q in InsertSorted(s, p)
  {
    InsertSortedAt(s, p);
    var n := Rank(s, p.key);
    assert s == s[..n] + s[n..];
  }

  /** add's promise on the pairs: they stay ascending, the keys become the
      old ones and p's, p is among them and every pair under another key
      stays. */
  lemma PutKeeps<V>(s: seq<Pair<V>>, p: Pair<V>)
    requires Ascending(s)
    ensures Ascending(Put(s, p)) && Keys(Put(s, p)) == Keys(s) + {p.key}
    ensures p in Put(s, p)
    ensures forall q :: q in s && q.key != p.key ==> q in Put(s, p)
  {
    if p.key in Keys(s) {
      var i :| 0 <= i < |s| && s[i].key == p.key;
      ReplaceAt(s, i, p);
      OverwriteKeeps(s, i, p);
    } else {
      InsertSortedKeeps(s, p);
      InsertSortedHas(s, p);
    }
  }

  /** The keys of a built sequence are the keys added, and they ascend. */
  lemma {:induction false} BuildKeeps<V>(ps: seq<Pair<V>>)
    ensures Ascending(Build(ps)) && Keys(Build(ps)) == Keys(ps)
  {
    if ps != [] {
      var init := ps[..|ps| - 1];
      var last := ps[|ps| - 1];
      BuildKeeps(init);
      PutKeeps(Build(init), last);
      assert ps == init + [last];
      KeysConcat(init, [last]);
      assert Keys([last]) == {last.key} by { assert [last][0].key == last.key; }
    }
  }

  /** When a key is added more than once, the last pair added under it wins:
      a pair that no later pair's key repeats is in the built sequence. */
  lemma {:induction false} BuildLastWins<V>(ps: seq<Pair<V>>, i: nat)
    requires i < |ps| && forall j :: i < j < |ps| ==> ps[j].key != ps[i].key
    ensures ps[i] in Build(ps)
  {
    var init := ps[..|ps| - 1];
    BuildKeeps(init);
    PutKeeps(Build(init), ps[|ps| - 1]);
    if i < |ps| - 1 {
      BuildLastWins(init, i);
    }
  }

  /** A pair whose key is below the first key of u goes in before u. */
  lemma {:induction false} InsertBefore<V>(s: seq<Pair<V>>, u: seq<Pair<V>>, p: Pair<V>)
    requires u != [] && p.key < u[0].key
    ensures InsertSorted(s + u, p) == InsertSorted(s, p) + u
  {
    if s == [] {
      assert s + u == u;
    } else {
      assert (s + u)[0] == s[0] && (s + u)[1..] == s[1..] + u;
      InsertBefore(s[1..], u, p);
    }
  }

  /** A pair whose key is at least every key of s goes in after s. */
  lemma {:induction false} InsertAfter<V>(s: seq<Pair<V>>, u: seq<Pair<V>>, p: Pair<V>)
    requires forall i :: 0 <= i < |s| ==> s[i].key <= p.key
    ensures InsertSorted(s + u, p) == s + InsertSorted(u, p)
  {
    if s == [] {
      assert s + u == u;
    } else {
      assert (s + u)[0] == s[0] && (s + u)[1..] == s[1..] + u;
      InsertAfter(s[1..], u, p);
    }
  }

  /** InsertSorted on a sequence split around y, for a pair that belongs
      before y. */
  lemma InsertBeforeJoin<V>(L: seq<Pair<V>>, y: Pair<V>, R: seq<Pair<V>>, x: Pair<V>)
    requires x.key < y.key
    ensures InsertSorted(L + [y] + R, x) == InsertSorted(L, x) + [y] + R
  {
    InsertBefore(L, [y] + R, x);
    assert L + [y] + R == L + ([y] + R);
  }

  /** InsertSorted on a sequence split around y, for a pair that belongs
      after y and everything before it. */
  lemma InsertAfterJoin<V>(L: seq<Pair<V>>, y: Pair<V>, R: seq<Pair<V>>, x: Pair<V>)
    requires y.key <= x.key && forall i :: 0 <= i < |L| ==> L[i].key < y.key
    ensures InsertSorted(L + [y] + R, x) == L + [y] + InsertSorted(R, x)
  {
    InsertAfter(L + [y], R, x);
  }

  /** Removing a key below y from a sequence split around y. */
  lemma WithoutLeftJoin<V>(L: seq<Pair<V>>, y: Pair<V>, R: seq<Pair<V>>, k: int)
    requires k < y.key && forall i :: 0 <= i < |R| ==> y.key < R[i].key
    ensures Without(L + [y] + R, k) == Without(L, k) + [y] + R
  {
    WithoutConcat(L + [y], R, k);
    WithoutConcat(L, [y], k);
    assert Absent(R, k);
    WithoutAbsent(R, k);
    WithoutOne(y, k);
  }

  /** Removing a key above y from a sequence split around y. */
  lemma WithoutRightJoin<V>(L: seq<Pair<V>>, y: Pair<V>, R: seq<Pair<V>>, k: int)
    requires y.key < k && forall i :: 0 <= i < |L| ==> L[i].key < y.key
    ensures Without(L + [y] + R, k) == L + [y] + Without(R, k)
  {
    WithoutConcat(L + [y], R, k);
    WithoutConcat(L, [y], k);
    assert Absent(L, k);
    WithoutAbsent(L, k);
    WithoutOne(y, k);
  }

  /** A single pair under another key stays. */
  lemma WithoutOne<V>(y: Pair<V>, k: int)
    requires y.key != k
    ensures Without([y], k) == [y]
  {
    assert Without([y], k) == [y] + Without([y][1..], k);
  }

  /** Removing the key of y from an ascending sequence split around y. */
  lemma WithoutRoot<V>(L: seq<Pair<V>>, y: Pair<V>, R: seq<Pair<V>>)
    requires Ascending(L + [y] + R)
    ensures Without(L + [y] + R, y.key) == L + R
  {
    var s := L + [y] + R;
    assert s[|L|] == y;
    WithoutAt(s, |L|);
    assert s[..|L|] == L && s[|L| + 1..] == R;
  }

  /** Removing the key of y when y has a successor: the successor takes
      y's place and is removed from the right side. */
  lemma WithoutSuccessor<V>(L: seq<Pair<V>>, y: Pair<V>, R: seq<Pair<V>>)
    requires Ascending(L + [y] + R) && R != []
    ensures Ascending(R)
    ensures Without(L + [y] + R, y.key) == L + [R[0]] + Without(R, R[0].key)
  {
    WithoutRoot(L, y, R);
    AscendingRight(L, y, R);
    WithoutHead(R);
    HeadSplit(L, R);
  }

  /** Removing the first key of an ascending sequence drops its head. */
  lemma WithoutHead<V>(R: seq<Pair<V>>)
    requires Ascending(R) && R != []
    ensures Without(R, R[0].key) == R[1..]
  {
    WithoutAt(R, 0);
    assert R[..0] + R[1..] == R[1..];
  }

  lemma HeadSplit<V>(L: seq<Pair<V>>, R: seq<Pair<V>>)
    requires R != []
    ensures L + R == L + [R[0]] + R[1..]
  {
    assert R == [R[0]] + R[1..];
  }

  /** The right side of an ascending sequence split around y ascends. */
  lemma AscendingRight<V>(L: seq<Pair<V>>, y: Pair<V>, R: seq<Pair<V>>)
    requires Ascending(L + [y] + R)
    ensures Ascending(R)
  {
    var w := L + [y] + R;
    assert forall i :: 0 <= i < |R| ==> w[|L| + 1 + i] == R[i];
  }

  // ------------------------------------------------------------------
  // Trees of arena nodes
  // ------------------------------------------------------------------

  /** The index a link to the tree holds: its root, or nullptr. */
  function Root(t: Tree): int
  {
    if t.Nil? then NIL else t.at
  }

  /** The node indices of t, in order (left subtree, node, right subtree). */
  function Nodes(t: Tree): seq<nat>
  {
    if t.Nil? then [] else Nodes(t.left) + [t.at] + Nodes(t.right)
  }

  /** Every node of t is a slot of an arena of n cells. */
  ghost predicate Within(t: Tree, n: nat)
  {
    t.Fork? ==> t.at < n && Within(t.left, n) && Within(t.right, n)
  }

  /** The nodes of a tree within n cells are below n. */
  lemma {:induction false} WithinNodes(t: Tree, n: nat)
    requires Within(t, n)
    ensures forall x :: x in Nodes(t) ==> x < n
  {
    if t.Fork? {
      WithinNodes(t.left, n);
      WithinNodes(t.right, n);
    }
  }

  /** No node occurs twice in t. */
  ghost predicate Unique(t: Tree)
  {
    t.Fork? ==>
      Unique(t.left) && Unique(t.right) && t.at !in Nodes(t.left) && t.at !in Nodes(t.right) &&
      forall x :: x in Nodes(t.left) ==> x !in Nodes(t.right)
  }

  /** No index occurs twice in s. */
  predicate Distinct(s: seq<nat>)
  {
    forall i, j :: 0 <= i < j < |s| ==> s[i] != s[j]
  }

  /** The links of the cells describe t: each node's `left` and `right`
      are the roots of its subtrees, and each child's `parent` is the node. */
  ghost predicate Wired<V>(t: Tree, c: seq<Node<V>>)
  {
    match t
    case Nil => true
    case Fork(l, a, r) =>
      Wired(l, c) && Wired(r, c) && a < |c| &&
      c[a].left == Root(l) && c[a].right == Root(r) &&
      (l.Fork? ==> c[l.at].parent == a) && (r.Fork? ==> c[r.at].parent == a)
  }

  /** The pairs of t in order: what an in-order walk reads. */
  ghost function Items<V>(t: Tree, c: seq<Node<V>>): (r: seq<Pair<V>>)
    requires Within(t, |c|)
    ensures |r| == |Nodes(t)|
  {
    if t.Nil? then [] else Items(t.left, c) + [c[t.at].data] + Items(t.right, c)
  }

  /** The i-th pair in order is the pair of the i-th node in order. */
  lemma {:induction false} ItemsAt<V>(t: Tree, c: seq<Node<V>>, i: nat)
    requires Within(t, |c|) && i < |Nodes(t)|
    ensures Nodes(t)[i] < |c| && Items(t, c)[i] == c[Nodes(t)[i]].data
  {
    var nl := |Nodes(t.left)|;
    if i < nl {
      ItemsAt(t.left, c, i);
    } else if i > nl {
      ItemsAt(t.right, c, i - nl - 1);
    }
  }

  /** Two nodes with the same pair and the same children. */
  ghost predicate Same<V>(n: Node<V>, n': Node<V>)
  {
    n.data == n'.data && n.left == n'.left && n.right == n'.right
  }

  /** Two arenas agree on the nodes of t: the same pairs and child links,
      and the same parent links below the root of t. */
  ghost predicate Agree<V>(t: Tree, c: seq<Node<V>>, c': seq<Node<V>>)
  {
    match t
    case Nil => true
    case Fork(l, a, r) =>
      Agree(l, c, c') && Agree(r, c, c') && a < |c| && a < |c'| && Same(c[a], c'[a]) &&
      (l.Fork? ==> c'[l.at].parent == c[l.at].parent) &&
      (r.Fork? ==> c'[r.at].parent == c[r.at].parent)
  }

  /** What t describes in an arena depends only on the cells of its nodes. */
  lemma {:induction false} Frame<V>(t: Tree, c: seq<Node<V>>, c': seq<Node<V>>)
    requires Agree(t, c, c')
    ensures Within(t, |c|) && Within(t, |c'|) && Items(t, c') == Items(t, c)
    ensures Wired(t, c) ==> Wired(t, c')
  {
    if t.Fork? {
      Frame(t.left, c, c');
      Frame(t.right, c, c');
    }
  }

  /** Arenas that hold the same cells at the nodes of t agree on t. */
  lemma {:induction false} AgreeOn<V>(t: Tree, c: seq<Node<V>>, c': seq<Node<V>>)
    requires forall x :: x in Nodes(t) ==> x < |c| && x < |c'| && c'[x] == c[x]
    ensures Agree(t, c, c')
  {
    if t.Fork? {
      assert Nodes(t) == Nodes(t.left) + [t.at] + Nodes(t.right);
      assert t.at in Nodes(t);
      assert forall x :: x in Nodes(t.left) ==> x in Nodes(t);
      assert forall x :: x in Nodes(t.right) ==> x in Nodes(t);
      assert t.left.Fork? ==> t.left.at in Nodes(t.left);
      assert t.right.Fork? ==> t.right.at in Nodes(t.right);
      AgreeOn(t.left, c, c');
      AgreeOn(t.right, c, c');
    }
  }

  /** The node indices of a tree without repetitions are distinct. */
  lemma {:induction false} UniqueDistinct(t: Tree)
    requires Unique(t)
    ensures Distinct(Nodes(t))
  {
    if t.Fork? {
      UniqueDistinct(t.left);
      UniqueDistinct(t.right);
      var L, a, R := Nodes(t.left), t.at, Nodes(t.right);
      var s := Nodes(t);
      forall i, j | 0 <= i < j < |s|
        ensures s[i] != s[j]
      {
        if j < |L| {
        } else if j == |L| {
          assert s[i] == L[i];
          assert L[i] in L;
        } else if i < |L| {
          assert s[i] == L[i] && s[j] == R[j - |L| - 1];
          assert L[i] in L;
        } else if i == |L| {
          assert s[j] == R[j - |L| - 1];
          assert R[j - |L| - 1] in R;
        } else {
          assert s[i] == R[i - |L| - 1] && s[j] == R[j - |L| - 1];
        }
      }
    }
  }

  /** One step of a search from the root of t for a key it does not hold
      at its root: the key is in t exactly when it is in the subtree on the
      side the comparison picks. */
  lemma Descend<V>(t: Tree, c: seq<Node<V>>, key: int)
    requires t.Fork? && Within(t, |c|) && Ascending(Items(t, c)) && key != c[t.at].data.key
    ensures Ascending(Items(t.left, c)) && Ascending(Items(t.right, c))
    ensures key < c[t.at].data.key ==> (key in Keys(Items(t, c)) <==> key in Keys(Items(t.left, c)))
    ensures key > c[t.at].data.key ==> (key in Keys(Items(t, c)) <==> key in Keys(Items(t.right, c)))
  {
    var L, x, R := Items(t.left, c), c[t.at].data, Items(t.right, c);
    AscendingSplit(L, x, R);
    KeysConcat(L + [x], R);
    KeysConcat(L, [x]);
    assert Keys([x]) == {x.key} by { assert [x][0].key == x.key; }
    if key < x.key {
      assert Absent(R, key);
      AbsentKeys(R, key);
    } else {
      assert Absent(L, key);
      AbsentKeys(L, key);
    }
  }

  // ------------------------------------------------------------------
  // add: hanging a new node at the end of a search path
  // ------------------------------------------------------------------

  /** The node a search for key ends at: the last node of the path, under
      which add hangs the new node. */
  ghost function Leaf<V>(t: Tree, c: seq<Node<V>>, key: int): (p: nat)
    requires t.Fork? && Within(t, |c|)
    ensures p < |c| && p in Nodes(t)
  {
    if key < c[t.at].data.key then (if t.left.Nil? then t.at else Leaf(t.left, c, key))
    else (if t.right.Nil? then t.at else Leaf(t.right, c, key))
  }

  /** t with a new leaf n where the search for key ends. */
  ghost function Ins<V>(t: Tree, c: seq<Node<V>>, key: int, n: nat): Tree
    requires Within(t, |c|)
  {
    if t.Nil? then Fork(Nil, n, Nil)
    else if key < c[t.at].data.key then Fork(Ins(t.left, c, key, n), t.at, t.right)
    else Fork(t.left, t.at, Ins(t.right, c, key, n))
  }

  /** The arena after a new node holding x is hung under node p, on the
      side its key calls for. */
  function Attach<V>(c: seq<Node<V>>, p: nat, x: Pair<V>): (r: seq<Node<V>>)
    requires p < |c|
    ensures |r| == |c| + 1 && r[|c|] == Node(x, p, NIL, NIL)
    ensures forall i :: 0 <= i < |c| && i != p ==> r[i] == c[i]
    ensures forall i :: 0 <= i < |c| ==> r[i].data == c[i].data && r[i].parent == c[i].parent
    ensures x.key < c[p].data.key ==> r[p].left == |c| && r[p].right == c[p].right
    ensures x.key >= c[p].data.key ==> r[p].right == |c| && r[p].left == c[p].left
  {
    var n := |c|;
    (if x.key < c[p].data.key then c[p := c[p].(left := n)] else c[p := c[p].(right := n)])
      + [Node(x, p, NIL, NIL)]
  }

  /** Within n cells is within any larger arena. */
  lemma {:induction false} WithinGrow(t: Tree, n: nat, m: nat)
    requires Within(t, n) && n <= m
    ensures Within(t, m)
  {
    if t.Fork? {
      WithinGrow(t.left, n, m);
      WithinGrow(t.right, n, m);
    }
  }

  /** The new tree has the old nodes and the new one, each once. */
  lemma {:induction false} InsShape<V>(t: Tree, c: seq<Node<V>>, key: int)
    requires Within(t, |c|) && Unique(t)
    ensures var t' := Ins(t, c, key, |c|);
      Within(t', |c| + 1) && Unique(t') && Root(t') == (if t.Nil? then |c| else t.at) &&
      forall x :: x in Nodes(t') <==> x in Nodes(t) || x == |c|
  {
    if t.Fork? {
      WithinNodes(t.left, |c|);
      WithinNodes(t.right, |c|);
      WithinGrow(t.left, |c|, |c| + 1);
      WithinGrow(t.right, |c|, |c| + 1);
      if key < c[t.at].data.key {
        InsShape(t.left, c, key);
      } else {
        InsShape(t.right, c, key);
      }
    }
  }

  /** The new arena still describes the parts of the tree that add leaves
      alone. */
  lemma AttachAgree<V>(t: Tree, c: seq<Node<V>>, p: nat, x: Pair<V>)
    requires Within(t, |c|) && p < |c| && p !in Nodes(t)
    ensures Agree(t, c, Attach(c, p, x))
  {
    WithinNodes(t, |c|);
    AgreeOn(t, c, Attach(c, p, x));
  }

  /** The links of the new arena describe the new tree. */
  lemma {:induction false} InsWired<V>(t: Tree, c: seq<Node<V>>, x: Pair<V>)
    requires t.Fork? && Within(t, |c|) && Wired(t, c) && Unique(t)
    ensures Wired(Ins(t, c, x.key, |c|), Attach(c, Leaf(t, c, x.key), x))
  {
    var p := Leaf(t, c, x.key);
    var c' := Attach(c, p, x);
    if x.key < c[t.at].data.key {
      assert p !in Nodes(t.right) by {
        if t.left.Fork? { assert p in Nodes(t.left); }
      }
      AttachAgree(t.right, c, p, x);
      Frame(t.right, c, c');
      if t.left.Fork? {
        InsWired(t.left, c, x);
        assert p in Nodes(t.left) && t.at != p;
      }
    } else {
      assert p !in Nodes(t.left) by {
        if t.right.Fork? { assert p in Nodes(t.right); }
      }
      AttachAgree(t.left, c, p, x);
      Frame(t.left, c, c');
      if t.right.Fork? {
        InsWired(t.right, c, x);
        assert p in Nodes(t.right) && t.at != p;
      }
    }
  }

  /** The pairs of t read the same in an arena that keeps the pairs of the
      first |c| cells. */
  lemma {:induction false} ItemsData<V>(t: Tree, c: seq<Node<V>>, c': seq<Node<V>>)
    requires Within(t, |c|) && |c| <= |c'|
    requires forall i :: 0 <= i < |c| ==> c'[i].data == c[i].data
    ensures Within(t, |c'|) && Items(t, c') == Items(t, c)
  {
    if t.Fork? {
      ItemsData(t.left, c, c');
      ItemsData(t.right, c, c');
    }
  }

  /** Giving a node outside t a new pair changes nothing t reads. */
  lemma {:induction false} ItemsSkip<V>(t: Tree, c: seq<Node<V>>, n: nat, p: Pair<V>)
    requires Within(t, |c|) && n < |c| && n !in Nodes(t)
    ensures Items(t, c[n := c[n].(data := p)]) == Items(t, c)
  {
    if t.Fork? {
      assert Nodes(t) == Nodes(t.left) + [t.at] + Nodes(t.right);
      ItemsSkip(t.left, c, n, p);
      ItemsSkip(t.right, c, n, p);
    }
  }

  /** add over a present key: giving n, the i-th node of t, the pair p
      makes p the i-th pair t reads. */
  lemma {:induction false} ItemsUpdate<V>(t: Tree, c: seq<Node<V>>, i: nat, n: nat, p: Pair<V>)
    requires Within(t, |c|) && Unique(t) && i < |Nodes(t)| && Nodes(t)[i] == n && n < |c|
    ensures Items(t, c[n := c[n].(data := p)]) == Items(t, c)[i := p]
    decreases t, 1
  {
    var nl := |Nodes(t.left)|;
    if i < nl {
      assert Nodes(t) == Nodes(t.left) + [t.at] + Nodes(t.right);
      UpdateLeft(t, c, i, n, p);
    } else if i == nl {
      UpdateRoot(t, c, n, p);
    } else {
      UpdateRight(t, c, i, n, p);
    }
  }

  /** ItemsUpdate for the root of t. */
  lemma UpdateRoot<V>(t: Tree, c: seq<Node<V>>, n: nat, p: Pair<V>)
    requires Within(t, |c|) && Unique(t) && t.Fork? && t.at == n && n < |c|
    ensures Items(t, c[n := c[n].(data := p)]) == Items(t, c)[|Nodes(t.left)| := p]
  {
    var c' := c[n := c[n].(data := p)];
    ItemsSkip(t.left, c, n, p);
    ItemsSkip(t.right, c, n, p);
    assert Items(t, c') == Items(t.left, c') + [c'[n].data] + Items(t.right, c');
    JoinUpdate(Items(t.left, c), c[t.at].data, Items(t.right, c), |Nodes(t.left)|, p);
  }

  /** ItemsUpdate for a node of the left subtree. */
  lemma {:induction false} UpdateLeft<V>(t: Tree, c: seq<Node<V>>, i: nat, n: nat, p: Pair<V>)
    requires Within(t, |c|) && Unique(t) && t.Fork? && i < |Nodes(t.left)| && Nodes(t.left)[i] == n && n < |c|
    ensures Items(t, c[n := c[n].(data := p)]) == Items(t, c)[i := p]
    decreases t, 0
  {
    assert n in Nodes(t.left);
    ItemsUpdate(t.left, c, i, n, p);
    ItemsSkip(t.right, c, n, p);
    JoinUpdate(Items(t.left, c), c[t.at].data, Items(t.right, c), i, p);
  }

  /** ItemsUpdate for a node of the right subtree. */
  lemma {:induction false} UpdateRight<V>(t: Tree, c: seq<Node<V>>, i: nat, n: nat, p: Pair<V>)
    requires Within(t, |c|) && Unique(t) && t.Fork? && |Nodes(t.left)| < i < |Nodes(t)|
    requires Nodes(t)[i] == n && n < |c|
    ensures Items(t, c[n := c[n].(data := p)]) == Items(t, c)[i := p]
    decreases t, 0
  {
    var j := i - |Nodes(t.left)| - 1;
    assert Nodes(t) == Nodes(t.left) + [t.at] + Nodes(t.right);
    assert Nodes(t.right)[j] == n && n in Nodes(t.right);
    ItemsSkip(t.left, c, n, p);
    ItemsUpdate(t.right, c, j, n, p);
    JoinUpdate(Items(t.left, c), c[t.at].data, Items(t.right, c), i, p);
  }

  /** Updating position i of L + [y] + R updates L or R. */
  lemma JoinUpdate<V>(L: seq<Pair<V>>, y: Pair<V>, R: seq<Pair<V>>, i: nat, p: Pair<V>)
    requires i < |L| + 1 + |R|
    ensures i == |L| ==> (L + [y] + R)[i := p] == L + [p] + R
    ensures i < |L| ==> (L + [y] + R)[i := p] == L[i := p] + [y] + R
    ensures i > |L| ==> (L + [y] + R)[i := p] == L + [y] + R[i - |L| - 1 := p]
  {
  }

  /** add's promise on the in-order pairs: with the new node holding x, the
      new tree reads the old pairs with x in its sorted place. */
  lemma {:induction false} InsItems<V>(t: Tree, c: seq<Node<V>>, c': seq<Node<V>>, x: Pair<V>)
    requires Within(t, |c|) && Ascending(Items(t, c))
    requires |c'| == |c| + 1 && c'[|c|].data == x
    requires forall i :: 0 <= i < |c| ==> c'[i].data == c[i].data
    ensures Within(Ins(t, c, x.key, |c|), |c'|)
    ensures Items(Ins(t, c, x.key, |c|), c') == InsertSorted(Items(t, c), x)
  {
    if t.Fork? {
      AscendingSplit(Items(t.left, c), c[t.at].data, Items(t.right, c));
      var L, y, R := Items(t.left, c), c[t.at].data, Items(t.right, c);
      if x.key < y.key {
        InsItems(t.left, c, c', x);
        ItemsData(t.right, c, c');
        InsertBeforeJoin(L, y, R, x);
      } else {
        ItemsData(t.left, c, c');
        InsItems(t.right, c, c', x);
        InsertAfterJoin(L, y, R, x);
      }
    }
  }

  // ------------------------------------------------------------------
  // copy: cloning a subtree into new cells
  // ------------------------------------------------------------------

  /** Every node of t lies in [lo, hi). */
  ghost predicate Between(t: Tree, lo: nat, hi: nat)
  {
    forall x :: x in Nodes(t) ==> lo <= x < hi
  }

  /** copy's step: a node at base over two subtrees cloned one after the
      other into the cells after it is a clone whose pairs are the left
      clone's, x and the right clone's. */
  lemma Graft<V>(tl: Tree, tr: Tree, base: nat, c1: seq<Node<V>>, c2: seq<Node<V>>, x: Pair<V>, q: int)
    requires base < |c1| <= |c2| && c2[..|c1|] == c1
    requires Within(tl, |c1|) && Wired(tl, c1) && Unique(tl) && Between(tl, base + 1, |c1|)
    requires Within(tr, |c2|) && Wired(tr, c2) && Unique(tr) && Between(tr, |c1|, |c2|)
    requires tl.Fork? ==> c1[tl.at].parent == base
    requires tr.Fork? ==> c2[tr.at].parent == base
    ensures var c3 := c2[base := Node(x, q, Root(tl), Root(tr))];
      Within(Fork(tl, base, tr), |c3|) && Wired(Fork(tl, base, tr), c3) &&
      Unique(Fork(tl, base, tr)) && Between(Fork(tl, base, tr), base, |c3|) &&
      Items(Fork(tl, base, tr), c3) == Items(tl, c1) + [x] + Items(tr, c2)
  {
    var c3 := c2[base := Node(x, q, Root(tl), Root(tr))];
    var t := Fork(tl, base, tr);
    assert forall y :: 0 <= y < |c1| ==> c2[y] == c1[y] by {
      forall y | 0 <= y < |c1| ensures c2[y] == c1[y] {
        assert c2[..|c1|][y] == c2[y];
      }
    }
    AgreeOn(tl, c1, c3);
    Frame(tl, c1, c3);
    AgreeOn(tr, c2, c3);
    Frame(tr, c2, c3);
    assert tl.Fork? ==> tl.at in Nodes(tl);
    assert tr.Fork? ==> tr.at in Nodes(tr);
    assert Nodes(t) == Nodes(tl) + [base] + Nodes(tr);
  }

  // ------------------------------------------------------------------
  // erase: relinking around a removed node
  // ------------------------------------------------------------------

  /** Wired reads only the links of the cells. */
  lemma {:induction false} WiredLinks<V>(t: Tree, c: seq<Node<V>>, c': seq<Node<V>>)
    requires Wired(t, c) && |c'| == |c|
    requires forall i :: 0 <= i < |c| ==>
      c'[i].left == c[i].left && c'[i].right == c[i].right && c'[i].parent == c[i].parent
    ensures Wired(t, c')
  {
    if t.Fork? {
      WiredLinks(t.left, c, c');
      WiredLinks(t.right, c, c');
    }
  }

  /** Giving the root of t a new parent changes nothing t describes. */
  lemma Reparent<V>(t: Tree, c: seq<Node<V>>, q: int)
    requires t.Fork? && Within(t, |c|) && Wired(t, c) && Unique(t)
    ensures Wired(t, c[t.at := c[t.at].(parent := q)])
    ensures Items(t, c[t.at := c[t.at].(parent := q)]) == Items(t, c)
  {
    var c' := c[t.at := c[t.at].(parent := q)];
    WithinNodes(t.left, |c|);
    WithinNodes(t.right, |c|);
    AgreeOn(t.left, c, c');
    AgreeOn(t.right, c, c');
    assert t.left.Fork? ==> t.left.at in Nodes(t.left);
    assert t.right.Fork? ==> t.right.at in Nodes(t.right);
    Frame(t, c, c');
  }

  /** After erase rebuilt the left subtree of t as tl (on nodes of the old
      one, touching no other cell, and giving its root the old left root's
      parent), linking tl under the root of t makes a tree again. */
  lemma JoinLeft<V>(t: Tree, c: seq<Node<V>>, c1: seq<Node<V>>, tl: Tree)
    requires t.Fork? && Within(t, |c|) && Wired(t, c) && Unique(t) && |c1| == |c|
    requires Within(tl, |c1|) && Wired(tl, c1) && Unique(tl)
    requires forall x :: x in Nodes(tl) ==> x in Nodes(t.left)
    requires forall x :: 0 <= x < |c1| && x !in Nodes(t.left) ==> c1[x] == c[x]
    requires tl.Fork? ==> t.left.Fork? && t.left.at < |c| && c1[tl.at].parent == c[t.left.at].parent
    ensures var c2 := c1[t.at := c1[t.at].(left := Root(tl))];
      var t' := Fork(tl, t.at, t.right);
      Within(t', |c2|) && Wired(t', c2) && Unique(t') &&
      (forall x :: x in Nodes(t') ==> x in Nodes(t)) &&
      (forall x :: 0 <= x < |c2| && x !in Nodes(t) ==> c2[x] == c[x]) &&
      c2[t.at].parent == c[t.at].parent &&
      Items(t', c2) == Items(tl, c1) + [c[t.at].data] + Items(t.right, c)
  {
    var r := t.at;
    var c2 := c1[r := c1[r].(left := Root(tl))];
    assert r !in Nodes(tl);
    WithinNodes(tl, |c1|);
    AgreeOn(tl, c1, c2);
    Frame(tl, c1, c2);
    WithinNodes(t.right, |c|);
    AgreeOn(t.right, c, c2);
    Frame(t.right, c, c2);
    assert t.right.Fork? ==> t.right.at in Nodes(t.right);
  }

  /** The mirror image of JoinLeft. */
  lemma JoinRight<V>(t: Tree, c: seq<Node<V>>, c1: seq<Node<V>>, tr: Tree)
    requires t.Fork? && Within(t, |c|) && Wired(t, c) && Unique(t) && |c1| == |c|
    requires Within(tr, |c1|) && Wired(tr, c1) && Unique(tr)
    requires forall x :: x in Nodes(tr) ==> x in Nodes(t.right)
    requires forall x :: 0 <= x < |c1| && x !in Nodes(t.right) ==> c1[x] == c[x]
    requires tr.Fork? ==> t.right.Fork? && t.right.at < |c| && c1[tr.at].parent == c[t.right.at].parent
    ensures var c2 := c1[t.at := c1[t.at].(right := Root(tr))];
      var t' := Fork(t.left, t.at, tr);
      Within(t', |c2|) && Wired(t', c2) && Unique(t') &&
      (forall x :: x in Nodes(t') ==> x in Nodes(t)) &&
      (forall x :: 0 <= x < |c2| && x !in Nodes(t) ==> c2[x] == c[x]) &&
      c2[t.at].parent == c[t.at].parent &&
      Items(t', c2) == Items(t.left, c) + [c[t.at].data] + Items(tr, c1)
  {
    var r := t.at;
    var c2 := c1[r := c1[r].(right := Root(tr))];
    assert r !in Nodes(tr);
    WithinNodes(tr, |c1|);
    AgreeOn(tr, c1, c2);
    Frame(tr, c1, c2);
    WithinNodes(t.left, |c|);
    AgreeOn(t.left, c, c2);
    Frame(t.left, c, c2);
    assert t.left.Fork? ==> t.left.at in Nodes(t.left);
  }

  /** What deleteKey promises: t', rooted at nr, is t without the pair with
      the given key, built on nodes of t in an arena c' that differs from c
      only in cells of t, and nr took over r's parent. */
  ghost predicate Removed<V>(t: Tree, c: seq<Node<V>>, r: int, key: int, t': Tree, c': seq<Node<V>>, nr: int)
    requires Within(t, |c|) && r == Root(t)
  {
    |c'| == |c| && Within(t', |c'|) && Wired(t', c') && Unique(t') && nr == Root(t') &&
    (forall x :: x in Nodes(t') ==> x in Nodes(t)) &&
    (forall x :: 0 <= x < |c'| && x !in Nodes(t) ==> c'[x] == c[x]) &&
    (nr != NIL ==> r != NIL && c'[nr].parent == c[r].parent) &&
    Items(t', c') == Without(Items(t, c), key)
  }

  /** Overwriting the pair of the root of t leaves what its subtrees read
      and how t is linked unchanged. */
  lemma SuccessorCopied<V>(t: Tree, c: seq<Node<V>>, c': seq<Node<V>>)
    requires t.Fork? && Within(t, |c|) && Wired(t, c) && Unique(t) && |c'| == |c|
    requires forall i :: 0 <= i < |c| && i != t.at ==> c'[i] == c[i]
    requires c'[t.at].left == c[t.at].left && c'[t.at].right == c[t.at].right
    requires c'[t.at].parent == c[t.at].parent
    ensures Wired(t, c') && Wired(t.right, c') && Within(t.right, |c'|)
    ensures Items(t.left, c') == Items(t.left, c) && Items(t.right, c') == Items(t.right, c)
  {
    WiredLinks(t, c, c');
    WithinNodes(t.left, |c|);
    WithinNodes(t.right, |c|);
    AgreeOn(t.left, c, c');
    AgreeOn(t.right, c, c');
    Frame(t.left, c, c');
    Frame(t.right, c, c');
  }

  // ------------------------------------------------------------------
  // Positions: subtrees, their places in order, and parent links
  // ------------------------------------------------------------------

  /** The subtree of t rooted at node x. */
  ghost function Sub(t: Tree, x: nat): (s: Tree)
    requires x in Nodes(t)
    ensures s.Fork? && s.at == x
  {
    if x == t.at then t
    else if x in Nodes(t.left) then Sub(t.left, x)
    else Sub(t.right, x)
  }

  /** Where the nodes of Sub(t, x) start in the in-order nodes of t. */
  ghost function Off(t: Tree, x: nat): nat
    requires x in Nodes(t)
  {
    if x == t.at then 0
    else if x in Nodes(t.left) then Off(t.left, x)
    else |Nodes(t.left)| + 1 + Off(t.right, x)
  }

  /** The nodes of a subtree are a contiguous run of the nodes of t. */
  lemma {:induction false} SubShape(t: Tree, x: nat)
    requires x in Nodes(t)
    ensures Off(t, x) + |Nodes(Sub(t, x))| <= |Nodes(t)|
    ensures Nodes(t)[Off(t, x)..Off(t, x) + |Nodes(Sub(t, x))|] == Nodes(Sub(t, x))
  {
    if x == t.at {
      SubRoot(t);
    } else if x in Nodes(t.left) {
      SubShape(t.left, x);
      SubLeft(t, x);
    } else {
      SubShape(t.right, x);
      SubRight(t, x);
    }
  }

  /** SubShape at the root. */
  lemma SubRoot(t: Tree)
    requires t.Fork?
    ensures t.at in Nodes(t) && Sub(t, t.at) == t && Off(t, t.at) == 0
    ensures Nodes(t)[0..|Nodes(t)|] == Nodes(t)
  {
  }

  /** SubShape for a node of the left subtree. */
  lemma SubLeft(t: Tree, x: nat)
    requires t.Fork? && x != t.at && x in Nodes(t.left)
    requires Off(t.left, x) + |Nodes(Sub(t.left, x))| <= |Nodes(t.left)|
    requires Nodes(t.left)[Off(t.left, x)..Off(t.left, x) + |Nodes(Sub(t.left, x))|] == Nodes(Sub(t.left, x))
    ensures x in Nodes(t) && Sub(t, x) == Sub(t.left, x) && Off(t, x) == Off(t.left, x)
    ensures Off(t, x) + |Nodes(Sub(t, x))| <= |Nodes(t)|
    ensures Nodes(t)[Off(t, x)..Off(t, x) + |Nodes(Sub(t, x))|] == Nodes(Sub(t, x))
  {
    SliceLeft(Nodes(t.left), t.at, Nodes(t.right), Off(t.left, x), Nodes(Sub(t.left, x)));
  }

  /** SubShape for a node of the right subtree. */
  lemma SubRight(t: Tree, x: nat)
    requires t.Fork? && x != t.at && x !in Nodes(t.left) && x in Nodes(t.right)
    requires Off(t.right, x) + |Nodes(Sub(t.right, x))| <= |Nodes(t.right)|
    requires Nodes(t.right)[Off(t.right, x)..Off(t.right, x) + |Nodes(Sub(t.right, x))|] == Nodes(Sub(t.right, x))
    ensures x in Nodes(t) && Sub(t, x) == Sub(t.right, x) && Off(t, x) == |Nodes(t.left)| + 1 + Off(t.right, x)
    ensures Off(t, x) + |Nodes(Sub(t, x))| <= |Nodes(t)|
    ensures Nodes(t)[Off(t, x)..Off(t, x) + |Nodes(Sub(t, x))|] == Nodes(Sub(t, x))
  {
    SliceRight(Nodes(t.left), t.at, Nodes(t.right), Off(t.right, x), Nodes(Sub(t.right, x)));
  }

  /** A run inside the left part of L + [a] + R. */
  lemma SliceLeft(L: seq<nat>, a: nat, R: seq<nat>, o: nat, S: seq<nat>)
    requires o + |S| <= |L| && L[o..o + |S|] == S
    ensures (L + [a] + R)[o..o + |S|] == S
  {
    assert (L + [a] + R)[..|L|] == L;
  }

  /** A run inside the right part of L + [a] + R. */
  lemma SliceRight(L: seq<nat>, a: nat, R: seq<nat>, o: nat, S: seq<nat>)
    requires o + |S| <= |R| && R[o..o + |S|] == S
    ensures (L + [a] + R)[|L| + 1 + o..|L| + 1 + o + |S|] == S
  {
    assert (L + [a] + R)[|L| + 1..] == R;
  }

  /** A subtree of a tree without repetitions has none. */
  lemma {:induction false} SubUnique(t: Tree, x: nat)
    requires Unique(t) && x in Nodes(t)
    ensures Unique(Sub(t, x))
  {
    if x != t.at {
      if x in Nodes(t.left) {
        SubUnique(t.left, x);
      } else {
        SubUnique(t.right, x);
      }
    }
  }

  /** A subtree of a linked tree is linked. */
  lemma {:induction false} SubWired<V>(t: Tree, c: seq<Node<V>>, x: nat)
    requires Within(t, |c|) && Wired(t, c) && x in Nodes(t)
    ensures Within(Sub(t, x), |c|) && Wired(Sub(t, x), c)
  {
    if x != t.at {
      if x in Nodes(t.left) {
        SubWired(t.left, c, x);
      } else {
        SubWired(t.right, c, x);
      }
    }
  }

  /** The node at position i of t sits after the left subtree of its own
      subtree. */
  lemma SubAt(t: Tree, i: nat)
    requires Unique(t) && i < |Nodes(t)|
    ensures Off(t, Nodes(t)[i]) + |Nodes(Sub(t, Nodes(t)[i]).left)| == i
  {
    var x := Nodes(t)[i];
    SubShape(t, x);
    UniqueDistinct(t);
    var S, o := Sub(t, x), Off(t, x);
    assert Nodes(S)[|Nodes(S.left)|] == x;
    assert Nodes(t)[o + |Nodes(S.left)|] == x;
  }

  /** The parent link of a node other than the root leads to the node whose
      subtree has x's subtree on exactly one side, and says where the two
      subtrees start relative to each other. */
  lemma {:induction false} ParentLemma<V>(t: Tree, c: seq<Node<V>>, x: nat)
    requires Within(t, |c|) && Wired(t, c) && Unique(t) && x in Nodes(t) && x != t.at
    ensures x < |c| && 0 <= c[x].parent < |c| && c[x].parent in Nodes(t)
    ensures var p := c[x].parent;
      (c[p].left == x && c[p].right != x && Sub(t, p).left == Sub(t, x) && Off(t, x) == Off(t, p)) ||
      (c[p].right == x && c[p].left != x && Sub(t, p).right == Sub(t, x) &&
       Off(t, x) == Off(t, p) + |Nodes(Sub(t, p).left)| + 1)
  {
    WithinNodes(t, |c|);
    if x in Nodes(t.left) {
      if x == t.left.at {
        assert c[t.at].right != x by {
          if t.right.Fork? { assert t.right.at in Nodes(t.right); }
        }
        assert Sub(t.left, x) == t.left && Sub(t, x) == t.left;
        assert Off(t, x) == 0 && Sub(t, t.at) == t && Off(t, t.at) == 0;
      } else {
        ParentLemma(t.left, c, x);
      }
    } else {
      if x == t.right.at {
        assert c[t.at].left != x by {
          if t.left.Fork? { assert t.left.at in Nodes(t.left); }
        }
        assert Sub(t.right, x) == t.right && Sub(t, x) == t.right;
        assert Off(t.right, x) == 0 && Sub(t, t.at) == t && Off(t, t.at) == 0;
      } else {
        ParentLemma(t.right, c, x);
      }
    }
  }

  /** What the parent link of a node of t holds, when t's root has none:
      nullptr exactly at the root, a node of t elsewhere. */
  lemma ParentFacts<V>(t: Tree, c: seq<Node<V>>, x: nat)
    requires t.Fork? && Within(t, |c|) && Wired(t, c) && Unique(t) && x in Nodes(t)
    requires c[t.at].parent == NIL
    ensures x < |c| && (c[x].parent == NIL <==> x == t.at)
    ensures c[x].parent != NIL ==> 0 <= c[x].parent < |c| && c[x].parent in Nodes(t)
  {
    WithinNodes(t, |c|);
    if x != t.at {
      ParentLemma(t, c, x);
    }
  }

  /** The climb of operator++ starts at a node without a right subtree:
      its subtree ends at its own position. */
  lemma ClimbStart<V>(t: Tree, c: seq<Node<V>>, i: nat)
    requires t.Fork? && Within(t, |c|) && Wired(t, c) && Unique(t) && i < |Nodes(t)|
    requires c[t.at].parent == NIL
    requires Nodes(t)[i] < |c| && c[Nodes(t)[i]].right == NIL
    ensures var x := Nodes(t)[i];
      (c[x].parent == NIL <==> x == t.at) &&
      (c[x].parent != NIL ==> 0 <= c[x].parent < |c|) &&
      Off(t, x) + |Nodes(Sub(t, x))| == i + 1
  {
    var x := Nodes(t)[i];
    ParentFacts(t, c, x);
    SubWired(t, c, x);
    SubAt(t, i);
  }

  /** One step of the climb, from a right child to its parent: the parent's
      subtree still ends at position i. */
  lemma Climb<V>(t: Tree, c: seq<Node<V>>, x: nat, i: nat)
    requires t.Fork? && Within(t, |c|) && Wired(t, c) && Unique(t) && c[t.at].parent == NIL
    requires x in Nodes(t) && x < |c| && 0 <= c[x].parent < |c| && c[c[x].parent].right == x
    requires Off(t, x) + |Nodes(Sub(t, x))| == i + 1
    ensures var p := c[x].parent;
      p in Nodes(t) && Off(t, p) + |Nodes(Sub(t, p))| == i + 1 &&
      |Nodes(Sub(t, x))| < |Nodes(Sub(t, p))| <= |Nodes(t)| &&
      (c[p].parent == NIL <==> p == t.at) && (c[p].parent != NIL ==> 0 <= c[p].parent < |c|)
  {
    ParentLemma(t, c, x);
    var p := c[x].parent;
    SubShape(t, p);
    ParentFacts(t, c, p);
  }

  /** The climb stops below a node reached from its left: that node comes
      right after position i. */
  lemma ClimbEnd<V>(t: Tree, c: seq<Node<V>>, x: nat, i: nat)
    requires t.Fork? && Within(t, |c|) && Wired(t, c) && Unique(t)
    requires x in Nodes(t) && x != t.at && x < |c| && 0 <= c[x].parent < |c| && c[c[x].parent].right != x
    requires Off(t, x) + |Nodes(Sub(t, x))| == i + 1
    ensures i + 1 < |Nodes(t)| && Nodes(t)[i + 1] == c[x].parent
  {
    ParentLemma(t, c, x);
    var p := c[x].parent;
    SubShape(t, p);
    assert Nodes(Sub(t, p))[|Nodes(Sub(t, p).left)|] == p;
  }

  /** The node link of position i of the in-order walk of t: the i-th node,
      or nullptr one past the last. */
  ghost function Slot(t: Tree, i: nat): int
  {
    if i < |Nodes(t)| then Nodes(t)[i] else NIL
  }

  /** ConstIterator::operator==: two positions of a walk over a tree without
      repetitions hold the same link exactly when they are the same. */
  lemma SlotsDiffer(t: Tree, i: nat, j: nat)
    requires Unique(t) && i <= |Nodes(t)| && j <= |Nodes(t)|
    ensures Slot(t, i) == Slot(t, j) <==> i == j
  {
    UniqueDistinct(t);
  }

  /** The key list of a non-empty run ends with the run's last key. */
  lemma RunLast<V>(s: seq<Pair<V>>, i: nat, m: nat)
    requires 0 < m && i + m <= |s|
    ensures KeyList(s[i..i + m])[m - 1] == s[i + m - 1].key
    ensures KeyList(s[i..i + m])[..m - 1] == KeyList(s[i..i + m - 1])
  {
    var x := s[i..i + m];
    assert x[..m - 1] == s[i..i + m - 1];
  }

  /** Erasing the key of the last pair of a run removes that pair. */
  lemma EraseLast<V>(s: seq<Pair<V>>, i: nat, m: nat, k: int)
    requires Ascending(s) && 0 < m && i + m <= |s| && k == s[i + m - 1].key
    ensures Without(s, k) == s[..i + m - 1] + s[i + m..]
  {
    WithoutAt(s, i + m - 1);
  }

  /** The last key read from a run is the key of its last pair. */
  lemma LastKey<V>(s: seq<Pair<V>>, i: nat, m: nat, ks: seq<int>)
    requires 0 < m && i + m <= |s| && ks == KeyList(s[i..i + m])
    ensures |ks| == m && ks[m - 1] == s[i + m - 1].key
  {
    RunLast(s, i, m);
  }

  /** Dropping the last pair of a run leaves the rest of the run, and the
      keys of the rest, in place. */
  lemma RunDrop<V>(s: seq<Pair<V>>, u: seq<Pair<V>>, i: nat, m: nat, ks: seq<int>)
    requires 0 < m && i + m <= |s| && u == s[..i + m - 1] + s[i + m..]
    requires ks == KeyList(s[i..i + m])
    ensures i + m - 1 <= |u| && ks[..m - 1] == KeyList(u[i..i + m - 1])
    ensures u[..i] + u[i + m - 1..] == s[..i] + s[i + m..]
  {
    RunLast(s, i, m);
    assert u[i..i + m - 1] == s[i..i + m - 1];
    assert u[..i] == s[..i] && u[i + m - 1..] == s[i + m..];
  }

  // ------------------------------------------------------------------
  // The dictionary
  // ------------------------------------------------------------------

  class Dictionary<V> {
    /** The nodes; a node's index is its address. */
    var cells: seq<Node<V>>
    var root: int                  // m_Root
    ghost var shape: Tree

    /** The links describe `shape`, a tree whose in-order pairs have
        strictly ascending keys, rooted at m_Root, whose root has no parent. */
    ghost predicate Valid()
      reads this
    {
      Within(shape, |cells|) && Wired(shape, cells) && Unique(shape) &&
      root == Root(shape) && (root != NIL ==> 0 <= root < |cells| && cells[root].parent == NIL) &&
      Ascending(Items(shape, cells))
    }

    /** The pairs in key order: what iterating from begin() to end() reads. */
    ghost function Contents(): seq<Pair<V>>
      reads this
      requires Valid()
    {
      Items(shape, cells)
    }

    /** Dictionary(): no nodes. */
    constructor ()
      ensures Valid() && Contents() == []
    {
      cells, root, shape := [], NIL, Nil;
    }

    /** findKey(key): walks down from the root, left when the key is smaller
        than the node's and right when greater; the node holding the key, or
        nullptr. */
    method FindKey(key: int) returns (n: int)
      requires Valid()
      ensures n == NIL <==> key !in Keys(Contents())
      ensures n != NIL ==> 0 <= n < |cells| && n in Nodes(shape) && cells[n].data.key == key
    {
      n := root;
      ghost var v := shape;
      while n != NIL && cells[n].data.key != key
        invariant Within(v, |cells|) && Wired(v, cells) && n == Root(v)
        invariant Ascending(Items(v, cells))
        invariant forall x :: x in Nodes(v) ==> x in Nodes(shape)
        invariant key in Keys(Contents()) <==> key in Keys(Items(v, cells))
        decreases v
      {
        Descend(v, cells, key);
        if key < cells[n].data.key {
          n, v := cells[n].left, v.left;
        } else {
          n, v := cells[n].right, v.right;
        }
      }
      if n == NIL {
        assert Items(v, cells) == [];
      } else {
        assert Items(v, cells)[|Items(v.left, cells)|].key == key;
      }
    }

    /** contains(key). */
    method Contains(key: int) returns (b: bool)
      requires Valid()
      ensures b <==> key in Keys(Contents())
    {
      var n := FindKey(key);
      b := n != NIL;
    }

    /** The walk add makes: down from the root as a search for key, to the
        last node of the path. */
    method SearchEnd(key: int) returns (p: int)
      requires Valid() && root != NIL
      ensures p == Leaf(shape, cells, key)
    {
      p := root;
      ghost var v := shape;
      var next := if key < cells[p].data.key then cells[p].left else cells[p].right;
      while next != NIL
        invariant v.Fork? && p == v.at && Within(v, |cells|) && Wired(v, cells)
        invariant Leaf(v, cells, key) == Leaf(shape, cells, key)
        invariant next == if key < cells[p].data.key then cells[p].left else cells[p].right
        decreases v
      {
        v := if key < cells[p].data.key then v.left else v.right;
        p := next;
        next := if key < cells[p].data.key then cells[p].left else cells[p].right;
      }
    }

    /** add(key, value): a present key takes the new value in its node;
        otherwise a new node holding the pair is hung under the node where
        a search for key ends. */
    method Add(key: int, value: V)
      requires Valid()
      modifies this
      ensures Valid() && Contents() == Put(old(Contents()), Pair(key, value))
    {
      var n := FindKey(key);
      if n == NIL {
        InsertNew(key, value);
      } else {
        Overwrite(n, Pair(key, value));
      }
    }

    /** Gives the node n, which holds p's key, the pair p. */
    method Overwrite(n: int, p: Pair<V>)
      requires Valid() && 0 <= n < |cells| && n in Nodes(shape) && cells[n].data.key == p.key
      modifies this`cells
      ensures Valid() && Contents() == Replace(old(Contents()), p)
    {
      ghost var s := Contents();
      ghost var c0 := cells;
      ghost var i :| 0 <= i < |Nodes(shape)| && Nodes(shape)[i] == n;
      ItemsAt(shape, cells, i);
      ItemsUpdate(shape, cells, i, n, p);
      ReplaceAt(s, i, p);
      OverwriteKeeps(s, i, p);
      cells := cells[n := cells[n].(data := p)];
      WiredLinks(shape, c0, cells);
      assert Items(shape, cells) == s[i := p];
    }

    /** Hangs a new node holding Pair(key, value) under the node where a
        search for key ends, on the side the comparison picks. */
    method InsertNew(key: int, value: V)
      requires Valid() && key !in Keys(Contents())
      modifies this
      ensures Valid() && Contents() == InsertSorted(old(Contents()), Pair(key, value))
    {
      var x := Pair(key, value);
      ghost var c0, t0 := cells, shape;
      InsShape(t0, c0, key);
      if root == NIL {
        cells := cells + [Node(x, NIL, NIL, NIL)];
        root := |cells| - 1;
      } else {
        var p := SearchEnd(key);
        InsWired(t0, c0, x);
        cells := Attach(cells, p, x);
      }
      shape := Ins(t0, c0, key, |c0|);
      InsItems(t0, c0, cells, x);
      InsertSortedKeeps(Items(t0, c0), x);
    }

    /** The leftmost node of the subtree t rooted at r: the first node of
        t in order. */
    method Leftmost(ghost t: Tree, r: int) returns (m: int)
      requires t.Fork? && r == t.at && Within(t, |cells|) && Wired(t, cells)
      ensures 0 <= m < |cells| && m == Nodes(t)[0] && cells[m].left == NIL
    {
      m := r;
      ghost var v := t;
      while cells[m].left != NIL
        invariant v.Fork? && m == v.at && Within(v, |cells|) && Wired(v, cells)
        invariant Nodes(v)[0] == Nodes(t)[0]
        decreases v
      {
        v, m := v.left, cells[m].left;
      }
    }

    /** deleteKey(root, key): removes the node holding key from the subtree
        t rooted at r and returns the root of what is left; only cells of t
        change. */
    method DeleteKey(ghost t: Tree, r: int, key: int) returns (nr: int, ghost t': Tree)
      requires Within(t, |cells|) && Wired(t, cells) && Unique(t) && r == Root(t)
      requires Ascending(Items(t, cells))
      modifies this`cells
      ensures Removed(t, old(cells), r, key, t', cells, nr)
      decreases t, 1
    {
      if r == NIL {
        return NIL, Nil;
      }
      AscendingSplit(Items(t.left, cells), cells[r].data, Items(t.right, cells));
      if key < cells[r].data.key {
        nr, t' := DeleteLeft(t, r, key);
      } else if cells[r].data.key < key {
        nr, t' := DeleteRight(t, r, key);
      } else if cells[r].left == NIL || cells[r].right == NIL {
        nr, t' := Unlink(t, r);
      } else {
        nr, t' := ReplaceBySuccessor(t, r);
      }
    }

    /** deleteKey when the key is smaller than the root's: delete it from the
        left subtree and link what is left there. */
    method DeleteLeft(ghost t: Tree, r: int, key: int) returns (nr: int, ghost t': Tree)
      requires t.Fork? && Within(t, |cells|) && Wired(t, cells) && Unique(t) && r == t.at
      requires Ascending(Items(t.left, cells)) && key < cells[r].data.key
      requires forall i :: 0 <= i < |Items(t.right, cells)| ==> cells[r].data.key < Items(t.right, cells)[i].key
      modifies this`cells
      ensures Removed(t, old(cells), r, key, t', cells, nr)
      decreases t, 0
    {
      ghost var c0 := cells;
      var nl, tl := DeleteKey(t.left, cells[r].left, key);
      JoinLeft(t, c0, cells, tl);
      cells := cells[r := cells[r].(left := nl)];
      nr, t' := r, Fork(tl, r, t.right);
      WithoutLeftJoin(Items(t.left, c0), c0[r].data, Items(t.right, c0), key);
    }

    /** deleteKey when the key is greater than the root's. */
    method DeleteRight(ghost t: Tree, r: int, key: int) returns (nr: int, ghost t': Tree)
      requires t.Fork? && Within(t, |cells|) && Wired(t, cells) && Unique(t) && r == t.at
      requires Ascending(Items(t.right, cells)) && cells[r].data.key < key
      requires forall i :: 0 <= i < |Items(t.left, cells)| ==> Items(t.left, cells)[i].key < cells[r].data.key
      modifies this`cells
      ensures Removed(t, old(cells), r, key, t', cells, nr)
      decreases t, 0
    {
      ghost var c0 := cells;
      var nrr, tr := DeleteKey(t.right, cells[r].right, key);
      JoinRight(t, c0, cells, tr);
      cells := cells[r := cells[r].(right := nrr)];
      nr, t' := r, Fork(t.left, r, tr);
      WithoutRightJoin(Items(t.left, c0), c0[r].data, Items(t.right, c0), key);
    }

    /** deleteKey at a node with at most one child: the child (or nullptr)
        takes the node's place and its parent. */
    method Unlink(ghost t: Tree, r: int) returns (nr: int, ghost t': Tree)
      requires t.Fork? && Within(t, |cells|) && Wired(t, cells) && Unique(t) && r == t.at
      requires Ascending(Items(t, cells)) && (cells[r].left == NIL || cells[r].right == NIL)
      modifies this`cells
      ensures Removed(t, old(cells), r, old(cells[r].data.key), t', cells, nr)
    {
      WithoutRoot(Items(t.left, cells), cells[r].data, Items(t.right, cells));
      nr, t' := cells[r].right, t.right;
      if cells[r].right == NIL {
        nr, t' := cells[r].left, t.left;
      }
      if nr != NIL {
        Reparent(t', cells, cells[r].parent);
        WithinNodes(t', |cells|);
        cells := cells[nr := cells[nr].(parent := cells[r].parent)];
      }
    }

    /** deleteKey at a node with two children: the node takes over the pair
        of its in-order successor, which is then deleted from the right
        subtree. */
    method ReplaceBySuccessor(ghost t: Tree, r: int) returns (nr: int, ghost t': Tree)
      requires t.Fork? && Within(t, |cells|) && Wired(t, cells) && Unique(t) && r == t.at
      requires Ascending(Items(t, cells)) && cells[r].left != NIL && cells[r].right != NIL
      modifies this`cells
      ensures Removed(t, old(cells), r, old(cells[r].data.key), t', cells, nr)
      decreases t, 0
    {
      ghost var c0 := cells;
      ghost var L, y, R := Items(t.left, c0), c0[r].data, Items(t.right, c0);
      WithoutSuccessor(L, y, R);
      var next := CopySuccessor(t, r);
      ghost var cA := cells;
      SuccessorCopied(t, c0, cA);
      var nrr, tr := DeleteKey(t.right, cells[r].right, next);
      JoinRight(t, cA, cells, tr);
      cells := cells[r := cells[r].(right := nrr)];
      nr, t' := r, Fork(t.left, r, tr);
    }

    /** The first half of ReplaceBySuccessor: the pair of the leftmost node
        of the right subtree is copied into the root of t. */
    method CopySuccessor(ghost t: Tree, r: int) returns (next: int)
      requires t.Fork? && Within(t, |cells|) && Wired(t, cells) && r == t.at && cells[r].right != NIL
      modifies this`cells
      ensures Items(t.right, old(cells)) != [] && next == Items(t.right, old(cells))[0].key
      ensures cells == old(cells)[r := old(cells[r]).(data := Items(t.right, old(cells))[0])]
    {
      var m := Leftmost(t.right, cells[r].right);
      ItemsAt(t.right, cells, 0);
      next := cells[m].data.key;
      cells := cells[r := cells[r].(data := cells[m].data)];
    }

    /** erase(key): removes the pair with the given key; nothing changes
        when no pair has it. */
    method Erase(key: int)
      requires Valid()
      modifies this
      ensures Valid() && Contents() == Without(old(Contents()), key)
    {
      ghost var t;
      root, t := DeleteKey(shape, root, key);
      shape := t;
      WithoutKeeps(old(Contents()), key);
    }

    /** it stands at position i of the in-order walk: on the i-th node, or
        on nullptr one past the last. */
    ghost predicate Points(it: ConstIterator, i: nat)
      reads this
    {
      i <= |Nodes(shape)| && it.node == Slot(shape, i)
    }

    /** begin(): the leftmost node, or end() when there is none. */
    method Begin() returns (it: ConstIterator)
      requires Valid()
      ensures Points(it, 0)
    {
      if root == NIL {
        return ConstIterator(NIL);
      }
      var m := Leftmost(shape, root);
      it := ConstIterator(m);
    }

    /** end(). */
    method End() returns (it: ConstIterator)
      requires Valid()
      ensures Points(it, |Contents()|)
    {
      it := ConstIterator(NIL);
    }

    /** ConstIterator::operator++: to the leftmost node of the right subtree
        when there is one; otherwise up the parent links while coming from
        a right child, to the first ancestor reached from its left, or to
        nullptr past the root. */
    method Next(it: ConstIterator, ghost i: nat) returns (r: ConstIterator)
      requires Valid() && i < |Contents()| && Points(it, i)
      ensures Points(r, i + 1)
    {
      WithinNodes(shape, |cells|);
      assert Nodes(shape)[i] in Nodes(shape);
      if cells[it.node].right != NIL {
        r := NextDown(it.node, i);
      } else {
        r := NextUp(it.node, i);
      }
    }

    /** operator++ from a node with a right subtree: its leftmost node. */
    method NextDown(x: int, ghost i: nat) returns (r: ConstIterator)
      requires Valid() && i < |Nodes(shape)| && x == Nodes(shape)[i]
      requires x < |cells| && cells[x].right != NIL
      ensures Points(r, i + 1)
    {
      SubShape(shape, x);
      SubWired(shape, cells, x);
      SubAt(shape, i);
      ghost var S := Sub(shape, x);
      var m := Leftmost(S.right, cells[x].right);
      assert Nodes(S)[|Nodes(S.left)| + 1] == m;
      r := ConstIterator(m);
    }

    /** operator++ from a node without a right subtree: the climb. */
    method NextUp(x: int, ghost i: nat) returns (r: ConstIterator)
      requires Valid() && i < |Nodes(shape)| && x == Nodes(shape)[i]
      requires x < |cells| && cells[x].right == NIL
      ensures Points(r, i + 1)
    {
      ClimbStart(shape, cells, i);
      var cur, p := x, cells[x].parent;
      while p != NIL && cells[p].right == cur
        invariant cur in Nodes(shape) && cur < |cells| && p == cells[cur].parent
        invariant p == NIL <==> cur == shape.at
        invariant p != NIL ==> 0 <= p < |cells|
        invariant Off(shape, cur) + |Nodes(Sub(shape, cur))| == i + 1
        decreases |Nodes(shape)| - |Nodes(Sub(shape, cur))|
      {
        Climb(shape, cells, cur, i);
        cur := p;
        p := cells[cur].parent;
      }
      if p == NIL {
        SubRoot(shape);
        return ConstIterator(NIL);
      }
      ClimbEnd(shape, cells, cur, i);
      r := ConstIterator(p);
    }

    /** ConstIterator::operator*: the value at the iterator. */
    method Deref(it: ConstIterator, ghost i: nat) returns (v: V)
      requires Valid() && i < |Contents()| && Points(it, i)
      ensures v == Contents()[i].value
    {
      ItemsAt(shape, cells, i);
      v := cells[it.node].data.value;
    }

    /** find(key): the iterator at the node holding key, or end(). */
    method Find(key: int) returns (it: ConstIterator)
      requires Valid()
      ensures key !in Keys(Contents()) ==> Points(it, |Contents()|)
      ensures key in Keys(Contents()) ==>
        exists i :: 0 <= i < |Contents()| && Points(it, i) && Contents()[i].key == key
    {
      var n := FindKey(key);
      it := ConstIterator(n);
      if n != NIL {
        ghost var i :| 0 <= i < |Nodes(shape)| && Nodes(shape)[i] == n;
        ItemsAt(shape, cells, i);
        assert Points(it, i);
      }
    }

    /** A range-for over the dictionary: from begin() to end(), reading
        operator* and stepping with operator++. */
    method Walk() returns (vs: seq<V>)
      requires Valid()
      ensures vs == Values(Contents())
    {
      ghost var s := Contents();
      ghost var n := |Nodes(shape)|;
      var it := Begin();
      var e := End();
      ghost var i := 0;
      SlotsDiffer(shape, i, n);
      vs := [];
      while it != e
        invariant i <= n && Points(it, i) && (it == e <==> i == n)
        invariant |s| == n && vs == Values(s[..i])
        decreases n - i
      {
        var v := Deref(it, i);
        it := Next(it, i);
        ValuesPrefix(s, i);
        vs := vs + [v];
        i := i + 1;
        SlotsDiffer(shape, i, n);
      }
      assert s[..i] == s;
    }

    /** erase(pos): removes the pair at the iterator, by its key. */
    method EraseAt(pos: ConstIterator, ghost i: nat)
      requires Valid() && i < |Contents()| && Points(pos, i)
      modifies this
      ensures Valid() && Contents() == old(Contents())[..i] + old(Contents())[i + 1..]
    {
      ItemsAt(shape, cells, i);
      var key := cells[pos.node].data.key;
      WithoutAt(Contents(), i);
      Erase(key);
    }

    /** The keys from first up to, not including, last, read by walking
        with operator++. */
    method KeysBetween(first: ConstIterator, last: ConstIterator, ghost i: nat, ghost j: nat)
      returns (ks: seq<int>)
      requires Valid() && i <= j <= |Contents()| && Points(first, i) && Points(last, j)
      ensures ks == KeyList(Contents()[i..j])
    {
      ghost var s := Contents();
      ghost var m := i;
      SlotsDiffer(shape, m, j);
      ks := [];
      var it := first;
      while it != last
        invariant i <= m <= j && Points(it, m) && (it == last <==> m == j)
        invariant ks == KeyList(s[i..m])
        decreases j - m
      {
        ItemsAt(shape, cells, m);
        var key := cells[it.node].data.key;
        it := Next(it, m);
        KeyListSnoc(s, i, m);
        ks := ks + [key];
        m := m + 1;
        SlotsDiffer(shape, m, j);
      }
    }

    /** erase(first, last): removes the pairs from first up to, not
        including, last. The keys of the run are read first, then erased
        one by one. */
    method EraseRange(first: ConstIterator, last: ConstIterator, ghost i: nat, ghost j: nat)
      requires Valid() && i <= j <= |Contents()| && Points(first, i) && Points(last, j)
      modifies this
      ensures Valid() && Contents() == old(Contents())[..i] + old(Contents())[j..]
    {
      var ks := KeysBetween(first, last, i, j);
      EraseKeys(ks, i);
    }

    /** Erases the keys ks, the keys of the run of pairs starting at
        position i, last one first. */
    method EraseKeys(ks: seq<int>, ghost i: nat)
      requires Valid() && i + |ks| <= |Contents()| && ks == KeyList(Contents()[i..i + |ks|])
      modifies this
      ensures Valid() && Contents() == old(Contents())[..i] + old(Contents())[i + |ks|..]
      decreases |ks|
    {
      if ks != [] {
        ghost var s := Contents();
        var m := |ks|;
        LastKey(s, i, m, ks);
        EraseLast(s, i, m, ks[m - 1]);
        Erase(ks[m - 1]);
        ghost var u := Contents();
        RunDrop(s, u, i, m, ks);
        EraseKeys(ks[..m - 1], i);
      }
    }


    /** size(root): the number of nodes of the subtree t at r, by recursion. */
    method CountNodes(ghost t: Tree, r: int) returns (n: nat)
      requires Within(t, |cells|) && Wired(t, cells) && r == Root(t)
      ensures n == |Nodes(t)|
      decreases t
    {
      if r == NIL {
        return 0;
      }
      var a := CountNodes(t.left, cells[r].left);
      var b := CountNodes(t.right, cells[r].right);
      n := a + 1 + b;
    }

    /** size(). */
    method Size() returns (n: nat)
      requires Valid()
      ensures n == |Contents()|
    {
      n := CountNodes(shape, root);
    }

    /** isEmpty(). */
    method IsEmpty() returns (b: bool)
      requires Valid()
      ensures b <==> Contents() == []
    {
      b := root == NIL;
    }

    /** clear(): deleteTree(m_Root) drops every node. */
    method Clear()
      requires Valid()
      modifies this
      ensures Valid() && Contents() == []
    {
      cells, root, shape := [], NIL, Nil;
    }

    /** swap(other): the two dictionaries exchange their trees. */
    method Swap(other: Dictionary<V>)
      requires Valid() && other.Valid()
      modifies this, other
      ensures Valid() && other.Valid()
      ensures Contents() == old(other.Contents()) && other.Contents() == old(Contents())
    {
      var c, r := cells, root;
      ghost var t := shape;
      cells, root, shape := other.cells, other.root, other.shape;
      other.cells, other.root, other.shape := c, r, t;
    }

    /** Dictionary(std::initializer_list<Pair>): adds the pairs in order, so
        that a key given twice keeps the value given last. */
    constructor FromPairs(ps: seq<Pair<V>>)
      ensures Valid() && Contents() == Build(ps)
    {
      cells, root, shape := [], NIL, Nil;
      new;
      var n := 0;
      while n < |ps|
        invariant n <= |ps| && Valid() && Contents() == Build(ps[..n])
      {
        Add(ps[n].key, ps[n].value);
        assert ps[..n + 1][..n] == ps[..n];
        n := n + 1;
      }
      assert ps[..n] == ps;
    }

    /** copy(root, otherRoot): clones the subtree t of the arena src, rooted
        at r, into new cells appended to this arena, node before its left
        clone before its right clone; the clone's root gets the parent q. */
    method CopyTree(ghost t: Tree, r: int, src: seq<Node<V>>, q: int) returns (nr: int, ghost t': Tree)
      requires Within(t, |src|) && Wired(t, src) && r == Root(t)
      modifies this`cells
      ensures |cells| == old(|cells|) + |Nodes(t)| && cells[..old(|cells|)] == old(cells)
      ensures Within(t', |cells|) && Wired(t', cells) && Unique(t') && nr == Root(t')
      ensures Between(t', old(|cells|), |cells|)
      ensures nr != NIL ==> 0 <= nr < |cells| && cells[nr].parent == q
      ensures Items(t', cells) == Items(t, src)
      decreases t
    {
      if r == NIL {
        return NIL, Nil;
      }
      var base := |cells|;
      var x := src[r].data;
      cells := cells + [Node(x, q, NIL, NIL)];
      ghost var c0 := cells;
      var l, rr;
      ghost var tl, tr;
      l, tl := CopyTree(t.left, src[r].left, src, base);
      ghost var c1 := cells;
      rr, tr := CopyTree(t.right, src[r].right, src, base);
      ghost var c2 := cells;
      assert c2[..|c0|] == c1[..|c0|] == c0 by {
        assert c2[..|c0|] == c2[..|c1|][..|c0|];
      }
      cells := cells[base := Node(x, q, l, rr)];
      Graft(tl, tr, base, c1, c2, x, q);
      nr, t' := base, Fork(tl, base, tr);
      assert cells[..base] == c0[..base];
    }

    /** Dictionary(const Dictionary&): a clone of other's tree. */
    constructor Copy(other: Dictionary<V>)
      requires other.Valid()
      ensures Valid() && Contents() == other.Contents()
    {
      cells, root, shape := [], NIL, Nil;
      new;
      var r;
      ghost var t;
      r, t := CopyTree(other.shape, other.root, other.cells, NIL);
      root, shape := r, t;
    }

    /** operator=(const Dictionary&): unless other is this dictionary, drops
        the own tree and clones other's. */
    method CopyAssign(other: Dictionary<V>)
      requires Valid() && other.Valid()
      modifies this
      ensures Valid() && Contents() == old(other.Contents())
    {
      if other != this {
        cells := [];
        var r;
        ghost var t;
        r, t := CopyTree(other.shape, other.root, other.cells, NIL);
        root, shape := r, t;
      }
    }

    /** Dictionary(Dictionary&&): takes other's tree and leaves other empty. */
    constructor Move(other: Dictionary<V>)
      requires other.Valid()
      modifies other
      ensures Valid() && Contents() == old(other.Contents())
      ensures other.Valid() && other.Contents() == []
    {
      cells, root, shape := other.cells, other.root, other.shape;
      new;
      other.cells, other.root, other.shape := [], NIL, Nil;
    }

    /** operator=(Dictionary&&): unless other is this dictionary, drops the
        own tree, takes other's and leaves other empty. */
    method MoveAssign(other: Dictionary<V>)
      requires Valid() && other.Valid()
      modifies this, other
      ensures Valid()
      ensures other != this ==> Contents() == old(other.Contents()) && other.Valid() && other.Contents() == []
      ensures other == this ==> Contents() == old(Contents())
    {
      if other != this {
        cells, root, shape := other.cells, other.root, other.shape;
        other.cells, other.root, other.shape := [], NIL, Nil;
      }
    }

    /** at(key) and operator[](key): the value stored under key, or an
        exception when no node holds it; nothing is inserted. */
    method At(key: int) returns (r: Result<V>)
      requires Valid()
      ensures key !in Keys(Contents()) ==> r == Throws(KeyNotFound)
      ensures key in Keys(Contents()) ==>
        r.Ok? && exists i :: 0 <= i < |Contents()| && Contents()[i] == Pair(key, r.value)
    {
      var n := FindKey(key);
      if n == NIL {
        return Throws(KeyNotFound);
      }
      ghost var i :| 0 <= i < |Nodes(shape)| && Nodes(shape)[i] == n;
      ItemsAt(shape, cells, i);
      r := Ok(cells[n].data.value);
    }

    /** at(key) and operator[](key) used as a target (`d.at(key) = value`):
        the reference they return lets the caller overwrite the value stored
        under a present key; an absent key throws and nothing changes. */
    method WriteAt(key: int, value: V) returns (o: Outcome)
      requires Valid()
      modifies this
      ensures Valid()
      ensures key !in Keys(old(Contents())) ==> o == Raised(KeyNotFound) && Contents() == old(Contents())
      ensures key in Keys(old(Contents())) ==>
        o == Done && Contents() == Replace(old(Contents()), Pair(key, value))
    {
      var n := FindKey(key);
      if n == NIL {
        return Raised(KeyNotFound);
      }
      Overwrite(n, Pair(key, value));
      return Done;
    }
  }
}
