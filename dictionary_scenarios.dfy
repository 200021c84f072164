/** Runs of the dictionary that its test suite walks through, with the
    values they must read. */
module DictionaryScenarios {
  import opened Dictionaries

  /** A default-constructed dictionary is empty, has size 0, and its begin()
      equals its end(). */
  method FreshIsEmpty() returns (empty: bool, n: nat, same: bool)
    ensures empty && n == 0 && same
  {
    var d := new Dictionary<int>();
    empty := d.IsEmpty();
    n := d.Size();
    var b := d.Begin();
    var e := d.End();
    same := b == e;
  }

  /** Putting a pair under a key that s lacks inserts it. */
  lemma PutNew(s: seq<Pair<int>>, p: Pair<int>)
    requires Absent(s, p.key)
    ensures Put(s, p) == InsertSorted(s, p)
  {
    AbsentKeys(s, p.key);
  }

  /** The rank of k is n when the keys before n are at most k and the
      others greater. */
  lemma {:induction false} RankIs(s: seq<Pair<int>>, k: int, n: nat)
    requires n <= |s|
    requires forall i :: 0 <= i < n ==> s[i].key <= k
    requires forall i :: n <= i < |s| ==> k < s[i].key
    ensures Rank(s, k) == n
  {
    if s != [] && n > 0 {
      assert forall i :: 0 <= i < |s| - 1 ==> s[1..][i] == s[i + 1];
      RankIs(s[1..], k, n - 1);
    }
  }

  /** Adding p under a new key that fits between positions n - 1 and n. */
  lemma PutAt(s: seq<Pair<int>>, p: Pair<int>, n: nat)
    requires n <= |s| && Absent(s, p.key)
    requires forall i :: 0 <= i < n ==> s[i].key < p.key
    requires forall i :: n <= i < |s| ==> p.key < s[i].key
    ensures Put(s, p) == s[..n] + [p] + s[n..]
  {
    AbsentKeys(s, p.key);
    InsertSortedAt(s, p);
    RankIs(s, p.key, n);
  }

  /** The values read after adding 1:11, 4:44, -1:-11 and 3:33. */
  lemma FourAdds()
    ensures Values(Put(Put(Put(Put([], Pair(1, 11)), Pair(4, 44)), Pair(-1, -11)), Pair(3, 33)))
      == [-11, 11, 33, 44]
  {
    var s1 := [Pair(1, 11)];
    PutNew([], Pair(1, 11));
    var s2 := [Pair(1, 11), Pair(4, 44)];
    PutNew(s1, Pair(4, 44));
    assert InsertSorted(s1, Pair(4, 44)) == [s1[0]] + InsertSorted(s1[1..], Pair(4, 44));
    assert s1[1..] == [];
    var s3 := [Pair(-1, -11), Pair(1, 11), Pair(4, 44)];
    PutNew(s2, Pair(-1, -11));
    PutNew(s3, Pair(3, 33));
    assert s3[1..] == [Pair(1, 11), Pair(4, 44)];
    assert s3[1..][1..] == [Pair(4, 44)];
    var s4 := [Pair(-1, -11), Pair(1, 11), Pair(3, 33), Pair(4, 44)];
    assert Put(s3, Pair(3, 33)) == s4;
    assert Values(s4) == [-11, 11, 33, 44];
  }

  /** Adding 1:11, 4:44, -1:-11 and 3:33 and iterating reads the values in
      ascending key order. */
  method AddThenIterate() returns (vs: seq<int>)
    ensures vs == [-11, 11, 33, 44]
  {
    var d := new Dictionary<int>();
    d.Add(1, 11);
    d.Add(4, 44);
    d.Add(-1, -11);
    d.Add(3, 33);
    FourAdds();
    vs := d.Walk();
  }

  /** Adding two pairs that go to positions n and m of what is there. */
  lemma TwoAdds(s: seq<Pair<int>>, p: Pair<int>, n: nat, q: Pair<int>, m: nat, r: seq<Pair<int>>)
    requires n <= |s| && Absent(s, p.key)
    requires forall i :: 0 <= i < n ==> s[i].key < p.key
    requires forall i :: n <= i < |s| ==> p.key < s[i].key
    requires m <= |s| + 1 && Absent(s[..n] + [p] + s[n..], q.key)
    requires forall i :: 0 <= i < m ==> (s[..n] + [p] + s[n..])[i].key < q.key
    requires forall i :: m <= i < |s| + 1 ==> q.key < (s[..n] + [p] + s[n..])[i].key
    requires r == (s[..n] + [p] + s[n..])[..m] + [q] + (s[..n] + [p] + s[n..])[m..]
    ensures Put(Put(s, p), q) == r
  {
    PutAt(s, p, n);
    PutAt(s[..n] + [p] + s[n..], q, m);
  }

  /** Adding 5:55, 2:22 and 6:66 to an empty dictionary. */
  lemma FirstThree(p5: Pair<int>, p2: Pair<int>, p6: Pair<int>)
    requires p2.key == 2 && p5.key == 5 && p6.key == 6
    ensures Put(Put(Put([], p5), p2), p6) == [p2, p5, p6]
  {
    PutAt([], p5, 0);
    TwoAdds([p5], p2, 0, p6, 2, [p2, p5, p6]);
  }

  /** Then adding 1:11 and 4:44. */
  lemma NextTwo(p1: Pair<int>, p2: Pair<int>, p4: Pair<int>, p5: Pair<int>, p6: Pair<int>)
    requires p1.key == 1 && p2.key == 2 && p4.key == 4 && p5.key == 5 && p6.key == 6
    ensures Put(Put([p2, p5, p6], p1), p4) == [p1, p2, p4, p5, p6]
  {
    TwoAdds([p2, p5, p6], p1, 0, p4, 2, [p1, p2, p4, p5, p6]);
  }

  /** Then adding 3:33 and 7:77. */
  lemma LastTwo(p1: Pair<int>, p2: Pair<int>, p3: Pair<int>, p4: Pair<int>, p5: Pair<int>, p6: Pair<int>, p7: Pair<int>)
    requires p1.key == 1 && p2.key == 2 && p3.key == 3 && p4.key == 4
    requires p5.key == 5 && p6.key == 6 && p7.key == 7
    ensures Put(Put([p1, p2, p4, p5, p6], p3), p7) == [p1, p2, p3, p4, p5, p6, p7]
  {
    TwoAdds([p1, p2, p4, p5, p6], p3, 2, p7, 6, [p1, p2, p3, p4, p5, p6, p7]);
  }

  /** The pairs 1:11 to 7:77 in key order. */
  function Seven(): seq<Pair<int>>
  {
    [Pair(1, 11), Pair(2, 22), Pair(3, 33), Pair(4, 44), Pair(5, 55), Pair(6, 66), Pair(7, 77)]
  }

  /** In the seven pairs, key 3 is at position 2 and key 7 at position 6,
      and dropping the run between them leaves the values 11, 22 and 77. */
  lemma SevenRun(i: nat, j: nat)
    ensures 3 in Keys(Seven()) && 7 in Keys(Seven())
    ensures i < 7 && Seven()[i].key == 3 ==> i == 2
    ensures j < 7 && Seven()[j].key == 7 ==> j == 6
    ensures Values(Seven()[..2] + Seven()[6..]) == [11, 22, 77]
  {
    var s := Seven();
    assert s[2].key == 3 && s[6].key == 7;
    assert s[..2] + s[6..] == [Pair(1, 11), Pair(2, 22), Pair(7, 77)];
  }

  /** A dictionary after adding 5:55, 2:22, 6:66, 1:11, 4:44, 3:33 and 7:77. */
  method SevenAdded() returns (d: Dictionary<int>)
    ensures fresh(d) && d.Valid() && d.Contents() == Seven()
  {
    d := new Dictionary<int>();
    d.Add(5, 55);
    d.Add(2, 22);
    d.Add(6, 66);
    FirstThree(Pair(5, 55), Pair(2, 22), Pair(6, 66));
    d.Add(1, 11);
    d.Add(4, 44);
    NextTwo(Pair(1, 11), Pair(2, 22), Pair(4, 44), Pair(5, 55), Pair(6, 66));
    d.Add(3, 33);
    d.Add(7, 77);
    LastTwo(Pair(1, 11), Pair(2, 22), Pair(3, 33), Pair(4, 44), Pair(5, 55), Pair(6, 66), Pair(7, 77));
  }

  /** Erasing from find(3) up to find(7) in the dictionary of seven pairs
      leaves the values of keys 1, 2 and 7. */
  method EraseRun() returns (vs: seq<int>)
    ensures vs == [11, 22, 77]
  {
    var d := SevenAdded();
    SevenRun(0, 0);
    var first := d.Find(3);
    var last := d.Find(7);
    ghost var i :| 0 <= i < |d.Contents()| && d.Points(first, i) && d.Contents()[i].key == 3;
    ghost var j :| 0 <= j < |d.Contents()| && d.Points(last, j) && d.Contents()[j].key == 7;
    SevenRun(i, j);
    d.EraseRange(first, last, i, j);
    vs := d.Walk();
  }
}
