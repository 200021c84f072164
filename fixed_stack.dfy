/** A stack of at most N elements stored in a fixed array, with a count of
    the used slots (FixedStack<Type, Size>). */
module FixedStacks {
  import opened Errors

  /** What `compare` decides: the two stacks have the same size and the
      predicate holds at every used index. */
  predicate AllPairs<T>(pred: (T, T) -> bool, a: seq<T>, b: seq<T>)
  {
    |a| == |b| && forall i :: 0 <= i < |a| ==> pred(a[i], b[i])
  }

  /** The element predicates passed to `compare` by the comparison operators. */
  predicate Same<T(==)>(x: T, y: T) { x == y }
  predicate Greater(x: int, y: int) { x > y }
  predicate GreaterOrEqual(x: int, y: int) { x >= y }

  class FixedStack<T(0)> {
    const N: nat          // the template argument Size
    var data: array<T>    // m_Data
    var used: nat         // m_UsedSpace

    ghost predicate Valid()
      reads this
    {
      data.Length == N && used <= N
    }

    /** The elements from bottom to top. */
    function Contents(): seq<T>
      reads this, data
      requires Valid()
    {
      data[..used]
    }

    /** FixedStack(): an empty stack. */
    constructor (n: nat)
      ensures Valid() && fresh(data)
      ensures N == n && Contents() == []
    {
      N := n;
      data := new T[n];
      used := 0;
    }

    /** The copy constructor: copies the first other.used slots and the count. */
    constructor Copy(other: FixedStack<T>)
      requires other.Valid()
      ensures Valid() && fresh(data)
      ensures N == other.N && Contents() == other.Contents()
    {
      var a := new T[other.N];
      var i := 0;
      while i < other.used
        invariant 0 <= i <= other.used
        invariant forall k :: 0 <= k < i ==> a[k] == other.data[k]
      {
        a[i] := other.data[i];
        i := i + 1;
      }
      N := other.N;
      data := a;
      used := other.used;
    }

    /** top(): the most recently pushed element, or out_of_range when empty. */
    method Top() returns (r: Result<T>)
      requires Valid()
      ensures Contents() == [] ==> r == Throws(OutOfRange)
      ensures Contents() != [] ==> r == Ok(Contents()[|Contents()| - 1])
    {
      if used == 0 {
        return Throws(OutOfRange);
      }
      return Ok(data[used - 1]);
    }

    /** empty(): whether no slot is used. */
    method Empty() returns (b: bool)
      requires Valid()
      ensures b <==> Contents() == []
    {
      b := used == 0;
    }

    /** size(): the number of used slots. */
    method Size() returns (n: nat)
      requires Valid()
      ensures n == |Contents()| && n <= N
    {
      n := used;
    }

    /** pop(): drops the top element, or throws out_of_range when empty.
        The array itself is left as it was. */
    method Pop() returns (o: Outcome)
      requires Valid()
      modifies this`used
      ensures Valid()
      ensures old(used) == 0 ==> o == Raised(OutOfRange) && used == 0
      ensures old(used) > 0 ==> o == Done && used == old(used) - 1
      ensures Contents() == old(Contents())[..used]
    {
      if used == 0 {
        return Raised(OutOfRange);
      }
      used := used - 1;
      o := Done;
    }

    /** push(x): stores x in slot `used` and counts it, or throws
        overflow_error when all N slots are used. */
    method Push(x: T) returns (o: Outcome)
      requires Valid()
      modifies this`used, data
      ensures Valid()
      ensures old(used) >= N ==> o == Raised(OverflowError) && Contents() == old(Contents())
      ensures old(used) < N ==> o == Done && Contents() == old(Contents()) + [x]
      ensures forall k :: used <= k < N ==> data[k] == old(data[k])
    {
      if used >= N {
        return Raised(OverflowError);
      }
      data[used] := x;
      used := used + 1;
      o := Done;
    }

    /** swap(other): exchanges the elements at the indices below both sizes;
        neither count changes and every other slot keeps its element. */
    method Swap(other: FixedStack<T>)
      requires Valid() && other.Valid()
      modifies data, other.data
      ensures forall k :: 0 <= k < used && k < other.used ==>
        data[k] == old(other.data[k]) && other.data[k] == old(data[k])
      ensures forall k :: 0 <= k < N && (k >= used || k >= other.used) ==> data[k] == old(data[k])
      ensures forall k :: 0 <= k < other.N && (k >= used || k >= other.used) ==>
        other.data[k] == old(other.data[k])
    {
      var i := 0;
      while i != used && i != other.used
        invariant 0 <= i <= used && i <= other.used
        invariant forall k :: 0 <= k < i ==>
          data[k] == old(other.data[k]) && other.data[k] == old(data[k])
        invariant forall k :: i <= k < N ==> data[k] == old(data[k])
        invariant forall k :: i <= k < other.N ==> other.data[k] == old(other.data[k])
      {
        var temp := data[i];
        data[i] := other.data[i];
        other.data[i] := temp;
        i := i + 1;
      }
    }
  }

  /** compare(first, second, pred): false when the sizes differ, otherwise
      whether pred holds of the elements at every index below the size. */
  method Compare<T(0)>(first: FixedStack<T>, second: FixedStack<T>, pred: (T, T) -> bool)
    returns (r: bool)
    requires first.Valid() && second.Valid()
    ensures r == AllPairs(pred, first.Contents(), second.Contents())
  {
    if first.used != second.used {
      return false;
    }
    var i := 0;
    while i < first.used
      invariant 0 <= i <= first.used
      invariant forall k :: 0 <= k < i ==> pred(first.data[k], second.data[k])
    {
      if !pred(first.data[i], second.data[i]) {
        return false;
      }
      i := i + 1;
    }
    return true;
  }

  lemma {:induction false} AllPairsSameIsEquality<T>(a: seq<T>, b: seq<T>)
    ensures AllPairs(Same, a, b) <==> a == b
  {
    if AllPairs(Same, a, b) {
      assert forall i :: 0 <= i < |a| ==> a[i] == b[i] by {
        forall i | 0 <= i < |a| ensures a[i] == b[i] {
          assert Same(a[i], b[i]);
        }
      }
    }
  }

  /** operator==: element-wise equality of the used parts. */
  method Equal<T(0,==)>(first: FixedStack<T>, second: FixedStack<T>) returns (r: bool)
    requires first.Valid() && second.Valid()
    ensures r <==> first.Contents() == second.Contents()
  {
    r := Compare(first, second, Same);
    AllPairsSameIsEquality(first.Contents(), second.Contents());
  }

  /** operator!=: the negation of operator==. */
  method NotEqual<T(0,==)>(first: FixedStack<T>, second: FixedStack<T>) returns (r: bool)
    requires first.Valid() && second.Valid()
    ensures r <==> first.Contents() != second.Contents()
  {
    var eq := Equal(first, second);
    r := !eq;
  }

  /** operator>: same size and every element greater. */
  method IsGreater(first: FixedStack<int>, second: FixedStack<int>) returns (r: bool)
    requires first.Valid() && second.Valid()
    ensures r <==> |first.Contents()| == |second.Contents()| &&
                   forall i :: 0 <= i < |first.Contents()| ==> first.Contents()[i] > second.Contents()[i]
  {
    r := Compare(first, second, Greater);
  }

  /** operator>=: same size and every element greater or equal. */
  method IsGreaterOrEqual(first: FixedStack<int>, second: FixedStack<int>) returns (r: bool)
    requires first.Valid() && second.Valid()
    ensures r <==> |first.Contents()| == |second.Contents()| &&
                   forall i :: 0 <= i < |first.Contents()| ==> first.Contents()[i] >= second.Contents()[i]
  {
    r := Compare(first, second, GreaterOrEqual);
  }

  /** operator<: defined as !(first >= second). */
  method IsLess(first: FixedStack<int>, second: FixedStack<int>) returns (r: bool)
    requires first.Valid() && second.Valid()
    ensures r <==> !AllPairs(GreaterOrEqual, first.Contents(), second.Contents())
  {
    var ge := IsGreaterOrEqual(first, second);
    r := !ge;
  }

  /** operator<=: defined as !(first > second). */
  method IsLessOrEqual(first: FixedStack<int>, second: FixedStack<int>) returns (r: bool)
    requires first.Valid() && second.Valid()
    ensures r <==> !AllPairs(Greater, first.Contents(), second.Contents())
  {
    var gt := IsGreater(first, second);
    r := !gt;
  }

  /** Because `<` is the negation of an element-wise `>=`, stacks of
      different sizes, and stacks that disagree in opposite directions at two
      indices, are each "less" than the other. */
  lemma LessIsNotAsymmetric(a: seq<int>, b: seq<int>)
    requires |a| != |b| || (exists i, j :: 0 <= i < |a| && 0 <= j < |a| && a[i] < b[i] && b[j] < a[j])
    ensures !AllPairs(GreaterOrEqual, a, b) && !AllPairs(GreaterOrEqual, b, a)
  {
    if |a| == |b| {
      var i, j :| 0 <= i < |a| && 0 <= j < |a| && a[i] < b[i] && b[j] < a[j];
      assert !GreaterOrEqual(a[i], b[i]);
      assert !GreaterOrEqual(b[j], a[j]);
    }
  }

  /** A client: pushing onto a full stack fails and leaves it unchanged;
      pop then top exposes the element below. */
  method PushPopScenario()
  {
    var s := new FixedStack<int>(2);
    var o := s.Push(1);
    o := s.Push(2);
    assert s.Contents() == [1, 2];
    o := s.Push(3);
    assert o == Raised(OverflowError) && s.Contents() == [1, 2];
    o := s.Pop();
    var t := s.Top();
    assert t == Ok(1);
    o := s.Pop();
    o := s.Pop();
    assert o == Raised(OutOfRange);
  }
}
