/** A growable array (Vector<Type>): a heap buffer of `capacity` slots of
    which the first `size` hold the elements. */
module Vectors {
  import opened Errors

  /** calculateCapacity: the buffer size chosen for `n` elements, in tiers
      of 4, 16 and 32 slots, then the next multiple of 16 above n. */
  function CalculateCapacity(n: int): (c: int)
    ensures c > n && c >= 4
    ensures n > 16 ==> c % 16 == 0 && c - 16 <= n
  {
    if n <= 2 then 4
    else if n <= 8 then 16
    else if n <= 16 then 32
    else (n / 16 + 1) * 16
  }

  /** Growing is monotone: more elements never get a smaller buffer. */
  lemma CalculateCapacityMonotone(m: int, n: int)
    requires m <= n
    ensures CalculateCapacity(m) <= CalculateCapacity(n)
  {
    if n > 16 && m > 16 {
      assert m / 16 <= n / 16;
    }
  }

  function Min(a: int, b: int): int { if a < b then a else b }

  /** The shifting loop of erase(first, last): each element after `last`
      moves down by the length of the range, from the front, so the first
      n - (last - first + 1) slots hold the elements outside the range. */
  method ShiftDown<T>(a: array<T>, first: nat, last: nat, n: nat)
    requires first <= last < n <= a.Length
    modifies a
    ensures a[..n - (last - first + 1)] == old(a[..first]) + old(a[last + 1..n])
  {
    var diff := last - first + 1;
    var j := first;
    var i := last + 1;
    while i < n
      invariant last + 1 <= i <= n && j == i - diff
      invariant a[..first] == old(a[..first])
      invariant a[first..j] == old(a[last + 1..i])
      invariant a[i..] == old(a[i..])
    {
      assert a[i] == old(a[i]) by { assert a[i..][0] == a[i]; }
      a[j] := a[i];
      assert a[first..j + 1] == a[first..j] + [a[j]];
      j := j + 1;
      i := i + 1;
    }
    assert a[..j] == a[..first] + a[first..j];
  }

  /** The shifting loop of erase(first, last) as written: it runs while
      i <= n, so it also copies the slot just past the elements, which
      exists only when n < a.Length. */
  method ShiftDownAsWritten<T>(a: array<T>, first: nat, last: nat, n: nat)
    requires first <= last < n < a.Length
    modifies a
    ensures a[..n - (last - first + 1)] == old(a[..first]) + old(a[last + 1..n])
  {
    var diff := last - first + 1;
    var j := first;
    var i := last + 1;
    while i <= n
      invariant last + 1 <= i <= n + 1 && j == i - diff
      invariant a[..first] == old(a[..first])
      invariant i <= n ==> a[first..j] == old(a[last + 1..i])
      invariant i == n + 1 ==> a[first..j - 1] == old(a[last + 1..n])
      invariant a[i..] == old(a[i..])
    {
      assert a[i] == old(a[i]) by { assert a[i..][0] == a[i]; }
      a[j] := a[i];
      if i < n {
        assert a[first..j + 1] == a[first..j] + [a[j]];
      } else {
        assert a[first..j] == old(a[last + 1..n]);
      }
      j := j + 1;
      i := i + 1;
    }
    assert a[..j - 1] == a[..first] + a[first..j - 1];
  }

  class Vector<T(0)> {
    var data: array<T>   // m_Data (a zero-length array stands for nullptr)
    var size: nat        // m_Size
    var capacity: nat    // m_Capacity

    ghost predicate Valid()
      reads this
    {
      data.Length == capacity && size <= capacity
    }

    /** The elements in index order. */
    function Contents(): seq<T>
      reads this, data
      requires Valid()
    {
      data[..size]
    }

    /** Vector(): no elements and no buffer. */
    constructor ()
      ensures Valid() && fresh(data)
      ensures Contents() == [] && capacity == 0
    {
      data := new T[0];
      size, capacity := 0, 0;
    }

    /** An empty vector with a buffer of c slots (the first half of the
        constructor from an array). */
    constructor WithCapacity(c: nat)
      ensures Valid() && fresh(data)
      ensures Contents() == [] && capacity == c
    {
      data := new T[c];
      size, capacity := 0, c;
    }

    /** Vector(data, dataSize): throws invalid_argument when dataSize <= 0;
        otherwise a buffer of calculateCapacity(dataSize) slots holding
        data[0 .. dataSize). */
    static method Create(src: array<T>, n: int) returns (r: Result<Vector<T>>)
      requires n <= src.Length
      ensures n <= 0 ==> r == Throws(InvalidArgument)
      ensures n > 0 ==> r.Ok? && fresh(r.value) && fresh(r.value.data) && r.value.Valid()
      ensures n > 0 ==> r.value.Contents() == src[..n] && r.value.capacity == CalculateCapacity(n)
    {
      if n <= 0 {
        return Throws(InvalidArgument);
      }
      var v := new Vector<T>.WithCapacity(CalculateCapacity(n));
      v.Insert(src, n);
      return Ok(v);
    }

    /** The copy constructor: same size and capacity, a fresh buffer holding
        the same elements. */
    constructor Copy(other: Vector<T>)
      requires other.Valid()
      ensures Valid() && fresh(data)
      ensures size == other.size && capacity == other.capacity
      ensures Contents() == other.Contents()
    {
      var a := new T[other.capacity];
      var i := 0;
      while i < other.size && i < other.capacity
        invariant 0 <= i <= other.size
        invariant forall k :: 0 <= k < i ==> a[k] == other.data[k]
      {
        a[i] := other.data[i];
        i := i + 1;
      }
      data := a;
      size, capacity := other.size, other.capacity;
    }

    /** The move constructor: an empty vector swapped with `other`. */
    constructor Move(other: Vector<T>)
      requires other.Valid()
      modifies other
      ensures Valid() && other.Valid()
      ensures data == old(other.data) && size == old(other.size) && capacity == old(other.capacity)
      ensures other.size == 0 && other.capacity == 0 && fresh(other.data)
    {
      data, size, capacity := other.data, other.size, other.capacity;
      other.data := new T[0];
      other.size, other.capacity := 0, 0;
    }

    /** at(i): the element at i, or out_of_range unless 0 <= i < size. */
    method At(i: int) returns (r: Result<T>)
      requires Valid()
      ensures !(0 <= i < |Contents()|) ==> r == Throws(OutOfRange)
      ensures 0 <= i < |Contents()| ==> r == Ok(Contents()[i])
    {
      if i < 0 || i >= size {
        return Throws(OutOfRange);
      }
      return Ok(data[i]);
    }

    /** at(i) used as a target (`v.at(i) = x`): the reference it returns
        lets the caller replace element i; out_of_range unless 0 <= i < size. */
    method Write(i: int, x: T) returns (o: Outcome)
      requires Valid()
      modifies data
      ensures Valid()
      ensures !(0 <= i < |old(Contents())|) ==> o == Raised(OutOfRange) && Contents() == old(Contents())
      ensures 0 <= i < |old(Contents())| ==> o == Done && Contents() == old(Contents())[i := x]
    {
      if i < 0 || i >= size {
        return Raised(OutOfRange);
      }
      data[i] := x;
      return Done;
    }

    /** front(): the first element, or an exception when empty. */
    method Front() returns (r: Result<T>)
      requires Valid()
      ensures Contents() == [] ==> r == Throws(PlainException)
      ensures Contents() != [] ==> r == Ok(Contents()[0])
    {
      if size <= 0 {
        return Throws(PlainException);
      }
      return Ok(data[0]);
    }

    /** back(): the last element, or an exception when empty. */
    method Back() returns (r: Result<T>)
      requires Valid()
      ensures Contents() == [] ==> r == Throws(PlainException)
      ensures Contents() != [] ==> r == Ok(Contents()[|Contents()| - 1])
    {
      if size <= 0 {
        return Throws(PlainException);
      }
      return Ok(data[size - 1]);
    }

    /** empty(): whether there are no elements. */
    method Empty() returns (b: bool)
      requires Valid()
      ensures b <==> Contents() == []
    {
      b := size <= 0;
    }

    /** resize(newSize): a fresh buffer of calculateCapacity(newSize) slots
        receiving the old slots that fit; the size is cut to the new capacity. */
    method Resize(newSize: int)
      requires Valid()
      modifies this
      ensures Valid() && fresh(data)
      ensures capacity == CalculateCapacity(newSize)
      ensures size == Min(old(size), capacity)
      ensures forall k :: 0 <= k < old(capacity) && k < capacity ==> data[k] == old(data[k])
    {
      var newCapacity := CalculateCapacity(newSize);
      var newData := new T[newCapacity];
      var i := 0;
      while i < capacity && i < newCapacity
        invariant 0 <= i <= capacity && i <= newCapacity
        invariant data == old(data) && capacity == old(capacity) && size == old(size)
        invariant forall k :: 0 <= k < i ==> newData[k] == data[k]
      {
        newData[i] := data[i];
        i := i + 1;
      }
      data := newData;
      capacity := newCapacity;
      size := if newCapacity < size then newCapacity else size;
    }

    /** pushBack(el): appends el, first growing the buffer to
        calculateCapacity(capacity) when it is full. */
    method PushBack(el: T)
      requires Valid()
      modifies this, data
      ensures Valid()
      ensures Contents() == old(Contents()) + [el]
      ensures old(size) < old(capacity) ==> data == old(data) && capacity == old(capacity)
      ensures old(size) >= old(capacity) ==> fresh(data) && capacity == CalculateCapacity(old(capacity))
    {
      if size >= capacity {
        Resize(capacity);
      }
      data[size] := el;
      size := size + 1;
    }

    /** insert(src, n): pushes src[0 .. n) in order. */
    method Insert(src: array<T>, n: int)
      requires Valid() && n <= src.Length && src != data
      modifies this, data
      ensures Valid()
      ensures Contents() == old(Contents()) + src[..if n < 0 then 0 else n]
      ensures old(size) + n <= old(capacity) ==> data == old(data) && capacity == old(capacity)
    {
      var i := 0;
      while i < n
        invariant 0 <= i <= if n < 0 then 0 else n
        invariant Valid() && data != src
        invariant data == old(data) || fresh(data)
        invariant Contents() == old(Contents()) + src[..i]
        invariant old(size) + n <= old(capacity) ==> data == old(data) && capacity == old(capacity)
        invariant size == old(size) + i
      {
        PushBack(src[i]);
        i := i + 1;
      }
    }

    /** popBack(): drops the last element. */
    method PopBack()
      requires Valid() && size > 0
      modifies this`size
      ensures Valid()
      ensures Contents() == old(Contents())[..old(size) - 1]
    {
      size := size - 1;
    }

    /** erase(i): checks i as `at` does (out_of_range), then shifts the
        elements after i one slot to the left. */
    method Erase(index: int) returns (o: Outcome)
      requires Valid()
      modifies this`size, data
      ensures Valid() && capacity == old(capacity)
      ensures !(0 <= index < old(size)) ==> o == Raised(OutOfRange) && Contents() == old(Contents())
      ensures 0 <= index < old(size) ==>
        o == Done && Contents() == old(Contents())[..index] + old(Contents())[index + 1..]
    {
      if index < 0 || index >= size {
        return Raised(OutOfRange);
      }
      var j := index;
      var i := index + 1;
      while i < size
        invariant Valid() && size == old(size)
        invariant index + 1 <= i <= size && j == i - 1
        invariant forall k :: 0 <= k < index ==> data[k] == old(data[k])
        invariant forall k :: index <= k < j ==> data[k] == old(data[k + 1])
        invariant forall k :: j <= k < capacity ==> data[k] == old(data[k])
      {
        data[j] := data[i];
        j := j + 1;
        i := i + 1;
      }
      size := size - 1;
      o := Done;
      assert Contents() == old(Contents())[..index] + old(Contents())[index + 1..];
    }

    /** erase(first, last) with the loop bound `i <= m_Size` of the source:
        the loop reads the slot at index size, so the buffer must have one. */
    method EraseRangeAsWritten(first: int, last: int) returns (o: Outcome)
      requires Valid()
      requires first <= last && 0 <= first && last <= size - 1 ==> size < capacity
      modifies this`size, data
      ensures Valid() && capacity == old(capacity)
      ensures first > last ==> o == Raised(InvalidArgument) && Contents() == old(Contents())
      ensures first <= last && (first < 0 || last > old(size) - 1) ==>
        o == Raised(OutOfRange) && Contents() == old(Contents())
      ensures first <= last && 0 <= first && last <= old(size) - 1 ==>
        o == Done && Contents() == old(Contents())[..first] + old(Contents())[last + 1..]
    {
      if first > last {
        return Raised(InvalidArgument);
      }
      if first < 0 || last > size - 1 {
        return Raised(OutOfRange);
      }
      var diff := last - first + 1;
      ShiftDownAsWritten(data, first, last, size);
      size := size - diff;
      o := Done;
    }

    /** erase(first, last): removes the elements at indices first..last
        inclusive; invalid_argument when first > last, out_of_range when
        first < 0 or last > size - 1. The shifting loop stops below size. */
    method EraseRange(first: int, last: int) returns (o: Outcome)
      requires Valid()
      modifies this`size, data
      ensures Valid() && capacity == old(capacity)
      ensures first > last ==> o == Raised(InvalidArgument) && Contents() == old(Contents())
      ensures first <= last && (first < 0 || last > old(size) - 1) ==>
        o == Raised(OutOfRange) && Contents() == old(Contents())
      ensures first <= last && 0 <= first && last <= old(size) - 1 ==>
        o == Done && Contents() == old(Contents())[..first] + old(Contents())[last + 1..]
      ensures o == Done ==> size == old(size) - (last - first + 1)
    {
      if first > last {
        return Raised(InvalidArgument);
      }
      if first < 0 || last > size - 1 {
        return Raised(OutOfRange);
      }
      var diff := last - first + 1;
      ShiftDown(data, first, last, size);
      size := size - diff;
      o := Done;
    }

    /** clear(): no elements and no buffer. */
    method Clear()
      requires Valid()
      modifies this
      ensures Valid() && fresh(data)
      ensures size == 0 && capacity == 0
    {
      size := 0;
      capacity := 0;
      data := new T[0];
    }

    /** operator=(const Vector&): unless `other` is this vector, becomes a
        copy of it with a buffer of its own. */
    method Assign(other: Vector<T>)
      requires Valid() && other.Valid()
      modifies this
      ensures Valid()
      ensures size == old(other.size) && capacity == old(other.capacity)
      ensures Contents() == old(other.Contents())
      ensures other != this ==> fresh(data)
    {
      if other != this {
        var a := new T[other.capacity];
        var i := 0;
        while i < other.size && i < other.capacity
          invariant 0 <= i <= other.size
          invariant forall k :: 0 <= k < i ==> a[k] == other.data[k]
        {
          a[i] := other.data[i];
          i := i + 1;
        }
        data := a;
        size, capacity := other.size, other.capacity;
      }
    }

    /** swap(other): exchanges size, capacity and buffer. */
    method Swap(other: Vector<T>)
      requires Valid() && other.Valid()
      modifies this, other
      ensures Valid() && other.Valid()
      ensures data == old(other.data) && size == old(other.size) && capacity == old(other.capacity)
      ensures other.data == old(data) && other.size == old(size) && other.capacity == old(capacity)
    {
      var d, s, c := data, size, capacity;
      data, size, capacity := other.data, other.size, other.capacity;
      other.data, other.size, other.capacity := d, s, c;
    }
  }

  /** From an empty vector, four pushBacks fill the first buffer exactly
      (calculateCapacity(0) == 4), so size == capacity: the state in which
      the source's erase(first, last) reads one slot past the buffer. */
  method EraseRangeOverrunWitness() returns (v: Vector<int>)
    ensures v.Valid() && v.size == v.capacity == 4
    ensures v.Contents() == [1, 2, 3, 4]
  {
    v := new Vector<int>();
    v.PushBack(1);
    v.PushBack(2);
    v.PushBack(3);
    v.PushBack(4);
  }

  /** A vector built from three array elements gets a buffer of 16 slots;
      erasing its middle element keeps the other two in order; building
      from zero elements throws invalid_argument. */
  method CreateEraseScenario()
  {
    var a := new int[3];
    a[0], a[1], a[2] := 10, 20, 30;
    var r := Vector<int>.Create(a, 3);
    var v := r.value;
    assert v.capacity == 16;
    var e := v.Erase(1);
    assert v.Contents() == [10, 30];
    var z := Vector<int>.Create(a, 0);
    assert z == Throws(InvalidArgument);
  }
}
