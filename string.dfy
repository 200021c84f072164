/** A growable, NUL-terminated character buffer (String): `size`
    characters followed by a terminator, in a buffer of `capacity` slots. */
module Strings {
  import opened Errors
  import Vectors

  const NUL: char := '\0'

  /** No terminator among the characters. */
  predicate NulFree(s: seq<char>)
  {
    forall i :: 0 <= i < |s| ==> s[i] != NUL
  }

  /** A C string in memory: some terminator follows its characters. */
  predicate Terminated(s: seq<char>)
  {
    exists i :: 0 <= i < |s| && s[i] == NUL
  }

  /** The index of the first terminator: the length of the C string. */
  function CLength(s: seq<char>): (n: nat)
    requires Terminated(s)
    ensures n < |s| && s[n] == NUL && NulFree(s[..n])
  {
    if s[0] == NUL then 0
    else
      assert Terminated(s[1..]) by {
        var i :| 0 <= i < |s| && s[i] == NUL;
        assert s[1..][i - 1] == NUL;
      }
      1 + CLength(s[1..])
  }

  /** The characters of a C string, without its terminator. */
  function Text(s: seq<char>): seq<char>
    requires Terminated(s)
  {
    s[..CLength(s)]
  }

  /** The first terminator is the only index that ends a NUL-free prefix. */
  lemma CLengthUnique(s: seq<char>, n: nat)
    requires n < |s| && s[n] == NUL && NulFree(s[..n])
    ensures Terminated(s) && CLength(s) == n
  {
  }

  /** Writing a NUL-free text followed by a terminator gives back that text. */
  lemma TextOfTerminated(t: seq<char>, rest: seq<char>)
    requires NulFree(t)
    ensures Terminated(t + [NUL] + rest) && Text(t + [NUL] + rest) == t
  {
    var s := t + [NUL] + rest;
    assert s[..|t|] == t;
    CLengthUnique(s, |t|);
  }

  /** stringLength(str): counts the characters before the terminator. */
  method StringLength(s: seq<char>) returns (n: nat)
    requires Terminated(s)
    ensures n < |s| && s[n] == NUL && NulFree(s[..n])
    ensures n == CLength(s)
  {
    n := 0;
    while s[n] != NUL
      invariant n <= CLength(s)
      decreases CLength(s) - n
      invariant NulFree(s[..n])
    {
      n := n + 1;
    }
    CLengthUnique(s, n);
  }

  /** stringCopy(dest, source): copies the characters and the terminator. */
  method StringCopy(dest: array<char>, source: seq<char>)
    requires Terminated(source) && CLength(source) < dest.Length
    modifies dest
    ensures dest[..CLength(source) + 1] == source[..CLength(source) + 1]
    ensures forall k :: CLength(source) < k < dest.Length ==> dest[k] == old(dest[k])
  {
    var i := 0;
    while source[i] != NUL
      invariant i <= CLength(source)
      decreases CLength(source) - i
      invariant forall k :: 0 <= k < i ==> dest[k] == source[k]
      invariant forall k :: i <= k < dest.Length ==> dest[k] == old(dest[k])
    {
      dest[i] := source[i];
      i := i + 1;
    }
    dest[i] := source[i];
    CLengthUnique(source, i);
  }

  /** stringCopy(dest, source, size): copies at most `size` characters of
      the C string and then writes a terminator. */
  method StringCopyBounded(dest: array<char>, source: seq<char>, size: int)
    returns (m: nat)
    requires Terminated(source)
    requires Vectors.Min(CLength(source), if size < 0 then 0 else size) < dest.Length
    modifies dest
    ensures m == Vectors.Min(CLength(source), if size < 0 then 0 else size)
    ensures dest[..m] == source[..m] && dest[m] == NUL
    ensures forall k :: m < k < dest.Length ==> dest[k] == old(dest[k])
  {
    var i := 0;
    while source[i] != NUL && i < size
      invariant i <= CLength(source) && (i <= size || i == 0)
      decreases CLength(source) - i
      invariant forall k :: 0 <= k < i ==> dest[k] == source[k]
      invariant forall k :: i <= k < dest.Length ==> dest[k] == old(dest[k])
    {
      dest[i] := source[i];
      i := i + 1;
    }
    dest[i] := NUL;
    m := i;
  }

  /** compareStrings(lhs, rhs): walks both C strings while neither has
      reached its terminator; true iff they agree up to and including it. */
  method CompareStrings(lhs: seq<char>, rhs: seq<char>) returns (r: bool)
    requires Terminated(lhs) && Terminated(rhs)
    ensures r <==> Text(lhs) == Text(rhs)
  {
    var i := 0;
    while lhs[i] != NUL && rhs[i] != NUL
      invariant i <= CLength(lhs) && i <= CLength(rhs)
      decreases CLength(lhs) - i
      invariant lhs[..i] == rhs[..i]
    {
      if rhs[i] != lhs[i] {
        assert Text(lhs)[i] != Text(rhs)[i];
        return false;
      }
      i := i + 1;
    }
    if lhs[i] == NUL { CLengthUnique(lhs, i); }
    if rhs[i] == NUL { CLengthUnique(rhs, i); }
    r := rhs[i] == lhs[i];
    if !r {
      assert |Text(lhs)| != |Text(rhs)|;
    }
  }

  /** The copying loop of resize: the characters of `src` before its
      terminator at n, as many as fit before the last slot of `dst`, then a
      terminator after them. */
  method CopyPrefix(src: array<char>, n: nat, dst: array<char>) returns (i: nat)
    requires n < src.Length && src[n] == NUL && NulFree(src[..n])
    requires 0 < dst.Length && dst != src
    modifies dst
    ensures i == Vectors.Min(n, dst.Length - 1)
    ensures dst[..i] == src[..i] && dst[i] == NUL
  {
    i := 0;
    while src[i] != NUL && i < dst.Length - 1
      invariant 0 <= i <= n && i < dst.Length
      invariant dst[..i] == src[..i]
      decreases n - i
    {
      assert i < n;
      dst[i] := src[i];
      assert dst[..i + 1] == dst[..i] + [src[i]];
      i := i + 1;
    }
    dst[i] := NUL;
  }

  class String {
    var str: array<char>   // m_Str
    var size: nat          // m_Size
    var capacity: nat      // m_Capacity

    /** The buffer holds `size` characters followed by a terminator. */
    ghost predicate Valid()
      reads this, str
    {
      str.Length == capacity && size < capacity && str[size] == NUL && NulFree(str[..size])
    }

    /** The characters of the string. */
    function Contents(): seq<char>
      reads this, str
      requires Valid()
    {
      str[..size]
    }

    /** The buffer read as a C string is exactly the contents. */
    lemma BufferText()
      requires Valid()
      ensures Terminated(str[..]) && Text(str[..]) == Contents()
    {
      assert str[..] == Contents() + [NUL] + str[size + 1..];
      TextOfTerminated(Contents(), str[size + 1..]);
    }

    /** String(): the empty string in a buffer of 2. */
    constructor ()
      ensures Valid() && fresh(str)
      ensures Contents() == [] && capacity == 2
    {
      var a := new char[2];
      a[0] := NUL;
      str := a;
      size, capacity := 0, 2;
    }

    /** String(const char*): the C string's characters in a buffer of
        calculateCapacity(length) slots. */
    constructor FromCString(s: seq<char>)
      requires Terminated(s)
      ensures Valid() && fresh(str)
      ensures Contents() == Text(s) && capacity == Vectors.CalculateCapacity(|Text(s)|)
    {
      var n := StringLength(s);
      var c := Vectors.CalculateCapacity(n);
      var a := new char[c];
      StringCopy(a, s);
      assert a[..n] == s[..n];
      str := a;
      size, capacity := n, c;
    }

    /** String(const char&): one character in a buffer of 4. */
    constructor FromChar(symbol: char)
      requires symbol != NUL
      ensures Valid() && fresh(str)
      ensures Contents() == [symbol] && capacity == 4
    {
      var a := new char[4];
      a[0], a[1] := symbol, NUL;
      str := a;
      size, capacity := 1, 4;
    }

    /** The copy constructor: same size and capacity, a fresh buffer. */
    constructor Copy(other: String)
      requires other.Valid()
      ensures Valid() && fresh(str)
      ensures size == other.size && capacity == other.capacity
      ensures Contents() == other.Contents()
    {
      var a := new char[other.capacity];
      other.BufferText();
      StringCopy(a, other.str[..]);
      assert a[..other.size + 1] == other.str[..other.size + 1];
      assert a[..other.size] == other.str[..other.size];
      str := a;
      size, capacity := other.size, other.capacity;
    }

    /** The move constructor: the empty string swapped with `other`. */
    constructor Move(other: String)
      requires other.Valid()
      modifies other
      ensures Valid() && other.Valid() && fresh(other.str)
      ensures str == old(other.str) && size == old(other.size) && capacity == old(other.capacity)
      ensures Contents() == old(other.Contents())
      ensures other.Contents() == [] && other.capacity == 2
    {
      str, size, capacity := other.str, other.size, other.capacity;
      var a := new char[2];
      a[0] := NUL;
      other.str, other.size, other.capacity := a, 0, 2;
    }

    /** operator=(const String&): unless `other` is this string, becomes a
        copy of it. */
    method Assign(other: String)
      requires Valid() && other.Valid()
      modifies this
      ensures Valid()
      ensures size == old(other.size) && capacity == old(other.capacity)
      ensures Contents() == old(other.Contents())
    {
      if other != this {
        var a := new char[other.capacity];
        other.BufferText();
        StringCopy(a, other.str[..]);
        assert a[..other.size + 1] == other.str[..other.size + 1];
        assert a[..other.size] == other.str[..other.size];
        str := a;
        size, capacity := other.size, other.capacity;
      }
    }

    /** operator=(const char*): the C string's characters; an empty C string
        gets a buffer of 2, any other one calculateCapacity(length). */
    method AssignCString(s: seq<char>)
      requires Valid() && Terminated(s)
      modifies this
      ensures Valid() && fresh(str)
      ensures Contents() == Text(s)
      ensures capacity == if |Text(s)| == 0 then 2 else Vectors.CalculateCapacity(|Text(s)|)
    {
      var n := StringLength(s);
      var c := if n == 0 then 2 else Vectors.CalculateCapacity(n);
      var a := new char[c];
      StringCopy(a, s);
      assert a[..n] == s[..n];
      str := a;
      size, capacity := n, c;
    }

    /** operator=(const char&): one character in a buffer of 4. */
    method AssignChar(symbol: char)
      requires Valid() && symbol != NUL
      modifies this
      ensures Valid() && fresh(str)
      ensures Contents() == [symbol] && capacity == 4
    {
      var a := new char[4];
      a[0], a[1] := symbol, NUL;
      str := a;
      size, capacity := 1, 4;
    }

    /** operator==(const char*): compareStrings on the buffer and the C string. */
    method EqualsCString(s: seq<char>) returns (r: bool)
      requires Valid() && Terminated(s)
      ensures r <==> Contents() == Text(s)
    {
      BufferText();
      r := CompareStrings(str[..], s);
    }

    /** operator==(const char&): non-empty, and the first character is the symbol. */
    method EqualsChar(symbol: char) returns (r: bool)
      requires Valid()
      ensures r <==> |Contents()| > 0 && Contents()[0] == symbol
    {
      if size > 0 {
        return str[0] == symbol;
      }
      return false;
    }

    /** operator==(const String&): compareStrings on the two buffers. */
    method Equals(other: String) returns (r: bool)
      requires Valid() && other.Valid()
      ensures r <==> Contents() == other.Contents()
    {
      BufferText();
      other.BufferText();
      r := CompareStrings(str[..], other.str[..]);
    }

    /** at(i): the character at i, or out_of_range unless 0 <= i < size. */
    method At(i: int) returns (r: Result<char>)
      requires Valid()
      ensures !(0 <= i < |Contents()|) ==> r == Throws(OutOfRange)
      ensures 0 <= i < |Contents()| ==> r == Ok(Contents()[i])
    {
      if i < 0 || i >= size {
        return Throws(OutOfRange);
      }
      return Ok(str[i]);
    }

    /** at(i) used as a target (`s.at(i) = c`): the reference it returns
        lets the caller replace character i; out_of_range unless
        0 <= i < size. */
    method Write(i: int, symbol: char) returns (o: Outcome)
      requires Valid() && symbol != NUL
      modifies str
      ensures Valid()
      ensures !(0 <= i < |old(Contents())|) ==> o == Raised(OutOfRange) && Contents() == old(Contents())
      ensures 0 <= i < |old(Contents())| ==> o == Done && Contents() == old(Contents())[i := symbol]
    {
      if i < 0 || i >= size {
        return Raised(OutOfRange);
      }
      str[i] := symbol;
      assert str[..size] == old(str[..size])[i := symbol];
      return Done;
    }

    /** front(): the first character, or invalid_argument when empty. */
    method Front() returns (r: Result<char>)
      requires Valid()
      ensures Contents() == [] ==> r == Throws(InvalidArgument)
      ensures Contents() != [] ==> r == Ok(Contents()[0])
    {
      if size == 0 {
        return Throws(InvalidArgument);
      }
      return Ok(str[0]);
    }

    /** back(): the last character, or invalid_argument when empty. */
    method Back() returns (r: Result<char>)
      requires Valid()
      ensures Contents() == [] ==> r == Throws(InvalidArgument)
      ensures Contents() != [] ==> r == Ok(Contents()[|Contents()| - 1])
    {
      if size == 0 {
        return Throws(InvalidArgument);
      }
      return Ok(str[size - 1]);
    }

    /** empty(): whether there are no characters. */
    method Empty() returns (b: bool)
      requires Valid()
      ensures b <==> Contents() == []
    {
      b := size == 0;
    }

    /** resize(newSize): a fresh buffer of calculateCapacity(newSize) slots
        receiving the characters that fit before its last slot, then a
        terminator; the size is recounted from the new buffer. */
    method Resize(newSize: int)
      requires Valid()
      modifies this
      ensures Valid() && fresh(str)
      ensures capacity == Vectors.CalculateCapacity(newSize)
      ensures Contents() == old(Contents())[..Vectors.Min(old(size), capacity - 1)]
    {
      var newCapacity := Vectors.CalculateCapacity(newSize);
      var newStr := new char[newCapacity];
      var i := CopyPrefix(str, size, newStr);
      ghost var text := str[..i];
      str := newStr;
      capacity := newCapacity;
      assert newStr[..] == text + [NUL] + newStr[i + 1..];
      TextOfTerminated(text, newStr[i + 1..]);
      size := StringLength(newStr[..]);
    }

    /** pushBack(c): appends c and re-terminates, first growing the buffer
        with resize(capacity) when the terminator would not fit. */
    method PushBack(symbol: char)
      requires Valid() && symbol != NUL
      modifies this, str
      ensures Valid()
      ensures Contents() == old(Contents()) + [symbol]
      ensures old(size) + 1 < old(capacity) ==> str == old(str) && capacity == old(capacity)
      ensures old(size) + 1 >= old(capacity) ==>
        fresh(str) && capacity == Vectors.CalculateCapacity(old(capacity))
    {
      if size + 1 >= capacity {
        Resize(capacity);
      }
      str[size] := symbol;
      size := size + 1;
      str[size] := NUL;
      assert str[..size] == old(Contents()) + [symbol];
    }

    /** append(const char*): pushes the C string's characters in order. */
    method Append(s: seq<char>)
      requires Valid() && Terminated(s)
      modifies this, str
      ensures Valid() && (str == old(str) || fresh(str))
      ensures Contents() == old(Contents()) + Text(s)
    {
      var i := 0;
      while s[i] != NUL
        invariant i <= CLength(s)
        decreases CLength(s) - i
        invariant Valid() && (str == old(str) || fresh(str))
        invariant Contents() == old(Contents()) + s[..i]
      {
        PushBack(s[i]);
        i := i + 1;
      }
      CLengthUnique(s, i);
    }

    /** append(const char&): pushes one character. */
    method AppendChar(symbol: char)
      requires Valid() && symbol != NUL
      modifies this, str
      ensures Valid() && (str == old(str) || fresh(str))
      ensures Contents() == old(Contents()) + [symbol]
    {
      PushBack(symbol);
    }

    /** append(const String&): appends the other string's buffer as a C string. */
    method AppendString(other: String)
      requires Valid() && other.Valid() && other != this && other.str != str
      modifies this, str
      ensures Valid() && (str == old(str) || fresh(str))
      ensures Contents() == old(Contents()) + old(other.Contents())
    {
      other.BufferText();
      Append(other.str[..]);
    }

    /** clear(): becomes a default-constructed string. */
    method Clear()
      requires Valid()
      modifies this
      ensures Valid() && fresh(str)
      ensures Contents() == [] && capacity == 2
    {
      var a := new char[2];
      a[0] := NUL;
      str, size, capacity := a, 0, 2;
    }

    /** swap(other): exchanges size, capacity and buffer. */
    method Swap(other: String)
      requires Valid() && other.Valid()
      modifies this, other
      ensures Valid() && other.Valid()
      ensures str == old(other.str) && size == old(other.size) && capacity == old(other.capacity)
      ensures other.str == old(str) && other.size == old(size) && other.capacity == old(capacity)
      ensures Contents() == old(other.Contents()) && other.Contents() == old(Contents())
    {
      var s, n, c := str, size, capacity;
      str, size, capacity := other.str, other.size, other.capacity;
      other.str, other.size, other.capacity := s, n, c;
    }
  }

  /** operator+(const String&, const String&): a copy of lhs with rhs appended. */
  method Concat(lhs: String, rhs: String) returns (r: String)
    requires lhs.Valid() && rhs.Valid()
    ensures fresh(r) && fresh(r.str) && r.Valid()
    ensures r.Contents() == lhs.Contents() + rhs.Contents()
  {
    r := new String.Copy(lhs);
    r.AppendString(rhs);
  }

  /** operator+(const String&, const char*): a copy of lhs with the C string appended. */
  method ConcatCString(lhs: String, rhs: seq<char>) returns (r: String)
    requires lhs.Valid() && Terminated(rhs)
    ensures fresh(r) && fresh(r.str) && r.Valid()
    ensures r.Contents() == lhs.Contents() + Text(rhs)
  {
    r := new String.Copy(lhs);
    r.Append(rhs);
  }

  /** operator+(const char*, const String&): the C string with rhs appended. */
  method CStringConcat(lhs: seq<char>, rhs: String) returns (r: String)
    requires Terminated(lhs) && rhs.Valid()
    ensures fresh(r) && fresh(r.str) && r.Valid()
    ensures r.Contents() == Text(lhs) + rhs.Contents()
  {
    r := new String.FromCString(lhs);
    r.AppendString(rhs);
  }

  /** A client: growing past the first buffer keeps the text, and `+`
      leaves its left operand as it was. */
  method AppendScenario()
  {
    TextOfTerminated(['a', 'b'], []);
    assert ['a', 'b'] + [NUL] + [] == ['a', 'b', NUL];
    var s := new String.FromCString(['a', 'b', NUL]);
    assert s.Contents() == ['a', 'b'] && s.capacity == 4;
    s.PushBack('c');
    assert s.capacity == 4;
    s.PushBack('d');
    assert s.Contents() == ['a', 'b', 'c', 'd'] && s.capacity == 16;
    var e := new String();
    var t := Concat(s, e);
    assert t.Contents() == s.Contents();
    var b := e.EqualsChar('a');
    assert !b;
  }
}
