/** cl::vector<T, N> and its iterator, from include/CL/cl.hpp, for plain value
    types. `size_` is one less than the size, modulo 2^32. */
module ClVector {

  const UINT_RANGE := 0x1_0000_0000
  const INT_LIMIT := 0x8000_0000

  function Take<T>(n: nat, s: seq<T>): seq<T> {
    if n < |s| then s[..n] else s
  }

  class Vector<T(==, 0)> {
    const data: array<T>
    var size_: nat
    var empty_: bool

    function Size(): nat
      reads this
    {
      (size_ + 1) % UINT_RANGE
    }

    /** The flag and the wrapped size agree, and the size fits the buffer. */
    ghost predicate Valid()
      reads this
    {
      && data.Length < UINT_RANGE && size_ < UINT_RANGE
      && (empty_ <==> Size() == 0) && Size() <= data.Length
    }

    ghost function Contents(): seq<T>
      requires Valid()
      reads this, data
    {
      data[..Size()]
    }

    constructor (capacity: nat)
      requires capacity < UINT_RANGE
      ensures Valid() && fresh(data) && data.Length == capacity && Contents() == []
    {
      data := new T[capacity];
      size_, empty_ := UINT_RANGE - 1, true;
    }

    method Clear()
      requires Valid()
      modifies this
      ensures Valid() && Contents() == []
    {
      size_, empty_ := UINT_RANGE - 1, true;
    }

    /** A full vector silently drops the element. */
    method PushBack(x: T)
      requires Valid()
      modifies this, data
      ensures Valid() && Contents() == Take(data.Length, old(Contents()) + [x])
      ensures forall i | Size() <= i < data.Length :: data[i] == old(data[i])
    {
      if Size() < data.Length {
        size_ := (size_ + 1) % UINT_RANGE;
        data[size_] := x;
        empty_ := false;
      }
    }

    method PopBack()
      requires Valid()
      modifies this
      ensures Valid()
      ensures Contents() == if old(Contents()) == [] then [] else old(Contents())[..|old(Contents())| - 1]
    {
      if !empty_ {
        size_ := (size_ - 1) % UINT_RANGE;
        if size_ == UINT_RANGE - 1 {
          empty_ := true;
        }
      }
    }

    method Back() returns (x: T)
      requires Valid() && !empty_
      ensures x == Contents()[|Contents()| - 1]
    {
      x := data[size_];
    }

    /** memcpy of the elements in use. */
    method CopyElements(from: array<T>, n: nat)
      requires n <= from.Length && n <= data.Length && from != data
      modifies data
      ensures data[..n] == from[..n] && from[..] == old(from[..])
    {
      for i := 0 to n
        invariant data[..i] == from[..i] && from[..] == old(from[..])
      {
        data[i] := from[i];
      }
    }

    constructor CopyOf(vec: Vector<T>)
      requires vec.Valid()
      ensures Valid() && fresh(data) && data.Length == vec.data.Length
      ensures Contents() == vec.Contents()
    {
      size_, empty_ := vec.size_, vec.empty_;
      data := new T[vec.data.Length];
      new;
      if !empty_ {
        CopyElements(vec.data, Size());
      }
    }

    constructor Fill(capacity: nat, size: nat, val: T)
      requires capacity < UINT_RANGE && size < UINT_RANGE
      ensures Valid() && fresh(data) && data.Length == capacity
      ensures Contents() == Take(capacity, seq(size, _ => val))
    {
      data := new T[capacity];
      size_, empty_ := UINT_RANGE - 1, true;
      new;
      for i := 0 to size
        invariant Valid() && Contents() == Take(capacity, seq(i, _ => val))
      {
        assert seq(i + 1, _ => val) == seq(i, _ => val) + [val];
        PushBack(val);
      }
    }

    /** operator=: both vectors have the same capacity N. */
    method Assign(rhs: Vector<T>)
      requires Valid() && rhs.Valid() && data.Length == rhs.data.Length
      requires this == rhs || data != rhs.data
      modifies this, data
      ensures Valid() && Contents() == old(rhs.Contents())
      ensures this != rhs ==> rhs.Valid() && rhs.Contents() == old(rhs.Contents())
    {
      if this == rhs {
        return;
      }
      size_, empty_ := rhs.size_, rhs.empty_;
      if !empty_ {
        CopyElements(rhs.data, Size());
      }
    }

    /** operator==, with memcmp as a loop. */
    method Equals(vec: Vector<T>) returns (same: bool)
      requires Valid() && vec.Valid()
      ensures same <==> Contents() == vec.Contents()
    {
      if empty_ && vec.empty_ {
        return true;
      }
      if Size() != vec.Size() {
        return false;
      }
      for i := 0 to Size()
        invariant data[..i] == vec.data[..i]
      {
        if data[i] != vec.data[i] {
          assert Contents()[i] != vec.Contents()[i];
          return false;
        }
      }
      return true;
    }

    /** assign(&src[start], &src[end]); the range may lie in this very vector. */
    method AssignRange(src: array<T>, start: nat, end: nat)
      requires Valid() && start <= src.Length && end <= src.Length
      modifies this, data
      ensures Valid()
      ensures Contents() == Take(data.Length, if start < end then old(src[start..end]) else [])
    {
      Clear();
      var i := start;
      ghost var all := src[..];
      while i < end
        invariant Valid() && if start < end then start <= i <= end else i == start
        invariant Contents() == Take(data.Length, all[start..i])
        invariant forall k | i <= k < src.Length :: src[k] == all[k]
      {
        assert all[start..i + 1] == all[start..i] + [all[i]];
        PushBack(src[i]);
        i := i + 1;
      }
      assert start < end ==> all[start..i] == old(src[..])[start..end] == old(src[start..end]);
    }
  }

  /** Conversion of an unsigned value, or of a result, to a 32-bit `int`. */
  function ToInt(x: int): int {
    var r := x % UINT_RANGE;
    if r < INT_LIMIT then r else r - UINT_RANGE
  }

  /** The value of a conversion is in range and the same modulo 2^32, so it does nothing to
      values in range. */
  lemma ToIntValue(x: int)
    ensures -0x8000_0000 <= ToInt(x) < 0x8000_0000 && (ToInt(x) - x) % 0x1_0000_0000 == 0
    ensures -0x8000_0000 <= x < 0x8000_0000 ==> ToInt(x) == x
  {
  }

  class Iterator<T(==, 0)> {
    const vec_: Vector<T>
    var index_: int
    var initialized_: bool

    ghost predicate Valid()
      reads this, vec_
    {
      vec_.Valid() && initialized_
    }

    constructor Begin(vec: Vector<T>)
      requires vec.Valid()
      ensures Valid() && fresh(vec_) && fresh(vec_.data)
      ensures vec_.Contents() == vec.Contents() && vec_.data.Length == vec.data.Length
      ensures index_ == if vec.Contents() == [] then -1 else 0
    {
      var copy := new Vector<T>.CopyOf(vec);
      vec_ := copy;
      index_ := if vec.empty_ then -1 else 0;
      initialized_ := true;
    }

    constructor End(vec: Vector<T>)
      requires vec.Valid()
      ensures Valid() && fresh(vec_) && fresh(vec_.data)
      ensures vec_.Contents() == vec.Contents() && vec_.data.Length == vec.data.Length
      ensures index_ == if vec.Contents() == [] then -1 else ToInt(|vec.Contents()|)
    {
      var copy := new Vector<T>.CopyOf(vec);
      vec_ := copy;
      index_ := if vec.empty_ then -1 else ToInt(vec.Size());
      initialized_ := true;
    }

    method Equals(i: Iterator<T>) returns (same: bool)
      requires Valid() && i.Valid()
      ensures same <==> vec_.Contents() == i.vec_.Contents() && index_ == i.index_
    {
      var sameVector := vec_.Equals(i.vec_);
      same := sameVector && index_ == i.index_ && initialized_ == i.initialized_;
    }

    /** Prefix `++`. */
    method Increment()
      modifies this`index_
      ensures index_ == ToInt(old(index_) + 1)
    {
      index_ := ToInt(index_ + 1);
    }

    /** Postfix `++`: the compiler passes 0 for `x`, so `it++` stays where it is. */
    method PostIncrement(x: int)
      modifies this`index_
      ensures index_ == ToInt(old(index_) + x)
    {
      index_ := ToInt(index_ + x);
    }

    method Deref() returns (x: T)
      requires Valid() && 0 <= index_ < |vec_.Contents()|
      ensures x == vec_.Contents()[index_]
    {
      x := vec_.data[index_];
    }
  }

  /** `for (it = begin; it != end; ++it)`: visits the snapshot's elements in order. */
  method Visit<T(==, 0)>(it: Iterator<T>, end: Iterator<T>) returns (visited: seq<T>)
    requires it.Valid() && end.Valid() && it != end
    requires it.vec_.Contents() == end.vec_.Contents()
    requires |it.vec_.Contents()| < INT_LIMIT
    requires if it.vec_.Contents() == [] then it.index_ == end.index_
             else it.index_ == 0 && end.index_ == |it.vec_.Contents()|
    modifies it`index_
    ensures visited == it.vec_.Contents()
  {
    visited := [];
    ghost var all := it.vec_.Contents();
    while true
      invariant all == [] ==> it.index_ == end.index_ && visited == []
      invariant all != [] ==> 0 <= it.index_ <= |all| && visited == all[..it.index_]
      decreases if all == [] then 0 else |all| - it.index_
    {
      var done := it.Equals(end);
      if done {
        return;
      }
      var x := it.Deref();
      visited := visited + [x];
      it.Increment();
    }
  }

  /** Stepping from begin() to end() yields exactly the contents, also when there
      are none, and although the vector is cleared in between. */
  method VisitSnapshot<T(==, 0)>(vec: Vector<T>) returns (visited: seq<T>)
    requires vec.Valid() && vec.Size() < INT_LIMIT
    modifies vec
    ensures visited == old(vec.Contents())
    ensures vec.Valid() && vec.Contents() == []
  {
    var it := new Iterator<T>.Begin(vec);
    var end := new Iterator<T>.End(vec);
    vec.Clear();
    visited := Visit(it, end);
  }

  /** With `it++` instead of `++it` the loop is not over after any number of rounds,
      unless the vector is empty. */
  method PostfixLoop<T(==, 0)>(vec: Vector<T>, rounds: nat) returns (over: bool)
    requires vec.Valid() && vec.Size() < INT_LIMIT
    ensures over <==> vec.Contents() == []
  {
    var it := new Iterator<T>.Begin(vec);
    var end := new Iterator<T>.End(vec);
    for i := 0 to rounds
      invariant it.Valid() && it.index_ == if vec.Contents() == [] then -1 else 0
      invariant end.Valid() && end.index_ == if vec.Contents() == [] then -1 else vec.Size()
      invariant it.vec_.Contents() == end.vec_.Contents() == vec.Contents()
    {
      it.PostIncrement(0);
    }
    over := it.Equals(end);
  }
}
