/**
 * The generic slice algorithms the package carries for older Go versions.
 * Read-only operations take the slice as a sequence; operations that write
 * into the slice's backing array take that array, whose whole length is the
 * slice. Go's zero value of the element type is the parameter `zero`.
 */
module Slices {

  // ---------------------------------------------------------------------
  // Specification functions

  /** The in-order concatenation of a list of slices. */
  function Flatten<T>(slices: seq<seq<T>>): (r: seq<T>)
  {
    if slices == [] then [] else Flatten(slices[..|slices| - 1]) + slices[|slices| - 1]
  }

  /** The sum of the lengths of a list of slices. */
  function TotalLength<T>(slices: seq<seq<T>>): (n: nat)
  {
    if slices == [] then 0 else TotalLength(slices[..|slices| - 1]) + |slices[|slices| - 1]|
  }

  /** The elements of s for which del is false, in their original order. */
  function Keep<T>(s: seq<T>, del: T -> bool): (r: seq<T>)
  {
    if s == [] then []
    else Keep(s[..|s| - 1], del) + (if del(s[|s| - 1]) then [] else [s[|s| - 1]])
  }

  /** No adjacent pair is out of order. */
  predicate AdjacentSorted(x: seq<int>)
  {
    forall k :: 0 < k < |x| ==> !(x[k] < x[k - 1])
  }

  // ---------------------------------------------------------------------
  // Lemmas about the specification functions

  /** The concatenation is as long as all its parts together. */
  lemma {:induction false} FlattenLength<T>(slices: seq<seq<T>>)
    ensures |Flatten(slices)| == TotalLength(slices)
  {
    if slices != [] {
      FlattenLength(slices[..|slices| - 1]);
    }
  }

  /** Part i of a concatenation starts where the parts before it end. */
  lemma {:induction false} FlattenAt<T>(slices: seq<seq<T>>, i: nat)
    requires i < |slices|
    ensures TotalLength(slices[..i]) + |slices[i]| <= |Flatten(slices)|
    ensures Flatten(slices)[TotalLength(slices[..i])..TotalLength(slices[..i]) + |slices[i]|] == slices[i]
  {
    var n := |slices| - 1;
    var init := slices[..n];
    FlattenLength(init);
    FlattenLength(slices[..i]);
    if i == n {
      assert init == slices[..i];
    } else {
      FlattenAt(init, i);
      assert init[..i] == slices[..i];
      assert init[i] == slices[i];
    }
  }

  /** Exactly the elements that are not deleted survive. */
  lemma {:induction false} KeepMembers<T>(s: seq<T>, del: T -> bool, x: T)
    ensures x in Keep(s, del) <==> x in s && !del(x)
  {
    if s != [] {
      var init := s[..|s| - 1];
      KeepMembers(init, del, x);
      assert s == init + [s[|s| - 1]];
    }
  }

  /** Keep removes nothing from a slice none of whose elements is deleted. */
  lemma {:induction false} KeepNone<T>(s: seq<T>, del: T -> bool)
    requires forall k :: 0 <= k < |s| ==> !del(s[k])
    ensures Keep(s, del) == s
  {
    if s != [] {
      KeepNone(s[..|s| - 1], del);
    }
  }

  /** Keep over one more element of s. */
  lemma KeepSnoc<T>(s: seq<T>, j: nat, del: T -> bool)
    requires j < |s|
    ensures Keep(s[..j + 1], del) == Keep(s[..j], del) + (if del(s[j]) then [] else [s[j]])
  {
    assert s[..j + 1][..j] == s[..j];
  }

  /** Adjacent order is total order. */
  lemma {:induction false} AdjacentSortedIsSorted(x: seq<int>, i: nat, j: nat)
    requires AdjacentSorted(x) && i <= j < |x|
    ensures x[i] <= x[j]
    decreases j - i
  {
    if i < j {
      AdjacentSortedIsSorted(x, i + 1, j);
    }
  }

  // ---------------------------------------------------------------------
  // Read-only operations

  /** slicesConcat: appends every slice, in order, to a new slice. */
  method Concat<T>(slices: seq<seq<T>>) returns (r: seq<T>)
    ensures r == Flatten(slices)
    ensures |r| == TotalLength(slices)
  {
    r := [];
    var k := 0;
    while k < |slices|
      invariant 0 <= k <= |slices|
      invariant r == Flatten(slices[..k])
    {
      assert slices[..k + 1][..k] == slices[..k];
      r := r + slices[k];
      k := k + 1;
    }
    assert slices[..k] == slices;
    FlattenLength(slices);
  }

  /** slicesEqual: same length and equal elements at every position. */
  method Equal<T(==)>(s1: seq<T>, s2: seq<T>) returns (b: bool)
    ensures b <==> |s1| == |s2| && forall k :: 0 <= k < |s1| ==> s1[k] == s2[k]
    ensures b <==> s1 == s2
  {
    if |s1| != |s2| {
      return false;
    }
    var i := 0;
    while i < |s1|
      invariant 0 <= i <= |s1|
      invariant forall k :: 0 <= k < i ==> s1[k] == s2[k]
    {
      if s1[i] != s2[i] {
        return false;
      }
      i := i + 1;
    }
    return true;
  }

  /** slicesEqualFunc: same length and eq holds at every position. */
  method EqualFunc<E1, E2>(s1: seq<E1>, s2: seq<E2>, eq: (E1, E2) -> bool) returns (b: bool)
    ensures b <==> |s1| == |s2| && forall k :: 0 <= k < |s1| ==> eq(s1[k], s2[k])
  {
    if |s1| != |s2| {
      return false;
    }
    var i := 0;
    while i < |s1|
      invariant 0 <= i <= |s1|
      invariant forall k :: 0 <= k < i ==> eq(s1[k], s2[k])
    {
      if !eq(s1[i], s2[i]) {
        return false;
      }
      i := i + 1;
    }
    return true;
  }

  /** slicesClone: nil stays nil; anything else is copied into a new backing array. */
  method Clone<T>(s: array?<T>) returns (c: array?<T>)
    ensures (c == null) <==> (s == null)
    ensures c != null ==> fresh(c) && c[..] == s[..]
  {
    if s == null {
      return null;
    }
    c := new T[s.Length](k requires 0 <= k < s.Length reads s => s[k]);
  }

  /** slicesIndex: the first position holding v, or -1. */
  method Index<T(==)>(s: seq<T>, v: T) returns (i: int)
    ensures -1 <= i < |s|
    ensures 0 <= i ==> s[i] == v && forall k :: 0 <= k < i ==> s[k] != v
    ensures i == -1 <==> v !in s
  {
    i := 0;
    while i < |s|
      invariant 0 <= i <= |s|
      invariant forall k :: 0 <= k < i ==> s[k] != v
    {
      if v == s[i] {
        return i;
      }
      i := i + 1;
    }
    return -1;
  }

  /** slicesIndexFunc: the first position whose element satisfies f, or -1. */
  method IndexFunc<T>(s: seq<T>, f: T -> bool) returns (i: int)
    ensures -1 <= i < |s|
    ensures 0 <= i ==> f(s[i]) && forall k :: 0 <= k < i ==> !f(s[k])
    ensures i == -1 ==> forall k :: 0 <= k < |s| ==> !f(s[k])
  {
    i := 0;
    while i < |s|
      invariant 0 <= i <= |s|
      invariant forall k :: 0 <= k < i ==> !f(s[k])
    {
      if f(s[i]) {
        return i;
      }
      i := i + 1;
    }
    return -1;
  }

  /** slicesContains: whether Index finds v. */
  method Contains<T(==)>(s: seq<T>, v: T) returns (b: bool)
    ensures b <==> v in s
  {
    var i := Index(s, v);
    b := i >= 0;
  }

  /** slicesContainsFunc: whether IndexFunc finds an element satisfying f. */
  method ContainsFunc<T>(s: seq<T>, f: T -> bool) returns (b: bool)
    ensures b <==> exists k :: 0 <= k < |s| && f(s[k])
  {
    var i := IndexFunc(s, f);
    b := i >= 0;
  }

  /** slicesIsSorted: scans from the end for an element smaller than its predecessor. */
  method IsSorted(x: seq<int>) returns (b: bool)
    ensures b <==> AdjacentSorted(x)
    ensures b ==> forall i, j :: 0 <= i <= j < |x| ==> x[i] <= x[j]
  {
    var i := |x| - 1;
    while i > 0
      invariant i < |x|
      invariant forall k :: i < k < |x| && 0 < k ==> !(x[k] < x[k - 1])
    {
      if x[i] < x[i - 1] {
        return false;
      }
      i := i - 1;
    }
    b := true;
    forall i, j | 0 <= i <= j < |x| ensures x[i] <= x[j] {
      AdjacentSortedIsSorted(x, i, j);
    }
  }

  /** slicesIsSortedFunc: no element compares below its predecessor under cmp. */
  method IsSortedFunc<T>(x: seq<T>, cmp: (T, T) -> int) returns (b: bool)
    ensures b <==> forall k :: 0 < k < |x| ==> cmp(x[k], x[k - 1]) >= 0
  {
    var i := |x| - 1;
    while i > 0
      invariant i < |x|
      invariant forall k :: i < k < |x| && 0 < k ==> cmp(x[k], x[k - 1]) >= 0
    {
      if cmp(x[i], x[i - 1]) < 0 {
        return false;
      }
      i := i - 1;
    }
    return true;
  }

  // ---------------------------------------------------------------------
  // Operations on the backing array

  /** clearSlice on the window a[lo..hi]: every element becomes the zero value. */
  method Clear<T>(a: array<T>, lo: nat, hi: nat, zero: T)
    requires lo <= hi <= a.Length
    modifies a
    ensures forall k :: lo <= k < hi ==> a[k] == zero
    ensures forall k :: 0 <= k < a.Length && !(lo <= k < hi) ==> a[k] == old(a[k])
    ensures a[..lo] == old(a[..lo])
  {
    var i := lo;
    while i < hi
      invariant lo <= i <= hi
      invariant forall k :: lo <= k < i ==> a[k] == zero
      invariant forall k :: 0 <= k < a.Length && !(lo <= k < i) ==> a[k] == old(a[k])
    {
      a[i] := zero;
      i := i + 1;
    }
  }

  /**
   * slicesDelete: removes a[i..j] by moving the tail down, zeroes the
   * vacated end of the backing array and returns the new length.
   */
  method Delete<T>(a: array<T>, i: nat, j: nat, zero: T) returns (newLen: nat)
    requires i <= j <= a.Length
    modifies a
    ensures newLen == a.Length - (j - i)
    ensures a[..newLen] == old(a[..i]) + old(a[j..])
    ensures forall k :: newLen <= k < a.Length ==> a[k] == zero
    ensures i == j ==> a[..] == old(a[..])
  {
    if i == j {
      return a.Length;
    }
    var oldLen := a.Length;
    // append(s[:i], s[j:]...) moves the tail in place, as one memmove
    forall k | i <= k < oldLen - (j - i) {
      a[k] := a[k + (j - i)];
    }
    newLen := oldLen - (j - i);
    assert a[..newLen] == old(a[..i]) + old(a[j..]);
    Clear(a, newLen, oldLen, zero);
    assert a[..newLen] == old(a[..i]) + old(a[j..]);
  }

  /**
   * slicesDeleteFunc: compacts the elements that are not deleted to the
   * front, in order, zeroes the rest of the backing array and returns the
   * new length. Nothing is written before the first deleted element.
   */
  method DeleteFunc<T>(a: array<T>, del: T -> bool, zero: T) returns (newLen: nat)
    modifies a
    ensures newLen <= a.Length
    ensures a[..newLen] == Keep(old(a[..]), del)
    ensures forall k :: newLen <= k < a.Length ==> a[k] == zero
  {
    var first := IndexFunc(a[..], del);
    if first == -1 {
      KeepNone(a[..], del);
      return a.Length;
    }
    ghost var s := a[..];
    var i: nat := first;
    KeepNone(s[..i], del);
    KeepSnoc(s, i, del);
    var j := i + 1;
    while j < a.Length
      invariant i < j <= a.Length
      invariant a[..i] == Keep(s[..j], del)
      invariant forall k :: j <= k < a.Length ==> a[k] == s[k]
    {
      var v := a[j];
      KeepSnoc(s, j, del);
      if !del(v) {
        a[i] := v;
        i := i + 1;
      }
      j := j + 1;
    }
    assert s[..j] == s;
    Clear(a, i, a.Length, zero);
    newLen := i;
  }
}
