/** Ascending numeric sort of the median filter's window, the job of
    `windowPixels.sort((a, b) => a - b)`: a specification (a functional
    insertion sort, with the fact that a sorted permutation is unique) and
    an in-place insertion sort on an array proved against it. */
module Sorting {

  predicate Sorted(s: seq<int>) {
    forall i, j :: 0 <= i < j < |s| ==> s[i] <= s[j]
  }

  /** v inserted before the first element of s that is not smaller. */
  function Insert(v: int, s: seq<int>): (r: seq<int>)
    ensures multiset(r) == multiset(s) + multiset{v}
  {
    if s == [] || v <= s[0] then [v] + s
    else
      assert s == [s[0]] + s[1..];
      [s[0]] + Insert(v, s[1..])
  }

  /** Inserting into a sorted sequence keeps it sorted. */
  lemma {:induction false} InsertSorted(v: int, s: seq<int>)
    requires Sorted(s)
    ensures Sorted(Insert(v, s))
  {
    if s != [] && v > s[0] {
      InsertSorted(v, s[1..]);
      var rest := Insert(v, s[1..]);
      forall e | e in rest ensures s[0] <= e {
        assert e in multiset(rest);
        if e != v {
          assert e in multiset(s[1..]);
        }
      }
      var r := [s[0]] + rest;
      forall i, j | 0 <= i < j < |r| ensures r[i] <= r[j] {
        if i == 0 {
          assert r[j] in rest;
        }
      }
    }
  }

  /** The sorted rearrangement of s (a functional insertion sort). */
  function SortedSeq(s: seq<int>): (r: seq<int>)
    ensures Sorted(r) && multiset(r) == multiset(s)
  {
    if s == [] then []
    else
      assert s == [s[0]] + s[1..];
      InsertSorted(s[0], SortedSeq(s[1..]));
      Insert(s[0], SortedSeq(s[1..]))
  }

  /** Two sorted sequences with the same elements are equal. */
  lemma {:induction false} SortedUnique(a: seq<int>, b: seq<int>)
    requires Sorted(a) && Sorted(b) && multiset(a) == multiset(b)
    ensures a == b
  {
    assert |a| == |multiset(a)| == |multiset(b)| == |b|;
    if a != [] {
      HeadIsLeast(b, a[0]);
      HeadIsLeast(a, b[0]);
      assert a[0] == b[0];
      var a', b' := a[1..], b[1..];
      assert a == [a[0]] + a';
      assert b == [b[0]] + b';
      assert multiset(a') == multiset(b') by {
        assert multiset(a) == multiset{a[0]} + multiset(a');
        assert multiset(b) == multiset{b[0]} + multiset(b');
        assert multiset(a') == multiset(a) - multiset{a[0]};
        assert multiset(b') == multiset(b) - multiset{b[0]};
      }
      SortedUnique(a', b');
    }
  }

  /** The head of a sorted sequence is at most any of its elements. */
  lemma HeadIsLeast(s: seq<int>, e: int)
    requires Sorted(s) && e in multiset(s)
    ensures s[0] <= e
  {
    var i :| 0 <= i < |s| && s[i] == e;
  }

  /** The sorted sequence s of the elements of a: every element of a lies
      between s's first and last. */
  lemma SortedBounds(a: seq<int>, s: seq<int>, k: nat)
    requires Sorted(s) && multiset(s) == multiset(a) && k < |s|
    ensures s[k] in a
    ensures forall e :: e in a ==> s[0] <= e <= s[|s| - 1]
  {
    assert s[k] in multiset(a);
    forall e | e in a ensures s[0] <= e <= s[|s| - 1] {
      assert e in multiset(s);
    }
  }

  /** The middle of the sorted a is one of a's elements. */
  lemma MiddleOfSorted(a: seq<int>)
    requires |a| >= 1
    ensures |SortedSeq(a)| == |a| && SortedSeq(a)[|a| / 2] in a
  {
    var s := SortedSeq(a);
    assert |s| == |multiset(s)| == |multiset(a)| == |a|;
    assert s[|a| / 2] in multiset(a);
  }

  /** The middle of the sorted a lies between its first and last, which
      bound every element of a. */
  lemma MiddleBounds(a: seq<int>)
    requires |a| >= 1
    ensures |SortedSeq(a)| == |a|
    ensures SortedSeq(a)[0] <= SortedSeq(a)[|a| / 2] <= SortedSeq(a)[|a| - 1]
    ensures forall e :: e in a ==> SortedSeq(a)[0] <= e <= SortedSeq(a)[|a| - 1]
  {
    var s := SortedSeq(a);
    MiddleOfSorted(a);
    SortedBounds(a, s, 0);
  }

  /** Swapping two neighbours keeps the elements. */
  method SwapDown(a: array<int>, j: nat)
    requires 0 < j < a.Length
    modifies a
    ensures a[j - 1] == old(a[j]) && a[j] == old(a[j - 1])
    ensures forall p :: 0 <= p < a.Length && p != j - 1 && p != j ==> a[p] == old(a[p])
    ensures multiset(a[..]) == old(multiset(a[..]))
  {
    a[j - 1], a[j] := a[j], a[j - 1];
  }

  /** One pass of insertion sort: a[i] moves down into the sorted prefix. */
  method InsertInto(a: array<int>, i: nat)
    requires 0 < i < a.Length && Sorted(a[..i])
    modifies a
    ensures Sorted(a[..i + 1])
    ensures multiset(a[..]) == old(multiset(a[..]))
    ensures a[i + 1..] == old(a[i + 1..])
  {
    var j := i;
    while j > 0 && a[j - 1] > a[j]
      invariant 0 <= j <= i
      invariant forall p, q :: 0 <= p < q <= i && p != j && q != j ==> a[p] <= a[q]
      invariant forall q :: j < q <= i ==> a[j] < a[q]
      invariant multiset(a[..]) == old(multiset(a[..]))
      invariant a[i + 1..] == old(a[i + 1..])
    {
      SwapDown(a, j);
      j := j - 1;
    }
  }

  /** Rearranging a sequence without touching its suffix rearranges its
      prefix: with InsertInto's contract, the new a[..i + 1] is the sorted
      rearrangement of the old one. */
  lemma PrefixKept(before: seq<int>, after: seq<int>, n: nat)
    requires n <= |before| == |after|
    requires multiset(before) == multiset(after) && before[n..] == after[n..]
    ensures multiset(before[..n]) == multiset(after[..n])
  {
    assert before == before[..n] + before[n..];
    assert after == after[..n] + after[n..];
    assert multiset(before) == multiset(before[..n]) + multiset(before[n..]);
    assert multiset(after) == multiset(after[..n]) + multiset(after[n..]);
    assert multiset(before[..n]) == multiset(before) - multiset(before[n..]);
    assert multiset(after[..n]) == multiset(after) - multiset(after[n..]);
  }

  /** Insertion sort of a copy of s in an array. */
  method SortAscending(s: seq<int>) returns (r: seq<int>)
    ensures Sorted(r) && multiset(r) == multiset(s)
    ensures r == SortedSeq(s)
  {
    var a := new int[|s|](i requires 0 <= i < |s| => s[i]);
    assert a[..] == s;
    var i := if a.Length == 0 then 0 else 1;
    while i < a.Length
      invariant i <= a.Length
      invariant a.Length > 0 ==> 1 <= i
      invariant Sorted(a[..i])
      invariant multiset(a[..]) == multiset(s)
    {
      InsertInto(a, i);
      i := i + 1;
    }
    assert a[..i] == a[..];
    r := a[..];
    SortedUnique(r, SortedSeq(s));
  }
}
