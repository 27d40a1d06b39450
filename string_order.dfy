/**
 * Go's string ordering and `sort.Strings`.
 *
 * Go compares strings byte by byte. For well-formed UTF-8 that order is the
 * same as comparing the code points one by one, which is what `LessEq` does
 * on Dafny's `char`s.
 */
module StringOrder {

  /** `a <= b` in Go's byte-wise (lexicographic) string order. */
  predicate LessEq(a: string, b: string)
  {
    if |a| == 0 then true
    else if |b| == 0 then false
    else if a[0] != b[0] then a[0] < b[0]
    else LessEq(a[1..], b[1..])
  }

  lemma {:induction false} LessEqReflexive(a: string)
    ensures LessEq(a, a)
  {
    if |a| > 0 { LessEqReflexive(a[1..]); }
  }

  lemma {:induction false} LessEqTotal(a: string, b: string)
    ensures LessEq(a, b) || LessEq(b, a)
  {
    if |a| > 0 && |b| > 0 && a[0] == b[0] { LessEqTotal(a[1..], b[1..]); }
  }

  lemma {:induction false} LessEqAntisymmetric(a: string, b: string)
    requires LessEq(a, b) && LessEq(b, a)
    ensures a == b
  {
    if |a| > 0 && |b| > 0 {
      LessEqAntisymmetric(a[1..], b[1..]);
      assert a == [a[0]] + a[1..] && b == [b[0]] + b[1..];
    }
  }

  lemma {:induction false} LessEqTransitive(a: string, b: string, c: string)
    requires LessEq(a, b) && LessEq(b, c)
    ensures LessEq(a, c)
  {
    if |a| > 0 && |b| > 0 && |c| > 0 && a[0] == b[0] == c[0] {
      LessEqTransitive(a[1..], b[1..], c[1..]);
    }
  }

  /** Non-decreasing in Go's string order. */
  ghost predicate Sorted(s: seq<string>)
  {
    forall i, j :: 0 <= i < j < |s| ==> LessEq(s[i], s[j])
  }

  /** The first string of a sorted sequence is `<=` every string in it. */
  lemma SortedHeadIsLeast(s: seq<string>, x: string)
    requires Sorted(s) && x in multiset(s)
    ensures LessEq(s[0], x)
  {
    var k :| 0 <= k < |s| && s[k] == x;
    if k == 0 { LessEqReflexive(x); }
  }

  /** Dropping the first string keeps a sequence sorted and removes one copy of it. */
  lemma SortedTail(s: seq<string>)
    requires Sorted(s) && |s| > 0
    ensures Sorted(s[1..])
    ensures multiset(s[1..]) == multiset(s) - multiset{s[0]}
  {
    assert s == [s[0]] + s[1..];
    assert multiset(s) == multiset{s[0]} + multiset(s[1..]);
  }

  /**
   * A sorted arrangement of a multiset of strings is unique: whatever order
   * the strings arrive in, sorting them gives the same sequence.
   */
  lemma {:induction false} SortedUnique(a: seq<string>, b: seq<string>)
    requires Sorted(a) && Sorted(b)
    requires multiset(a) == multiset(b)
    ensures a == b
  {
    assert |a| == |multiset(a)| == |multiset(b)| == |b|;
    if |a| > 0 {
      assert a[0] in multiset(b) && b[0] in multiset(a);
      SortedHeadIsLeast(b, a[0]);
      SortedHeadIsLeast(a, b[0]);
      LessEqAntisymmetric(a[0], b[0]);
      SortedTail(a);
      SortedTail(b);
      SortedUnique(a[1..], b[1..]);
      assert a == [a[0]] + a[1..] && b == [b[0]] + b[1..];
    }
  }

  /**
   * `sort.Strings`: sorts the slice in place. Realised here as an insertion
   * sort by adjacent swaps; only the outcome (sorted, same strings) is the
   * library's promise.
   */
  method SortStrings(a: array<string>)
    modifies a
    ensures Sorted(a[..])
    ensures multiset(a[..]) == multiset(old(a[..]))
  {
    var i := 0;
    while i < a.Length
      invariant 0 <= i <= a.Length
      invariant Sorted(a[..i])
      invariant multiset(a[..]) == multiset(old(a[..]))
    {
      SinkLast(a, i);
      i := i + 1;
    }
    assert a[..a.Length] == a[..];
  }

  lemma SwapKeepsMultiset(s: seq<string>, p: nat, q: nat)
    requires p < q < |s|
    ensures multiset(s[p := s[q]][q := s[p]]) == multiset(s)
  {
  }

  /**
   * While `SinkLast` moves the new string down, `s[..i + 1]` is sorted apart
   * from position `j`, and the string at `j` is `<=` everything after it.
   */
  ghost predicate SinkingAt(s: seq<string>, i: nat, j: nat)
    requires j <= i < |s|
  {
    && (forall p, q :: 0 <= p < q <= i && p != j && q != j ==> LessEq(s[p], s[q]))
    && (forall q :: j < q <= i ==> LessEq(s[j], s[q]))
  }

  /** Swapping the moving string below a greater neighbour keeps `SinkingAt`, one place lower. */
  lemma SinkStep(s: seq<string>, i: nat, j: nat)
    requires 0 < j <= i < |s| && SinkingAt(s, i, j)
    requires !LessEq(s[j - 1], s[j])
    ensures SinkingAt(s[j - 1 := s[j]][j := s[j - 1]], i, j - 1)
  {
    LessEqTotal(s[j - 1], s[j]);
    var t := s[j - 1 := s[j]][j := s[j - 1]];
    forall q | j - 1 < q <= i
      ensures LessEq(t[j - 1], t[q])
    {
      if q > j { LessEqTransitive(s[j], s[j - 1], s[q]); }
    }
  }

  /** Once the moving string is `>=` its lower neighbour, the prefix is sorted. */
  lemma SinkDone(s: seq<string>, i: nat, j: nat)
    requires j <= i < |s| && SinkingAt(s, i, j)
    requires j == 0 || LessEq(s[j - 1], s[j])
    ensures Sorted(s[..i + 1])
  {
    forall p, q | 0 <= p < q <= i
      ensures LessEq(s[p], s[q])
    {
      if q == j && p < j - 1 {
        LessEqTransitive(s[p], s[j - 1], s[j]);
      }
    }
  }

  /** Moves `a[i]` down into the sorted prefix `a[..i]`, so that `a[..i + 1]` is sorted. */
  method SinkLast(a: array<string>, i: nat)
    requires i < a.Length && Sorted(a[..i])
    modifies a
    ensures Sorted(a[..i + 1])
    ensures a[i + 1..] == old(a[i + 1..])
    ensures multiset(a[..]) == multiset(old(a[..]))
  {
    var j := i;
    assert SinkingAt(a[..], i, j);
    while j > 0 && !LessEq(a[j - 1], a[j])
      invariant 0 <= j <= i
      invariant SinkingAt(a[..], i, j)
      invariant a[i + 1..] == old(a[i + 1..])
      invariant multiset(a[..]) == multiset(old(a[..]))
    {
      ghost var before := a[..];
      SinkStep(before, i, j);
      SwapKeepsMultiset(before, j - 1, j);
      a[j - 1], a[j] := a[j], a[j - 1];
      assert a[..] == before[j - 1 := before[j]][j := before[j - 1]];
      j := j - 1;
    }
    SinkDone(a[..], i, j);
  }
}
