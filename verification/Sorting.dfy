/** The shell sort of src/util/util.c, with its default order: strcmp on strings. */
module Sorting {

  type Str = seq<nat>

  // ----- the order -----

  /** strcmp(a, b) <= 0, on strings without terminators inside. */
  predicate Le(a: Str, b: Str) {
    a == [] || (b != [] && (a[0] < b[0] || (a[0] == b[0] && Le(a[1..], b[1..]))))
  }

  lemma {:induction false} LeTotal(a: Str, b: Str)
    ensures Le(a, b) || Le(b, a)
  {
    if a != [] && b != [] && a[0] == b[0] { LeTotal(a[1..], b[1..]); }
  }

  lemma {:induction false} LeTransitive(a: Str, b: Str, c: Str)
    requires Le(a, b) && Le(b, c)
    ensures Le(a, c)
  {
    if a != [] && c != [] && a[0] == b[0] == c[0] { LeTransitive(a[1..], b[1..], c[1..]); }
  }

  lemma {:induction false} LeAntisymmetric(a: Str, b: Str)
    requires Le(a, b) && Le(b, a)
    ensures a == b
  {
    if a != [] && b != [] {
      LeAntisymmetric(a[1..], b[1..]);
      assert a == [a[0]] + a[1..] && b == [b[0]] + b[1..];
    }
  }

  /** The first position at which the strings differ decides; a string that ends there comes first. */
  lemma {:induction false} LeIsByFirstDifference(a: Str, b: Str)
    ensures Le(a, b) <==> a <= b || exists i :: 0 <= i < |a| && i < |b| && a[..i] == b[..i] && a[i] < b[i]
  {
    if a == [] || b == [] {
    } else if a[0] != b[0] {
      FirstBytesDiffer(a, b);
    } else {
      LeIsByFirstDifference(a[1..], b[1..]);
      DifferenceMoves(a, b);
      PrefixMoves(a, b);
    }
  }

  lemma FirstBytesDiffer(a: Str, b: Str)
    requires a != [] && b != [] && a[0] != b[0]
    ensures (exists i :: 0 <= i < |a| && i < |b| && a[..i] == b[..i] && a[i] < b[i]) <==> a[0] < b[0]
    ensures !(a <= b)
  {
    assert a[..0] == b[..0];
    assert forall i :: 0 < i < |a| && i < |b| ==> a[..i][0] != b[..i][0];
  }

  lemma DifferenceMoves(a: Str, b: Str)
    requires a != [] && b != [] && a[0] == b[0]
    ensures (exists i :: 0 <= i < |a| && i < |b| && a[..i] == b[..i] && a[i] < b[i])
            <==> exists i :: 0 <= i < |a[1..]| && i < |b[1..]| && a[1..][..i] == b[1..][..i] && a[1..][i] < b[1..][i]
  {
    if i :| 0 <= i < |a| && i < |b| && a[..i] == b[..i] && a[i] < b[i] {
      assert a[1..][..i - 1] == a[..i][1..] && b[1..][..i - 1] == b[..i][1..];
      assert a[1..][i - 1] < b[1..][i - 1];
    }
    if i :| 0 <= i < |a[1..]| && i < |b[1..]| && a[1..][..i] == b[1..][..i] && a[1..][i] < b[1..][i] {
      assert a[..i + 1] == [a[0]] + a[1..][..i] && b[..i + 1] == [b[0]] + b[1..][..i];
      assert a[i + 1] < b[i + 1];
    }
  }

  lemma PrefixMoves(a: Str, b: Str)
    requires a != [] && b != [] && a[0] == b[0]
    ensures a <= b <==> a[1..] <= b[1..]
  {
    if a <= b { assert a == b[..|a|] && a[1..] == b[1..][..|a| - 1]; }
    if a[1..] <= b[1..] { assert a == [a[0]] + a[1..] && b[..|a|] == [b[0]] + b[1..][..|a| - 1]; }
  }

  predicate Sorted(s: seq<Str>) {
    forall i, j :: 0 <= i < j < |s| ==> Le(s[i], s[j])
  }

  // ----- the sort -----

  /** 1, 4, 13, 40, ... */
  predicate IsGap(g: nat) {
    g == 1 || (g > 1 && g % 3 == 1 && IsGap((g - 1) / 3))
  }

  method FirstGap(n: nat) returns (gap: nat)
    requires n > 1
    ensures IsGap(gap) && gap < n
  {
    gap := 1;
    while gap < (n - 1) / 3
      invariant IsGap(gap) && gap < n
      decreases n - gap
    {
      assert (3 * gap + 1 - 1) / 3 == gap && (3 * gap + 1) % 3 == 1;
      gap := 3 * gap + 1;
    }
  }

  method Swap(a: array<Str>, i: nat, j: nat)
    requires i < j < a.Length
    modifies a
    ensures a[..] == old(a[..])[i := old(a[j])][j := old(a[i])]
    ensures multiset(a[..]) == old(multiset(a[..]))
  {
    ghost var was := a[..];
    a[i], a[j] := a[j], a[i];
    assert a[..] == was[i := was[j]][j := was[i]];
  }

  /** The prefix up to i is in order, but for the element at j on its way down. */
  ghost predicate Sinking(s: seq<Str>, i: nat, j: nat) {
    && j <= i < |s|
    && (forall p, q :: 0 <= p < q <= i && q != j && p != j ==> Le(s[p], s[q]))
    && (forall q :: j < q <= i ==> Le(s[j], s[q]))
  }

  lemma SinkingStarts(s: seq<Str>, i: nat)
    requires i < |s| && Sorted(s[..i])
    ensures Sinking(s, i, i)
  {
    forall p, q | 0 <= p < q < i ensures Le(s[p], s[q]) { assert s[..i][p] == s[p] && s[..i][q] == s[q]; }
  }

  lemma SinkingStep(s: seq<Str>, i: nat, j: nat)
    requires Sinking(s, i, j) && 0 < j && !Le(s[j - 1], s[j])
    ensures Sinking(s[j - 1 := s[j]][j := s[j - 1]], i, j - 1)
  {
    LeTotal(s[j - 1], s[j]);
  }

  lemma SinkingStops(s: seq<Str>, i: nat, j: nat)
    requires Sinking(s, i, j) && (j > 0 ==> Le(s[j - 1], s[j]))
    ensures Sorted(s[..i + 1])
  {
    forall p, q | 0 <= p < q <= i ensures Le(s[p], s[q]) {
      if q == j && p < j - 1 { LeTransitive(s[p], s[j - 1], s[j]); }
    }
  }

  /** Moves the element at i down in steps of the gap. */
  method Sink(a: array<Str>, i: nat, gap: nat)
    requires 0 < gap <= i < a.Length
    modifies a
    ensures multiset(a[..]) == old(multiset(a[..]))
    ensures gap == 1 && Sorted(old(a[..i])) ==> Sorted(a[..i + 1])
  {
    hide Le, Sorted, Sinking;
    ghost var ordered := gap == 1 && Sorted(a[..i]);
    assert a[..][..i] == a[..i];
    if ordered { SinkingStarts(a[..], i); }
    var j := i;
    while j >= gap
      invariant j <= i && multiset(a[..]) == old(multiset(a[..]))
      invariant ordered ==> Sinking(a[..], i, j)
    {
      j := j - gap;
      if Le(a[j], a[j + gap]) {
        if ordered { SinkingStops(a[..], i, j + 1); }
        assert a[..][..i + 1] == a[..i + 1];
        return;
      }
      if ordered { SinkingStep(a[..], i, j + 1); }
      Swap(a, j, j + gap);
    }
    if ordered { SinkingStops(a[..], i, j); }
    assert a[..][..i + 1] == a[..i + 1];
  }

  /** One pass; with gap 1 it sorts. */
  method Pass(a: array<Str>, gap: nat)
    requires 0 < gap < a.Length
    modifies a
    ensures multiset(a[..]) == old(multiset(a[..]))
    ensures gap == 1 ==> Sorted(a[..])
  {
    hide Le;
    var i := gap;
    while i < a.Length
      invariant gap <= i <= a.Length && multiset(a[..]) == old(multiset(a[..]))
      invariant gap == 1 ==> Sorted(a[..i])
    {
      Sink(a, i, gap);
      i := i + 1;
    }
    assert a[..i] == a[..];
  }

  method ShellSort(a: array<Str>)
    modifies a
    ensures Sorted(a[..]) && multiset(a[..]) == old(multiset(a[..]))
  {
    hide Le;
    if a.Length > 1 {
      var gap: nat := FirstGap(a.Length);
      while gap > 0
        invariant gap < a.Length && multiset(a[..]) == old(multiset(a[..]))
        invariant if gap == 0 then Sorted(a[..]) else IsGap(gap)
        decreases gap
      {
        Pass(a, gap);
        gap := (gap - 1) / 3;
      }
    }
  }
}
