/**
 js_MergeSort of jsarray.c: insertion sort on chunks of four, then bottom-up merging that ping-pongs
 between the caller's vector and a scratch vector, under a comparator that may fail.
 */
module MergeSort {
  import opened Wrappers

  const INS_SORT_INT: nat := 4

  /** JSComparator: None is failure; the answer may depend on the number of calls made before. */
  type Comparator<!T> = (nat, T, T) -> Option<int>

  // ---- orders and rearrangements -----------------------------------------------------------------

  ghost predicate TotalPreorder<T(!new)>(le: (T, T) -> bool) {
    && (forall a, b :: le(a, b) || le(b, a))
    && (forall a, b, c :: le(a, b) && le(b, c) ==> le(a, c))
  }

  /** The comparator, whenever it answers, answers by the total preorder le. */
  ghost predicate Consistent<T(!new)>(cmp: Comparator<T>, le: (T, T) -> bool) {
    && TotalPreorder(le)
    && forall n, a, b :: cmp(n, a, b).Some? ==> (cmp(n, a, b).value <= 0 <==> le(a, b))
  }

  lemma ConsistentIsPreorder<T(!new)>(cmp: Comparator<T>, le: (T, T) -> bool)
    ensures Consistent(cmp, le) ==> TotalPreorder(le)
  {
  }

  lemma Answered<T(!new)>(cmp: Comparator<T>, le: (T, T) -> bool, n: nat, a: T, b: T)
    requires cmp(n, a, b).Some? && Consistent(cmp, le)
    ensures TotalPreorder(le) && (cmp(n, a, b).value <= 0 <==> le(a, b))
  {
  }

  /** The comparator fails at some time on some two of these elements. */
  ghost predicate Refuses<T(!new)>(cmp: Comparator<T>, s: seq<T>) {
    exists n, a, b :: a in s && b in s && cmp(n, a, b).None?
  }

  ghost predicate Sorted<T(!new)>(le: (T, T) -> bool, s: seq<T>) {
    forall i, j :: 0 <= i < j < |s| ==> le(s[i], s[j])
  }

  /** The elements of s that compare equal to x, in their order. */
  ghost function Ties<T>(le: (T, T) -> bool, x: T, s: seq<T>): seq<T> {
    if s == [] then []
    else (if le(x, s[0]) && le(s[0], x) then [s[0]] else []) + Ties(le, x, s[1..])
  }

  /** t is a permutation of s, and, if sure, one that never swaps elements comparing equal. */
  ghost predicate Rearranged<T(!new)>(le: (T, T) -> bool, sure: bool, s: seq<T>, t: seq<T>) {
    multiset(s) == multiset(t) && (sure ==> forall x :: Ties(le, x, s) == Ties(le, x, t))
  }

  lemma RefusesHere<T(!new)>(cmp: Comparator<T>, s: seq<T>, n: nat, i: nat, j: nat)
    requires i < |s| && j < |s| && cmp(n, s[i], s[j]).None?
    ensures Refuses(cmp, s)
  {
  }

  lemma RefusesMore<T(!new)>(cmp: Comparator<T>, part: seq<T>, s: seq<T>)
    requires Refuses(cmp, part) && forall x :: x in part ==> x in s
    ensures Refuses(cmp, s)
  {
  }

  lemma RefusesRearranged<T(!new)>(cmp: Comparator<T>, le: (T, T) -> bool, sure: bool, s: seq<T>, t: seq<T>)
    requires Rearranged(le, sure, s, t) && Refuses(cmp, t)
    ensures Refuses(cmp, s)
  {
    assert forall x :: x in t ==> x in multiset(s);
    RefusesMore(cmp, t, s);
  }

  lemma RefusesPart<T(!new)>(cmp: Comparator<T>, s: seq<T>, lo: nat, hi: nat)
    requires lo <= hi <= |s| && Refuses(cmp, s[lo..hi])
    ensures Refuses(cmp, s)
  {
    RefusesMore(cmp, s[lo..hi], s);
  }

  lemma RefusesPair<T(!new)>(cmp: Comparator<T>, s: seq<T>, lo: nat, mid: nat, hi: nat)
    requires lo <= mid <= hi <= |s| && Refuses(cmp, s[lo..mid] + s[mid..hi])
    ensures Refuses(cmp, s)
  {
    RefusesMore(cmp, s[lo..mid] + s[mid..hi], s);
  }

  lemma {:induction false} TiesConcat<T>(le: (T, T) -> bool, x: T, s: seq<T>, t: seq<T>)
    ensures Ties(le, x, s + t) == Ties(le, x, s) + Ties(le, x, t)
  {
    if s == [] {
      assert s + t == t;
    } else {
      assert (s + t)[1..] == s[1..] + t;
      TiesConcat(le, x, s[1..], t);
    }
  }

  lemma {:induction false} NoTies<T>(le: (T, T) -> bool, x: T, s: seq<T>)
    requires forall k :: 0 <= k < |s| ==> !(le(x, s[k]) && le(s[k], x))
    ensures Ties(le, x, s) == []
  {
    if s == [] {
    } else {
      NoTies(le, x, s[1..]);
    }
  }

  /** Rearranging a middle part rearranges the whole. */
  lemma RearrangedInside<T(!new)>(le: (T, T) -> bool, sure: bool, p: seq<T>, s: seq<T>, t: seq<T>, q: seq<T>)
    requires Rearranged(le, sure, s, t)
    ensures Rearranged(le, sure, p + s + q, p + t + q)
  {
    forall x
      ensures Ties(le, x, p + s + q) == Ties(le, x, p) + Ties(le, x, s) + Ties(le, x, q)
      ensures Ties(le, x, p + t + q) == Ties(le, x, p) + Ties(le, x, t) + Ties(le, x, q)
    {
      TiesConcat(le, x, p + s, q);
      TiesConcat(le, x, p, s);
      TiesConcat(le, x, p + t, q);
      TiesConcat(le, x, p, t);
    }
  }

  /** Swapping neighbours that are strictly out of order is a stable rearrangement. */
  lemma SwapRearranges<T(!new)>(le: (T, T) -> bool, sure: bool, s: seq<T>, j: nat)
    requires 0 < j < |s| && (sure ==> TotalPreorder(le) && !le(s[j - 1], s[j]))
    ensures Rearranged(le, sure, s, s[j - 1 := s[j]][j := s[j - 1]])
  {
    var a, b := s[j - 1], s[j];
    assert s == s[..j - 1] + [a, b] + s[j + 1..];
    assert s[j - 1 := b][j := a] == s[..j - 1] + [b, a] + s[j + 1..];
    forall x | sure
      ensures Ties(le, x, [a, b]) == Ties(le, x, [b, a])
    {
      assert [a, b] == [a] + [b] && [b, a] == [b] + [a];
      TiesConcat(le, x, [a], [b]);
      TiesConcat(le, x, [b], [a]);
    }
    RearrangedInside(le, sure, s[..j - 1], [a, b], [b, a], s[j + 1..]);
  }

  // ---- merging two runs --------------------------------------------------------------------------

  /** out has been merged from the runs a and b; ra and rb are what is left of them. */
  ghost predicate Merging<T(!new)>(le: (T, T) -> bool, sure: bool, out: seq<T>, ra: seq<T>, rb: seq<T>, ab: seq<T>) {
    && multiset(out) + multiset(ra) + multiset(rb) == multiset(ab)
    && (sure ==>
          && Sorted(le, out + ra) && Sorted(le, out + rb)
          && forall x :: Ties(le, x, out) + Ties(le, x, ra) + Ties(le, x, rb) == Ties(le, x, ab))
  }

  lemma MergingStarts<T(!new)>(le: (T, T) -> bool, sure: bool, a: seq<T>, b: seq<T>)
    requires sure ==> Sorted(le, a) && Sorted(le, b)
    ensures Merging(le, sure, [], a, b, a + b)
  {
    assert [] + a == a && [] + b == b;
    forall x
      ensures Ties(le, x, []) + Ties(le, x, a) + Ties(le, x, b) == Ties(le, x, a + b)
    {
      TiesConcat(le, x, a, b);
    }
  }

  lemma SortedParts<T(!new)>(le: (T, T) -> bool, s: seq<T>, t: seq<T>)
    requires Sorted(le, s + t)
    ensures Sorted(le, s) && Sorted(le, t)
    ensures t != [] ==> forall k :: 0 <= k < |s| ==> le(s[k], t[0])
  {
    forall i, j | 0 <= i < j < |s|
      ensures le(s[i], s[j])
    {
      assert (s + t)[i] == s[i] && (s + t)[j] == s[j];
    }
    forall i, j | 0 <= i < j < |t|
      ensures le(t[i], t[j])
    {
      assert (s + t)[|s| + i] == t[i] && (s + t)[|s| + j] == t[j];
    }
    forall k | 0 <= k < |s| && t != []
      ensures le(s[k], t[0])
    {
      assert (s + t)[k] == s[k] && (s + t)[|s|] == t[0];
    }
  }

  lemma SortedAround<T(!new)>(le: (T, T) -> bool, s: seq<T>, x: T, t: seq<T>)
    requires TotalPreorder(le) && Sorted(le, s) && Sorted(le, t)
    requires forall k :: 0 <= k < |s| ==> le(s[k], x)
    requires t == [] || le(x, t[0])
    ensures Sorted(le, s + [x] + t)
  {
    forall k | 0 <= k < |t|
      ensures le(x, t[k])
    {
      assert k == 0 || le(t[0], t[k]);
    }
  }

  lemma MergeTakesFirst<T(!new)>(le: (T, T) -> bool, sure: bool, out: seq<T>, ra: seq<T>, rb: seq<T>, ab: seq<T>)
    requires Merging(le, sure, out, ra, rb, ab) && ra != []
    requires sure ==> TotalPreorder(le) && (rb == [] || le(ra[0], rb[0]))
    ensures Merging(le, sure, out + [ra[0]], ra[1..], rb, ab)
  {
    hide Sorted, TotalPreorder, Ties;
    assert ra == [ra[0]] + ra[1..];
    assert out + [ra[0]] + ra[1..] == out + ra;
    if sure {
      SortedParts(le, out, ra);
      SortedParts(le, out, rb);
      SortedAround(le, out, ra[0], rb);
      forall x
        ensures Ties(le, x, out + [ra[0]]) + Ties(le, x, ra[1..]) == Ties(le, x, out) + Ties(le, x, ra)
      {
        TiesConcat(le, x, out, [ra[0]]);
        TiesConcat(le, x, [ra[0]], ra[1..]);
      }
    }
  }

  lemma SecondIsBelowFirst<T(!new)>(le: (T, T) -> bool, ra: seq<T>, rb: seq<T>)
    requires TotalPreorder(le) && rb != [] && (ra == [] || !le(ra[0], rb[0]))
    ensures ra == [] || le(rb[0], ra[0])
  {
  }

  /** If the second run's head ties with x and is strictly below the first run, the first run has no tie. */
  lemma TakenTiesAreAlone<T(!new)>(le: (T, T) -> bool, x: T, ra: seq<T>, rb: seq<T>)
    requires TotalPreorder(le) && Sorted(le, ra) && rb != [] && (ra == [] || !le(ra[0], rb[0]))
    ensures Ties(le, x, [rb[0]]) == [] || Ties(le, x, ra) == []
  {
    if le(x, rb[0]) && le(rb[0], x) {
      forall k | 0 <= k < |ra|
        ensures !(le(x, ra[k]) && le(ra[k], x))
      {
        assert k == 0 || le(ra[0], ra[k]);
      }
      NoTies(le, x, ra);
    }
  }

  lemma MergeTakesSecond<T(!new)>(le: (T, T) -> bool, sure: bool, out: seq<T>, ra: seq<T>, rb: seq<T>, ab: seq<T>)
    requires Merging(le, sure, out, ra, rb, ab) && rb != []
    requires sure ==> TotalPreorder(le) && (ra == [] || !le(ra[0], rb[0]))
    ensures Merging(le, sure, out + [rb[0]], ra, rb[1..], ab)
  {
    hide Sorted, TotalPreorder, Ties;
    assert rb == [rb[0]] + rb[1..];
    assert out + [rb[0]] + rb[1..] == out + rb;
    if sure {
      SortedParts(le, out, ra);
      SortedParts(le, out, rb);
      SecondIsBelowFirst(le, ra, rb);
      SortedAround(le, out, rb[0], ra);
      forall x
        ensures Ties(le, x, out + [rb[0]]) + Ties(le, x, ra) + Ties(le, x, rb[1..])
             == Ties(le, x, out) + Ties(le, x, ra) + Ties(le, x, rb)
      {
        TiesConcat(le, x, out, [rb[0]]);
        TiesConcat(le, x, [rb[0]], rb[1..]);
        TakenTiesAreAlone(le, x, ra, rb);
      }
    }
  }

  /** Runs already in order are merged by copying them. */
  lemma InOrderRunsAreMerged<T(!new)>(le: (T, T) -> bool, sure: bool, a: seq<T>, b: seq<T>)
    requires a != [] && b != []
    requires sure ==> TotalPreorder(le) && Sorted(le, a) && Sorted(le, b) && le(a[|a| - 1], b[0])
    ensures Rearranged(le, sure, a + b, a + b) && (sure ==> Sorted(le, a + b))
  {
    if sure {
      forall i, j | 0 <= i < j < |a + b|
        ensures le((a + b)[i], (a + b)[j])
      {
        if i < |a| <= j {
          assert i == |a| - 1 || le(a[i], a[|a| - 1]);
          assert j == |a| || le(b[0], b[j - |a|]);
        }
      }
    }
  }

  /** memcpy of the elements in [lo, hi). */
  method CopyRange<T>(src: array<T>, dest: array<T>, lo: nat, hi: nat)
    requires src != dest && lo <= hi <= src.Length && hi <= dest.Length
    modifies dest
    ensures dest[lo..hi] == src[lo..hi]
    ensures dest[..lo] == old(dest[..lo]) && dest[hi..] == old(dest[hi..])
  {
    forall k | lo <= k < hi {
      dest[k] := src[k];
    }
  }

  /** The merge has come to i and j: what is in place from lo on, and what is left of the runs. */
  ghost predicate Underway<T(!new)>(le: (T, T) -> bool, sure: bool, s: seq<T>, before: seq<T>, d: seq<T>,
                                    lo: nat, mid: nat, end: nat, i: nat, j: nat, ab: seq<T>) {
    && lo <= i <= mid <= j <= end <= |s|
    && end <= |d| == |before|
    && Merging(le, sure, d[lo..i + (j - mid)], s[i..mid], s[j..end], ab)
    && d[..lo] == before[..lo] && d[end..] == before[end..]
  }

  lemma UnderwayStarts<T(!new)>(le: (T, T) -> bool, sure: bool, s: seq<T>, before: seq<T>, lo: nat, mid: nat, end: nat)
    requires lo <= mid <= end <= |s| && end <= |before|
    requires sure ==> Sorted(le, s[lo..mid]) && Sorted(le, s[mid..end])
    ensures Underway(le, sure, s, before, before, lo, mid, end, lo, mid, s[lo..mid] + s[mid..end])
  {
    hide Merging;
    assert before[lo..lo] == [];
    MergingStarts(le, sure, s[lo..mid], s[mid..end]);
  }

  lemma MergingEnds<T(!new)>(le: (T, T) -> bool, sure: bool, out: seq<T>, ab: seq<T>)
    requires Merging(le, sure, out, [], [], ab)
    ensures Rearranged(le, sure, ab, out) && (sure ==> Sorted(le, out))
  {
    assert out + [] == out;
  }

  lemma UnderwayMeans<T(!new)>(le: (T, T) -> bool, sure: bool, s: seq<T>, before: seq<T>, d: seq<T>,
                               lo: nat, mid: nat, end: nat, i: nat, j: nat, ab: seq<T>)
    requires Underway(le, sure, s, before, d, lo, mid, end, i, j, ab)
    ensures d[..lo] == before[..lo] && d[end..] == before[end..]
    ensures i == mid && j == end ==>
              Rearranged(le, sure, ab, d[lo..end]) && (sure ==> Sorted(le, d[lo..end]))
  {
    hide Merging;
    if i == mid && j == end {
      assert s[mid..mid] == [] && s[end..end] == [];
      MergingEnds(le, sure, d[lo..end], ab);
    }
  }

  lemma HeadOfSlice<T>(a: seq<T>, i: nat, end: nat)
    requires i < end <= |a|
    ensures a[i..end][0] == a[i] && a[i..end][1..] == a[i + 1..end]
  {
  }

  lemma UnderwayTakesFirst<T(!new)>(le: (T, T) -> bool, sure: bool, s: seq<T>, before: seq<T>, d: seq<T>,
                                    lo: nat, mid: nat, end: nat, i: nat, j: nat, ab: seq<T>)
    requires Underway(le, sure, s, before, d, lo, mid, end, i, j, ab) && i < mid
    requires sure ==> TotalPreorder(le) && (j == end || le(s[i], s[j]))
    ensures Underway(le, sure, s, before, d[i + (j - mid) := s[i]], lo, mid, end, i + 1, j, ab)
  {
    hide Merging, TotalPreorder;
    var c := i + (j - mid);
    HeadOfSlice(s, i, mid);
    if j < end {
      HeadOfSlice(s, j, end);
    }
    MergeTakesFirst(le, sure, d[lo..c], s[i..mid], s[j..end], ab);
    assert d[c := s[i]][lo..c + 1] == d[lo..c] + [s[i]];
  }

  lemma UnderwayTakesSecond<T(!new)>(le: (T, T) -> bool, sure: bool, s: seq<T>, before: seq<T>, d: seq<T>,
                                     lo: nat, mid: nat, end: nat, i: nat, j: nat, ab: seq<T>)
    requires Underway(le, sure, s, before, d, lo, mid, end, i, j, ab) && j < end
    requires sure ==> TotalPreorder(le) && (i == mid || !le(s[i], s[j]))
    ensures Underway(le, sure, s, before, d[i + (j - mid) := s[j]], lo, mid, end, i, j + 1, ab)
  {
    hide Merging, TotalPreorder;
    var c := i + (j - mid);
    HeadOfSlice(s, j, end);
    if i < mid {
      HeadOfSlice(s, i, mid);
    }
    MergeTakesSecond(le, sure, d[lo..c], s[i..mid], s[j..end], ab);
    assert d[c := s[j]][lo..c + 1] == d[lo..c] + [s[j]];
  }

  /** Ask whether element i goes before element j; None if the comparator fails. */
  method FirstGoes<T(!new)>(src: array<T>, i: nat, j: nat, cmp: Comparator<T>, calls: nat, ghost le: (T, T) -> bool)
    returns (r: Option<bool>)
    requires i < src.Length && j < src.Length
    ensures r.Some? && Consistent(cmp, le) ==> (r.value <==> le(src[i], src[j]))
    ensures r.None? ==> cmp(calls, src[i], src[j]).None?
  {
    var result := cmp(calls, src[i], src[j]);
    return if result.None? then None else Some(result.value <= 0);
  }

  /** Which run the next element comes from: the one that is left, or else the one with the smaller head. */
  method NextFrom<T(!new)>(src: array<T>, i: nat, mid: nat, j: nat, end: nat, cmp: Comparator<T>, calls: nat,
                           ghost le: (T, T) -> bool, ghost s: seq<T>)
    returns (fromA: Option<bool>, calls': nat)
    requires s == src[..] && i <= mid <= j <= end <= |s| && (i < mid || j < end)
    ensures fromA == Some(true) ==> i < mid && (Consistent(cmp, le) ==> j == end || le(s[i], s[j]))
    ensures fromA == Some(false) ==> j < end && (Consistent(cmp, le) ==> i == mid || !le(s[i], s[j]))
    ensures fromA == None ==> i < mid && j < end && cmp(calls, s[i], s[j]).None?
  {
    hide Consistent;
    fromA, calls' := Some(j == end), calls;
    if i < mid && j < end {
      fromA := FirstGoes(src, i, j, cmp, calls, le);
      calls' := calls + 1;
    }
  }

  /** The loop of MergeArrays: take the smaller head, the first run's when they compare equal. */
  method MergeElements<T(!new)>(src: array<T>, dest: array<T>, lo: nat, run1: nat, run2: nat,
                                cmp: Comparator<T>, calls: nat, ghost le: (T, T) -> bool)
    returns (ok: bool, calls': nat)
    requires src != dest
    requires lo + run1 + run2 <= src.Length && lo + run1 + run2 <= dest.Length
    modifies dest
    ensures dest[..lo] == old(dest[..lo]) && dest[lo + run1 + run2..] == old(dest[lo + run1 + run2..])
    ensures var a, b := src[lo..lo + run1], src[lo + run1..lo + run1 + run2];
            var sure := Consistent(cmp, le) && Sorted(le, a) && Sorted(le, b);
            var merged := dest[lo..lo + run1 + run2];
            if ok then Rearranged(le, sure, a + b, merged) && (sure ==> Sorted(le, merged)) else Refuses(cmp, a + b)
  {
    hide Sorted, TotalPreorder, Ties, Rearranged, Consistent, Underway, Refuses;
    ghost var s, before := src[..], dest[..];
    ghost var a, b := s[lo..lo + run1], s[lo + run1..lo + run1 + run2];
    assert a == src[lo..lo + run1] && b == src[lo + run1..lo + run1 + run2];
    ghost var sure := Consistent(cmp, le) && Sorted(le, a) && Sorted(le, b);
    ConsistentIsPreorder(cmp, le);
    var mid, end := lo + run1, lo + run1 + run2;
    calls' := calls;
    var i, j, c := lo, mid, lo;
    UnderwayStarts(le, sure, s, before, lo, mid, end);
    while c < end
      invariant lo <= i <= mid <= j <= end && c - lo == (i - lo) + (j - mid)
      invariant src[..] == s && dest.Length == |before|
      invariant Underway(le, sure, s, before, dest[..], lo, mid, end, i, j, a + b)
    {
      var fromA;
      ghost var asked := calls';
      fromA, calls' := NextFrom(src, i, mid, j, end, cmp, calls', le, s);
      if fromA.None? {
        assert (a + b)[i - lo] == s[i] && (a + b)[j - lo] == s[j];
        RefusesHere(cmp, a + b, asked, i - lo, j - lo);
        UnderwayMeans(le, sure, s, before, dest[..], lo, mid, end, i, j, a + b);
        return false, calls';
      }
      if fromA.value {
        UnderwayTakesFirst(le, sure, s, before, dest[..], lo, mid, end, i, j, a + b);
        dest[c] := src[i];
        i := i + 1;
      } else {
        UnderwayTakesSecond(le, sure, s, before, dest[..], lo, mid, end, i, j, a + b);
        dest[c] := src[j];
        j := j + 1;
      }
      c := c + 1;
    }
    UnderwayMeans(le, sure, s, before, dest[..], lo, mid, end, i, j, a + b);
    return true, calls';
  }

  /** MergeArrays: merge the runs of lengths run1 and run2 that start at lo in src into dest. */
  method MergeArrays<T(!new)>(src: array<T>, dest: array<T>, lo: nat, run1: nat, run2: nat,
                              cmp: Comparator<T>, calls: nat, ghost le: (T, T) -> bool)
    returns (ok: bool, calls': nat)
    requires src != dest && 0 < run1 && 0 < run2
    requires lo + run1 + run2 <= src.Length && lo + run1 + run2 <= dest.Length
    modifies dest
    ensures dest[..lo] == old(dest[..lo]) && dest[lo + run1 + run2..] == old(dest[lo + run1 + run2..])
    ensures var a, b := src[lo..lo + run1], src[lo + run1..lo + run1 + run2];
            var sure := Consistent(cmp, le) && Sorted(le, a) && Sorted(le, b);
            var merged := dest[lo..lo + run1 + run2];
            if ok then Rearranged(le, sure, a + b, merged) && (sure ==> Sorted(le, merged)) else Refuses(cmp, a + b)
  {
    hide Sorted, TotalPreorder, Ties, Merging, Rearranged, Refuses;
    ghost var a, b := src[lo..lo + run1], src[lo + run1..lo + run1 + run2];
    ghost var sure := Consistent(cmp, le) && Sorted(le, a) && Sorted(le, b);
    calls' := calls + 1;
    var result := cmp(calls, src[lo + run1 - 1], src[lo + run1]);
    if result.None? {
      assert (a + b)[run1 - 1] == src[lo + run1 - 1] && (a + b)[run1] == src[lo + run1];
      RefusesHere(cmp, a + b, calls, run1 - 1, run1);
      return false, calls';
    }
    if result.value <= 0 {
      CopyRange(src, dest, lo, lo + run1 + run2);
      assert dest[lo..lo + run1 + run2] == a + b;
      InOrderRunsAreMerged(le, sure, a, b);
      assert src[lo..lo + run1] == a && src[lo + run1..lo + run1 + run2] == b;
      return true, calls';
    }
    ok, calls' := MergeElements(src, dest, lo, run1, run2, cmp, calls', le);
  }

  // ---- insertion sort of a chunk -----------------------------------------------------------------

  lemma RearrangedIsReflexive<T(!new)>(le: (T, T) -> bool, sure: bool, s: seq<T>)
    ensures Rearranged(le, sure, s, s)
  {
  }

  lemma RearrangedIsTransitive<T(!new)>(le: (T, T) -> bool, sure: bool, s: seq<T>, t: seq<T>, u: seq<T>)
    requires Rearranged(le, sure, s, t) && Rearranged(le, sure, t, u)
    ensures Rearranged(le, sure, s, u)
  {
  }

  /** All but one place of s[..end] are in order with everything before them. */
  ghost predicate SortedBut<T(!new)>(le: (T, T) -> bool, s: seq<T>, end: nat, gap: nat)
    requires end <= |s|
  {
    forall x, y :: 0 <= x < y < end && y != gap ==> le(s[x], s[y])
  }

  lemma GapCloses<T(!new)>(le: (T, T) -> bool, s: seq<T>, end: nat, gap: nat)
    requires TotalPreorder(le) && gap < end <= |s| && SortedBut(le, s, end, gap)
    requires gap == 0 || le(s[gap - 1], s[gap])
    ensures Sorted(le, s[..end])
  {
    forall x, y | 0 <= x < y < end
      ensures le(s[x], s[y])
    {
      if y == gap && x < gap - 1 {
        assert le(s[x], s[gap - 1]);
      }
    }
  }

  lemma GapMoves<T(!new)>(le: (T, T) -> bool, s: seq<T>, end: nat, gap: nat)
    requires TotalPreorder(le) && 0 < gap < end <= |s| && SortedBut(le, s, end, gap)
    requires !le(s[gap - 1], s[gap])
    ensures SortedBut(le, s[gap - 1 := s[gap]][gap := s[gap - 1]], end, gap - 1)
  {
    var s' := s[gap - 1 := s[gap]][gap := s[gap - 1]];
    forall x, y | 0 <= x < y < end && y != gap - 1
      ensures le(s'[x], s'[y])
    {
      if y == gap {
        assert x < gap - 1 ==> le(s[x], s[gap - 1]);
      } else if y > gap {
        assert le(s[gap], s[y]) && le(s[gap - 1], s[y]);
      }
    }
  }

  /** The elements with the one at gap exchanged with the one before it. */
  function SwappedBack<T>(s: seq<T>, gap: nat): (t: seq<T>)
    requires 0 < gap < |s|
    ensures |t| == |s|
  {
    s[gap - 1 := s[gap]][gap := s[gap - 1]]
  }

  /** Swap element j with the one before it, through tmp. */
  method SwapBack<T>(src: array<T>, tmp: array<T>, ghost lo: nat, j: nat, ghost hi: nat)
    requires src != tmp && lo < j < hi <= src.Length && 0 < tmp.Length
    modifies src, tmp
    ensures src[..lo] == old(src[..lo]) && src[hi..] == old(src[hi..])
    ensures src[lo..hi] == SwappedBack(old(src[lo..hi]), j - lo)
  {
    tmp[0] := src[j - 1];
    src[j - 1] := src[j];
    src[j] := tmp[0];
  }

  /** s is a rearrangement of was in which only the element at gap may be out of order. */
  ghost predicate Sinking<T(!new)>(le: (T, T) -> bool, sure: bool, was: seq<T>, s: seq<T>, end: nat, gap: nat)
    requires end <= |s|
  {
    Rearranged(le, sure, was, s) && (sure ==> TotalPreorder(le) && SortedBut(le, s, end, gap))
  }

  lemma SinkStep<T(!new)>(le: (T, T) -> bool, sure: bool, was: seq<T>, s: seq<T>, end: nat, gap: nat)
    requires 0 < gap < end <= |s| && Sinking(le, sure, was, s, end, gap) && (sure ==> !le(s[gap - 1], s[gap]))
    ensures Sinking(le, sure, was, SwappedBack(s, gap), end, gap - 1)
  {
    hide Rearranged, TotalPreorder, SortedBut;
    SwapRearranges(le, sure, s, gap);
    RearrangedIsTransitive(le, sure, was, s, s[gap - 1 := s[gap]][gap := s[gap - 1]]);
    if sure {
      GapMoves(le, s, end, gap);
    }
  }

  lemma SinkStops<T(!new)>(le: (T, T) -> bool, sure: bool, was: seq<T>, s: seq<T>, end: nat, gap: nat)
    requires gap < end <= |s| && Sinking(le, sure, was, s, end, gap)
    requires sure ==> gap == 0 || le(s[gap - 1], s[gap])
    ensures Rearranged(le, sure, was, s) && (sure ==> Sorted(le, s[..end]))
  {
    if sure {
      GapCloses(le, s, end, gap);
    }
  }

  lemma GapOpens<T(!new)>(le: (T, T) -> bool, s: seq<T>, gap: nat)
    requires gap < |s| && Sorted(le, s[..gap])
    ensures SortedBut(le, s, gap + 1, gap)
  {
    forall x, y | 0 <= x < y < gap + 1 && y != gap
      ensures le(s[x], s[y])
    {
      assert s[..gap][x] == s[x] && s[..gap][y] == s[y];
    }
  }

  lemma SinkStarts<T(!new)>(le: (T, T) -> bool, sure: bool, s: seq<T>, gap: nat)
    requires gap < |s| && (sure ==> TotalPreorder(le) && Sorted(le, s[..gap]))
    ensures Sinking(le, sure, s, s, gap + 1, gap)
  {
    if sure {
      GapOpens(le, s, gap);
    }
  }

  /** What one turn of the inner loop did. */
  datatype Turn = Failed | Placed | Swapped

  lemma SinkFails<T(!new)>(le: (T, T) -> bool, sure: bool, was: seq<T>, s: seq<T>, end: nat, gap: nat)
    requires end <= |s| && Sinking(le, sure, was, s, end, gap)
    ensures Rearranged(le, sure, was, s)
  {
  }

  /** One turn: compare element j with the one before it, and swap them if out of order. */
  method SinkOnce<T(!new)>(src: array<T>, tmp: array<T>, lo: nat, j: nat, hi: nat, ghost was: seq<T>, ghost end: nat,
                           cmp: Comparator<T>, calls: nat, ghost le: (T, T) -> bool)
    returns (turn: Turn)
    requires src != tmp && lo < j < hi <= src.Length && 0 < tmp.Length && j - lo < end <= hi - lo
    requires Sinking(le, Consistent(cmp, le), was, src[lo..hi], end, j - lo)
    modifies src, tmp
    ensures src[..lo] == old(src[..lo]) && src[hi..] == old(src[hi..])
    ensures Rearranged(le, Consistent(cmp, le), was, src[lo..hi])
    ensures turn.Placed? && Consistent(cmp, le) ==> Sorted(le, src[lo..hi][..end])
    ensures turn.Swapped? ==> Sinking(le, Consistent(cmp, le), was, src[lo..hi], end, j - 1 - lo)
    ensures turn.Failed? ==> Refuses(cmp, was)
  {
    hide Sorted, Rearranged, TotalPreorder, SortedBut, Sinking, Consistent, SwappedBack, Refuses;
    ghost var sure := Consistent(cmp, le);
    ghost var s, gap := src[lo..hi], j - lo;
    assert s[gap - 1] == src[j - 1] && s[gap] == src[j];
    var r := cmp(calls, src[j - 1], src[j]);
    SinkFails(le, sure, was, s, end, gap);
    if r.None? {
      RefusesHere(cmp, s, calls, gap - 1, gap);
      RefusesRearranged(cmp, le, sure, was, s);
      return Failed;
    }
    if sure {
      Answered(cmp, le, calls, src[j - 1], src[j]);
    }
    if r.value <= 0 {
      SinkStops(le, sure, was, s, end, gap);
      return Placed;
    }
    SinkStep(le, sure, was, s, end, gap);
    SinkFails(le, sure, was, SwappedBack(s, gap), end, gap - 1);
    SwapBack(src, tmp, lo, j, hi);
    return Swapped;
  }

  /** The inner loop: move element i of the chunk at [lo, hi) down to its place, by swaps through tmp. */
  method SinkElement<T(!new)>(src: array<T>, tmp: array<T>, lo: nat, i: nat, hi: nat,
                              cmp: Comparator<T>, calls: nat, ghost le: (T, T) -> bool)
    returns (ok: bool, calls': nat)
    requires src != tmp && lo < i < hi <= src.Length && 0 < tmp.Length
    requires Consistent(cmp, le) ==> Sorted(le, src[lo..hi][..i - lo])
    modifies src, tmp
    ensures src[..lo] == old(src[..lo]) && src[hi..] == old(src[hi..])
    ensures Rearranged(le, Consistent(cmp, le), old(src[lo..hi]), src[lo..hi])
    ensures ok && Consistent(cmp, le) ==> Sorted(le, src[lo..hi][..i + 1 - lo])
    ensures !ok ==> Refuses(cmp, old(src[lo..hi]))
  {
    hide Sorted, Rearranged, TotalPreorder, SortedBut, Sinking, Consistent, Refuses;
    ghost var sure := Consistent(cmp, le);
    ConsistentIsPreorder(cmp, le);
    ghost var was, end := src[lo..hi], i + 1 - lo;
    calls' := calls;
    var j := i;
    SinkStarts(le, sure, was, i - lo);
    while j > lo
      invariant lo <= j <= i
      invariant src[..lo] == old(src[..lo]) && src[hi..] == old(src[hi..])
      invariant Sinking(le, sure, was, src[lo..hi], end, j - lo)
    {
      var turn := SinkOnce(src, tmp, lo, j, hi, was, end, cmp, calls', le);
      calls' := calls' + 1;
      if !turn.Swapped? {
        return turn.Placed?, calls';
      }
      j := j - 1;
    }
    SinkStops(le, sure, was, src[lo..hi], end, 0);
    return true, calls';
  }

  /** Insertion sort of the chunk at [lo, hi). */
  method SortChunk<T(!new)>(src: array<T>, tmp: array<T>, lo: nat, hi: nat,
                            cmp: Comparator<T>, calls: nat, ghost le: (T, T) -> bool)
    returns (ok: bool, calls': nat)
    requires src != tmp && lo < hi <= src.Length && (lo + 1 < hi ==> 0 < tmp.Length)
    modifies src, tmp
    ensures src[..lo] == old(src[..lo]) && src[hi..] == old(src[hi..])
    ensures Rearranged(le, Consistent(cmp, le), old(src[lo..hi]), src[lo..hi])
    ensures ok && Consistent(cmp, le) ==> Sorted(le, src[lo..hi])
    ensures !ok ==> Refuses(cmp, old(src[lo..hi]))
  {
    hide Rearranged, Ties, TotalPreorder, Refuses;
    ghost var was := src[lo..hi];
    RearrangedIsReflexive(le, Consistent(cmp, le), was);
    calls' := calls;
    var i := lo + 1;
    while i < hi
      invariant lo + 1 <= i <= hi
      invariant src[..lo] == old(src[..lo]) && src[hi..] == old(src[hi..])
      invariant Rearranged(le, Consistent(cmp, le), was, src[lo..hi])
      invariant Consistent(cmp, le) ==> Sorted(le, src[lo..hi][..i - lo])
    {
      ghost var s := src[lo..hi];
      ok, calls' := SinkElement(src, tmp, lo, i, hi, cmp, calls', le);
      RearrangedIsTransitive(le, Consistent(cmp, le), was, s, src[lo..hi]);
      if !ok {
        RefusesRearranged(cmp, le, Consistent(cmp, le), was, s);
        return false, calls';
      }
      i := i + 1;
    }
    assert src[lo..hi][..i - lo] == src[lo..hi];
    return true, calls';
  }

  // ---- the passes --------------------------------------------------------------------------------

  /** s falls, from place lo on, into sorted runs of length run (the last may be shorter). */
  ghost predicate RunsFrom<T(!new)>(le: (T, T) -> bool, s: seq<T>, lo: nat, run: nat)
    requires run > 0
    decreases |s| - lo
  {
    if lo + run >= |s| then lo >= |s| || Sorted(le, s[lo..])
    else Sorted(le, s[lo..lo + run]) && RunsFrom(le, s, lo + run, run)
  }

  /** s falls, up to place lo, into sorted runs of length run. */
  ghost predicate RunsUpTo<T(!new)>(le: (T, T) -> bool, s: seq<T>, lo: nat, run: nat)
    requires run > 0 && lo <= |s|
  {
    lo == 0 || (lo >= run && Sorted(le, s[lo - run..lo]) && RunsUpTo(le, s, lo - run, run))
  }

  lemma {:induction false} RunsMeet<T(!new)>(le: (T, T) -> bool, s: seq<T>, lo: nat, run: nat)
    requires run > 0 && lo <= |s| && RunsUpTo(le, s, lo, run) && RunsFrom(le, s, lo, run)
    ensures RunsFrom(le, s, 0, run)
    decreases lo
  {
    hide Sorted;
    if lo > 0 {
      assert lo == |s| ==> s[lo - run..] == s[lo - run..lo];
      assert RunsFrom(le, s, lo - run, run);
      RunsMeet(le, s, lo - run, run);
    }
  }

  /** What is below place lo alone decides the runs up to there. */
  lemma {:induction false} RunsUpToDependsBelow<T(!new)>(le: (T, T) -> bool, s: seq<T>, t: seq<T>, lo: nat, run: nat)
    requires run > 0 && lo <= |s| && lo <= |t| && s[..lo] == t[..lo] && RunsUpTo(le, s, lo, run)
    ensures RunsUpTo(le, t, lo, run)
  {
    hide Sorted;
    if lo > 0 {
      assert t[lo - run..lo] == t[..lo][lo - run..] == s[lo - run..lo];
      assert t[..lo - run] == t[..lo][..lo - run] == s[..lo - run];
      RunsUpToDependsBelow(le, s, t, lo - run, run);
    }
  }

  lemma SubSlice<T>(a: seq<T>, lo: nat, hi: nat, nel: nat)
    requires lo <= hi <= nel <= |a|
    ensures a[..nel][lo..hi] == a[lo..hi]
  {
  }

  /** Vectors that agree outside [lo, hi) have prefixes that do. */
  lemma SliceFacts<T>(a: seq<T>, b: seq<T>, lo: nat, hi: nat, nel: nat)
    requires lo <= hi <= nel <= |a| == |b| && a[..lo] == b[..lo] && a[hi..] == b[hi..]
    ensures b[..nel][..lo] == a[..nel][..lo] && b[..nel][hi..] == a[..nel][hi..]
    ensures b[nel..] == a[nel..]
  {
    assert forall k :: 0 <= k < lo ==> a[k] == a[..lo][k] == b[..lo][k] == b[k];
    assert forall k :: hi <= k < |a| ==> a[k] == a[hi..][k - hi] == b[hi..][k - hi] == b[k];
  }

  lemma RearrangedSlice<T(!new)>(le: (T, T) -> bool, sure: bool, s: seq<T>, t: seq<T>, lo: nat, hi: nat)
    requires lo <= hi <= |s| == |t| && s[..lo] == t[..lo] && s[hi..] == t[hi..]
    requires Rearranged(le, sure, s[lo..hi], t[lo..hi])
    ensures Rearranged(le, sure, s, t)
  {
    assert s == s[..lo] + s[lo..hi] + s[hi..];
    assert t == s[..lo] + t[lo..hi] + s[hi..];
    RearrangedInside(le, sure, s[..lo], s[lo..hi], t[lo..hi], s[hi..]);
  }

  /** One more run in place at [lo, hi): the runs reach hi, and, if that is the end, the whole. */
  lemma RunDone<T(!new)>(le: (T, T) -> bool, s: seq<T>, t: seq<T>, lo: nat, hi: nat, run: nat)
    requires run > 0 && lo < hi <= |s| == |t| && (hi == lo + run || (hi == |t| && hi < lo + run))
    requires s[..lo] == t[..lo] && RunsUpTo(le, s, lo, run) && Sorted(le, t[lo..hi])
    ensures hi < |t| ==> RunsUpTo(le, t, hi, run)
    ensures hi == |t| ==> RunsFrom(le, t, 0, run)
  {
    hide Sorted;
    RunsUpToDependsBelow(le, s, t, lo, run);
    if hi == |t| {
      assert t[lo..] == t[lo..hi];
      RunsMeet(le, t, lo, run);
    }
  }

  /** The first phase of js_MergeSort: every chunk of INS_SORT_INT sorted in place. */
  method SortChunks<T(!new)>(src: array<T>, nel: nat, tmp: array<T>,
                             cmp: Comparator<T>, calls: nat, ghost le: (T, T) -> bool)
    returns (ok: bool, calls': nat)
    requires src != tmp && nel <= src.Length && nel <= tmp.Length
    modifies src, tmp
    ensures src[nel..] == old(src[nel..])
    ensures Rearranged(le, Consistent(cmp, le), old(src[..nel]), src[..nel])
    ensures ok && Consistent(cmp, le) ==> RunsFrom(le, src[..nel], 0, INS_SORT_INT)
    ensures !ok ==> Refuses(cmp, old(src[..nel]))
  {
    hide Sorted, Rearranged, Ties, TotalPreorder, Refuses;
    ghost var sure := Consistent(cmp, le);
    ghost var was := src[..nel];
    RearrangedIsReflexive(le, sure, was);
    calls' := calls;
    var lo := 0;
    while lo < nel
      invariant lo <= nel || lo < nel + INS_SORT_INT
      invariant src[nel..] == old(src[nel..])
      invariant Rearranged(le, sure, was, src[..nel])
      invariant lo < nel && sure ==> RunsUpTo(le, src[..nel], lo, INS_SORT_INT)
      invariant lo >= nel && sure ==> RunsFrom(le, src[..nel], 0, INS_SORT_INT)
    {
      var hi := lo + INS_SORT_INT;
      if hi >= nel {
        hi := nel;
      }
      ghost var s := src[..nel];
      ghost var full := src[..];
      SubSlice(full, lo, hi, nel);
      ok, calls' := SortChunk(src, tmp, lo, hi, cmp, calls', le);
      SliceFacts(full, src[..], lo, hi, nel);
      SubSlice(src[..], lo, hi, nel);
      RearrangedSlice(le, sure, s, src[..nel], lo, hi);
      RearrangedIsTransitive(le, sure, was, s, src[..nel]);
      if !ok {
        RefusesPart(cmp, s, lo, hi);
        RefusesRearranged(cmp, le, sure, was, s);
        return false, calls';
      }
      if sure {
        RunDone(le, s, src[..nel], lo, hi, INS_SORT_INT);
      }
      lo := lo + INS_SORT_INT;
    }
    return true, calls';
  }

  /** A pass over s has filled u up to lo with a rearrangement in runs of twice the length. */
  ghost predicate Passed<T(!new)>(le: (T, T) -> bool, sure: bool, s: seq<T>, u: seq<T>, lo: nat, run: nat)
    requires run > 0 && |s| == |u|
  {
    if lo < |s| then
      Rearranged(le, sure, s[..lo], u[..lo]) && (sure ==> RunsUpTo(le, u, lo, 2 * run))
    else
      Rearranged(le, sure, s, u) && (sure ==> RunsFrom(le, u, 0, 2 * run))
  }

  /** The two runs merged next are sorted, and together are the slice they come from. */
  lemma PairOfRuns<T(!new)>(le: (T, T) -> bool, sure: bool, s: seq<T>, lo: nat, run: nat, run2: nat)
    requires run > 0 && lo + run < |s| && run2 == (if lo + 2 * run > |s| then |s| - lo - run else run)
    requires sure ==> RunsFrom(le, s, lo, run)
    ensures s[lo..lo + run + run2] == s[lo..lo + run] + s[lo + run..lo + run + run2]
    ensures sure ==> Sorted(le, s[lo..lo + run]) && Sorted(le, s[lo + run..lo + run + run2])
    ensures sure ==> RunsFrom(le, s, lo + 2 * run, run)
  {
    if lo + 2 * run >= |s| {
      assert s[lo + run..] == s[lo + run..lo + run + run2];
    }
  }

  lemma PassStarts<T(!new)>(le: (T, T) -> bool, sure: bool, s: seq<T>, u: seq<T>, run: nat)
    requires run > 0 && |s| == |u|
    ensures Passed(le, sure, s, u, 0, run)
  {
    assert s[..0] == u[..0] == [];
    if s == [] {
      assert s == u;
    }
  }

  lemma PassEnds<T(!new)>(le: (T, T) -> bool, sure: bool, s: seq<T>, u: seq<T>, lo: nat, run: nat)
    requires run > 0 && |s| == |u| <= lo && Passed(le, sure, s, u, lo, run)
    ensures Rearranged(le, sure, s, u) && (sure ==> RunsFrom(le, u, 0, 2 * run))
  {
  }

  lemma RearrangedPieces<T(!new)>(le: (T, T) -> bool, sure: bool, s: seq<T>, s': seq<T>, t: seq<T>, t': seq<T>)
    requires Rearranged(le, sure, s, s') && Rearranged(le, sure, t, t')
    ensures Rearranged(le, sure, s + t, s' + t')
  {
    forall x | sure
      ensures Ties(le, x, s + t) == Ties(le, x, s' + t')
    {
      TiesConcat(le, x, s, t);
      TiesConcat(le, x, s', t');
    }
  }

  lemma PassKeeps<T(!new)>(le: (T, T) -> bool, sure: bool, s: seq<T>, t: seq<T>, u: seq<T>, lo: nat, hi: nat, run: nat)
    requires run > 0 && lo < hi <= |s| == |t| == |u|
    requires hi == lo + 2 * run || (hi == |s| && hi < lo + 2 * run)
    requires u[..lo] == t[..lo]
    requires Passed(le, sure, s, t, lo, run) && Rearranged(le, sure, s[lo..hi], u[lo..hi])
    requires sure ==> Sorted(le, u[lo..hi])
    ensures Passed(le, sure, s, u, lo + 2 * run, run) && (hi == |s| ==> Passed(le, sure, s, u, hi, run))
  {
    hide Rearranged, Sorted;
    assert s[..hi] == s[..lo] + s[lo..hi] && u[..hi] == t[..lo] + u[lo..hi];
    assert hi == |s| ==> s[..hi] == s && u[..hi] == u;
    RearrangedPieces(le, sure, s[..lo], t[..lo], s[lo..hi], u[lo..hi]);
    if sure {
      RunDone(le, t, u, lo, hi, 2 * run);
    }
  }

  /** One pass of js_MergeSort: merge the runs of vec1 in pairs into vec2. */
  method MergePass<T(!new)>(vec1: array<T>, vec2: array<T>, nel: nat, run: nat,
                            cmp: Comparator<T>, calls: nat, ghost le: (T, T) -> bool)
    returns (ok: bool, calls': nat)
    requires vec1 != vec2 && nel <= vec1.Length && nel <= vec2.Length && 0 < run
    requires Consistent(cmp, le) ==> RunsFrom(le, vec1[..nel], 0, run)
    modifies vec2
    ensures vec2[nel..] == old(vec2[nel..])
    ensures ok ==> Rearranged(le, Consistent(cmp, le), vec1[..nel], vec2[..nel])
    ensures ok && Consistent(cmp, le) ==> RunsFrom(le, vec2[..nel], 0, 2 * run)
    ensures !ok ==> Refuses(cmp, vec1[..nel])
  {
    hide Sorted, Rearranged, Ties, TotalPreorder, Passed, RunsUpTo, Consistent, Refuses;
    ghost var sure := Consistent(cmp, le);
    PassStarts(le, sure, vec1[..nel], vec2[..nel], run);
    ghost var s := vec1[..nel];
    calls' := calls;
    var lo := 0;
    while lo < nel
      invariant lo < nel + 2 * run && vec1[..nel] == s
      invariant vec2[nel..] == old(vec2[nel..])
      invariant sure && lo < nel ==> RunsFrom(le, s, lo, run)
      invariant Passed(le, sure, s, vec2[..nel], lo, run)
    {
      ghost var t, full := vec2[..nel], vec2[..];
      var hi := lo + run;
      if hi >= nel {
        CopyRange(vec1, vec2, lo, nel);
        ghost var u := vec2[..nel];
        SliceFacts(full, vec2[..], lo, nel, nel);
        SubSlice(vec2[..], lo, nel, nel);
        SubSlice(vec1[..], lo, nel, nel);
        assert s[lo..nel] == s[lo..];
        RearrangedIsReflexive(le, sure, s[lo..nel]);
        PassKeeps(le, sure, s, t, u, lo, nel, run);
        PassEnds(le, sure, s, u, nel, run);
        assert vec1[..nel] == s;
        return true, calls';
      }
      var run2 := if hi + run > nel then nel - hi else run;
      PairOfRuns(le, sure, s, lo, run, run2);
      SubSlice(vec1[..], lo, lo + run, nel);
      SubSlice(vec1[..], lo + run, lo + run + run2, nel);
      ok, calls' := MergeArrays(vec1, vec2, lo, run, run2, cmp, calls', le);
      if !ok {
        RefusesPair(cmp, s, lo, lo + run, lo + run + run2);
        return false, calls';
      }
      ghost var u := vec2[..nel];
      SliceFacts(full, vec2[..], lo, hi + run2, nel);
      SubSlice(vec2[..], lo, lo + run + run2, nel);
      PassKeeps(le, sure, s, t, u, lo, hi + run2, run);
      lo := lo + 2 * run;
    }
    PassEnds(le, sure, s, vec2[..nel], lo, run);
    return true, calls';
  }

  // ---- js_MergeSort --------------------------------------------------------------------------------

  lemma RearrangedPermutes<T(!new)>(le: (T, T) -> bool, sure: bool, s: seq<T>, t: seq<T>)
    requires Rearranged(le, sure, s, t)
    ensures multiset(s) == multiset(t)
  {
  }

  lemma OneRunIsSorted<T(!new)>(le: (T, T) -> bool, s: seq<T>, run: nat)
    requires run > 0 && |s| <= run && RunsFrom(le, s, 0, run)
    ensures Sorted(le, s)
  {
    assert s[0..] == s;
  }

  /** Sort the first nel elements of src, using tmp for scratch. On success src is a permutation of what
      it was, for any comparator whatever; if the comparator answers by a total preorder the result is
      sorted and elements that compare equal keep their order. If the comparator fails, one of the two
      vectors still holds a permutation. */
  method Sort<T(!new)>(src: array<T>, nel: nat, cmp: Comparator<T>, tmp: array<T>, ghost le: (T, T) -> bool)
    returns (ok: bool)
    requires src != tmp && nel <= src.Length && nel <= tmp.Length
    modifies src, tmp
    ensures src[nel..] == old(src[nel..])
    ensures ok ==> Rearranged(le, Consistent(cmp, le), old(src[..nel]), src[..nel])
    ensures ok && Consistent(cmp, le) ==> Sorted(le, src[..nel])
    ensures !ok ==>
              multiset(src[..nel]) == multiset(old(src[..nel])) || multiset(tmp[..nel]) == multiset(old(src[..nel]))
    ensures !ok ==> Refuses(cmp, old(src[..nel]))
  {
    hide Sorted, Rearranged, Ties, TotalPreorder, RunsFrom, Consistent, Refuses;
    ghost var sure := Consistent(cmp, le);
    ghost var was := src[..nel];
    var calls := 0;
    ok, calls := SortChunks(src, nel, tmp, cmp, calls, le);
    RearrangedPermutes(le, sure, was, src[..nel]);
    if !ok {
      return false;
    }
    var vec1, vec2 := src, tmp;
    var run := INS_SORT_INT;
    while run < nel
      invariant run > 0 && ((vec1 == src && vec2 == tmp) || (vec1 == tmp && vec2 == src))
      invariant src[nel..] == old(src[nel..])
      invariant Rearranged(le, sure, was, vec1[..nel])
      invariant sure ==> RunsFrom(le, vec1[..nel], 0, run)
      decreases nel - run
    {
      ghost var s := vec1[..nel];
      ok, calls := MergePass(vec1, vec2, nel, run, cmp, calls, le);
      assert vec1[..nel] == s;
      if !ok {
        RefusesRearranged(cmp, le, sure, was, s);
        RearrangedPermutes(le, sure, was, s);
        return false;
      }
      RearrangedIsTransitive(le, sure, was, s, vec2[..nel]);
      vec1, vec2 := vec2, vec1;
      run := run * 2;
    }
    if sure {
      OneRunIsSorted(le, vec1[..nel], run);
    }
    if src != vec1 {
      CopyRange(tmp, src, 0, nel);
      assert src[..nel] == tmp[..nel];
    }
    return true;
  }

  lemma SameHead<T(!new)>(le: (T, T) -> bool, s: seq<T>, t: seq<T>)
    requires TotalPreorder(le) && Sorted(le, s) && Sorted(le, t) && Rearranged(le, true, s, t)
    requires s != [] && t != []
    ensures s[0] == t[0]
  {
    assert s[0] in multiset(t) && t[0] in multiset(s);
    var i :| 0 <= i < |t| && t[i] == s[0];
    var j :| 0 <= j < |s| && s[j] == t[0];
    assert le(t[0], s[0]) && le(s[0], t[0]);
    assert Ties(le, s[0], s)[0] == s[0] && Ties(le, s[0], t)[0] == t[0];
  }

  lemma TailsRearranged<T(!new)>(le: (T, T) -> bool, s: seq<T>, t: seq<T>)
    requires Rearranged(le, true, s, t) && s != [] && t != [] && s[0] == t[0]
    ensures Rearranged(le, true, s[1..], t[1..])
  {
    assert s == [s[0]] + s[1..] && t == [s[0]] + t[1..];
    assert multiset(s[1..]) == multiset(s) - multiset{s[0]};
    assert multiset(t[1..]) == multiset(t) - multiset{s[0]};
    forall x
      ensures Ties(le, x, s[1..]) == Ties(le, x, t[1..])
    {
      TiesConcat(le, x, [s[0]], s[1..]);
      TiesConcat(le, x, [s[0]], t[1..]);
      var head := Ties(le, x, [s[0]]);
      assert Ties(le, x, s[1..]) == Ties(le, x, s)[|head|..];
      assert Ties(le, x, t[1..]) == Ties(le, x, t)[|head|..];
    }
  }

  /** Sorted and stable leave no choice: at most one vector is both. */
  lemma {:induction false} StableSortIsUnique<T(!new)>(le: (T, T) -> bool, s: seq<T>, t: seq<T>)
    requires TotalPreorder(le) && Sorted(le, s) && Sorted(le, t) && Rearranged(le, true, s, t)
    ensures s == t
  {
    assert |multiset(s)| == |multiset(t)|;
    if s != [] {
      SameHead(le, s, t);
      TailsRearranged(le, s, t);
      StableSortIsUnique(le, s[1..], t[1..]);
    }
  }
}
