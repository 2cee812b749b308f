/** array_sort of jsarray.c: defined values stably sorted, then undefineds, then holes. */
module ArraySort {
  import opened Wrappers
  import opened ArrayIndex
  import opened ArrayObject
  import opened ArraySplice
  import opened MergeSort

  datatype Value = Undefined | Str(s: string) | Other(id: int)
  datatype Number = NaN | Real(r: real)

  /** js_ValueToString, which may fail. */
  type Stringifier = Value -> Option<string>
  /** A caller's compare function converted to a number, which may fail. */
  type CompareFunction = (nat, Value, Value) -> Option<Number>

  // ---- comparators -------------------------------------------------------------------------------

  /** js_CompareStrings: by the first different character, or else by length. */
  function CompareStrings(a: string, b: string): int {
    if a == [] || b == [] then |a| - |b|
    else if a[0] != b[0] then a[0] as int - b[0] as int
    else CompareStrings(a[1..], b[1..])
  }

  /** sort_compare: the default order by string, or the sign of what a compare function answers. */
  function SortCompare(fval: Option<CompareFunction>, toStr: Stringifier, n: nat, a: Value, b: Value): Option<int> {
    match fval
    case None =>
      if a == b then Some(0)
      else if toStr(a).None? || toStr(b).None? then None
      else Some(CompareStrings(toStr(a).value, toStr(b).value))
    case Some(f) =>
      match f(n, a, b)
      case None => None
      case Some(NaN) => Some(0)
      case Some(Real(r)) => Some(if r > 0.0 then 1 else if r < 0.0 then -1 else 0)
  }

  function Comparing(fval: Option<CompareFunction>, toStr: Stringifier): Comparator<Value> {
    (n: nat, a: Value, b: Value) => SortCompare(fval, toStr, n, a, b)
  }

  /** sort_compare_strings, used when every value is a string; it is never asked about others. */
  function StringCompare(n: nat, a: Value, b: Value): Option<int> {
    if a.Str? && b.Str? then Some(CompareStrings(a.s, b.s)) else None
  }

  /** k is the first place where they differ. */
  ghost predicate DifferAt(a: string, b: string, k: nat) {
    k < |a| && k < |b| && a[..k] == b[..k] && a[k] != b[k]
  }

  /** a is a prefix of b, or has the smaller character at the first place where they differ. */
  ghost predicate StringLe(a: string, b: string) {
    || (|a| <= |b| && a == b[..|a|])
    || exists k: nat :: DifferAt(a, b, k) && a[k] < b[k]
  }

  lemma FirstDiffers(a: string, b: string)
    requires a != [] && b != [] && a[0] != b[0]
    ensures |a| <= |b| ==> a != b[..|a|]
    ensures forall k: nat :: DifferAt(a, b, k) ==> k == 0
  {
    forall k: nat | 0 < k <= |a| && k <= |b|
      ensures a[..k] != b[..k]
    {
      assert a[..k][0] != b[..k][0];
    }
    assert a[..|a|] == a;
  }

  /** js_CompareStrings orders by the characters, a prefix first. */
  lemma {:induction false} CompareIsOrder(a: string, b: string)
    ensures CompareStrings(a, b) <= 0 <==> StringLe(a, b)
  {
    if a == [] {
      assert a == b[..|a|];
    } else if b == [] {
    } else if a[0] != b[0] {
      assert DifferAt(a, b, 0);
      FirstDiffers(a, b);
    } else {
      var a', b' := a[1..], b[1..];
      CompareIsOrder(a', b');
      if |a'| <= |b'| && a' == b'[..|a'|] {
        assert a == [a[0]] + a' && b[..|a|] == [b[0]] + b'[..|a'|];
      } else if k: nat :| DifferAt(a', b', k) && a'[k] < b'[k] {
        assert a[..k + 1] == [a[0]] + a'[..k] && b[..k + 1] == [b[0]] + b'[..k];
        assert DifferAt(a, b, k + 1);
      }
      if |a| <= |b| && a == b[..|a|] {
        assert a' == b[..|a|][1..] == b'[..|a'|];
      } else if k: nat :| DifferAt(a, b, k) && a[k] < b[k] {
        assert a'[..k - 1] == a[..k][1..] && b'[..k - 1] == b[..k][1..];
        assert DifferAt(a', b', k - 1);
      }
    }
  }

  ghost predicate DefaultLe(toStr: Stringifier, a: Value, b: Value) {
    var text := (v: Value) => match toStr(v) case None => "" case Some(s) => s;
    StringLe(text(a), text(b))
  }

  lemma {:induction false} CompareReflexive(a: string)
    ensures CompareStrings(a, a) == 0
  {
    if a == [] {
    } else {
      CompareReflexive(a[1..]);
    }
  }

  lemma {:induction false} CompareTotal(a: string, b: string)
    ensures CompareStrings(a, b) <= 0 || CompareStrings(b, a) <= 0
  {
    if a != [] && b != [] && a[0] == b[0] {
      CompareTotal(a[1..], b[1..]);
    }
  }

  lemma {:induction false} CompareTransitive(a: string, b: string, c: string)
    requires CompareStrings(a, b) <= 0 && CompareStrings(b, c) <= 0
    ensures CompareStrings(a, c) <= 0
  {
    if a != [] && b != [] && c != [] && a[0] == b[0] == c[0] {
      CompareTransitive(a[1..], b[1..], c[1..]);
    }
  }

  /**
   * A compare function whose answers are not positive exactly where le holds, and NaN only where it holds, makes
   * sorting go by le.
   */
  lemma FunctionIsConsistent(f: CompareFunction, toStr: Stringifier, le: (Value, Value) -> bool)
    requires TotalPreorder(le)
    requires forall n, a, b :: f(n, a, b).Some? ==>
               match f(n, a, b).value case NaN => le(a, b) case Real(r) => r <= 0.0 <==> le(a, b)
    ensures Consistent(Comparing(Some(f), toStr), le)
  {
    var cmp := Comparing(Some(f), toStr);
    forall n, a, b | cmp(n, a, b).Some?
      ensures cmp(n, a, b).value <= 0 <==> le(a, b)
    {
      assert f(n, a, b).Some?;
    }
  }

  /** Sorting fails only if the compare function fails, or turning a value into a string does. */
  lemma FailureIsTheCallers(fval: Option<CompareFunction>, toStr: Stringifier, s: seq<Value>)
    requires Refuses(Comparing(fval, toStr), s)
    ensures match fval
            case None => exists v :: v in s && toStr(v).None?
            case Some(f) => exists n, a, b :: a in s && b in s && f(n, a, b).None?
  {
  }

  /** Without a compare function the comparator always answers by one total preorder. */
  lemma DefaultIsConsistent(toStr: Stringifier)
    ensures Consistent(Comparing(None, toStr), (a, b) => DefaultLe(toStr, a, b))
  {
    var text := (v: Value) => match toStr(v) case None => "" case Some(s) => s;
    forall a: Value, b: Value
      ensures DefaultLe(toStr, a, b) || DefaultLe(toStr, b, a)
      ensures a == b ==> DefaultLe(toStr, a, b)
    {
      CompareTotal(text(a), text(b));
      CompareIsOrder(text(a), text(b));
      CompareIsOrder(text(b), text(a));
    }
    forall a: Value, b: Value, c: Value | DefaultLe(toStr, a, b) && DefaultLe(toStr, b, c)
      ensures DefaultLe(toStr, a, c)
    {
      CompareIsOrder(text(a), text(b));
      CompareIsOrder(text(b), text(c));
      CompareTransitive(text(a), text(b), text(c));
      CompareIsOrder(text(a), text(c));
    }
    var cmp := Comparing(None, toStr);
    forall n, a, b | cmp(n, a, b).Some?
      ensures cmp(n, a, b).value <= 0 <==> DefaultLe(toStr, a, b)
    {
      CompareIsOrder(text(a), text(b));
      CompareReflexive(text(a));
    }
  }

  /** The shortcut for strings orders them as the general comparator does. */
  lemma StringsAgree(toStr: Stringifier, le: (Value, Value) -> bool)
    requires forall s :: toStr(Str(s)) == Some(s)
    requires Consistent(Comparing(None, toStr), le)
    ensures Consistent(StringCompare, le)
  {
    var cmp := Comparing(None, toStr);
    forall n, a, b | StringCompare(n, a, b).Some?
      ensures cmp(n, a, b) == StringCompare(n, a, b)
    {
      CompareReflexive(a.s);
    }
  }

  // ---- what sorting gives ------------------------------------------------------------------------

  /** The values that take part in the sort, in order. */
  function Defined(s: seq<Option<Value>>): seq<Value> {
    if s == [] then []
    else Defined(s[..|s| - 1]) + (if s[|s| - 1].None? || s[|s| - 1].value.Undefined? then [] else [s[|s| - 1].value])
  }

  function Undefineds(s: seq<Option<Value>>): nat {
    if s == [] then 0
    else Undefineds(s[..|s| - 1]) + if s[|s| - 1] == Some(Undefined) then 1 else 0
  }

  function Vacancies(s: seq<Option<Value>>): nat {
    if s == [] then 0
    else Vacancies(s[..|s| - 1]) + if s[|s| - 1].None? then 1 else 0
  }

  lemma {:induction false} CountsFit(s: seq<Option<Value>>)
    ensures |Defined(s)| + Undefineds(s) + Vacancies(s) == |s|
    ensures Undefined !in Defined(s)
  {
    if s == [] {
    } else {
      CountsFit(s[..|s| - 1]);
    }
  }

  /** The same values, rearranged, and as many undefineds and holes as before. */
  ghost predicate SameCounts(was: seq<Option<Value>>, now: seq<Option<Value>>) {
    && |now| == |was|
    && multiset(Defined(now)) == multiset(Defined(was))
    && Undefineds(now) == Undefineds(was)
    && Vacancies(now) == Vacancies(was)
  }

  /** Sorted values, then u undefineds, then holes up to the length. */
  function Arranged(sorted: seq<Value>, u: nat, length: nat): (s: seq<Option<Value>>)
    requires |sorted| + u <= length
    ensures |s| == length
  {
    Filled(sorted) + seq(u, _ => Some(Undefined)) + Holes(length - |sorted| - u)
  }

  ghost predicate AllStrings(s: seq<Value>) {
    forall k :: 0 <= k < |s| ==> s[k].Str?
  }

  lemma AllStringsAppend(s: seq<Value>, v: Value)
    ensures AllStrings(s + [v]) <==> AllStrings(s) && v.Str?
  {
    assert AllStrings(s + [v]) ==> (s + [v])[|s|].Str? && forall k :: 0 <= k < |s| ==> (s + [v])[k] == s[k];
  }

  lemma GatherStarts(s: seq<Option<Value>>)
    ensures AllStrings([])
    ensures Defined(s[..0]) == [] && Undefineds(s[..0]) == 0
  {
  }

  lemma GatherStep(s: seq<Option<Value>>, i: nat)
    requires i < |s|
    ensures Defined(s[..i + 1]) == Defined(s[..i]) + if s[i].None? || s[i].value.Undefined? then [] else [s[i].value]
    ensures Undefineds(s[..i + 1]) == Undefineds(s[..i]) + if s[i] == Some(Undefined) then 1 else 0
  {
    assert s[..i + 1][..i] == s[..i];
  }

  /** Gather the defined values into vec; count the undefineds; are all the values strings? */
  method Gather(obj: JSArray<Value>, vec: array<Value>) returns (newlen: nat, undefs: nat, allStrings: bool)
    requires obj.Valid() && vec.Length == obj.length
    modifies vec
    ensures newlen <= vec.Length && vec[..newlen] == Defined(obj.Elements()) && undefs == Undefineds(obj.Elements())
    ensures allStrings <==> AllStrings(vec[..newlen])
  {
    hide Defined, Undefineds, AllStrings;
    newlen, undefs, allStrings := 0, 0, true;
    ghost var s := obj.Elements();
    var i := 0;
    GatherStarts(s);
    assert vec[..newlen] == [];
    while i < obj.length
      invariant 0 <= i <= obj.length && newlen <= i
      invariant vec[..newlen] == Defined(s[..i]) && undefs == Undefineds(s[..i])
      invariant allStrings <==> AllStrings(vec[..newlen])
    {
      GatherStep(s, i);
      var v := obj.Get(i);
      i := i + 1;
      if v.None? {
        continue;
      }
      if v.value.Undefined? {
        undefs := undefs + 1;
        continue;
      }
      AllStringsAppend(vec[..newlen], v.value);
      vec[newlen] := v.value;
      allStrings := allStrings && vec[newlen].Str?;
      newlen := newlen + 1;
    }
    assert s[..i] == s;
  }

  /** Store undefs undefineds from index start on. */
  method PutUndefineds(obj: JSArray<Value>, start: nat, undefs: nat)
    requires obj.Valid() && start + undefs <= obj.length
    modifies obj
    ensures obj.Valid() && obj.Others() == old(obj.Others()) && obj.length == old(obj.length)
    ensures forall k: nat :: At(obj.Elements(), k) ==
              if start <= k < start + undefs then Some(Undefined) else At(old(obj.Elements()), k)
  {
    ghost var was := obj.Elements();
    var newlen: nat, left: nat := start, undefs;
    while left != 0
      invariant newlen + left == start + undefs && start <= newlen
      invariant obj.Valid() && obj.Others() == old(obj.Others()) && obj.length == |was|
      invariant forall k: nat :: At(obj.Elements(), k) == if start <= k < newlen then Some(Undefined) else At(was, k)
      decreases left
    {
      left := left - 1;
      AtStored(obj.Elements(), newlen, Undefined);
      obj.Set(newlen, Undefined);
      newlen := newlen + 1;
    }
  }

  /** Delete the elements from index start on, the last one first. */
  method DeleteTail(obj: JSArray<Value>, start: nat)
    requires obj.Valid() && start <= obj.length
    modifies obj
    ensures obj.Valid() && obj.Others() == old(obj.Others()) && obj.length == old(obj.length)
    ensures forall k: nat :: At(obj.Elements(), k) == if start <= k then None else At(old(obj.Elements()), k)
  {
    ghost var was := obj.Elements();
    var len := obj.length;
    while len > start
      invariant start <= len <= |was|
      invariant obj.Valid() && obj.Others() == old(obj.Others()) && obj.length == |was|
      invariant forall k: nat :: At(obj.Elements(), k) == if len <= k then None else At(was, k)
    {
      len := len - 1;
      AtRemoved(obj.Elements(), len);
      obj.Delete(len);
    }
  }

  /** Store the sorted values, then the undefineds, and delete what remains. */
  method Scatter(obj: JSArray<Value>, sorted: seq<Value>, undefs: nat)
    requires obj.Valid() && |sorted| + undefs <= obj.length
    modifies obj
    ensures obj.Valid() && obj.Others() == old(obj.Others())
    ensures obj.Elements() == Arranged(sorted, undefs, old(obj.length))
  {
    ghost var length := obj.length;
    InitArrayElements(obj, 0, sorted);
    PutUndefineds(obj, |sorted|, undefs);
    DeleteTail(obj, |sorted| + undefs);
    ghost var want := Arranged(sorted, undefs, length);
    forall k | 0 <= k < length
      ensures obj.Elements()[k] == want[k]
    {
      assert At(obj.Elements(), k) == want[k];
    }
  }

  lemma RearrangedLess(le: (Value, Value) -> bool, more: bool, less: bool, s: seq<Value>, t: seq<Value>)
    requires Rearranged(le, more, s, t)
    requires less ==> more
    ensures Rearranged(le, less, s, t)
  {
  }

  /** Values come before undefineds, and those before holes. */
  function Rank(v: Option<Value>): nat {
    if v.None? then 2 else if v.value.Undefined? then 1 else 0
  }

  /** Everything stands where sorting should put it. */
  ghost predicate InOrder(le: (Value, Value) -> bool, sure: bool, s: seq<Option<Value>>) {
    forall i, j :: 0 <= i < j < |s| ==>
      Rank(s[i]) <= Rank(s[j]) && (sure && Rank(s[j]) == 0 ==> le(s[i].value, s[j].value))
  }

  lemma EmptySorts(le: (Value, Value) -> bool, sure: bool, s: seq<Option<Value>>)
    requires s == []
    ensures SameCounts(s, s) && InOrder(le, sure, s)
    ensures Sorted(le, []) && Rearranged(le, sure, Defined(s), []) && Undefineds(s) == 0 && Arranged([], 0, 0) == s
  {
  }

  /** What is arranged without its last place: one hole, undefined or value less. */
  lemma ArrangedFront(sorted: seq<Value>, u: nat, length: nat)
    requires |sorted| + u <= length && length > 0
    ensures var (s, n) := (Arranged(sorted, u, length), |sorted|);
            if n + u < length then s == Arranged(sorted, u, length - 1) + [None]
            else if u > 0 then s == Arranged(sorted, u - 1, length - 1) + [Some(Undefined)]
            else s == Arranged(sorted[..n - 1], 0, length - 1) + [Some(sorted[n - 1])]
  {
  }

  lemma CountsOfLonger(s: seq<Option<Value>>, v: Option<Value>)
    ensures Defined(s + [v]) == Defined(s) + if v.None? || v.value.Undefined? then [] else [v.value]
    ensures Vacancies(s + [v]) == Vacancies(s) + if v.None? then 1 else 0
    ensures Undefineds(s + [v]) == Undefineds(s) + if v == Some(Undefined) then 1 else 0
  {
    assert (s + [v])[..|s|] == s;
  }

  /** The values arranged, and the number of undefineds, can be read off again. */
  lemma {:induction false} ArrangedCounts(sorted: seq<Value>, u: nat, length: nat)
    requires |sorted| + u <= length && Undefined !in sorted
    ensures Defined(Arranged(sorted, u, length)) == sorted && Undefineds(Arranged(sorted, u, length)) == u
    decreases length
  {
    if length == 0 {
    } else {
      ArrangedFront(sorted, u, length);
      hide Arranged, Defined, Undefineds;
      if |sorted| + u < length {
        ArrangedCounts(sorted, u, length - 1);
        CountsOfLonger(Arranged(sorted, u, length - 1), None);
      } else if u > 0 {
        ArrangedCounts(sorted, u - 1, length - 1);
        CountsOfLonger(Arranged(sorted, u - 1, length - 1), Some(Undefined));
      } else {
        var front, last := sorted[..length - 1], sorted[length - 1];
        assert sorted == front + [last];
        ArrangedCounts(front, 0, length - 1);
        CountsOfLonger(Arranged(front, 0, length - 1), Some(last));
      }
    }
  }

  /** The functions that tell an array's contents say how often each is in it. */
  lemma {:induction false} CountOf(s: seq<Option<Value>>, v: Option<Value>)
    ensures multiset(s)[v] == if v.None? then Vacancies(s)
                              else if v.value.Undefined? then Undefineds(s)
                              else multiset(Defined(s))[v.value]
  {
    if s == [] {
    } else {
      var front, last := s[..|s| - 1], s[|s| - 1];
      assert s == front + [last];
      CountOf(front, v);
      CountsOfLonger(front, last);
      hide Vacancies, Undefineds, Defined;
    }
  }

  lemma SameContents(s: seq<Option<Value>>, t: seq<Option<Value>>)
    requires SameCounts(s, t)
    ensures multiset(s) == multiset(t)
  {
    forall v
      ensures multiset(s)[v] == multiset(t)[v]
    {
      CountOf(s, v);
      CountOf(t, v);
    }
  }

  /** Gathering goes through an array in order. */
  lemma {:induction false} DefinedJoin(s: seq<Option<Value>>, t: seq<Option<Value>>)
    ensures Defined(s + t) == Defined(s) + Defined(t)
  {
    if t == [] {
      assert s + t == s;
    } else {
      var front, last := t[..|t| - 1], t[|t| - 1];
      DefinedJoin(s, front);
      CountsOfLonger(s + front, last);
      CountsOfLonger(front, last);
      assert t == front + [last] && s + t == s + front + [last];
      hide Defined;
    }
  }

  lemma DefinedOne(v: Option<Value>)
    ensures Defined([v]) == if v.None? || v.value.Undefined? then [] else [v.value]
  {
    assert [v] == [] + [v];
    CountsOfLonger([], v);
  }

  lemma ArrangedInOrder(le: (Value, Value) -> bool, sure: bool, sorted: seq<Value>, u: nat, length: nat)
    requires |sorted| + u <= length && Undefined !in sorted && (sure ==> Sorted(le, sorted))
    ensures InOrder(le, sure, Arranged(sorted, u, length))
  {
  }

  /** Sorting keeps the values and the numbers of undefineds and holes. */
  lemma SortingKeepsCounts(le: (Value, Value) -> bool, sure: bool, was: seq<Option<Value>>, sorted: seq<Value>)
    requires Rearranged(le, sure, Defined(was), sorted)
    ensures |sorted| == |Defined(was)| && |sorted| + Undefineds(was) <= |was|
    ensures SameCounts(was, Arranged(sorted, Undefineds(was), |was|)) && Undefined !in sorted
  {
    assert multiset(sorted) == multiset(Defined(was));
    assert |multiset(sorted)| == |multiset(Defined(was))|;
    CountsFit(was);
    assert Undefined !in multiset(Defined(was));
    hide Arranged, Defined, Undefineds, Vacancies;
    var now := Arranged(sorted, Undefineds(was), |was|);
    ArrangedCounts(sorted, Undefineds(was), |was|);
    CountsFit(now);
  }

  lemma StringsAnswer(s: seq<Value>)
    requires AllStrings(s)
    ensures !Refuses(StringCompare, s)
  {
  }

  /** Sort the gathered values, by the comparator for strings if that will do. */
  method SortVector(vec: array<Value>, newlen: nat, fval: Option<CompareFunction>, allStrings: bool,
                    toStr: Stringifier, ghost le: (Value, Value) -> bool)
    returns (ok: bool)
    requires newlen <= vec.Length && forall s :: toStr(Str(s)) == Some(s)
    requires allStrings ==> AllStrings(vec[..newlen])
    modifies vec
    ensures ok ==> Rearranged(le, Consistent(Comparing(fval, toStr), le), old(vec[..newlen]), vec[..newlen])
    ensures ok && Consistent(Comparing(fval, toStr), le) ==> Sorted(le, vec[..newlen])
    ensures !ok ==> Refuses(Comparing(fval, toStr), old(vec[..newlen]))
  {
    hide Rearranged, Sorted, Consistent, Refuses, AllStrings;
    ghost var was := vec[..newlen];
    var tmp := new Value[newlen](_ => Undefined);
    if fval.None? && allStrings {
      StringsAnswer(was);
      ok := MergeSort.Sort(vec, newlen, StringCompare, tmp, le);
      if Consistent(Comparing(None, toStr), le) {
        StringsAgree(toStr, le);
      }
      if ok {
        RearrangedLess(le, Consistent(StringCompare, le), Consistent(Comparing(None, toStr), le), was, vec[..newlen]);
      }
    } else {
      ok := MergeSort.Sort(vec, newlen, Comparing(fval, toStr), tmp, le);
    }
  }

  /**
   * array_sort. On success the array holds what it held; the defined values come first, rearranged stably, and into
   * order if the comparator is consistent; then the undefineds; then the holes. It fails only if the comparator does on
   * two of the values, and then nothing has changed.
   */
  method Sort(obj: JSArray<Value>, fval: Option<CompareFunction>, toStr: Stringifier, ghost le: (Value, Value) -> bool)
    returns (ok: bool, ghost sorted: seq<Value>)
    requires obj.Valid() && forall s :: toStr(Str(s)) == Some(s)
    modifies obj
    ensures obj.Valid() && obj.Others() == old(obj.Others())
    ensures var was := old(obj.Elements());
            var sure := Consistent(Comparing(fval, toStr), le);
            if ok then
              && Rearranged(le, sure, Defined(was), sorted) && (sure ==> Sorted(le, sorted))
              && |sorted| + Undefineds(was) <= |was|
              && obj.Elements() == Arranged(sorted, Undefineds(was), |was|)
              && multiset(obj.Elements()) == multiset(was)
              && InOrder(le, sure, obj.Elements())
            else obj.Elements() == was && Refuses(Comparing(fval, toStr), Defined(was))
  {
    hide Rearranged, Sorted, Consistent, Arranged, Defined, Undefineds, SameCounts, Refuses, InOrder, AllStrings;
    ghost var was := obj.Elements();
    CountsFit(was);
    var len := obj.length;
    if len == 0 {
      EmptySorts(le, Consistent(Comparing(fval, toStr), le), was);
      return true, [];
    }
    var vec := new Value[len](_ => Undefined);
    var newlen, undefs, allStrings := Gather(obj, vec);
    ok := SortVector(vec, newlen, fval, allStrings, toStr, le);
    if !ok {
      return false, [];
    }
    sorted := vec[..newlen];
    SortingKeepsCounts(le, Consistent(Comparing(fval, toStr), le), was, sorted);
    SameContents(was, Arranged(sorted, Undefineds(was), |was|));
    ArrangedInOrder(le, Consistent(Comparing(fval, toStr), le), sorted, Undefineds(was), |was|);
    Scatter(obj, vec[..newlen], undefs);
  }
}
