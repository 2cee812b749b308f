/**
 Array indices as property ids (jsarray.c): js_IdIsIndex reads a decimal string with 32-bit wrapping
 arithmetic, BigIndexToId prints one. A property id is a small integer or a string.
 */
module ArrayIndex {
  import opened Wrappers

  const WORD: nat := 0x1_0000_0000
  /** MAXINDEX: one more than the greatest array index. */
  const MAXINDEX: nat := 0xFFFF_FFFF
  /** JSVAL_INT_MAX: the greatest integer that a tagged word holds. */
  const INT_MAX: nat := 0x3FFF_FFFF
  /** sizeof(MAXSTR) - 1. */
  const MAXSTR_LENGTH: nat := 10

  datatype Id = IntId(i: int) | StrId(s: string)

  // ---- decimal strings ---------------------------------------------------------------------------

  predicate IsDigit(c: char) {
    '0' <= c <= '9'
  }

  function Undec(c: char): nat
    requires IsDigit(c)
  {
    (c - '0') as int
  }

  function Digit(d: nat): char
    requires d < 10
  {
    '0' + d as char
  }

  /** The canonical decimal of n: no sign, no leading zero. */
  function Decimal(n: nat): string {
    if n < 10 then [Digit(n)] else Decimal(n / 10) + [Digit(n % 10)]
  }

  ghost predicate AllDigits(s: string) {
    forall k :: 0 <= k < |s| ==> IsDigit(s[k])
  }

  /** The number a string of digits denotes. */
  ghost function Value(s: string): nat
    requires AllDigits(s)
  {
    if s == [] then 0 else 10 * Value(s[..|s| - 1]) + Undec(s[|s| - 1])
  }

  ghost predicate Canonical(s: string) {
    s != [] && AllDigits(s) && (s[0] == '0' ==> |s| == 1)
  }

  lemma {:induction false} DecimalIsCanonical(n: nat)
    ensures Canonical(Decimal(n)) && Value(Decimal(n)) == n
    ensures n > 0 ==> Decimal(n)[0] != '0'
  {
    if n < 10 {
      assert Decimal(n)[..0] == [];
    } else {
      DecimalIsCanonical(n / 10);
      var s := Decimal(n);
      assert s[..|s| - 1] == Decimal(n / 10);
    }
  }

  lemma {:induction false} CanonicalIsDecimal(s: string)
    requires Canonical(s)
    ensures s == Decimal(Value(s))
    ensures s[0] != '0' ==> Value(s) > 0
  {
    var t := s[..|s| - 1];
    if t == [] {
      assert Value(t) == 0;
    } else {
      assert t[0] == s[0];
      CanonicalIsDecimal(t);
      assert s == t + [s[|s| - 1]];
    }
  }

  function Pow10(k: nat): nat {
    if k == 0 then 1 else 10 * Pow10(k - 1)
  }

  lemma {:induction false} ValueBound(s: string)
    requires AllDigits(s)
    ensures Value(s) < Pow10(|s|)
  {
    if s == [] {
    } else {
      ValueBound(s[..|s| - 1]);
    }
  }

  lemma {:induction false} Pow10Grows(j: nat, k: nat)
    requires j <= k
    ensures Pow10(j) <= Pow10(k)
  {
    if j >= k {
    } else {
      Pow10Grows(j, k - 1);
    }
  }

  /** A decimal that is long denotes a number that is great. */
  lemma {:induction false} DecimalLength(n: nat)
    ensures |Decimal(n)| > 1 ==> Pow10(|Decimal(n)| - 1) <= n
  {
    if n < 10 {
    } else {
      DecimalLength(n / 10);
    }
  }

  // ---- the reference definition --------------------------------------------------------------------

  /** The number an id denotes as an array index (ECMA-262 3rd edition, section 15.4). */
  ghost function IndexOf(id: Id): Option<nat> {
    match id
    case IntId(i) => if i < 0 then None else Some(i)
    case StrId(s) => if Canonical(s) && Value(s) < MAXINDEX then Some(Value(s)) else None
  }

  /** The id under which the engine stores index n. */
  function IndexId(n: nat): Id {
    if n <= INT_MAX then IntId(n) else StrId(Decimal(n))
  }

  /** Ids of indices are told apart, and reading one back gives the index. */
  lemma IndexIdRoundTrip(n: nat)
    requires n < MAXINDEX
    ensures IndexOf(IndexId(n)) == Some(n)
  {
    DecimalIsCanonical(n);
  }

  /** A string denotes an index exactly when it is the canonical decimal of a number below MAXINDEX. */
  lemma StringIndex(s: string, n: nat)
    ensures IndexOf(StrId(s)) == Some(n) <==> n < MAXINDEX && s == Decimal(n)
  {
    if Canonical(s) {
      CanonicalIsDecimal(s);
    }
    DecimalIsCanonical(n);
  }

  lemma DecimalEnds(n: nat, d: nat)
    requires 0 < n && d < 10
    ensures Decimal(10 * n + d) == Decimal(n) + [Digit(d)]
  {
  }

  lemma OneDigit(n: nat)
    requires n < 10
    ensures Decimal(n) == [Digit(n)]
  {
  }

  lemma LastIndex()
    ensures Decimal(4294967294) == "4294967294" && Decimal(4294967295) == "4294967295"
  {
    hide Decimal;
    OneDigit(4);
    DecimalEnds(4, 2);
    DecimalEnds(42, 9);
    DecimalEnds(429, 4);
    DecimalEnds(4294, 9);
    DecimalEnds(42949, 6);
    DecimalEnds(429496, 7);
    DecimalEnds(4294967, 2);
    DecimalEnds(42949672, 9);
    DecimalEnds(429496729, 4);
    DecimalEnds(429496729, 5);
  }

  /** The greatest index is 2^32 - 2; a sign, a leading zero or nothing at all make no index. */
  lemma WhereIndicesEnd()
    ensures IndexOf(StrId("4294967294")) == Some(4294967294) && IndexOf(StrId("4294967295")) == None
    ensures IndexOf(StrId("007")) == None && IndexOf(StrId("-1")) == None && IndexOf(StrId("")) == None
    ensures IndexOf(StrId("0")) == Some(0)
    ensures IndexId(1073741823).IntId? && IndexId(1073741824).StrId?
  {
    hide Decimal, Value;
    LastIndex();
    OneDigit(0);
    StringIndex("4294967294", 4294967294);
    StringIndex("0", 0);
    DecimalIsCanonical(4294967295);
    assert !IsDigit("-1"[0]);
  }

  // ---- js_IdIsIndex ----------------------------------------------------------------------------------

  /** The characters before the first NUL, which ends a string for a C scanner. */
  ghost function UpToNul(s: string): string {
    if s == [] || s[0] == '\0' then [] else [s[0]] + UpToNul(s[1..])
  }

  /** The character at cp of a string that ends in a NUL. */
  function CharAt(s: string, cp: nat): char
    requires cp <= |s|
  {
    if cp < |s| then s[cp] else '\0'
  }

  lemma {:induction false} UpToNulIs(s: string, k: nat)
    requires k <= |s| && CharAt(s, k) == '\0' && forall j :: 0 <= j < k ==> s[j] != '\0'
    ensures UpToNul(s) == s[..k]
  {
    if k > 0 {
      UpToNulIs(s[1..], k - 1);
      assert s[..k] == [s[0]] + s[1..][..k - 1];
    } 
  }

  lemma {:induction false} UpToNulStops(s: string) returns (k: nat)
    ensures k <= |s| && UpToNul(s) == s[..k] && CharAt(s, k) == '\0'
    ensures forall j :: 0 <= j < k ==> s[j] != '\0'
  {
    if s == [] || s[0] == '\0' {
      k := 0;
    } else {
      var j := UpToNulStops(s[1..]);
      k := j + 1;
      assert s[..k] == [s[0]] + s[1..][..j];
      assert forall i :: 1 <= i < k ==> s[i] == s[1..][i - 1];
    }
  }

  /** The scanner's variables after the digits s: all but the last are read without wrapping. */
  ghost predicate Scanned(s: string, index: nat, oldIndex: nat, c: nat)
    requires AllDigits(s) && s != []
  {
    && c < 10
    && if |s| == 1 then index == Undec(s[0]) && oldIndex == 0 && c == 0
       else oldIndex == Value(s[..|s| - 1]) && c == Undec(s[|s| - 1]) && index == Value(s) % WORD
  }

  /** One digit's value is itself. */
  lemma ValueOfDigit(s: string)
    requires |s| == 1 && AllDigits(s)
    ensures Value(s) == Undec(s[0])
  {
    assert s[..0] == [];
  }

  lemma NineDigits(s: string)
    requires AllDigits(s) && |s| <= 9
    ensures Value(s) < 1_000_000_000
  {
    hide Value, AllDigits;
    ValueBound(s);
    Pow10Grows(|s|, 9);
    assert Pow10(9) == 1_000_000_000;
  }

  lemma ValueAppend(s: string, d: char)
    requires AllDigits(s) && IsDigit(d)
    ensures AllDigits(s + [d]) && Value(s + [d]) == 10 * Value(s) + Undec(d)
  {
    assert (s + [d])[..|s|] == s;
  }

  lemma ScanStep(s: string, d: char, index: nat)
    requires 0 < |s| < MAXSTR_LENGTH && AllDigits(s) && IsDigit(d) && index == Value(s) % WORD
    ensures index == Value(s)
    ensures AllDigits(s + [d]) && Scanned(s + [d], (10 * index + Undec(d)) % WORD, index, Undec(d))
  {
    hide Value;
    NineDigits(s);
    assert (s + [d])[..|s|] == s;
    ValueAppend(s, d);
  }

  /** The final test accepts exactly the canonical decimals below MAXINDEX. */
  lemma ScanDecides(s: string, cp: nat, stop: nat, index: nat, oldIndex: nat, c: nat)
    requires 1 <= cp <= stop <= |s| <= MAXSTR_LENGTH && AllDigits(s[..cp])
    requires CharAt(s, stop) == '\0' && forall j :: 0 <= j < stop ==> s[j] != '\0'
    requires Scanned(s[..cp], index, oldIndex, c)
    requires if s[0] == '0' then cp == 1 else !IsDigit(CharAt(s, cp))
    ensures var t := s[..stop];
            var accepts := CharAt(s, cp) == '\0' &&
              (oldIndex < MAXINDEX / 10 || (oldIndex == MAXINDEX / 10 && c < MAXINDEX % 10));
            IndexOf(StrId(t)) == if accepts then Some(index) else None
  {
    var t := s[..stop];
    if CharAt(s, cp) == '\0' {
      assert cp == stop;
      assert Value(t) < WORD || Value(t) >= MAXINDEX;
    } else {
      assert cp < stop && t[cp] == s[cp];
    }
  }

  /** The digit loop, on a string that starts with a digit and is not too long, and its final test. */
  method ScanDigits(s: string, ghost stop: nat) returns (r: Option<nat>)
    requires 0 < |s| <= MAXSTR_LENGTH && IsDigit(s[0])
    requires stop <= |s| && CharAt(s, stop) == '\0' && forall j :: 0 <= j < stop ==> s[j] != '\0'
    ensures r == IndexOf(StrId(s[..stop]))
  {
    hide Value, UpToNul, Decimal;
    var index: nat, oldIndex: nat, c: nat, cp: nat := Undec(s[0]), 0, 0, 1;
    assert s[..1] == [s[0]];
    if index != 0 {
      while IsDigit(CharAt(s, cp))
        invariant 1 <= cp <= stop
        invariant AllDigits(s[..cp]) && Scanned(s[..cp], index, oldIndex, c)
        decreases |s| - cp
      {
        if cp == 1 {
          ValueOfDigit(s[..cp]);
        }
        ScanStep(s[..cp], s[cp], index);
        assert s[..cp + 1] == s[..cp] + [s[cp]];
        oldIndex := index;
        c := Undec(s[cp]);
        index := (10 * index + c) % WORD;
        cp := cp + 1;
      }
    }
    ScanDecides(s, cp, stop, index, oldIndex, c);
    if CharAt(s, cp) == '\0' &&
       (oldIndex < MAXINDEX / 10 || (oldIndex == MAXINDEX / 10 && c < MAXINDEX % 10)) {
      return Some(index);
    }
    return None;
  }

  /** What js_IdIsIndex answers for a name. */
  ghost function Answer(s: string): Option<nat> {
    if |s| <= MAXSTR_LENGTH then IndexOf(StrId(UpToNul(s))) else None
  }

  /** js_IdIsIndex. A string is read up to its first NUL, but its whole length is limited. */
  method IdIsIndex(id: Id) returns (r: Option<nat>)
    ensures id.IntId? ==> r == IndexOf(id)
    ensures id.StrId? ==> r == Answer(id.s)
  {
    if id.IntId? {
      return if id.i < 0 then None else Some(id.i);
    }
    var s := id.s;
    hide Value, UpToNul;
    ghost var stop := UpToNulStops(s);
    if !(IsDigit(CharAt(s, 0)) && |s| <= MAXSTR_LENGTH) {
      assert |s| <= MAXSTR_LENGTH ==> !Canonical(s[..stop]);
      return None;
    }
    r := ScanDigits(s, stop);
  }

  ghost predicate NulFree(id: Id) {
    id.StrId? ==> forall k :: 0 <= k < |id.s| ==> id.s[k] != '\0'
  }

  /** On a string without NULs the scanner's answer is the reference definition's. */
  lemma NulFreeIndex(s: string)
    requires NulFree(StrId(s))
    ensures UpToNul(s) == s
    ensures |s| > MAXSTR_LENGTH ==> IndexOf(StrId(s)) == None
  {
    UpToNulIs(s, |s|);
    if |s| > MAXSTR_LENGTH && Canonical(s) && Value(s) < MAXINDEX {
      CanonicalIsDecimal(s);
      DecimalFits(Value(s));
    }
  }

  /**
   * The scanner's answer is right exactly for the names that have no NUL, are too long to be looked at, or have no
   * index before their first NUL.
   */
  lemma NulHidesTheRest(s: string)
    ensures Answer(s) == IndexOf(StrId(s)) <==>
            NulFree(StrId(s)) || |s| > MAXSTR_LENGTH || IndexOf(StrId(UpToNul(s))).None?
  {
    if NulFree(StrId(s)) {
      NulFreeIndex(s);
    } else {
      var k :| 0 <= k < |s| && s[k] == '\0';
      assert !IsDigit(s[k]);
      assert IndexOf(StrId(s)).None?;
    }
  }

  /** There are names that are read wrongly. */
  lemma NulIsPassedOver()
    ensures IndexOf(StrId("5\0x")) == None && Answer("5\0x") == Some(5)
  {
    assert !IsDigit("5\0x"[1]);
    assert UpToNul("5\0x"[1..]) == [];
    assert UpToNul("5\0x") == "5";
    assert "5" == Decimal(5);
    DecimalIsCanonical(5);
  }

  // ---- BigIndexToId ----------------------------------------------------------------------------------

  lemma DecimalFits(n: nat)
    requires n < WORD
    ensures |Decimal(n)| <= MAXSTR_LENGTH
  {
    assert Pow10(10) == 10_000_000_000;
    if |Decimal(n)| > MAXSTR_LENGTH {
      Pow10Grows(10, |Decimal(n)| - 1);
    }
    DecimalLength(n);
  }

  /** BigIndexToId: the digit loop fills a ten-character buffer from its end, and leaves the text that IdIsIndex reads
      back as the index. There is no id if none is to be made for an object that has its names among the atoms, and no
      atom has this name. */
  method BigIndexToId(index: nat, createAtom: bool, namesAreAtoms: bool, atoms: set<string>) returns (id: Option<Id>)
    requires INT_MAX < index < WORD
    ensures id == if !createAtom && namesAreAtoms && Decimal(index) !in atoms then None else Some(IndexId(index))
    ensures index < MAXINDEX && id.Some? ==> IndexOf(id.value) == Some(index)
  {
    var buf := new char[10];
    var start := buf.Length;
    var n := index;
    DecimalFits(n);
    assert buf[start..] == [];
    while true
      invariant 0 < start <= 10 && |Decimal(n)| <= start
      invariant Decimal(index) == Decimal(n) + buf[start..]
      decreases n
    {
      ghost var text := buf[start..];
      start := start - 1;
      buf[start] := Digit(n % 10);
      assert buf[start..] == [Digit(n % 10)] + text;
      if n / 10 == 0 {
        break;
      }
      n := n / 10;
    }
    if index < MAXINDEX {
      IndexIdRoundTrip(index);
    }
    var name := buf[start..];
    if !createAtom && namesAreAtoms && name !in atoms {
      return None;
    }
    return Some(StrId(name));
  }

  /** Only index n is stored under its id. */
  lemma IndexIdInjective(m: nat, n: nat)
    requires m < MAXINDEX && n < MAXINDEX && IndexId(m) == IndexId(n)
    ensures m == n
  {
    IndexIdRoundTrip(m);
    IndexIdRoundTrip(n);
  }
}
