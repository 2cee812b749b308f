/**
 Reading dates (jsdate.c, date_parseString). The scanner keeps a record of what it has seen so far; every
 field starts out as -1, for "not seen". The numbers it accumulates are mathematical integers here.
 */
module DateText {
  import opened ArrayIndex
  import opened DateMath
  import opened Wrappers

  datatype State = State(
    year: int,
    mon: int,
    mday: int,
    hour: int,
    min: int,
    sec: int,
    tzoffset: int,
    prevc: char,
    seenplusminus: bool,
    seenmonthname: bool)

  const NUL: char := 0 as char
  const START := State(-1, -1, -1, -1, -1, -1, -1, NUL, false, false)

  // ---- keywords ----------------------------------------------------------------------------------------

  /** The keyword table wtb with the actions of ttb beside it. */
  const KEYWORDS: seq<(string, int)> := [
    ("am", -1), ("pm", -2),
    ("monday", 0), ("tuesday", 0), ("wednesday", 0), ("thursday", 0), ("friday", 0),
    ("saturday", 0), ("sunday", 0),
    ("january", 2), ("february", 3), ("march", 4), ("april", 5), ("may", 6), ("june", 7),
    ("july", 8), ("august", 9), ("september", 10), ("october", 11), ("november", 12), ("december", 13),
    ("gmt", 10000 + 0), ("ut", 10000 + 0), ("utc", 10000 + 0),
    ("est", 10000 + 5 * 60), ("edt", 10000 + 4 * 60),
    ("cst", 10000 + 6 * 60), ("cdt", 10000 + 5 * 60),
    ("mst", 10000 + 7 * 60), ("mdt", 10000 + 6 * 60),
    ("pst", 10000 + 8 * 60), ("pdt", 10000 + 7 * 60)
  ]

  predicate IsLetter(c: char) {
    'A' <= c <= 'Z' || 'a' <= c <= 'z'
  }

  function ToLower(c: char): char {
    if 'A' <= c <= 'Z' then c + 32 as char else c
  }

  /** The word is, but for case, the beginning of the keyword. */
  ghost predicate Abbreviates(word: string, keyword: string) {
    && |word| <= |keyword|
    && forall k :: 0 <= k < |word| ==> ToLower(keyword[k]) == ToLower(word[k])
  }

  method RegionMatches(keyword: string, s: string, off: nat, count: nat) returns (result: bool)
    requires off + count <= |s|
    ensures result == Abbreviates(s[off..off + count], keyword)
  {
    var word := s[off..off + count];
    var k := 0;
    while k < count && k < |keyword|
      invariant k <= count && k <= |keyword|
      invariant forall j :: 0 <= j < k ==> ToLower(keyword[j]) == ToLower(word[j])
    {
      assert s[off + k] == word[k];
      if ToLower(keyword[k]) != ToLower(s[off + k]) {
        break;
      }
      k := k + 1;
    }
    result := k == count;
  }

  /** The greatest index below k of a keyword that the word abbreviates. */
  ghost function LastKeyword(word: string, k: nat): (r: Option<nat>)
    requires k <= |KEYWORDS|
    ensures r.Some? ==> r.value < k && Abbreviates(word, KEYWORDS[r.value].0)
    ensures forall j :: (if r.Some? then r.value + 1 else 0) <= j < k ==> !Abbreviates(word, KEYWORDS[j].0)
  {
    if k == 0 then None
    else if Abbreviates(word, KEYWORDS[k - 1].0) then Some(k - 1)
    else LastKeyword(word, k - 1)
  }

  // ---- what a number and a word mean -------------------------------------------------------------------

  /**
   * A number n has been read; c is the character after it, or its own last digit when the text ends there.
   */
  function ReadNumber(st: State, n: nat, c: char, atEnd: bool): Option<State> {
    if st.prevc == '+' || st.prevc == '-' then
      var minutes := if n < 24 then n * 60 else n % 100 + n / 100 * 60;
      var west := if st.prevc == '+' then -minutes else minutes;
      if st.tzoffset != 0 && st.tzoffset != -1 then None
      else Some(st.(seenplusminus := true, tzoffset := west, prevc := NUL))
    else if st.prevc == '/' && st.mon >= 0 && st.mday >= 0 && st.year < 0 then
      if c <= ' ' || c == ',' || c == '/' || atEnd then Some(st.(year := n, prevc := NUL)) else None
    else if c == ':' then
      if st.hour < 0 then Some(st.(hour := n, prevc := NUL))
      else if st.min < 0 then Some(st.(min := n, prevc := NUL))
      else None
    else if c == '/' then
      if st.mon < 0 then Some(st.(mon := n, prevc := NUL))
      else if st.mday < 0 then Some(st.(mday := n, prevc := NUL))
      else None
    else if !atEnd && c != ',' && c > ' ' && c != '-' && c != '(' then None
    else if st.seenplusminus && n < 60 then
      Some(st.(tzoffset := if st.tzoffset < 0 then st.tzoffset - n else st.tzoffset + n, prevc := NUL))
    else if st.hour >= 0 && st.min < 0 then Some(st.(min := n, prevc := NUL))
    else if st.prevc == ':' && st.min >= 0 && st.sec < 0 then Some(st.(sec := n, prevc := NUL))
    else if st.mon < 0 then Some(st.(mon := n, prevc := NUL))
    else if st.mon >= 0 && st.mday < 0 then Some(st.(mday := n, prevc := NUL))
    else if st.mon >= 0 && st.mday >= 0 && st.year < 0 then Some(st.(year := n, prevc := NUL))
    else None
  }

  /** A keyword with the given action has been read. */
  function DoAction(st: State, action: int): Option<State> {
    if action == 0 then Some(st.(prevc := NUL))
    else if action < 0 then
      if st.hour > 12 || st.hour < 0 then None
      else if action == -1 && st.hour == 12 then Some(st.(hour := 0, prevc := NUL))
      else if action == -2 && st.hour != 12 then Some(st.(hour := st.hour + 12, prevc := NUL))
      else Some(st.(prevc := NUL))
    else if action <= 13 then
      if st.seenmonthname then None else
      var st := st.(seenmonthname := true, prevc := NUL);
      var mon := action - 2 + 1;
      if st.mon < 0 then Some(st.(mon := mon))
      else if st.mday < 0 then Some(st.(mday := st.mon, mon := mon))
      else if st.year < 0 then Some(st.(year := st.mon, mon := mon))
      else None
    else Some(st.(tzoffset := action - 10000, prevc := NUL))
  }

  ghost function ReadWord(st: State, word: string): Option<State> {
    match LastKeyword(word, |KEYWORDS|)
    case None => None
    case Some(k) => DoAction(st, KEYWORDS[k].1)
  }

  /** date_msecFromDate, with absent clock fields taken as zero; no zone means local time. */
  function Compose(st: State, year: int, mon: int, mday: int, utc: int -> int): int {
    var (hour, min, sec) :=
      (if st.hour < 0 then 0 else st.hour, if st.min < 0 then 0 else st.min, if st.sec < 0 then 0 else st.sec);
    var time := MakeDate(MakeDay(year, mon - 1, mday), MakeTime(hour, min, sec, 0));
    if st.tzoffset == -1 then utc(time) else time + st.tzoffset * MS_PER_MINUTE
  }

  /** The end of the parse: which of the three numbers is the year, and what time it all denotes. */
  function Finish(st: State, utc: int -> int): Option<int> {
    if st.year < 0 || st.mon < 0 || st.mday < 0 then None
    else if st.seenmonthname then
      if (st.mday >= 70 && st.year >= 70) || (st.mday < 70 && st.year < 70) then None else
      var (year, mday) := if st.mday > st.year then (st.mday, st.year) else (st.year, st.mday);
      Some(Compose(st, if 70 <= year < 100 then year + 1900 else year, st.mon, mday, utc))
    else if st.mon < 70 then
      Some(Compose(st, if st.year < 100 then st.year + 1900 else st.year, st.mon, st.mday, utc))
    else if st.mday < 70 then
      Some(Compose(st, if st.mon < 100 then st.mon + 1900 else st.mon, st.mday, st.year, utc))
    else None
  }

  // ---- scanning ----------------------------------------------------------------------------------------

  function DigitRun(s: string): (n: nat)
    ensures n <= |s|
    ensures forall k :: 0 <= k < n ==> IsDigit(s[k])
    ensures n < |s| ==> !IsDigit(s[n])
  {
    if s == [] || !IsDigit(s[0]) then 0 else 1 + DigitRun(s[1..])
  }

  function LetterRun(s: string): (n: nat)
    ensures n <= |s|
    ensures forall k :: 0 <= k < n ==> IsLetter(s[k])
    ensures n < |s| ==> !IsLetter(s[n])
  {
    if s == [] || !IsLetter(s[0]) then 0 else 1 + LetterRun(s[1..])
  }

  /** How much of the text to skip to get out of a comment nested to the given depth. */
  function CommentRun(s: string, depth: int): (n: nat)
    ensures n <= |s|
  {
    if s == [] then 0
    else if s[0] == ')' && depth <= 1 then 1
    else 1 + CommentRun(s[1..], if s[0] == '(' then depth + 1 else if s[0] == ')' then depth - 1 else depth)
  }

  predicate IsBlank(c: char) {
    c <= ' ' || c == ','
  }

  /** The character at the front of the text; the string ends in a NUL. */
  function Front(s: string): char {
    if s == [] then NUL else s[0]
  }

  ghost function ReadDigits(st: State, digits: string, rest: string): Option<State>
    requires digits != [] && AllDigits(digits)
  {
    ReadNumber(st, Value(digits), if rest == [] then digits[|digits| - 1] else rest[0], rest == [])
  }

  /** What the scanner makes of a text, from a state: the final state, or none for a syntax error. */
  ghost function Scan(s: string, st: State): Option<State>
    decreases |s|
  {
    if s == [] then Some(st) else
    var (c, rest) := (s[0], s[1..]);
    if IsBlank(c) then Scan(rest, st)
    else if c == '-' then Scan(rest, if IsDigit(Front(rest)) then st.(prevc := '-') else st)
    else if c == '(' then Scan(rest[CommentRun(rest, 1)..], st)
    else if IsDigit(c) then
      var n := DigitRun(s);
      match ReadDigits(st, s[..n], s[n..])
      case None => None
      case Some(st') => Scan(s[n..], st')
    else if c == '/' || c == ':' || c == '+' then Scan(rest, st.(prevc := c))
    else
      var n := 1 + LetterRun(rest);
      if n == 1 then None else
      match ReadWord(st, s[..n])
      case None => None
      case Some(st') => Scan(s[n..], st')
  }

  ghost function Parse(s: string, utc: int -> int): Option<int> {
    if s == [] then None else
    match Scan(s, START)
    case None => None
    case Some(st) => Finish(st, utc)
  }

  // ---- the scanner -------------------------------------------------------------------------------------

  method SkipComment(s: string, start: nat) returns (i: nat)
    requires start <= |s|
    ensures i == start + CommentRun(s[start..], 1)
    ensures i <= |s|
  {
    i := start;
    var depth := 1;
    while i < |s|
      invariant start <= i <= |s|
      invariant i + CommentRun(s[i..], depth) == start + CommentRun(s[start..], 1)
    {
      var c := s[i];
      i := i + 1;
      assert s[i - 1..][1..] == s[i..];
      if c == '(' {
        depth := depth + 1;
      } else if c == ')' {
        depth := depth - 1;
        if depth <= 0 {
          return;
        }
      }
    }
  }

  lemma DigitRunStep(s: string, i: nat)
    requires i < |s|
    ensures DigitRun(s[i..]) == if IsDigit(s[i]) then 1 + DigitRun(s[i + 1..]) else 0
  {
    assert s[i..][1..] == s[i + 1..];
  }

  lemma ValueStep(s: string, start: nat, i: nat)
    requires start <= i < |s| && AllDigits(s[start..i]) && IsDigit(s[i])
    ensures AllDigits(s[start..i + 1]) && Value(s[start..i + 1]) == 10 * Value(s[start..i]) + Undec(s[i])
  {
    var longer := s[start..i + 1];
    assert longer == s[start..i] + [s[i]];
    assert longer[..|longer| - 1] == s[start..i];
  }

  lemma NoDigits(s: string)
    requires s == []
    ensures DigitRun(s) == 0
  {
  }

  lemma SingleDigit(s: string, start: nat)
    requires start < |s| && IsDigit(s[start])
    ensures AllDigits(s[start..start + 1]) && Value(s[start..start + 1]) == Undec(s[start])
  {
    var digit := s[start..start + 1];
    assert digit[..0] == [];
  }

  /** Reads the digits from start on; c is the last character looked at. */
  method ScanDigits(s: string, start: nat) returns (n: nat, i: nat, c: char)
    requires start < |s| && IsDigit(s[start])
    ensures i == start + DigitRun(s[start..]) && start < i <= |s|
    ensures AllDigits(s[start..i]) && n == Value(s[start..i])
    ensures c == if i < |s| then s[i] else s[|s| - 1]
  {
    hide DigitRun, Value, AllDigits;
    i, c := start + 1, s[start];
    n := Undec(c);
    DigitRunStep(s, start);
    SingleDigit(s, start);
    while i < |s|
      invariant start < i <= |s|
      invariant c == s[i - 1]
      invariant i + DigitRun(s[i..]) == start + DigitRun(s[start..])
      invariant AllDigits(s[start..i]) && n == Value(s[start..i])
    {
      DigitRunStep(s, i);
      c := s[i];
      if !IsDigit(c) {
        return;
      }
      ValueStep(s, start, i);
      n := n * 10 + Undec(c);
      i := i + 1;
    }
    NoDigits(s[i..]);
  }

  method ScanLetters(s: string, start: nat) returns (i: nat)
    requires start <= |s|
    ensures i == start + LetterRun(s[start..]) <= |s|
  {
    i := start;
    while i < |s| && IsLetter(s[i])
      invariant start <= i <= |s|
      invariant i + LetterRun(s[i..]) == start + LetterRun(s[start..])
    {
      i := i + 1;
      assert s[i - 1..][1..] == s[i..];
    }
  }

  method FindKeyword(s: string, off: nat, count: nat) returns (k: Option<nat>)
    requires off + count <= |s|
    ensures k == LastKeyword(s[off..off + count], |KEYWORDS|)
  {
    hide KEYWORDS, Abbreviates;
    var j: nat := |KEYWORDS|;
    while j > 0
      invariant j <= |KEYWORDS|
      invariant LastKeyword(s[off..off + count], j) == LastKeyword(s[off..off + count], |KEYWORDS|)
    {
      j := j - 1;
      var matches := RegionMatches(KEYWORDS[j].0, s, off, count);
      if matches {
        return Some(j);
      }
    }
    k := None;
  }

  /** The rest of the scan, once part of the text has been read. */
  ghost function Resume(st: Option<State>, rest: string): Option<State> {
    match st
    case None => None
    case Some(st) => Scan(rest, st)
  }

  method NumberAt(s: string, start: nat, st: State) returns (i: nat, next: Option<State>)
    requires start < |s| && IsDigit(s[start])
    ensures start < i <= |s| && Scan(s[start..], st) == Resume(next, s[i..])
  {
    hide Value, ReadNumber, DigitRun;
    var n, c;
    n, i, c := ScanDigits(s, start);
    next := ReadNumber(st, n, c, i == |s|);
    ghost var here := s[start..];
    assert here[..i - start] == s[start..i] && here[i - start..] == s[i..];
  }

  method WordAt(s: string, start: nat, st: State) returns (i: nat, next: Option<State>)
    requires start < |s|
    requires var c := s[start];
             !IsBlank(c) && !IsDigit(c) && c != '-' && c != '(' && c != '/' && c != ':' && c != '+'
    ensures start < i <= |s| && Scan(s[start..], st) == Resume(next, s[i..])
  {
    hide KEYWORDS, LastKeyword, LetterRun, DoAction, ReadDigits, DigitRun, CommentRun;
    ghost var here := s[start..];
    assert here[1..] == s[start + 1..];
    i := ScanLetters(s, start + 1);
    assert here[..i - start] == s[start..i] && here[i - start..] == s[i..];
    if i == start + 1 {
      return i, None;
    }
    var k := FindKeyword(s, start, i - start);
    assert s[start..start + (i - start)] == s[start..i];
    next := if k.None? then None else DoAction(st, KEYWORDS[k.value].1);
  }

  method ParseString(s: string, utc: int -> int) returns (r: Option<int>)
    ensures r == Parse(s, utc)
  {
    hide Finish, ReadDigits, ReadWord, DigitRun, LetterRun, CommentRun, KEYWORDS;
    if |s| == 0 {
      return None;
    }
    var i: nat, st := 0, START;
    while i < |s|
      invariant i <= |s|
      invariant Scan(s[i..], st) == Scan(s, START)
    {
      var c := s[i];
      ghost var here := s[i..];
      assert here[1..] == s[i + 1..];
      if IsBlank(c) || c == '-' {
        i := i + 1;
        if c == '-' && i < |s| && IsDigit(s[i]) {
          st := st.(prevc := c);
        }
      } else if c == '(' {
        i := SkipComment(s, i + 1);
        assert here[1..][CommentRun(here[1..], 1)..] == s[i..];
      } else if c == '/' || c == ':' || c == '+' {
        i := i + 1;
        st := st.(prevc := c);
      } else {
        var next;
        if IsDigit(c) {
          i, next := NumberAt(s, i, st);
        } else {
          i, next := WordAt(s, i, st);
        }
        if next.None? {
          return None;
        }
        st := next.value;
      }
    }
    r := Finish(st, utc);
  }
}
