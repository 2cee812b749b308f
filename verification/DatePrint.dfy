/**
 Printing dates (jsdate.c, date_toGMTString and date_format), and reading the printed text back.
 */
module DatePrint {
  import opened ArrayIndex
  import opened DateMath
  import opened DateText
  import opened Wrappers

  const DAYS := ["Sun", "Mon", "Tue", "Wed", "Thu", "Fri", "Sat"]
  const MONTHS := ["Jan", "Feb", "Mar", "Apr", "May", "Jun", "Jul", "Aug", "Sep", "Oct", "Nov", "Dec"]

  // ---- the names are keywords --------------------------------------------------------------------------

  predicate Begins(word: string, keyword: string)
    requires |word| == 3
  {
    && |keyword| >= 3
    && ToLower(keyword[0]) == ToLower(word[0])
    && ToLower(keyword[1]) == ToLower(word[1])
    && ToLower(keyword[2]) == ToLower(word[2])
  }

  /** A three-letter word stands for the last keyword that begins with it. */
  lemma KeywordIs(word: string, k: nat)
    requires |word| == 3 && k < |KEYWORDS|
    requires Begins(word, KEYWORDS[k].0)
    requires forall j :: k < j < |KEYWORDS| ==> !Begins(word, KEYWORDS[j].0)
    ensures LastKeyword(word, |KEYWORDS|) == Some(k)
  {
    hide KEYWORDS;
    var r := LastKeyword(word, |KEYWORDS|);
    assert Abbreviates(word, KEYWORDS[k].0);
    assert r.Some? ==> Begins(word, KEYWORDS[r.value].0);
  }

  lemma DayHasNoEffect(d: int)
    requires 0 <= d < 7
    ensures |KEYWORDS| == 32 && KEYWORDS[if d == 0 then 8 else d + 1].1 == 0
  {
  }

  lemma DayIsNoOther(d: int, j: int)
    requires 0 <= d < 7 && (if d == 0 then 8 else d + 1) < j < |KEYWORDS|
    ensures !Begins(DAYS[d], KEYWORDS[j].0)
  {
    hide LastKeyword;
  }

  lemma DayIsKeyword(d: int)
    requires 0 <= d < 7
    ensures LastKeyword(DAYS[d], |KEYWORDS|) == Some(if d == 0 then 8 else d + 1)
  {
    var k := if d == 0 then 8 else d + 1;
    assert Begins(DAYS[d], KEYWORDS[k].0);
    forall j | k < j < |KEYWORDS|
      ensures !Begins(DAYS[d], KEYWORDS[j].0)
    {
      DayIsNoOther(d, j);
    }
    KeywordIs(DAYS[d], k);
  }

  lemma DayKeyword(d: int)
    requires 0 <= d < 7
    ensures exists k :: 0 <= k < |KEYWORDS| && LastKeyword(DAYS[d], |KEYWORDS|) == Some(k) && KEYWORDS[k].1 == 0
  {
    hide LastKeyword, KEYWORDS, DAYS;
    DayIsKeyword(d);
    DayHasNoEffect(d);
  }

  lemma MonthKeyword(m: int)
    requires 0 <= m < 12
    ensures LastKeyword(MONTHS[m], |KEYWORDS|) == Some(m + 9) && KEYWORDS[m + 9].1 == m + 2
  {
    KeywordIs(MONTHS[m], m + 9);
  }

  lemma GMTKeyword()
    ensures LastKeyword("GMT", |KEYWORDS|) == Some(21) && KEYWORDS[21].1 == 10000
  {
    KeywordIs("GMT", 21);
  }

  // ---- printed numbers ---------------------------------------------------------------------------------

  function Zeros(k: int): string {
    if k <= 0 then "" else "0" + Zeros(k - 1)
  }

  /** The conversion %.<prec>d of a number that is not negative. */
  function Padded(n: nat, prec: nat): string {
    Zeros(prec - |Decimal(n)|) + Decimal(n)
  }

  /** The conversion %.<prec>d. */
  function Precision(n: int, prec: nat): string {
    if n < 0 then "-" + Padded(-n, prec) else Padded(n, prec)
  }

  /** The conversion %+.<prec>d. */
  function SignedPrecision(n: int, prec: nat): string {
    if n < 0 then Precision(n, prec) else "+" + Precision(n, prec)
  }

  lemma {:induction false} LeadingZero(digits: string)
    requires AllDigits(digits)
    ensures AllDigits("0" + digits) && Value("0" + digits) == Value(digits)
  {
    var longer := "0" + digits;
    if digits == "" {
      assert longer[..0] == "";
    } else {
      LeadingZero(digits[..|digits| - 1]);
      assert longer[..|longer| - 1] == "0" + digits[..|digits| - 1];
    }
  }

  lemma {:induction false} ZerosAddNothing(k: int, digits: string)
    requires AllDigits(digits)
    ensures AllDigits(Zeros(k) + digits) && Value(Zeros(k) + digits) == Value(digits)
  {
    if k <= 0 {
      assert Zeros(k) + digits == digits;
    } else {
      ZerosAddNothing(k - 1, digits);
      LeadingZero(Zeros(k - 1) + digits);
      assert Zeros(k) + digits == "0" + (Zeros(k - 1) + digits);
    }
  }

  lemma {:induction false} PaddedIsRead(n: nat, prec: nat)
    ensures Padded(n, prec) != "" && AllDigits(Padded(n, prec)) && Value(Padded(n, prec)) == n
  {
    DecimalIsCanonical(n);
    ZerosAddNothing(prec - |Decimal(n)|, Decimal(n));
  }

  // ---- tokens ------------------------------------------------------------------------------------------

  /** What a printed date is made of. Raw is text at the end, of any kind. */
  datatype Token =
    | Blank(c: char)
    | Mark(c: char)
    | Minus
    | Word(word: string)
    | Number(digits: string)
    | Raw(text: string)

  datatype Tokens = End | Cons(head: Token, tail: Tokens)

  function Lexeme(token: Token): string {
    match token
    case Blank(c) => [c]
    case Mark(c) => [c]
    case Minus => "-"
    case Word(word) => word
    case Number(digits) => digits
    case Raw(text) => text
  }

  function Text(tokens: Tokens): string {
    match tokens
    case End => ""
    case Cons(token, rest) => Lexeme(token) + Text(rest)
  }

  /** The token is well formed and does not run into the text after it. */
  ghost predicate Separate(token: Token, rest: string) {
    match token
    case Blank(c) => IsBlank(c)
    case Mark(c) => c == '/' || c == ':' || c == '+'
    case Minus => true
    case Word(word) => |word| >= 2 && (forall k :: 0 <= k < |word| ==> IsLetter(word[k])) && !IsLetter(Front(rest))
    case Number(digits) => digits != "" && AllDigits(digits) && !IsDigit(Front(rest))
    case Raw(_) => rest == ""
  }

  ghost predicate Readable(tokens: Tokens) {
    match tokens
    case End => true
    case Cons(token, rest) => Separate(token, Text(rest)) && Readable(rest)
  }

  /** What reading the token does. */
  ghost function Effect(token: Token, rest: string, st: State): Option<State>
    requires Separate(token, rest)
  {
    match token
    case Blank(c) => Some(st)
    case Mark(c) => Some(st.(prevc := c))
    case Minus => Some(if IsDigit(Front(rest)) then st.(prevc := '-') else st)
    case Word(word) => ReadWord(st, word)
    case Number(digits) => ReadDigits(st, digits, rest)
    case Raw(text) => Scan(text, st)
  }

  ghost function Run(tokens: Tokens, st: State): Option<State>
    requires Readable(tokens)
  {
    match tokens
    case End => Some(st)
    case Cons(token, rest) =>
      match Effect(token, Text(rest), st)
      case None => None
      case Some(st') => Run(rest, st')
  }

  lemma {:induction false} LetterRunIs(s: string, n: nat)
    requires n <= |s| && (forall k :: 0 <= k < n ==> IsLetter(s[k])) && !IsLetter(Front(s[n..]))
    ensures LetterRun(s) == n
  {
    if n == 0 {
    } else {
      assert s[1..][n - 1..] == s[n..];
      LetterRunIs(s[1..], n - 1);
    }
  }

  lemma ScanReadsWord(word: string, rest: string, st: State)
    requires Separate(Word(word), rest)
    ensures Scan(word + rest, st) == Resume(ReadWord(st, word), rest)
  {
    hide ReadWord, LetterRun;
    var s := word + rest;
    var n := |word|;
    assert s[..n] == word && s[n..] == rest;
    assert IsLetter(s[0]);
    assert forall k :: 0 <= k < n - 1 ==> s[1..][k] == word[k + 1];
    LetterRunIs(s[1..], n - 1);
  }

  lemma {:induction false} DigitRunIs(s: string, n: nat)
    requires n <= |s| && (forall k :: 0 <= k < n ==> IsDigit(s[k])) && !IsDigit(Front(s[n..]))
    ensures DigitRun(s) == n
  {
    if n == 0 {
    } else {
      assert s[1..][n - 1..] == s[n..];
      DigitRunIs(s[1..], n - 1);
    }
  }

  lemma ScanReadsNumber(digits: string, rest: string, st: State)
    requires Separate(Number(digits), rest)
    ensures Scan(digits + rest, st) == Resume(ReadDigits(st, digits, rest), rest)
  {
    hide ReadDigits, DigitRun;
    var s := digits + rest;
    var n := |digits|;
    assert s[..n] == digits && s[n..] == rest;
    assert IsDigit(s[0]);
    DigitRunIs(s, n);
  }

  lemma ScanReadsToken(token: Token, rest: string, st: State)
    requires Separate(token, rest)
    ensures Scan(Lexeme(token) + rest, st) == Resume(Effect(token, rest, st), rest)
  {
    hide ReadWord, ReadDigits, LetterRun, DigitRun, CommentRun;
    var s := Lexeme(token) + rest;
    match token
    case Blank(c) =>
      assert s[1..] == rest;
    case Mark(c) =>
      assert s[1..] == rest;
    case Minus =>
      assert s[1..] == rest;
    case Word(word) =>
      ScanReadsWord(word, rest, st);
    case Number(digits) =>
      ScanReadsNumber(digits, rest, st);
    case Raw(text) =>
      assert s == text;
  }

  /** The scanner splits a text of separate tokens into just those tokens. */
  lemma {:induction false} ScanReadsTokens(tokens: Tokens, st: State)
    requires Readable(tokens)
    ensures Scan(Text(tokens), st) == Run(tokens, st)
  {
    hide ReadWord, ReadDigits;
    match tokens
    case End =>
    case Cons(token, rest) =>
      ScanReadsToken(token, Text(rest), st);
      match Effect(token, Text(rest), st)
      case None =>
      case Some(st') => ScanReadsTokens(rest, st');
  }

  // ---- the printed forms -------------------------------------------------------------------------------

  /** The fields of a broken-down time, as the printers take them from a time value. */
  datatype Fields = Fields(wday: int, mon: int, mday: int, year: int, hour: int, min: int, sec: int)
  {
    ghost predicate Valid() {
      && 0 <= wday < 7
      && 0 <= mon < 12
      && 1 <= mday <= 31
      && 0 <= hour < 24
      && 0 <= min < 60
      && 0 <= sec < 60
    }
  }

  function FieldsOf(t: int): Fields {
    Fields(WeekDay(t), MonthFromTime(t), DateFromTime(t), YearFromTime(t), HourFromTime(t), MinFromTime(t),
           SecFromTime(t))
  }

  /** "%.2d:%.2d:%.2d" */
  function FormatClock(f: Fields): string {
    Precision(f.hour, 2) + ":" + Precision(f.min, 2) + ":" + Precision(f.sec, 2)
  }

  /** "%s, %.2d %s %.4d %.2d:%.2d:%.2d GMT" */
  function FormatGMT(f: Fields): string
    requires 0 <= f.wday < 7 && 0 <= f.mon < 12
  {
    DAYS[f.wday] + ", " + Precision(f.mday, 2) + " " + MONTHS[f.mon] + " " + Precision(f.year, 4) + " "
    + FormatClock(f) + " GMT"
  }

  /** "%s %s %.2d %.4d %.2d:%.2d:%.2d GMT%+.4d%s%s" */
  function FormatFull(f: Fields, offset: int, space: string, zone: string): string
    requires 0 <= f.wday < 7 && 0 <= f.mon < 12
  {
    DAYS[f.wday] + " " + MONTHS[f.mon] + " " + Precision(f.mday, 2) + " " + Precision(f.year, 4) + " "
    + FormatClock(f) + " GMT" + SignedPrecision(offset, 4) + space + zone
  }

  function ToGMTString(t: int): string {
    FormatGMT(FieldsOf(t))
  }

  /** Whether the zone name the operating system gave is fit to print: tzbuf is all of "(%Z)". */
  predicate UseZone(tzbuf: string) {
    && |tzbuf| <= 100
    && (forall c :: c in tzbuf ==> IsLetter(c) || IsDigit(c) || c == ' ' || c == '(' || c == ')')
    && Front(tzbuf) == '('
    && (|tzbuf| > 1 ==> tzbuf[1] != ')')
  }

  /** C's division, which truncates toward zero. */
  function CQuotient(a: int, n: int): int
    requires n > 0
  {
    if a >= 0 then a / n else -(-a / n)
  }

  /** Maps 510 minutes to 0830 hours. */
  function ZoneOffset(minutes: int): int {
    CQuotient(minutes, 60) * 100 + CRemainder(minutes, 60)
  }

  /** The full form of date_format; adjust is AdjustTime(t), the difference of local time from UTC. */
  function ToFullString(t: int, adjust: int, tzbuf: string): string {
    var offset := ZoneOffset(adjust / MS_PER_MINUTE);
    var usetz := UseZone(tzbuf);
    FormatFull(FieldsOf(t + adjust), offset, if usetz then " " else "", if usetz then tzbuf else "")
  }

  // ---- the printed forms as tokens ---------------------------------------------------------------------

  function Spaced(token: Token, rest: Tokens): Tokens {
    Cons(token, Cons(Blank(' '), rest))
  }

  function YearTokens(year: int, rest: Tokens): Tokens {
    if year < 0 then Cons(Minus, Spaced(Number(Padded(-year, 4)), rest)) else Spaced(Number(Padded(year, 4)), rest)
  }

  function ClockTokens(f: Fields, rest: Tokens): Tokens
    requires f.hour >= 0 && f.min >= 0 && f.sec >= 0
  {
    Cons(Number(Padded(f.hour, 2)), Cons(Mark(':'), Cons(Number(Padded(f.min, 2)), Cons(Mark(':'),
      Spaced(Number(Padded(f.sec, 2)), rest)))))
  }

  function TimeTokens(f: Fields, rest: Tokens): Tokens
    requires f.hour >= 0 && f.min >= 0 && f.sec >= 0
  {
    YearTokens(f.year, ClockTokens(f, Cons(Word("GMT"), rest)))
  }

  ghost function GMTTokens(f: Fields): Tokens
    requires f.Valid()
  {
    Cons(Word(DAYS[f.wday]), Cons(Blank(','), Cons(Blank(' '), Spaced(Number(Padded(f.mday, 2)),
      Spaced(Word(MONTHS[f.mon]), TimeTokens(f, End))))))
  }

  function ZoneTokens(offset: int, zone: Tokens): Tokens {
    if offset < 0 then Cons(Minus, Cons(Number(Padded(-offset, 4)), zone))
    else Cons(Mark('+'), Cons(Number(Padded(offset, 4)), zone))
  }

  ghost function FullTokens(f: Fields, offset: int, tzbuf: string): Tokens
    requires f.Valid()
  {
    var zone := if UseZone(tzbuf) then Cons(Blank(' '), Cons(Raw(tzbuf), End)) else End;
    Spaced(Word(DAYS[f.wday]), Spaced(Word(MONTHS[f.mon]), Spaced(Number(Padded(f.mday, 2)),
      TimeTokens(f, ZoneTokens(offset, zone)))))
  }

  lemma TextOfNumber(digits: string, rest: Tokens)
    ensures Text(Spaced(Number(digits), rest)) == digits + (" " + Text(rest))
  {
  }

  lemma TextOfYear(year: int, rest: Tokens)
    ensures Text(YearTokens(year, rest)) == Precision(year, 4) + (" " + Text(rest))
  {
    hide Padded;
    var digits := Padded(if year < 0 then -year else year, 4);
    TextOfNumber(digits, rest);
    if year < 0 {
      assert Text(YearTokens(year, rest)) == "-" + (digits + (" " + Text(rest)));
    }
  }

  lemma TextOfClock(f: Fields, rest: Tokens)
    requires f.Valid()
    ensures Text(ClockTokens(f, rest)) == FormatClock(f) + " " + Text(rest)
  {
    hide Padded;
    var (h, m, s) := (Padded(f.hour, 2), Padded(f.min, 2), Padded(f.sec, 2));
    var seconds := Spaced(Number(s), rest);
    TextOfNumber(s, rest);
    var minutes := Cons(Number(m), Cons(Mark(':'), seconds));
    assert Text(minutes) == m + (":" + Text(seconds));
    assert Text(ClockTokens(f, rest)) == h + (":" + Text(minutes));
  }

  lemma TextOfTime(f: Fields, rest: Tokens)
    requires f.Valid()
    ensures Text(TimeTokens(f, rest)) == Precision(f.year, 4) + " " + FormatClock(f) + " GMT" + Text(rest)
  {
    hide Padded;
    TextOfClock(f, Cons(Word("GMT"), rest));
    var tail := ClockTokens(f, Cons(Word("GMT"), rest));
    hide ClockTokens, FormatClock;
    TextOfYear(f.year, tail);
  }

  lemma PrecisionOf(n: nat, prec: nat)
    ensures Precision(n, prec) == Padded(n, prec)
  {
  }

  lemma JoinGMT(day: string, date: string, month: string, year: string, clock: string)
    ensures day + ("," + (" " + (date + (" " + (month + (" " + (year + " " + clock + " GMT")))))))
         == day + ", " + date + " " + month + " " + year + " " + clock + " GMT"
  {
  }

  lemma TextOfGMT(f: Fields)
    requires f.Valid()
    ensures Text(GMTTokens(f)) == FormatGMT(f)
  {
    hide Precision, FormatClock, TimeTokens, Padded;
    TextOfTime(f, End);
    var date := Precision(f.mday, 2);
    assert date == Padded(f.mday, 2) by {
      PrecisionOf(f.mday, 2);
    }
    var time := TimeTokens(f, End);
    var month := Spaced(Word(MONTHS[f.mon]), time);
    assert Text(month) == MONTHS[f.mon] + (" " + Text(time));
    var day := Spaced(Number(date), month);
    assert Text(day) == date + (" " + Text(month));
    assert Text(Cons(Blank(' '), day)) == " " + Text(day);
    assert Text(GMTTokens(f)) == DAYS[f.wday] + ("," + (" " + Text(day)));
    JoinGMT(DAYS[f.wday], date, MONTHS[f.mon], Precision(f.year, 4), FormatClock(f));
  }

  lemma TextOfZone(offset: int, zone: Tokens)
    ensures Text(ZoneTokens(offset, zone)) == SignedPrecision(offset, 4) + Text(zone)
  {
    hide Padded;
  }

  lemma JoinFull(day: string, date: string, month: string, year: string, clock: string, offset: string,
                 space: string, zone: string)
    ensures day + (" " + (month + (" " + (date + (" " + (year + " " + clock + " GMT" + (offset + (space + zone))))))))
         == day + " " + month + " " + date + " " + year + " " + clock + " GMT" + offset + space + zone
  {
  }

  lemma TextOfFull(f: Fields, offset: int, tzbuf: string)
    requires f.Valid()
    ensures Text(FullTokens(f, offset, tzbuf))
         == FormatFull(f, offset, if UseZone(tzbuf) then " " else "", if UseZone(tzbuf) then tzbuf else "")
  {
    hide Precision, SignedPrecision, FormatClock, TimeTokens, ZoneTokens, Padded, UseZone;
    var zone := if UseZone(tzbuf) then Cons(Blank(' '), Cons(Raw(tzbuf), End)) else End;
    var (space, comment) := if UseZone(tzbuf) then (" ", tzbuf) else ("", "");
    assert Text(zone) == space + comment by {
      assert Text(Cons(Raw(tzbuf), End)) == tzbuf;
    }
    var tail := ZoneTokens(offset, zone);
    TextOfZone(offset, zone);
    TextOfTime(f, tail);
    var date := Precision(f.mday, 2);
    PrecisionOf(f.mday, 2);
    var time := TimeTokens(f, tail);
    var day := Spaced(Number(date), time);
    assert Text(day) == date + (" " + Text(time));
    var month := Spaced(Word(MONTHS[f.mon]), day);
    assert Text(month) == MONTHS[f.mon] + (" " + Text(day));
    assert Text(FullTokens(f, offset, tzbuf)) == DAYS[f.wday] + (" " + Text(month));
    JoinFull(DAYS[f.wday], date, MONTHS[f.mon], Precision(f.year, 4), FormatClock(f), SignedPrecision(offset, 4),
             space, comment);
  }
}
