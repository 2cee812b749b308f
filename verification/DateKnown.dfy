/**
 What is known of dates apart from the code (jsdate.c): the epoch, the leap years of the Gregorian calendar, the
 weekdays, some dates as they are printed, and texts that are no dates.
 */
module DateKnown {
  import opened ArrayIndex
  import opened DateForms
  import opened DateMath
  import opened DatePrint
  import opened DateRoundTrip
  import opened DateText
  import opened DateZones
  import opened Wrappers

  // ---- the calendar ------------------------------------------------------------------------------------

  /** Time starts with 1970. */
  lemma Epoch()
    ensures TimeFromYear(1970) == 0
  {
  }

  lemma FourTimes(year: int, n: int)
    requires n == 25 || n == 100
    ensures (4 * year) % (4 * n) == 4 * (year % n)
  {
    RemainderIs(4 * year, 4 * n, year / n, 4 * (year % n));
  }

  /** Every fourth year is a leap year, but of the full centuries only every fourth. */
  lemma LeapYears(year: int)
    ensures DaysInYear(4 * year) == 366 <==> year % 25 != 0 || year % 100 == 0
    ensures DaysInYear(4 * year + 1) == DaysInYear(4 * year + 2) == DaysInYear(4 * year + 3) == 365
  {
    FourTimes(year, 25);
    FourTimes(year, 100);
    RemainderIs(4 * year, 4, year, 0);
    RemainderIs(4 * year + 1, 4, year, 1);
    RemainderIs(4 * year + 2, 4, year, 2);
    RemainderIs(4 * year + 3, 4, year, 3);
  }

  /** The first day was a Thursday, each day is followed by the next weekday, and a day has 24 hours of 3600 seconds. */
  lemma WeekdaysFollow(t: int)
    ensures 0 <= t < 24 * 3600 * 1000 ==> WeekDay(t) == 4
    ensures WeekDay(t + 24 * 3600 * 1000) == if WeekDay(t) == 6 then 0 else WeekDay(t) + 1
    ensures t % (24 * 3600 * 1000) != 0 ==> WeekDay(t) == WeekDay(t - 1)
  {
    hide Modulo;
    var d := Day(t);
    assert Day(t + 24 * 3600 * 1000) == d + 1;
    assert t % (24 * 3600 * 1000) != 0 ==> Day(t - 1) == d;
    assert (d + 4 + 1) % 7 == if (d + 4) % 7 == 6 then 0 else (d + 4) % 7 + 1;
  }

  /** 29 February 2000, 12:34:56.789; and 31 December 1969, a second before midnight. */
  lemma KnownTimes()
    ensures MakeDate(MakeDay(2000, 1, 29), MakeTime(12, 34, 56, 789)) == 951827696789
    ensures MakeDate(MakeDay(1969, 11, 31), MakeTime(23, 59, 59, 0)) == -1000
  {
  }

  /** Times of which the operating system knows are asked about as they are. */
  lemma InRangeIsAsked(t: int)
    ensures 0 <= t <= 2145916800000 ==> DSTQuery(t) == t
    ensures 2145916800000 == TimeFromYear(2038)
  {
  }

  /** Local time is ahead by the zone and the daylight saving, as long as that is less than a day. */
  lemma AdjustIsSum(localTZA: int, dst: int)
    ensures -86400000 < localTZA + dst < 86400000 ==> AdjustTime(localTZA, dst) == localTZA + dst
  {
  }

  // ---- printed dates -----------------------------------------------------------------------------------

  /** A zone name is printed if it is made of letters, digits, blanks and parentheses, is not too long and not empty. */
  lemma ZoneIsPrinted(name: string)
    ensures UseZone("(" + name + ")") <==>
              && 0 < |name| <= 98
              && name[0] != ')'
              && forall i :: 0 <= i < |name| ==>
                   'A' <= name[i] <= 'Z' || 'a' <= name[i] <= 'z' || '0' <= name[i] <= '9' || name[i] in " ()"
  {
    var text := "(" + name + ")";
    assert |text| == |name| + 2 && text[0] == '(' && text[|text| - 1] == ')';
    assert forall i :: 0 <= i < |name| ==> text[i + 1] == name[i];
    assert forall i :: 0 < i < |text| - 1 ==> text[i] == name[i - 1];
    if UseZone(text) {
      forall i | 0 <= i < |name|
        ensures IsLetter(name[i]) || IsDigit(name[i]) || name[i] == ' ' || name[i] == '(' || name[i] == ')'
      {
        assert text[i + 1] in text;
      }
    }
  }

  lemma ZerosMore(k: int)
    requires k > 0
    ensures Zeros(k) == Zeros(k - 1) + "0"
  {
    if k > 1 {
      ZerosMore(k - 1);
    }
  }

  lemma PaddedEnds(n: nat, prec: nat)
    requires prec >= 2
    ensures Padded(n, prec) == Padded(n / 10, prec - 1) + [Digit(n % 10)]
  {
    if n < 10 {
      OneDigit(n);
      OneDigit(0);
      hide Decimal;
      ZerosMore(prec - 1);
    } else {
      DecimalEnds(n / 10, n % 10);
    }
  }

  lemma PaddedOne(n: nat)
    requires n < 10
    ensures Padded(n, 1) == [Digit(n)]
  {
    OneDigit(n);
    assert Zeros(0) == "";
  }

  lemma PaddedTwo(n: nat)
    requires n < 100
    ensures Precision(n, 2) == [Digit(n / 10), Digit(n % 10)]
  {
    hide Padded;
    PaddedEnds(n, 2);
    PaddedOne(n / 10);
  }

  lemma TenByTen(n: nat)
    ensures n / 10 / 10 == n / 100 && n / 100 / 10 == n / 1000
  {
  }

  lemma PaddedFour(n: nat)
    requires n < 10000
    ensures Padded(n, 4) == [Digit(n / 1000), Digit(n / 100 % 10), Digit(n / 10 % 10), Digit(n % 10)]
  {
    hide Padded, Digit;
    TenByTen(n);
    PaddedEnds(n, 4);
    PaddedEnds(n / 10, 3);
    PaddedEnds(n / 100, 2);
    PaddedOne(n / 1000);
  }

  lemma FieldsOfDate(year: int, month: int, date: int, hour: int)
    requires IsDate(year, month, date) && 0 <= hour < 24
    ensures var t := MakeDate(MakeDay(year, month, date), MakeTime(hour, 0, 0, 0));
            FieldsOf(t) == Fields(WeekDay(t), month, date, year, hour, 0, 0)
  {
    var day := MakeDay(year, month, date);
    var time := MakeTime(hour, 0, 0, 0);
    DecomposeComposed(year, month, date, time);
    TimeOfDayRecovered(day, hour, 0, 0, 0);
    hide YearFromTime, MonthFromTime, DateFromTime, WeekDay, HourFromTime, MinFromTime, SecFromTime, MakeDay;
  }

  lemma EpochYears()
    ensures DayFromYear(1970) == 0 && DayFromYear(1969) == -365 && DaysInYear(1970) == DaysInYear(1969) == 365
    ensures DayFromMonth(0, false) == 0 && DayFromMonth(11, false) == 334
  {
  }

  lemma EpochDays()
    ensures MakeDay(1970, 0, 1) == 0 && MakeDay(1969, 11, 31) == -1
  {
    hide DayFromYear, DaysInYear, DayFromMonth, MakeDay;
    EpochYears();
    MakeDayOfValid(1970, 0, 1);
    MakeDayOfValid(1969, 11, 31);
  }

  lemma EpochTimes()
    ensures MakeDate(0, MakeTime(0, 0, 0, 0)) == 0 && MakeDate(-1, MakeTime(16, 0, 0, 0)) == -28800000
    ensures IsDate(1970, 0, 1) && IsDate(1969, 11, 31)
  {
  }

  lemma EpochWeekdays()
    ensures WeekDay(0) == 4 && WeekDay(-28800000) == 3
  {
    hide Modulo;
    assert Day(0) == 0 && Day(-28800000) == -1;
  }

  lemma EpochFields()
    ensures FieldsOf(0) == Fields(4, 0, 1, 1970, 0, 0, 0)
    ensures FieldsOf(-28800000) == Fields(3, 11, 31, 1969, 16, 0, 0)
  {
    hide FieldsOf, MakeDay, WeekDay, MakeDate, MakeTime, IsDate;
    EpochDays();
    EpochTimes();
    EpochWeekdays();
    FieldsOfDate(1970, 0, 1, 0);
    FieldsOfDate(1969, 11, 31, 16);
  }

  lemma Year(n: nat)
    requires n < 10000
    ensures Precision(n, 4) == [Digit(n / 1000), Digit(n / 100 % 10), Digit(n / 10 % 10), Digit(n % 10)]
    ensures n > 0 ==> SignedPrecision(-(n as int), 4) == "-" + Precision(n, 4)
  {
    hide Padded;
    PaddedFour(n);
  }

  /** The epoch in Greenwich. */
  lemma PrintedEpoch()
    ensures ToGMTString(0) == "Thu, 01 Jan 1970 00:00:00 GMT"
  {
    hide Padded, FieldsOf, Precision;
    EpochFields();
    PaddedTwo(1);
    PaddedTwo(0);
    Year(1970);
    assert Precision(1, 2) == "01" && Precision(0, 2) == "00" && Precision(1970, 4) == "1970";
    assert FormatClock(FieldsOf(0)) == "00:00:00";
    hide FormatClock;
    assert "Thu" + ", " + "01" + " " + "Jan" + " " + "1970" + " " == "Thu, 01 Jan 1970 ";
  }

  lemma WestParts()
    ensures FormatClock(Fields(3, 11, 31, 1969, 16, 0, 0)) == "16:00:00"
    ensures Precision(31, 2) == "31" && Precision(1969, 4) == "1969" && SignedPrecision(-800, 4) == "-0800"
  {
    hide Padded, Precision, SignedPrecision;
    PaddedTwo(31);
    PaddedTwo(16);
    PaddedTwo(0);
    Year(1969);
    Year(800);
    assert Precision(16, 2) == "16" && Precision(0, 2) == "00" && Precision(800, 4) == "0800";
  }

  lemma JoinWest(clock: string)
    ensures "Wed" + " " + "Dec" + " " + "31" + " " + "1969" + " " + clock + " GMT" + "-0800" + " " + "(PST)"
         == "Wed Dec 31 1969 " + clock + " GMT-0800 (PST)"
  {
    assert "Wed" + " " + "Dec" + " " + "31" + " " + "1969" + " " == "Wed Dec 31 1969 ";
    assert " GMT" + ("-0800" + (" " + "(PST)")) == " GMT-0800 (PST)";
  }

  lemma WestOffset()
    ensures ZoneOffset(-480) == -800 && UseZone("(PST)")
  {
    ZoneIsPrinted("PST");
    assert "(" + "PST" + ")" == "(PST)";
  }

  /** The same moment eight hours to the west. */
  lemma PrintedWest()
    ensures ToFullString(0, -28800000, "(PST)") == "Wed Dec 31 1969 " + "16:00:00" + " GMT-0800 (PST)"
  {
    hide Padded, FieldsOf, UseZone, ZoneOffset, Precision, SignedPrecision, FormatClock;
    EpochFields();
    WestOffset();
    WestParts();
    JoinWest("16:00:00");
  }

  // ---- dates with slashes ------------------------------------------------------------------------------

  /** The cases of the comment in date_parseString, one by one. */
  lemma SlashCases(f: nat, m: nat, l: nat)
    ensures f < 70 && l < 100 ==> SlashDate(f, m, l) == Some(Date(1900 + l, f, m))
    ensures f < 70 && l >= 100 ==> SlashDate(f, m, l) == Some(Date(l, f, m))
    ensures 70 <= f < 100 && m < 70 ==> SlashDate(f, m, l) == Some(Date(1900 + f, m, l))
    ensures f >= 100 && m < 70 ==> SlashDate(f, m, l) == Some(Date(f, m, l))
    ensures f >= 70 && m >= 70 ==> SlashDate(f, m, l) == None
  {
  }

  /** With the month by name, the greater number is the year, from 70 on, and the other the day, below 70. */
  lemma NamedCases(f: nat, month: nat, l: nat)
    ensures f >= 100 && l < 70 ==> NamedDate(f, month, l) == NamedDate(l, month, f) == Some(Date(f, month + 1, l))
    ensures 70 <= f < 100 && l < 70 ==>
              NamedDate(f, month, l) == NamedDate(l, month, f) == Some(Date(1900 + f, month + 1, l))
    ensures (f >= 70 && l >= 70) || (f < 70 && l < 70) ==> NamedDate(f, month, l) == None
  {
  }

  /** Every hour of the day, written as a clock with AM and PM shows it, is read as that hour; above 12 none is. */
  lemma ClockHours(h: nat, pm: bool)
    ensures h < 24 ==> HourOfDay(if h % 12 == 0 then 12 else h % 12, h >= 12) == Some(h)
    ensures h < 12 ==> HourOfDay(h, pm) == Some(if pm then h + 12 else h)
    ensures HourOfDay(h, pm) == None <==> h > 12
  {
  }

  // ---- texts that are no dates -------------------------------------------------------------------------

  /** Blanks and control characters, commas, and hyphens that no digit follows, mean nothing. */
  lemma Separators(c: char, s: string, st: State)
    requires c <= ' ' || c == ',' || (c == '-' && (s == "" || !('0' <= s[0] <= '9')))
    ensures Scan([c] + s, st) == Scan(s, st)
  {
    assert ([c] + s)[1..] == s;
  }

  lemma Refused(tokens: Tokens, utc: int -> int)
    requires Readable(tokens) && Run(tokens, START) == None
    ensures Parse(Text(tokens), utc) == None
  {
    ScanReadsTokens(tokens, START);
  }

  /** A number and a colon. */
  function Colon(n: nat, rest: Tokens): Tokens {
    Cons(Number(Padded(n, 1)), Cons(Mark(':'), rest))
  }

  lemma TextOfColon(n: nat, rest: Tokens)
    ensures Text(Colon(n, rest)) == Padded(n, 1) + ":" + Text(rest)
  {
    hide Padded;
    assert Text(Cons(Mark(':'), rest)) == ":" + Text(rest);
  }

  lemma ThirdColon(n: nat, st: State)
    requires st.hour >= 0 && st.min >= 0 && st.prevc == ':'
    ensures Readable(Colon(n, End)) && Run(Colon(n, End), st) == None
  {
    hide Padded;
    var last := Cons(Mark(':'), End);
    assert Readable(End) && Text(End) == "";
    assert Readable(last) && Text(last) == ":";
    var _ := RunNumber(n, 1, last, st);
  }

  /** A clock has at most three numbers. */
  lemma FourthClockNumber(h: nat, m: nat, s: nat, utc: int -> int)
    ensures Parse(Padded(h, 1) + ":" + (Padded(m, 1) + ":" + (Padded(s, 1) + ":")), utc) == None
  {
    hide Padded, Text, Run, Readable;
    var st := START.(hour := h, prevc := ':');
    var seconds, minutes := Colon(s, End), Colon(m, Colon(s, End));
    ThirdColon(s, st.(min := m));
    RunToColon(m, 1, seconds, st);
    RunToColon(h, 1, minutes, START);
    TextOfColon(s, End);
    TextOfColon(m, seconds);
    TextOfColon(h, minutes);
    assert Text(End) == "" by {
      EndIsReadable();
    }
    assert Padded(s, 1) + ":" + "" == Padded(s, 1) + ":";
    Refused(Colon(h, minutes), utc);
  }

  /** There is one month. */
  lemma SecondMonth(m: nat, n: nat, utc: int -> int)
    requires m < 12 && n < 12
    ensures Parse(MONTHS[m] + " " + MONTHS[n], utc) == None
  {
    hide KEYWORDS;
    assert Readable(End) && Text(End) == "";
    var second := Cons(Word(MONTHS[n]), End);
    var st := START.(mon := m + 1, seenmonthname := true);
    assert Readable(second) && Run(second, st) == None && Text(second) == MONTHS[n] by {
      MonthKeyword(n);
      RunWord(MONTHS[n], n + 2, End, st);
    }
    RunMonthName(m, second, START);
    var first := Spaced(Word(MONTHS[m]), second);
    assert Text(first) == MONTHS[m] + (" " + MONTHS[n]);
    assert MONTHS[m] + (" " + MONTHS[n]) == MONTHS[m] + " " + MONTHS[n];
    hide Readable, Run, Text;
    Refused(first, utc);
  }

  /** A word must be a keyword, or the beginning of one. */
  lemma UnknownWord(word: string, utc: int -> int)
    requires |word| >= 2 && forall k :: 0 <= k < |word| ==> IsLetter(word[k])
    requires forall k :: 0 <= k < |KEYWORDS| ==> !Abbreviates(word, KEYWORDS[k].0)
    ensures Parse(word, utc) == None
  {
    hide KEYWORDS;
    var tokens := Cons(Word(word), End);
    assert LastKeyword(word, |KEYWORDS|) == None;
    assert Text(End) == "" && Text(tokens) == word + "" == word;
    Refused(tokens, utc);
  }

  /** The numbers read so far, each -1 as long as there is none. */
  function Slots(st: State): seq<int> {
    [st.hour, st.min, st.sec, st.mon, st.mday, st.year]
  }

  /** A number is an offset, or finds its place empty: nothing that has been read is overwritten. */
  lemma NumbersFillSlots(st: State, n: nat, c: char, atEnd: bool)
    requires ReadNumber(st, n, c, atEnd).Some?
    ensures var slots := Slots(ReadNumber(st, n, c, atEnd).value);
            slots == Slots(st) || exists i :: 0 <= i < 6 && Slots(st)[i] < 0 && slots == Slots(st)[i := n]
  {
    var slots := Slots(ReadNumber(st, n, c, atEnd).value);
    if slots != Slots(st) {
      var i := if slots[0] != st.hour then 0 else if slots[1] != st.min then 1 else if slots[2] != st.sec then 2
               else if slots[3] != st.mon then 3 else if slots[4] != st.mday then 4 else 5;
      assert Slots(st)[i] < 0 && slots == Slots(st)[i := n];
    }
  }

  /** A number that is no offset must be kept apart from what comes next. */
  lemma GluedNumber(digits: string, c: char, rest: string, st: State)
    requires digits != "" && AllDigits(digits) && st.prevc != '+' && st.prevc != '-'
    requires c > ' ' && !IsDigit(c) && c !in ",-(:/"
    ensures Scan(digits + ([c] + rest), st) == None
  {
    ScanReadsNumber(digits, [c] + rest, st);
  }

  lemma AlikeToNumbers(st: State, n: nat, c: char)
    requires c == ',' || (st.prevc != '/' && (c == '(' || c == '-'))
    ensures ReadNumber(st, n, c, false) == ReadNumber(st, n, ' ', false)
  {
  }

  lemma BlankIsSkipped(rest: string)
    ensures forall st :: Scan(" " + rest, st) == Scan(rest, st)
  {
    assert (" " + rest)[1..] == rest;
  }

  lemma LikeABlank(digits: string, s: string, rest: string, st: State)
    requires digits != "" && AllDigits(digits) && s != "" && forall st' :: Scan(s, st') == Scan(rest, st')
    requires s[0] == ',' || (st.prevc != '/' && (s[0] == '(' || s[0] == '-'))
    ensures Scan(digits + s, st) == Scan(digits + (" " + rest), st)
  {
    hide Scan, AllDigits, Value, ReadNumber;
    ScanReadsNumber(digits, s, st);
    ScanReadsNumber(digits, " " + rest, st);
    AlikeToNumbers(st, Value(digits), s[0]);
    BlankIsSkipped(rest);
  }

  lemma CommaIsSkipped(rest: string)
    ensures forall st :: Scan("," + rest, st) == Scan(rest, st)
  {
    assert ("," + rest)[1..] == rest;
  }

  lemma HyphenIsSkipped(rest: string)
    requires !IsDigit(Front(rest))
    ensures forall st :: Scan("-" + rest, st) == Scan(rest, st)
  {
    assert ("-" + rest)[1..] == rest;
  }

  /** A comma keeps it apart as a blank does, and so does a comment or a hyphen, but for the year after two slashes. */
  lemma NumberBeforeSeparator(digits: string, name: string, rest: string, st: State)
    requires digits != "" && AllDigits(digits) && '(' !in name && ')' !in name
    ensures Scan(digits + ("," + rest), st) == Scan(digits + (" " + rest), st)
    ensures st.prevc != '/' ==> Scan(digits + ("(" + (name + (")" + rest))), st) == Scan(digits + (" " + rest), st)
    ensures st.prevc != '/' && !IsDigit(Front(rest)) ==>
              Scan(digits + ("-" + rest), st) == Scan(digits + (" " + rest), st)
  {
    hide Scan, AllDigits;
    CommaIsSkipped(rest);
    LikeABlank(digits, "," + rest, rest, st);
    if st.prevc != '/' {
      CommentIsSkipped(name, rest);
      LikeABlank(digits, "(" + (name + (")" + rest)), rest, st);
      if !IsDigit(Front(rest)) {
        HyphenIsSkipped(rest);
        LikeABlank(digits, "-" + rest, rest, st);
      }
    }
  }

  /** A number after two slashes is the year, if a blank, a comma, another slash or the end follows. */
  lemma YearAfterSlashes(digits: string, rest: string, st: State)
    requires digits != "" && AllDigits(digits) && !IsDigit(Front(rest))
    requires st.prevc == '/' && st.mon >= 0 && st.mday >= 0 && st.year < 0
    ensures Scan(digits + rest, st)
         == if rest == "" || rest[0] <= ' ' || rest[0] == ',' || rest[0] == '/'
            then Scan(rest, st.(year := Value(digits), prevc := NUL)) else None
  {
    hide Scan, AllDigits, Value;
    ScanReadsNumber(digits, rest, st);
  }

  /** A zone that has an offset takes no other. */
  lemma SecondOffset(f: Fields, i: nat, n: nat, utc: int -> int)
    requires f.Valid() && f.year >= 0 && i < 8
    ensures Parse(FormatZoned(f, ZONES[i].0 + "+" + Padded(n, 4)), utc) == None
  {
    hide KEYWORDS, Padded, LastKeyword, ZONES, FormatZoned, ZonedTokens, BeforeZone;
    ZoneIsKeyword(i);
    ZoneKeyword(i);
    var zone := ZONES[i].0;
    assert Readable(End) && Text(End) == "";
    var number := Cons(Number(Padded(n, 4)), End);
    var st := BeforeZone(f).(tzoffset := 60 * ZONES[i].1, prevc := '+');
    assert Readable(number) && Run(number, st) == None && Text(number) == Padded(n, 4) by {
      var _ := RunNumber(n, 4, End, st);
      assert Padded(n, 4) + "" == Padded(n, 4);
    }
    var offset := Cons(Mark('+'), number);
    assert Readable(offset) && Run(offset, st.(prevc := NUL)) == None && Text(offset) == "+" + Padded(n, 4);
    var tokens := Cons(Word(zone), offset);
    RunWord(zone, 10000 + 60 * ZONES[i].1, offset, BeforeZone(f));
    assert Text(tokens) == zone + ("+" + Padded(n, 4));
    assert zone + ("+" + Padded(n, 4)) == zone + "+" + Padded(n, 4);
    hide Readable, Run, Text;
    TextOfZoned(f, tokens);
    RunZoned(f, tokens);
    Refused(ZonedTokens(f, tokens), utc);
  }

  // ---- comments ----------------------------------------------------------------------------------------

  lemma {:induction false} CommentGoesOn(name: string, rest: string, depth: int)
    requires '(' !in name && ')' !in name
    ensures CommentRun(name + rest, depth) == |name| + CommentRun(rest, depth)
  {
    if name == "" {
      assert name + rest == rest;
    } else {
      assert (name + rest)[1..] == name[1..] + rest;
      CommentGoesOn(name[1..], rest, depth);
    }
  }

  lemma CommentParentheses(s: string, depth: int)
    requires depth >= 1
    ensures CommentRun("(" + s, depth) == 1 + CommentRun(s, depth + 1)
    ensures CommentRun(")" + s, depth) == if depth == 1 then 1 else 1 + CommentRun(s, depth - 1)
  {
    assert ("(" + s)[1..] == s && (")" + s)[1..] == s;
  }

  lemma CommentIsSkipped(name: string, rest: string)
    requires '(' !in name && ')' !in name
    ensures forall st :: Scan("(" + (name + (")" + rest)), st) == Scan(rest, st)
  {
    var inside := name + (")" + rest);
    CommentGoesOn(name, ")" + rest, 1);
    CommentParentheses(rest, 1);
    assert ("(" + inside)[1..] == inside && inside[|name| + 1..] == rest;
  }

  /** Comments nest: the scanner goes on behind the parenthesis that matches the first. */
  lemma NestedComment(x: string, y: string, z: string, rest: string)
    requires '(' !in x && ')' !in x && '(' !in y && ')' !in y && '(' !in z && ')' !in z
    ensures CommentRun(x + ("(" + (y + (")" + (z + (")" + rest))))), 1) == |x| + |y| + |z| + 3
  {
    hide CommentRun;
    var third := ")" + rest;
    var second := ")" + (z + third);
    CommentGoesOn(x, "(" + (y + second), 1);
    CommentParentheses(y + second, 1);
    CommentGoesOn(y, second, 2);
    CommentParentheses(z + third, 2);
    CommentGoesOn(z, third, 1);
    CommentParentheses(rest, 1);
  }
}
