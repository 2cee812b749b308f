/**
 Which printed dates date_parseString reads back to the time they were printed from (ECMA-262 3rd edition,
 section 15.9.4.2 asks it of every time): the scanner is followed over the printed fields one at a time.
 */
module DateRoundTrip {
  import opened ArrayIndex
  import opened DateMath
  import opened DatePrint
  import opened DateText
  import opened Wrappers

  // ---- one field at a time -----------------------------------------------------------------------------

  ghost function Continue(st: Option<State>, rest: Tokens): Option<State>
    requires Readable(rest)
  {
    match st
    case None => None
    case Some(st) => Run(rest, st)
  }

  lemma RunNumber(n: nat, prec: nat, rest: Tokens, st: State) returns (c: char)
    requires Readable(rest) && !IsDigit(Front(Text(rest)))
    ensures Readable(Cons(Number(Padded(n, prec)), rest))
    ensures if Text(rest) == "" then IsDigit(c) else c == Text(rest)[0]
    ensures Run(Cons(Number(Padded(n, prec)), rest), st) == Continue(ReadNumber(st, n, c, Text(rest) == ""), rest)
  {
    PaddedIsRead(n, prec);
    hide Padded, Text, ReadNumber;
    var digits, text := Padded(n, prec), Text(rest);
    c := if text == "" then digits[|digits| - 1] else text[0];
    assert ReadDigits(st, digits, text) == ReadNumber(st, n, c, text == "");
  }

  lemma RunWord(word: string, action: int, rest: Tokens, st: State)
    requires Readable(rest) && !IsLetter(Front(Text(rest)))
    requires |word| == 3 && IsLetter(word[0]) && IsLetter(word[1]) && IsLetter(word[2])
    requires exists k :: 0 <= k < |KEYWORDS| && LastKeyword(word, |KEYWORDS|) == Some(k) && KEYWORDS[k].1 == action
    ensures Readable(Cons(Word(word), rest))
    ensures Run(Cons(Word(word), rest), st) == Continue(DoAction(st, action), rest)
  {
    hide LastKeyword, KEYWORDS, DoAction, Text;
  }

  /** The state after a number that is the year, or that a minus sign makes a zone offset. */
  function AfterYear(st: State, year: int): State {
    if year < 0 then
      var n := -year;
      st.(seenplusminus := true, tzoffset := if n < 24 then n * 60 else n % 100 + n / 100 * 60, prevc := NUL)
    else st.(year := year, prevc := NUL)
  }

  lemma RunYear(year: int, rest: Tokens, st: State)
    requires Readable(rest)
    requires st.prevc == NUL && st.mon >= 0 && st.mday >= 0 && st.year == -1
    requires st.hour == -1 && st.min == -1 && st.tzoffset == -1 && !st.seenplusminus
    ensures Readable(YearTokens(year, rest))
    ensures Run(YearTokens(year, rest), st) == Run(rest, AfterYear(st, year))
  {
    hide Padded;
    var blank := Cons(Blank(' '), rest);
    var n := if year < 0 then -year else year;
    var _ := RunNumber(n, 4, blank, st);
    if year < 0 {
      var digits := Padded(n, 4);
      PaddedIsRead(n, 4);
      assert IsDigit(Front(Text(Cons(Number(digits), blank))));
      var _ := RunNumber(n, 4, blank, st.(prevc := '-'));
    }
  }

  function AfterClock(st: State, f: Fields): State {
    var st := st.(hour := f.hour, min := f.min, prevc := NUL);
    if st.seenplusminus then st.(tzoffset := if st.tzoffset < 0 then st.tzoffset - f.sec else st.tzoffset + f.sec)
    else st.(sec := f.sec)
  }

  lemma RunSeconds(f: Fields, rest: Tokens, st: State)
    requires f.Valid() && Readable(rest)
    requires st.prevc == ':' && st.hour == f.hour && st.min == f.min && st.sec == -1
    ensures var seconds := Spaced(Number(Padded(f.sec, 2)), rest);
            Readable(seconds) && Run(seconds, st) == Run(rest, AfterClock(st, f))
  {
    hide Padded;
    var _ := RunNumber(f.sec, 2, Cons(Blank(' '), rest), st);
  }

  /** A number before a colon is the hour, or else the minute. */
  lemma RunToColon(n: nat, prec: nat, rest: Tokens, st: State)
    requires Readable(rest) && (st.prevc == NUL || st.prevc == ':') && (st.hour < 0 || st.min < 0)
    ensures var number := Cons(Number(Padded(n, prec)), Cons(Mark(':'), rest));
            Readable(number)
            && Run(number, st)
            == Run(rest, if st.hour < 0 then st.(hour := n, prevc := ':') else st.(min := n, prevc := ':'))
  {
    hide Padded;
    var _ := RunNumber(n, prec, Cons(Mark(':'), rest), st);
  }

  lemma RunClock(f: Fields, rest: Tokens, st: State)
    requires f.Valid() && Readable(rest)
    requires st.prevc == NUL && st.hour == -1 && st.min == -1 && st.sec == -1
    ensures Readable(ClockTokens(f, rest))
    ensures Run(ClockTokens(f, rest), st) == Run(rest, AfterClock(st, f))
  {
    hide Padded;
    var blank := Cons(Blank(' '), rest);
    var seconds := Cons(Number(Padded(f.sec, 2)), blank);
    var st2 := st.(hour := f.hour, min := f.min, prevc := ':');
    RunSeconds(f, rest, st2);
    var minutes := Cons(Number(Padded(f.min, 2)), Cons(Mark(':'), seconds));
    var st1 := st.(hour := f.hour, prevc := ':');
    hide AfterClock;
    RunToColon(f.min, 2, seconds, st1);
    RunToColon(f.hour, 2, minutes, st);
  }

  function AfterTime(st: State, f: Fields): State {
    AfterClock(AfterYear(st, f.year), f).(tzoffset := 0)
  }

  lemma RunTime(f: Fields, rest: Tokens, st: State)
    requires f.Valid() && Readable(rest) && !IsLetter(Front(Text(rest)))
    requires st.prevc == NUL && st.mon >= 0 && st.mday >= 0 && st.year == -1
    requires st.hour == -1 && st.min == -1 && st.sec == -1 && st.tzoffset == -1 && !st.seenplusminus
    ensures Readable(TimeTokens(f, rest))
    ensures Run(TimeTokens(f, rest), st) == Run(rest, AfterTime(st, f))
  {
    hide KEYWORDS, YearTokens, ClockTokens;
    GMTKeyword();
    var st1 := AfterYear(st, f.year);
    var st2 := AfterClock(st1, f);
    var gmt := Cons(Word("GMT"), rest);
    RunWord("GMT", 10000, rest, st2);
    RunClock(f, gmt, st1);
    RunYear(f.year, ClockTokens(f, gmt), st);
  }

  /** The minutes that a printed zone offset is read as, west of Greenwich counting up. */
  function ZoneRead(offset: int): int {
    var n := if offset < 0 then -offset else offset;
    var minutes := if n < 24 then n * 60 else n % 100 + n / 100 * 60;
    if offset < 0 then minutes else -minutes
  }

  lemma RunZone(offset: int, rest: Tokens, st: State)
    requires Readable(rest) && !IsDigit(Front(Text(rest)))
    requires st.tzoffset == 0
    ensures Readable(ZoneTokens(offset, rest))
    ensures Run(ZoneTokens(offset, rest), st)
         == Run(rest, st.(seenplusminus := true, tzoffset := ZoneRead(offset), prevc := NUL))
  {
    hide Padded;
    var n := if offset < 0 then -offset else offset;
    var number := Cons(Number(Padded(n, 4)), rest);
    PaddedIsRead(n, 4);
    assert IsDigit(Front(Text(number)));
    var _ := RunNumber(n, 4, rest, st.(prevc := if offset < 0 then '-' else '+'));
  }

  // ---- whole dates -------------------------------------------------------------------------------------

  /** The state after the weekday, the month's name and the day, in either order. */
  function AfterDate(f: Fields): State {
    START.(mon := f.mon + 1, mday := f.mday, seenmonthname := true)
  }

  lemma RunDayName(d: int, rest: Tokens)
    requires 0 <= d < 7 && Readable(rest) && !IsLetter(Front(Text(rest)))
    ensures Readable(Cons(Word(DAYS[d]), rest))
    ensures Run(Cons(Word(DAYS[d]), rest), START) == Run(rest, START)
  {
    hide KEYWORDS, Readable, Text;
    DayKeyword(d);
    RunWord(DAYS[d], 0, rest, START);
  }

  lemma RunMonthName(m: int, rest: Tokens, st: State)
    requires 0 <= m < 12 && Readable(rest)
    ensures Readable(Spaced(Word(MONTHS[m]), rest))
    ensures Run(Spaced(Word(MONTHS[m]), rest), st) == Continue(DoAction(st, m + 2), rest)
  {
    hide KEYWORDS, DoAction;
    MonthKeyword(m);
    var blank := Cons(Blank(' '), rest);
    assert Text(blank) == " " + Text(rest);
    hide Text;
    RunWord(MONTHS[m], m + 2, blank, st);
  }

  lemma RunDate(n: int, rest: Tokens, st: State)
    requires 0 <= n && Readable(rest)
    requires st.prevc == NUL && !st.seenplusminus && st.hour < 0
    requires st.mon < 0 || st.mday < 0
    ensures Readable(Spaced(Number(Padded(n, 2)), rest))
    ensures Run(Spaced(Number(Padded(n, 2)), rest), st)
         == Run(rest, if st.mon < 0 then st.(mon := n) else st.(mday := n))
  {
    hide Padded;
    var _ := RunNumber(n, 2, Cons(Blank(' '), rest), st);
  }

  lemma RunDayNameAndComma(d: int, rest: Tokens)
    requires 0 <= d < 7 && Readable(rest)
    ensures Readable(Cons(Word(DAYS[d]), Cons(Blank(','), Cons(Blank(' '), rest))))
    ensures Run(Cons(Word(DAYS[d]), Cons(Blank(','), Cons(Blank(' '), rest))), START) == Run(rest, START)
  {
    var blank := Cons(Blank(' '), rest);
    assert Readable(blank) && Run(blank, START) == Run(rest, START);
    RunDayName(d, Cons(Blank(','), blank));
  }

  lemma RunGMT(f: Fields)
    requires f.Valid()
    ensures Readable(GMTTokens(f))
    ensures Run(GMTTokens(f), START) == Some(AfterTime(AfterDate(f), f))
  {
    var time := TimeTokens(f, End);
    RunTime(f, End, AfterDate(f));
    hide KEYWORDS, TimeTokens, AfterTime, Padded, Text, Run, Readable;
    var month := Spaced(Word(MONTHS[f.mon]), time);
    RunMonthName(f.mon, time, START.(mon := f.mday));
    assert Run(month, START.(mon := f.mday)) == Run(time, AfterDate(f));
    var day := Spaced(Number(Padded(f.mday, 2)), month);
    RunDate(f.mday, month, START);
    RunDayNameAndComma(f.wday, day);
  }

  lemma RunSpacedDayName(d: int, rest: Tokens)
    requires 0 <= d < 7 && Readable(rest)
    ensures Readable(Spaced(Word(DAYS[d]), rest))
    ensures Run(Spaced(Word(DAYS[d]), rest), START) == Run(rest, START)
  {
    RunDayName(d, Cons(Blank(' '), rest));
  }

  /** What the scanner makes of the zone name, if one is printed. */
  ghost function AfterZoneName(tzbuf: string, st: State): Option<State> {
    if UseZone(tzbuf) then Scan(tzbuf, st) else Some(st)
  }

  lemma RunZoneName(tzbuf: string, st: State)
    ensures var zone := if UseZone(tzbuf) then Cons(Blank(' '), Cons(Raw(tzbuf), End)) else End;
            Readable(zone) && !IsDigit(Front(Text(zone))) && Run(zone, st) == AfterZoneName(tzbuf, st)
  {
    hide UseZone, Scan;
    var name := Cons(Raw(tzbuf), End);
    assert UseZone(tzbuf) ==> Readable(name) && Run(name, st) == Scan(tzbuf, st);
  }

  lemma TimeClearsOffset(st: State, f: Fields)
    ensures AfterTime(st, f).tzoffset == 0
  {
  }

  lemma SignIsNoLetter(offset: int, zone: Tokens)
    ensures !IsLetter(Front(Text(ZoneTokens(offset, zone))))
  {
  }

  /** The state after everything but the zone name. */
  function AfterOffset(f: Fields, offset: int): State {
    AfterTime(AfterDate(f), f).(seenplusminus := true, tzoffset := ZoneRead(offset), prevc := NUL)
  }

  lemma RunFull(f: Fields, offset: int, tzbuf: string)
    requires f.Valid()
    ensures Readable(FullTokens(f, offset, tzbuf))
    ensures Run(FullTokens(f, offset, tzbuf), START) == AfterZoneName(tzbuf, AfterOffset(f, offset))
  {
    hide KEYWORDS, TimeTokens, ZoneTokens, AfterTime, Padded, UseZone, ZoneRead, AfterZoneName;
    var zone := if UseZone(tzbuf) then Cons(Blank(' '), Cons(Raw(tzbuf), End)) else End;
    RunZoneName(tzbuf, AfterOffset(f, offset));
    var tail := ZoneTokens(offset, zone);
    TimeClearsOffset(AfterDate(f), f);
    RunZone(offset, zone, AfterTime(AfterDate(f), f));
    SignIsNoLetter(offset, zone);
    RunTime(f, tail, AfterDate(f));
    hide Text, Run, Readable;
    var time := TimeTokens(f, tail);
    var day := Spaced(Number(Padded(f.mday, 2)), time);
    RunDate(f.mday, time, AfterDate(f).(mday := -1));
    var month := Spaced(Word(MONTHS[f.mon]), day);
    RunMonthName(f.mon, day, START);
    RunSpacedDayName(f.wday, month);
  }

  // ---- what the parser returns -------------------------------------------------------------------------

  /** The time that the printed fields denote in the given year. */
  function Denoted(f: Fields, year: int): int {
    MakeDate(MakeDay(year, f.mon, f.mday), MakeTime(f.hour, f.min, f.sec, 0))
  }

  /** What the parser makes of printed fields: years below 70 are refused, years below 100 move to 1970..1999. */
  function ReadBack(f: Fields, tzoffset: int): Option<int> {
    if f.year < 70 then None
    else Some(Denoted(f, if f.year < 100 then f.year + 1900 else f.year) + tzoffset * MS_PER_MINUTE)
  }

  /** The state holds the printed fields, but nothing of a year with a minus sign. */
  predicate HasRead(f: Fields, st: State) {
    && st.mon == f.mon + 1
    && st.mday == f.mday
    && st.seenmonthname
    && (f.year < 0 ==> st.year == -1)
    && (f.year >= 0 ==> st.year == f.year && st.hour == f.hour && st.min == f.min && st.sec == f.sec)
  }

  lemma StateAfterTime(f: Fields)
    ensures HasRead(f, AfterTime(AfterDate(f), f)) && AfterTime(AfterDate(f), f).tzoffset == 0
  {
  }

  lemma FinishReadsBack(f: Fields, st: State, utc: int -> int)
    requires f.Valid() && HasRead(f, st) && st.tzoffset != -1
    ensures Finish(st, utc) == ReadBack(f, st.tzoffset)
  {
    hide MakeDay, MakeTime;
  }

  lemma TextIsNotEmpty(f: Fields)
    requires f.Valid()
    ensures FormatGMT(f) != ""
    ensures forall offset, space, zone :: FormatFull(f, offset, space, zone) != ""
  {
    hide Precision, FormatClock, SignedPrecision;
  }

  lemma ParseGMT(f: Fields, utc: int -> int)
    requires f.Valid()
    ensures Parse(FormatGMT(f), utc) == ReadBack(f, 0)
  {
    hide FormatGMT, GMTTokens, Run, Readable, Finish, ReadBack, Scan, Text, AfterTime;
    TextOfGMT(f);
    RunGMT(f);
    ScanReadsTokens(GMTTokens(f), START);
    TextIsNotEmpty(f);
    StateAfterTime(f);
    FinishReadsBack(f, AfterTime(AfterDate(f), f), utc);
  }

  /** No printed offset is read as -1, which would mean that there was none. */
  lemma ZoneIsNoSentinel(offset: int)
    ensures ZoneRead(offset) != -1
  {
  }

  /** Whatever the zone name is, what the parser reads is what was printed, as the name leaves it. */
  lemma ParseFull(f: Fields, offset: int, tzbuf: string, utc: int -> int)
    requires f.Valid()
    ensures Parse(FormatFull(f, offset, if UseZone(tzbuf) then " " else "", if UseZone(tzbuf) then tzbuf else ""), utc)
         == match AfterZoneName(tzbuf, AfterOffset(f, offset)) case None => None case Some(st) => Finish(st, utc)
  {
    hide FormatFull, FullTokens, Run, Readable, Finish, Scan, Text, AfterTime, UseZone, AfterZoneName, AfterOffset;
    TextOfFull(f, offset, tzbuf);
    RunFull(f, offset, tzbuf);
    ScanReadsTokens(FullTokens(f, offset, tzbuf), START);
    TextIsNotEmpty(f);
  }

  /** The text is made of comments and blanks. */
  predicate OnlyComments(text: string)
    decreases |text|
  {
    text == ""
    || (IsBlank(text[0]) && OnlyComments(text[1..]))
    || (text[0] == '(' && OnlyComments(text[1..][CommentRun(text[1..], 1)..]))
  }

  lemma {:induction false} CommentsAreSkipped(text: string, st: State)
    requires OnlyComments(text)
    ensures Scan(text, st) == Some(st)
    decreases |text|
  {
    hide ReadWord, ReadDigits, LetterRun, DigitRun, CommentRun;
    if text == "" {
    } else if IsBlank(text[0]) {
      CommentsAreSkipped(text[1..], st);
    } else {
      CommentsAreSkipped(text[1..][CommentRun(text[1..], 1)..], st);
    }
  }

  /** A name that is made of comments leaves everything as it is. */
  lemma ParseFullWithComments(f: Fields, offset: int, tzbuf: string, utc: int -> int)
    requires f.Valid()
    requires UseZone(tzbuf) ==> OnlyComments(tzbuf)
    ensures Parse(FormatFull(f, offset, if UseZone(tzbuf) then " " else "", if UseZone(tzbuf) then tzbuf else ""), utc)
         == ReadBack(f, ZoneRead(offset))
  {
    hide FormatFull, Finish, Parse, ReadBack, Scan, AfterTime, UseZone, OnlyComments, ZoneRead;
    ParseFull(f, offset, tzbuf, utc);
    if UseZone(tzbuf) {
      CommentsAreSkipped(tzbuf, AfterOffset(f, offset));
    }
    StateAfterTime(f);
    ZoneIsNoSentinel(offset);
    FinishReadsBack(f, AfterOffset(f, offset), utc);
  }

  lemma FieldsAreValid(t: int)
    ensures FieldsOf(t).Valid()
    ensures Denoted(FieldsOf(t), YearFromTime(t)) == t - t % 1000
  {
    ComposeDecomposed(t);
    TimeOfDay(t);
    hide YearFromTime, MonthFromTime, DateFromTime, HourFromTime, MinFromTime, SecFromTime, MsFromTime, MakeDay,
      DaysInYear, WeekDay;
  }

  /** A year off by nineteen centuries is a time off by more than two days. */
  lemma WrongCentury(f: Fields, year: int)
    requires f.Valid()
    ensures Denoted(f, year + 1900) > Denoted(f, year) + 2 * MS_PER_DAY
  {
    YearsAreOrdered(year, year + 1900);
    MakeDayOfValid(year, f.mon, f.mday);
    MakeDayOfValid(year + 1900, f.mon, f.mday);
    hide DayFromYear, DaysInYear, MakeDay;
  }

  lemma YearOfFields(t: int)
    ensures FieldsOf(t).year == YearFromTime(t)
  {
  }

  /**
   * Date.parse(t.toGMTString()) is t rounded down to the second exactly when the year is 100 or later. Earlier
   * years from 70 on come back nineteen centuries late; years below 70 are refused as a syntax error.
   */
  lemma GMTRoundTrip(t: int, utc: int -> int)
    ensures Parse(ToGMTString(t), utc) == Some(t - t % 1000) <==> YearFromTime(t) >= 100
    ensures Parse(ToGMTString(t), utc).None? <==> YearFromTime(t) < 70
  {
    hide FormatGMT, Parse, Denoted, FieldsOf;
    var f := FieldsOf(t);
    YearOfFields(t);
    FieldsAreValid(t);
    ParseGMT(f, utc);
    WrongCentury(f, f.year);
    hide YearFromTime;
  }

  // ---- the full form -----------------------------------------------------------------------------------

  /** AdjustTime: the zone and daylight-saving offset, whose size fmod keeps below a day. */
  function AdjustTime(localTZA: int, dst: int): (adjust: int)
    ensures -MS_PER_DAY < adjust < MS_PER_DAY
  {
    CRemainder(localTZA + dst, MS_PER_DAY)
  }

  lemma ZoneDigits(m: nat)
    ensures var n := m / 60 * 100 + m % 60;
            (if n < 24 then n * 60 else n % 100 + n / 100 * 60) == if m < 24 then 60 * m else m
  {
    var n := m / 60 * 100 + m % 60;
    RemainderIs(n, 100, m / 60, m % 60);
  }

  /** A whole number of minutes is read back right unless it is one to twenty-three minutes, either way. */
  lemma ZoneRoundTrip(minutes: int)
    ensures ZoneRead(ZoneOffset(minutes))
         == if -24 < minutes < 24 then -60 * minutes else -minutes
  {
    var m := if minutes < 0 then -minutes else minutes;
    assert ZoneOffset(minutes) == if minutes < 0 then -(m / 60 * 100 + m % 60) else m / 60 * 100 + m % 60;
    ZoneDigits(m);
  }

  /** The condition for the full form to be read back, on what date_format computes before it prints. */
  predicate FullIsReadBack(t: int, adjust: int) {
    var minutes := adjust / MS_PER_MINUTE;
    && YearFromTime(t + adjust) >= 100
    && (minutes == 0 || minutes <= -24 || minutes >= 24)
    && t % 1000 + adjust % MS_PER_MINUTE < 1000
  }

  /** Local time rounded down to the second, less the offset as it is read. */
  lemma RoundedDown(t: int, adjust: int)
    requires -MS_PER_DAY < adjust < MS_PER_DAY
    ensures var minutes := adjust / MS_PER_MINUTE;
            var tz := if -24 < minutes < 24 then -60 * minutes else -minutes;
            var local := t + adjust;
            && (local - local % 1000 + tz * MS_PER_MINUTE == t - t % 1000
                <==> (minutes == 0 || minutes <= -24 || minutes >= 24) && t % 1000 + adjust % MS_PER_MINUTE < 1000)
            && local - local % 1000 + tz * MS_PER_MINUTE + 2 * MS_PER_DAY > t - t % 1000
  {
    var minutes, rest := adjust / MS_PER_MINUTE, adjust % MS_PER_MINUTE;
    var local := t + adjust;
    assert adjust == minutes * MS_PER_MINUTE + rest;
    assert -1440 <= minutes < 1440;
    assert local % 1000 == (t % 1000 + rest) % 1000;
  }

  /**
   * The full form is read back as t rounded down to the second exactly when the local year is 100 or later,
   * the offset is zero or at least 24 minutes, and what is left of it over whole minutes does not reach into the next
   * second. The zone name, if it is printed, must be made of comments.
   */
  lemma FullRoundTrip(t: int, localTZA: int, dst: int, tzbuf: string, utc: int -> int)
    requires UseZone(tzbuf) ==> OnlyComments(tzbuf)
    ensures var adjust := AdjustTime(localTZA, dst);
            Parse(ToFullString(t, adjust, tzbuf), utc) == Some(t - t % 1000) <==> FullIsReadBack(t, adjust)
  {
    hide FormatFull, Parse, Denoted, FieldsOf, ZoneRead, ZoneOffset, UseZone, OnlyComments, AdjustTime;
    var adjust := AdjustTime(localTZA, dst);
    var local := t + adjust;
    var minutes := adjust / MS_PER_MINUTE;
    var f := FieldsOf(local);
    YearOfFields(local);
    FieldsAreValid(local);
    ParseFullWithComments(f, ZoneOffset(minutes), tzbuf, utc);
    ZoneRoundTrip(minutes);
    WrongCentury(f, f.year);
    RoundedDown(t, adjust);
    hide YearFromTime;
  }

  lemma {:induction false} CommentOf(name: string)
    requires '(' !in name && ')' !in name
    ensures CommentRun(name + ")", 1) == |name| + 1
  {
    if name == "" {
    } else {
      assert (name + ")")[1..] == name[1..] + ")";
      CommentOf(name[1..]);
    }
  }

  /** A zone name without parentheses of its own makes a comment. */
  lemma PlainZone(name: string)
    requires '(' !in name && ')' !in name
    ensures OnlyComments("(" + name + ")")
  {
    var text := "(" + name + ")";
    assert text[1..] == name + ")";
    CommentOf(name);
    assert text[1..][|name| + 1..] == "";
  }
}
