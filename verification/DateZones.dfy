/**
 What date_parseString (jsdate.c) makes of names and of time zones: the names of months and weekdays, whole or cut
 short, the zones of North America, and offsets written with a colon.
 */
module DateZones {
  import opened ArrayIndex
  import opened DateMath
  import opened DatePrint
  import opened DateRoundTrip
  import opened DateText
  import opened Wrappers

  // ---- names -------------------------------------------------------------------------------------------

  const MONTH_NAMES := ["january", "february", "march", "april", "may", "june", "july", "august", "september",
                        "october", "november", "december"]
  const WEEKDAYS := ["sunday", "monday", "tuesday", "wednesday", "thursday", "friday", "saturday"]

  /** The word begins the name, but for case, with at least three letters. */
  ghost predicate ShortFor(word: string, name: string) {
    3 <= |word| <= |name| && forall k :: 0 <= k < |word| ==> ToLower(word[k]) == ToLower(name[k])
  }

  /** What is printed are the first three letters of the names. */
  lemma PrintedNames(i: nat)
    ensures i < 12 ==> ShortFor(MONTHS[i], MONTH_NAMES[i]) && |MONTHS[i]| == 3
    ensures i < 7 ==> ShortFor(DAYS[i], WEEKDAYS[i]) && |DAYS[i]| == 3
  {
  }

  lemma ShortName(word: string, printed: string, name: string, k: nat)
    requires ShortFor(word, name) && ShortFor(printed, name) && |printed| == 3
    requires k < |KEYWORDS| && KEYWORDS[k].0 == name && LastKeyword(printed, |KEYWORDS|) == Some(k)
    ensures LastKeyword(word, |KEYWORDS|) == Some(k)
  {
    hide KEYWORDS;
    assert Abbreviates(word, KEYWORDS[k].0);
    var r := LastKeyword(word, |KEYWORDS|);
    assert r.Some? ==> Abbreviates(printed, KEYWORDS[r.value].0);
  }

  lemma KeywordNames(i: nat)
    ensures i < 12 ==> KEYWORDS[i + 9].0 == MONTH_NAMES[i]
    ensures i < 7 ==> KEYWORDS[if i == 0 then 8 else i + 1] == (WEEKDAYS[i], 0)
  {
  }

  /** The names of the months, in whatever case and cut short to three letters or more, mean those months. */
  lemma MonthNames(word: string, m: nat, st: State)
    requires m < 12 && ShortFor(word, MONTH_NAMES[m]) && st.mon < 0 && !st.seenmonthname
    ensures ReadWord(st, word) == Some(st.(mon := m + 1, seenmonthname := true, prevc := NUL))
  {
    PrintedNames(m);
    KeywordNames(m);
    MonthKeyword(m);
    ShortName(word, MONTHS[m], MONTH_NAMES[m], m + 9);
  }

  /** The names of the weekdays are passed over. */
  lemma WeekdayNames(word: string, d: nat, st: State)
    requires d < 7 && ShortFor(word, WEEKDAYS[d])
    ensures ReadWord(st, word) == Some(st.(prevc := NUL))
  {
    PrintedNames(d);
    KeywordNames(d);
    DayIsKeyword(d);
    ShortName(word, DAYS[d], WEEKDAYS[d], if d == 0 then 8 else d + 1);
  }

  // ---- zones by name -----------------------------------------------------------------------------------

  /** The GMT form, with another word for the zone. */
  function FormatZoned(f: Fields, zone: string): string
    requires 0 <= f.wday < 7 && 0 <= f.mon < 12
  {
    DAYS[f.wday] + ", " + Precision(f.mday, 2) + " " + MONTHS[f.mon] + " " + Precision(f.year, 4) + " "
    + FormatClock(f) + " " + zone
  }

  ghost function ZonedTokens(f: Fields, rest: Tokens): Tokens
    requires f.Valid()
  {
    Cons(Word(DAYS[f.wday]), Cons(Blank(','), Cons(Blank(' '), Spaced(Number(Padded(f.mday, 2)),
      Spaced(Word(MONTHS[f.mon]), YearTokens(f.year, ClockTokens(f, rest)))))))
  }

  lemma JoinZoned(day: string, date: string, month: string, year: string, clock: string, zone: string)
    ensures day + ("," + (" " + (date + (" " + (month + (" " + (year + (" " + (clock + " " + zone)))))))))
         == day + ", " + date + " " + month + " " + year + " " + clock + " " + zone
  {
  }

  lemma TextOfZoned(f: Fields, rest: Tokens)
    requires f.Valid()
    ensures Text(ZonedTokens(f, rest)) == FormatZoned(f, Text(rest))
  {
    hide Precision, FormatClock, YearTokens, ClockTokens, Padded;
    var date := Precision(f.mday, 2);
    PrecisionOf(f.mday, 2);
    var clock := ClockTokens(f, rest);
    TextOfClock(f, rest);
    var year := YearTokens(f.year, clock);
    TextOfYear(f.year, clock);
    var month := Spaced(Word(MONTHS[f.mon]), year);
    assert Text(month) == MONTHS[f.mon] + (" " + Text(year));
    var day := Spaced(Number(date), month);
    assert Text(day) == date + (" " + Text(month));
    assert Text(Cons(Blank(' '), day)) == " " + Text(day);
    assert Text(ZonedTokens(f, rest)) == DAYS[f.wday] + ("," + (" " + Text(day)));
    JoinZoned(DAYS[f.wday], date, MONTHS[f.mon], Precision(f.year, 4), FormatClock(f), Text(rest));
  }

  /** The state before the zone. */
  function BeforeZone(f: Fields): State {
    AfterClock(AfterYear(AfterDate(f), f.year), f)
  }

  lemma YearIsRead(f: Fields)
    ensures var st := AfterYear(AfterDate(f), f.year);
            st.prevc == NUL && st.hour == -1 && st.min == -1 && st.sec == -1
  {
  }

  lemma RunZoned(f: Fields, rest: Tokens)
    requires f.Valid() && Readable(rest)
    ensures Readable(ZonedTokens(f, rest)) && Run(ZonedTokens(f, rest), START) == Run(rest, BeforeZone(f))
  {
    hide KEYWORDS, YearTokens, ClockTokens, AfterClock, AfterYear, Padded, Text;
    var clock := ClockTokens(f, rest);
    YearIsRead(f);
    RunClock(f, rest, AfterYear(AfterDate(f), f.year));
    RunYear(f.year, clock, AfterDate(f));
    hide Run, Readable;
    var year := YearTokens(f.year, clock);
    var month := Spaced(Word(MONTHS[f.mon]), year);
    RunMonthName(f.mon, year, START.(mon := f.mday));
    assert Run(month, START.(mon := f.mday)) == Run(year, AfterDate(f));
    RunDate(f.mday, month, START);
    RunDayNameAndComma(f.wday, Spaced(Number(Padded(f.mday, 2)), month));
  }

  lemma RunZoneWord(zone: string, k: nat, st: State)
    requires |zone| >= 2 && forall i :: 0 <= i < |zone| ==> IsLetter(zone[i])
    requires k < |KEYWORDS| && LastKeyword(zone, |KEYWORDS|) == Some(k) && KEYWORDS[k].1 >= 10000
    ensures var word := Cons(Word(zone), End);
            && Readable(word) && Text(word) == zone
            && Run(word, st) == Some(st.(tzoffset := KEYWORDS[k].1 - 10000, prevc := NUL))
  {
    hide KEYWORDS, LastKeyword;
    assert Text(End) == "" && zone + "" == zone;
  }

  lemma ZonedIsNotEmpty(f: Fields, zone: string)
    requires f.Valid()
    ensures FormatZoned(f, zone) != ""
  {
    hide Precision, FormatClock;
  }

  lemma HasReadStill(f: Fields, st: State, st': State)
    requires HasRead(f, st)
    requires st' == st.(tzoffset := st'.tzoffset, prevc := st'.prevc, seenplusminus := st'.seenplusminus)
    ensures HasRead(f, st')
  {
  }

  lemma HasReadAll(f: Fields)
    ensures HasRead(f, BeforeZone(f))
  {
  }

  /** A date in a zone that is a keyword is that many minutes west of Greenwich. */
  lemma ParseZoned(f: Fields, zone: string, k: nat, utc: int -> int)
    requires f.Valid() && |zone| >= 2 && forall i :: 0 <= i < |zone| ==> IsLetter(zone[i])
    requires k < |KEYWORDS| && LastKeyword(zone, |KEYWORDS|) == Some(k) && KEYWORDS[k].1 >= 10000
    ensures Parse(FormatZoned(f, zone), utc) == ReadBack(f, KEYWORDS[k].1 - 10000)
  {
    hide KEYWORDS, ZonedTokens, Run, Readable, Finish, ReadBack, Scan, Text, FormatZoned, BeforeZone, LastKeyword;
    var word := Cons(Word(zone), End);
    var st := BeforeZone(f).(tzoffset := KEYWORDS[k].1 - 10000, prevc := NUL);
    RunZoneWord(zone, k, BeforeZone(f));
    TextOfZoned(f, word);
    RunZoned(f, word);
    ScanReadsTokens(ZonedTokens(f, word), START);
    ZonedIsNotEmpty(f, zone);
    HasReadAll(f);
    HasReadStill(f, BeforeZone(f), st);
    FinishReadsBack(f, st, utc);
  }

  /** Zones with an hour's number behind the name of each: five for EST, and so on. */
  const ZONES: seq<(string, int)> := [("EST", 5), ("EDT", 4), ("CST", 6), ("CDT", 5), ("MST", 7), ("MDT", 6),
                                      ("PST", 8), ("PDT", 7)]

  lemma ZoneIsKeyword(i: nat)
    requires i < 8
    ensures var word := ZONES[i].0;
            && |ZONES| == 8 && |KEYWORDS| == 32 && |word| == 3 && Begins(word, KEYWORDS[24 + i].0)
            && IsLetter(word[0]) && IsLetter(word[1]) && IsLetter(word[2])
            && KEYWORDS[24 + i].1 == 10000 + 60 * ZONES[i].1 && 4 <= ZONES[i].1 <= 8
  {
  }

  lemma ZoneIsNoOther(i: nat, j: nat)
    requires i < 8 && 24 + i < j < 32
    ensures |ZONES[i].0| == 3 && |KEYWORDS| == 32 && !Begins(ZONES[i].0, KEYWORDS[j].0)
  {
  }

  lemma ZoneKeyword(i: nat)
    requires i < 8
    ensures |ZONES| == 8 && |KEYWORDS| == 32 && LastKeyword(ZONES[i].0, 32) == Some(24 + i)
  {
    hide KEYWORDS, LastKeyword, ZONES;
    ZoneIsKeyword(i);
    forall j | 24 + i < j < |KEYWORDS|
      ensures !Begins(ZONES[i].0, KEYWORDS[j].0)
    {
      ZoneIsNoOther(i, j);
    }
    KeywordIs(ZONES[i].0, 24 + i);
  }

  lemma NoZoneName(hours: int)
    ensures !UseZone("")
    ensures 0 < hours <= 12 ==> ZoneRead(-100 * hours) == 60 * hours
  {
  }

  /** A date in one of these zones is read as with the offset in digits: EST as GMT-0500, PDT as GMT-0700. */
  lemma NamedZones(f: Fields, i: nat, utc: int -> int)
    requires f.Valid() && i < 8
    ensures var (zone, hours) := ZONES[i];
            && Parse(FormatZoned(f, zone), utc) == Parse(FormatFull(f, -100 * hours, "", ""), utc)
            && Parse(FormatZoned(f, zone), utc) == ReadBack(f, 60 * hours)
  {
    hide KEYWORDS, FormatZoned, FormatFull, Parse, ReadBack, LastKeyword, ZONES, UseZone, ZoneRead;
    ZoneIsKeyword(i);
    var (zone, hours) := ZONES[i];
    ZoneKeyword(i);
    ParseZoned(f, zone, 24 + i, utc);
    NoZoneName(hours);
    ParseFullWithComments(f, -100 * hours, "", utc);
  }

  lemma LaterAreNotUniversal(j: nat)
    requires 23 < j < 32
    ensures |KEYWORDS| == 32 && |KEYWORDS[j].0| == 3 && ToLower(KEYWORDS[j].0[0]) != 'u'
  {
  }

  lemma UniversalIsKeyword()
    ensures |KEYWORDS| == 32 && KEYWORDS[23] == ("utc", 10000) && KEYWORDS[21].1 == 10000
  {
  }

  lemma UniversalKeywords()
    ensures |KEYWORDS| == 32 && KEYWORDS[23].1 == 10000 && KEYWORDS[21].1 == 10000
    ensures LastKeyword("UT", 32) == Some(23)
    ensures LastKeyword("UTC", 32) == Some(23) && LastKeyword("GMT", 32) == Some(21)
  {
    hide LastKeyword, KEYWORDS;
    UniversalIsKeyword();
    GMTKeyword();
    forall j | 23 < j < 32
      ensures !Abbreviates("UT", KEYWORDS[j].0) && !Begins("UTC", KEYWORDS[j].0)
    {
      LaterAreNotUniversal(j);
    }
    KeywordIs("UTC", 23);
    assert Abbreviates("UT", KEYWORDS[23].0);
  }

  /** GMT, UT and UTC mean the same. */
  lemma UniversalTime(f: Fields, utc: int -> int)
    requires f.Valid()
    ensures Parse(FormatZoned(f, "GMT"), utc) == Parse(FormatZoned(f, "UT"), utc)
         == Parse(FormatZoned(f, "UTC"), utc) == Parse(FormatGMT(f), utc) == ReadBack(f, 0)
  {
    hide KEYWORDS, FormatZoned, FormatGMT, Parse, ReadBack, LastKeyword;
    UniversalKeywords();
    ParseZoned(f, "GMT", 21, utc);
    ParseZoned(f, "UT", 23, utc);
    ParseZoned(f, "UTC", 23, utc);
    ParseGMT(f, utc);
  }

  // ---- offsets with a colon ----------------------------------------------------------------------------

  ghost function OffsetTokens(east: bool, h: nat, m: nat): Tokens {
    var digits := Cons(Number(Padded(h, 1)), Cons(Mark(':'), Cons(Number(Padded(m, 2)), End)));
    Cons(Word("GMT"), Cons(if east then Mark('+') else Minus, digits))
  }

  function OffsetText(east: bool, h: nat, m: nat): string {
    "GMT" + (if east then "+" else "-") + Padded(h, 1) + ":" + Padded(m, 2)
  }

  lemma TextOfOffset(east: bool, h: nat, m: nat)
    ensures Text(OffsetTokens(east, h, m)) == OffsetText(east, h, m)
  {
    hide Padded;
    var minutes := Cons(Number(Padded(m, 2)), End);
    assert Text(minutes) == Padded(m, 2) + "";
    var colon := Cons(Mark(':'), minutes);
    assert Text(colon) == ":" + Padded(m, 2);
    var digits := Cons(Number(Padded(h, 1)), colon);
    assert Text(digits) == Padded(h, 1) + (":" + Padded(m, 2));
    var sign := if east then "+" else "-";
    assert Text(Cons(if east then Mark('+') else Minus, digits)) == sign + Text(digits);
    assert "GMT" + (sign + (Padded(h, 1) + (":" + Padded(m, 2)))) == "GMT" + sign + Padded(h, 1) + ":" + Padded(m, 2);
  }

  /** The minutes west of Greenwich: east of it, and with no whole hour, the sign is lost. */
  function OffsetRead(east: bool, h: nat, m: nat): int {
    if east && h > 0 then -(60 * h + m) else 60 * h + m
  }

  lemma FirstDigit(n: nat, rest: Tokens)
    ensures IsDigit(Front(Text(Cons(Number(Padded(n, 1)), rest))))
  {
    PaddedIsRead(n, 1);
  }

  lemma RunOffset(east: bool, h: nat, m: nat, st: State)
    requires h < 24 && m < 60 && st.prevc == NUL && !st.seenplusminus
    ensures Readable(OffsetTokens(east, h, m))
    ensures Run(OffsetTokens(east, h, m), st)
         == Some(st.(tzoffset := OffsetRead(east, h, m), seenplusminus := true, prevc := NUL))
  {
    hide Padded, KEYWORDS, LastKeyword;
    assert Readable(End) && Text(End) == "" && forall st :: Run(End, st) == Some(st);
    var minutes := Cons(Number(Padded(m, 2)), End);
    var st0 := st.(tzoffset := 0);
    var st1 := st0.(tzoffset := if east then -60 * h else 60 * h, seenplusminus := true);
    var st2 := st1.(prevc := ':');
    var colon := Cons(Mark(':'), minutes);
    assert Readable(minutes)
           && Run(minutes, st2) == Some(st1.(tzoffset := OffsetRead(east, h, m), prevc := NUL)) by {
      var _ := RunNumber(m, 2, End, st2);
    }
    assert Readable(colon) && Run(colon, st1) == Run(minutes, st2);
    var digits := Cons(Number(Padded(h, 1)), colon);
    var signed := st0.(prevc := if east then '+' else '-');
    assert Readable(digits) && Run(digits, signed) == Run(colon, st1) by {
      var _ := RunNumber(h, 1, colon, signed);
    }
    FirstDigit(h, colon);
    var offset := Cons(if east then Mark('+') else Minus, digits);
    assert Readable(offset) && Run(offset, st0) == Run(digits, signed);
    GMTKeyword();
    RunWord("GMT", 10000, offset, st);
  }

  /** Sixty is no number of minutes; when everything else has been read, it is one number too many. */
  lemma RunLongOffset(east: bool, h: nat, m: nat, st: State)
    requires h < 24 && m >= 60 && st.prevc == NUL
    requires st.hour >= 0 && st.min >= 0 && st.sec >= 0 && st.mon >= 0 && st.mday >= 0 && st.year >= 0
    ensures Readable(OffsetTokens(east, h, m)) && Run(OffsetTokens(east, h, m), st) == None
  {
    hide Padded, KEYWORDS, LastKeyword;
    assert Readable(End) && Text(End) == "";
    var minutes := Cons(Number(Padded(m, 2)), End);
    var st0 := st.(tzoffset := 0);
    var st1 := st0.(tzoffset := if east then -60 * h else 60 * h, seenplusminus := true);
    var colon := Cons(Mark(':'), minutes);
    assert Readable(minutes) && Run(minutes, st1.(prevc := ':')) == None by {
      var _ := RunNumber(m, 2, End, st1.(prevc := ':'));
    }
    assert Readable(colon) && Run(colon, st1) == None;
    var digits := Cons(Number(Padded(h, 1)), colon);
    var signed := st0.(prevc := if east then '+' else '-');
    assert Readable(digits) && Run(digits, signed) == None by {
      var _ := RunNumber(h, 1, colon, signed);
    }
    FirstDigit(h, colon);
    var offset := Cons(if east then Mark('+') else Minus, digits);
    assert Readable(offset) && Run(offset, st0) == None;
    GMTKeyword();
    RunWord("GMT", 10000, offset, st);
  }

  lemma NothingOfZone(f: Fields)
    requires f.year >= 0
    ensures BeforeZone(f).prevc == NUL && !BeforeZone(f).seenplusminus
    ensures f.Valid() ==> var st := BeforeZone(f);
              st.hour >= 0 && st.min >= 0 && st.sec >= 0 && st.mon >= 0 && st.mday >= 0 && st.year >= 0
  {
  }

  /**
   * "GMT+h:mm" and "GMT-h:mm" are h hours and mm minutes east or west of Greenwich; but "GMT+0:mm" is read as west,
   * because the sign of the hours is what tells the minutes which way to go.
   */
  lemma ParseOffset(f: Fields, east: bool, h: nat, m: nat, utc: int -> int)
    requires f.Valid() && f.year >= 0 && h < 24 && m < 60
    ensures Parse(FormatZoned(f, OffsetText(east, h, m)), utc) == ReadBack(f, OffsetRead(east, h, m))
  {
    hide KEYWORDS, ZonedTokens, Run, Readable, Finish, ReadBack, Scan, Text, FormatZoned, OffsetTokens, OffsetText;
    hide BeforeZone;
    var tokens := OffsetTokens(east, h, m);
    TextOfOffset(east, h, m);
    NothingOfZone(f);
    RunOffset(east, h, m, BeforeZone(f));
    TextOfZoned(f, tokens);
    RunZoned(f, tokens);
    ScanReadsTokens(ZonedTokens(f, tokens), START);
    ZonedIsNotEmpty(f, OffsetText(east, h, m));
    HasReadAll(f);
    var st := BeforeZone(f).(tzoffset := OffsetRead(east, h, m), seenplusminus := true, prevc := NUL);
    HasReadStill(f, BeforeZone(f), st);
    FinishReadsBack(f, st, utc);
  }

  /** There are no sixty minutes. */
  lemma SixtyMinutes(f: Fields, east: bool, h: nat, m: nat, utc: int -> int)
    requires f.Valid() && f.year >= 0 && h < 24 && m >= 60
    ensures Parse(FormatZoned(f, OffsetText(east, h, m)), utc) == None
  {
    hide KEYWORDS, ZonedTokens, Run, Readable, Finish, Scan, Text, FormatZoned, OffsetTokens, OffsetText, BeforeZone;
    var tokens := OffsetTokens(east, h, m);
    TextOfOffset(east, h, m);
    NothingOfZone(f);
    RunLongOffset(east, h, m, BeforeZone(f));
    TextOfZoned(f, tokens);
    RunZoned(f, tokens);
    ScanReadsTokens(ZonedTokens(f, tokens), START);
    ZonedIsNotEmpty(f, OffsetText(east, h, m));
  }
}
