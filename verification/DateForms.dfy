/**
 Dates written with slashes, as the comment in date_parseString (jsdate.c) describes them, and the twelve-hour clock.
 */
module DateForms {
  import opened ArrayIndex
  import opened DateMath
  import opened DatePrint
  import opened DateRoundTrip
  import opened DateText
  import opened Wrappers

  /** A year, month (from 1) and day of the month. */
  datatype Date = Date(year: nat, month: nat, day: nat)

  /**
   * What f/m/l means. Up to 69 the first number is a month, and a year below 100 is in the twentieth century; from 70
   * on it is a year, and then the second number must not look like one.
   */
  function SlashDate(f: nat, m: nat, l: nat): Option<Date> {
    if f < 70 then Some(Date(if l < 100 then 1900 + l else l, f, m))
    else if m >= 70 then None
    else Some(Date(if f < 100 then 1900 + f else f, m, l))
  }

  /** f/m/l, followed by more. */
  function SlashTokens(f: nat, m: nat, l: nat, rest: Tokens): Tokens {
    Cons(Number(Padded(f, 1)), Cons(Mark('/'), Cons(Number(Padded(m, 1)), Cons(Mark('/'),
      Cons(Number(Padded(l, 1)), rest)))))
  }

  lemma TextOfSlashes(f: nat, m: nat, l: nat, rest: Tokens)
    ensures Text(SlashTokens(f, m, l, rest))
         == Padded(f, 1) + "/" + Padded(m, 1) + "/" + Padded(l, 1) + Text(rest)
  {
    hide Padded;
    var last := Cons(Number(Padded(l, 1)), rest);
    assert Text(last) == Padded(l, 1) + Text(rest);
    var middle := Cons(Number(Padded(m, 1)), Cons(Mark('/'), last));
    assert Text(middle) == Padded(m, 1) + ("/" + Text(last));
    assert Text(SlashTokens(f, m, l, rest)) == Padded(f, 1) + ("/" + Text(middle));
  }

  function AfterSlashes(f: nat, m: nat, l: nat): State {
    START.(mon := f, mday := m, year := l)
  }

  lemma RunSlashes(f: nat, m: nat, l: nat, rest: Tokens)
    requires Readable(rest) && (Text(rest) == "" || Front(Text(rest)) == ' ')
    ensures Readable(SlashTokens(f, m, l, rest))
    ensures Run(SlashTokens(f, m, l, rest), START) == Run(rest, AfterSlashes(f, m, l))
  {
    hide Padded;
    var last := Cons(Number(Padded(l, 1)), rest);
    var st2 := START.(mon := f, mday := m, prevc := '/');
    assert Readable(last) && Run(last, st2) == Run(rest, AfterSlashes(f, m, l)) by {
      var _ := RunNumber(l, 1, rest, st2);
    }
    var middle := Cons(Number(Padded(m, 1)), Cons(Mark('/'), last));
    var st1 := START.(mon := f, prevc := '/');
    assert Readable(middle) && Run(middle, st1) == Run(last, st2) by {
      var _ := RunNumber(m, 1, Cons(Mark('/'), last), st1);
    }
    var _ := RunNumber(f, 1, Cons(Mark('/'), middle), START);
  }

  /** Midnight or a time of day on a date, in local time. */
  function LocalDate(date: Date, hour: int, min: int, utc: int -> int): int {
    utc(MakeDate(MakeDay(date.year, date.month - 1, date.day), MakeTime(hour, min, 0, 0)))
  }

  lemma FinishSlashes(f: nat, m: nat, l: nat, st: State, utc: int -> int)
    requires st == AfterSlashes(f, m, l).(hour := st.hour, min := st.min)
    ensures Finish(st, utc) ==
              match SlashDate(f, m, l)
              case None => None
              case Some(date) =>
                Some(LocalDate(date, if st.hour < 0 then 0 else st.hour, if st.min < 0 then 0 else st.min, utc))
  {
    hide MakeDay, MakeTime;
  }

  lemma EndIsReadable()
    ensures Readable(End) && Text(End) == "" && forall st :: Run(End, st) == Some(st)
  {
  }

  /** "f/m/l" is read as the comment says, for any three numbers. */
  lemma ParseSlashes(f: nat, m: nat, l: nat, utc: int -> int)
    ensures Parse(Padded(f, 1) + "/" + Padded(m, 1) + "/" + Padded(l, 1), utc) ==
              match SlashDate(f, m, l)
              case None => None
              case Some(date) => Some(LocalDate(date, 0, 0, utc))
  {
    TextOfSlashes(f, m, l, End);
    hide Padded, SlashTokens, Run, Readable, Finish, Scan, Text, SlashDate, LocalDate;
    var text := Padded(f, 1) + "/" + Padded(m, 1) + "/" + Padded(l, 1);
    EndIsReadable();
    assert text + "" == text;
    RunSlashes(f, m, l, End);
    ScanReadsTokens(SlashTokens(f, m, l, End), START);
    FinishSlashes(f, m, l, AfterSlashes(f, m, l), utc);
    assert text != "";
  }

  // ---- the twelve-hour clock ---------------------------------------------------------------------------

  function HalfDay(pm: bool): string {
    if pm then "PM" else "AM"
  }

  /** The hour of the day; there is none for an hour above twelve. */
  function HourOfDay(hour: nat, pm: bool): Option<nat> {
    if hour > 12 then None
    else if pm then Some(if hour == 12 then 12 else hour + 12)
    else Some(if hour == 12 then 0 else hour)
  }

  predicate LettersDiffer(word: string, keyword: string) {
    |word| >= 2 && |keyword| >= 2
    && (ToLower(keyword[0]) != ToLower(word[0]) || ToLower(keyword[1]) != ToLower(word[1]))
  }

  lemma LettersTellApart(word: string, keyword: string)
    requires LettersDiffer(word, keyword)
    ensures !Abbreviates(word, keyword)
  {
  }

  lemma HalfDayKeyword(pm: bool)
    ensures var k := if pm then 1 else 0;
            LastKeyword(HalfDay(pm), |KEYWORDS|) == Some(k) && KEYWORDS[k].1 == if pm then -2 else -1
  {
    var word := HalfDay(pm);
    var k := if pm then 1 else 0;
    assert Abbreviates(word, KEYWORDS[k].0);
    hide LastKeyword, Abbreviates;
    forall j | k < j < |KEYWORDS|
      ensures !Abbreviates(word, KEYWORDS[j].0)
    {
      LettersTellApart(word, KEYWORDS[j].0);
    }
  }

  function ClockTokens12(hour: nat, min: nat, pm: bool): Tokens {
    Cons(Blank(' '), Cons(Number(Padded(hour, 1)), Cons(Mark(':'), Cons(Number(Padded(min, 2)), Cons(Blank(' '),
      Cons(Word(HalfDay(pm)), End))))))
  }

  lemma TextOfClock12(hour: nat, min: nat, pm: bool)
    ensures Text(ClockTokens12(hour, min, pm))
         == " " + Padded(hour, 1) + ":" + Padded(min, 2) + " " + HalfDay(pm)
  {
    hide Padded, HalfDay;
    var half := Cons(Blank(' '), Cons(Word(HalfDay(pm)), End));
    assert Text(Cons(Word(HalfDay(pm)), End)) == HalfDay(pm);
    assert Text(half) == " " + HalfDay(pm);
    var minutes := Cons(Number(Padded(min, 2)), half);
    assert Text(minutes) == Padded(min, 2) + Text(half);
    var clock := Cons(Number(Padded(hour, 1)), Cons(Mark(':'), minutes));
    assert Text(clock) == Padded(hour, 1) + (":" + Text(minutes));
    assert Text(ClockTokens12(hour, min, pm)) == " " + Text(clock);
  }

  lemma RunHalfDay(pm: bool, st: State)
    requires st.hour >= 0 && st.prevc == NUL
    ensures Readable(Cons(Word(HalfDay(pm)), End))
    ensures Run(Cons(Word(HalfDay(pm)), End), st) ==
              match HourOfDay(st.hour, pm)
              case None => None
              case Some(h) => Some(st.(hour := h))
  {
    HalfDayKeyword(pm);
    hide KEYWORDS, LastKeyword;
    assert Text(End) == "";
  }

  lemma RunClock12(hour: nat, min: nat, pm: bool, st: State)
    requires st.prevc == NUL && st.hour == -1 && st.min == -1 && !st.seenplusminus
    ensures Readable(ClockTokens12(hour, min, pm))
    ensures Run(ClockTokens12(hour, min, pm), st) ==
              match HourOfDay(hour, pm)
              case None => None
              case Some(h) => Some(st.(hour := h, min := min))
  {
    hide Padded, KEYWORDS, HalfDay;
    var half := Cons(Word(HalfDay(pm)), End);
    var st2 := st.(hour := hour, min := min);
    RunHalfDay(pm, st2);
    var minutes := Cons(Number(Padded(min, 2)), Cons(Blank(' '), half));
    var st1 := st.(hour := hour, prevc := ':');
    assert Readable(minutes) && Run(minutes, st1) == Run(half, st2) by {
      var _ := RunNumber(min, 2, Cons(Blank(' '), half), st1);
    }
    RunToColon(hour, 1, minutes, st);
  }

  /** "f/m/l h:mm AM" or "PM": half past twelve at night is 0:30, at noon 12:30; hours above twelve are refused. */
  lemma ParseTwelveHours(f: nat, m: nat, l: nat, hour: nat, min: nat, pm: bool, utc: int -> int)
    ensures Parse(Padded(f, 1) + "/" + Padded(m, 1) + "/" + Padded(l, 1)
                  + (" " + Padded(hour, 1) + ":" + Padded(min, 2) + " " + HalfDay(pm)), utc) ==
              match (SlashDate(f, m, l), HourOfDay(hour, pm))
              case (Some(date), Some(h)) => Some(LocalDate(date, h, min, utc))
              case _ => None
  {
    var clock := ClockTokens12(hour, min, pm);
    TextOfClock12(hour, min, pm);
    RunClock12(hour, min, pm, AfterSlashes(f, m, l));
    assert Front(Text(clock)) == ' ';
    TextOfSlashes(f, m, l, clock);
    RunSlashes(f, m, l, clock);
    hide Padded, SlashTokens, ClockTokens12, Run, Readable, Finish, Scan, Text, SlashDate, LocalDate, HalfDay;
    ScanReadsTokens(SlashTokens(f, m, l, clock), START);
    if HourOfDay(hour, pm).Some? {
      FinishSlashes(f, m, l, AfterSlashes(f, m, l).(hour := HourOfDay(hour, pm).value, min := min), utc);
    }
  }

  // ---- the month by name -------------------------------------------------------------------------------

  /**
   * The date meant by a month's name (month from 0) and the numbers f and l: the greater is the year, and exactly one
   * of them must look like one.
   */
  function NamedDate(f: nat, month: nat, l: nat): Option<Date> {
    if (f < 70) == (l < 70) then None else
    var (year, day) := if f < l then (l, f) else (f, l);
    Some(Date(if year < 100 then 1900 + year else year, month + 1, day))
  }

  /** Where the name stands among the numbers. */
  datatype Order = NameFirst | NameBetween | NameLast

  function NamedTokens(order: Order, f: nat, name: string, l: nat): Tokens {
    var (first, last) := (Number(Padded(f, 2)), Number(Padded(l, 2)));
    match order
    case NameFirst => Spaced(Word(name), Spaced(first, Cons(last, End)))
    case NameBetween => Spaced(first, Spaced(Word(name), Cons(last, End)))
    case NameLast => Spaced(first, Spaced(last, Cons(Word(name), End)))
  }

  function NamedText(order: Order, f: nat, name: string, l: nat): string {
    var (first, last) := (Padded(f, 2), Padded(l, 2));
    match order
    case NameFirst => name + " " + first + " " + last
    case NameBetween => first + " " + name + " " + last
    case NameLast => first + " " + last + " " + name
  }

  lemma BlankLexeme()
    ensures Lexeme(Blank(' ')) == " "
  {
  }

  lemma TextOfThree(a: Token, b: Token, c: Token)
    ensures Text(Spaced(a, Spaced(b, Cons(c, End)))) == Lexeme(a) + " " + Lexeme(b) + " " + Lexeme(c)
  {
    hide Lexeme;
    var last := Cons(c, End);
    assert Text(last) == Lexeme(c);
    var middle := Spaced(b, last);
    assert Text(Cons(Blank(' '), last)) == " " + Text(last) by {
      assert Lexeme(Blank(' ')) == " " by {
        BlankLexeme();
      }
    }
    assert Text(middle) == Lexeme(b) + (" " + Text(last));
    assert Text(Cons(Blank(' '), middle)) == " " + Text(middle) by {
      BlankLexeme();
    }
    assert Text(Spaced(a, middle)) == Lexeme(a) + (" " + Text(middle));
  }

  lemma TextOfNamed(order: Order, f: nat, name: string, l: nat)
    ensures Text(NamedTokens(order, f, name, l)) == NamedText(order, f, name, l)
  {
    hide Padded, Text;
    var (first, last) := (Number(Padded(f, 2)), Number(Padded(l, 2)));
    TextOfThree(Word(name), first, last);
    TextOfThree(first, Word(name), last);
    TextOfThree(first, last, Word(name));
  }

  function AfterNamed(order: Order, f: nat, month: nat, l: nat): State {
    var (year, mday) := if order.NameLast? then (f, l) else (l, f);
    START.(year := year, mon := month + 1, mday := mday, seenmonthname := true)
  }

  lemma RunLastNumber(n: nat, st: State)
    requires st.prevc == NUL && !st.seenplusminus && st.hour < 0 && st.mon >= 0 && st.mday >= 0 && st.year < 0
    ensures Readable(Cons(Number(Padded(n, 2)), End))
    ensures Run(Cons(Number(Padded(n, 2)), End), st) == Some(st.(year := n))
  {
    hide Padded;
    EndIsReadable();
    var _ := RunNumber(n, 2, End, st);
  }

  lemma RunLastMonth(month: nat, st: State)
    requires month < 12 && st.prevc == NUL && !st.seenmonthname && st.mon >= 0 && st.mday >= 0 && st.year < 0
    ensures Readable(Cons(Word(MONTHS[month]), End))
    ensures Run(Cons(Word(MONTHS[month]), End), st)
         == Some(st.(year := st.mon, mon := month + 1, seenmonthname := true))
  {
    hide KEYWORDS;
    EndIsReadable();
    MonthKeyword(month);
    RunWord(MONTHS[month], month + 2, End, st);
  }

  lemma RunNamed(order: Order, f: nat, month: nat, l: nat)
    requires month < 12
    ensures Readable(NamedTokens(order, f, MONTHS[month], l))
    ensures Run(NamedTokens(order, f, MONTHS[month], l), START) == Some(AfterNamed(order, f, month, l))
  {
    hide Padded, KEYWORDS, Run, Readable, Text, Spaced;
    var (first, last, name) := (Number(Padded(f, 2)), Number(Padded(l, 2)), Word(MONTHS[month]));
    var named := START.(mon := month + 1, mday := f, seenmonthname := true);
    match order {
      case NameFirst =>
        RunLastNumber(l, named);
        RunDate(f, Cons(last, End), named.(mday := -1));
        RunMonthName(month, Spaced(first, Cons(last, End)), START);
      case NameBetween =>
        RunLastNumber(l, named);
        RunMonthName(month, Cons(last, End), START.(mon := f));
        RunDate(f, Spaced(name, Cons(last, End)), START);
      case NameLast =>
        RunLastMonth(month, START.(mon := f, mday := l));
        RunDate(l, Cons(name, End), START.(mon := f));
        RunDate(f, Spaced(last, Cons(name, End)), START);
    }
  }

  lemma FinishNamed(order: Order, f: nat, month: nat, l: nat, utc: int -> int)
    ensures Finish(AfterNamed(order, f, month, l), utc) ==
              match NamedDate(f, month, l)
              case None => None
              case Some(date) => Some(LocalDate(date, 0, 0, utc))
  {
    hide MakeDay, MakeTime;
  }

  lemma NamedIsNotEmpty(order: Order, f: nat, month: nat, l: nat)
    requires month < 12
    ensures NamedText(order, f, MONTHS[month], l) != ""
  {
    hide Padded;
  }

  /** "month f l", "f month l" and "f l month" all mean the same date, or are all refused. */
  lemma ParseNamed(order: Order, f: nat, month: nat, l: nat, utc: int -> int)
    requires month < 12
    ensures Parse(NamedText(order, f, MONTHS[month], l), utc) ==
              match NamedDate(f, month, l)
              case None => None
              case Some(date) => Some(LocalDate(date, 0, 0, utc))
  {
    hide NamedText, NamedTokens, Run, Readable, Finish, Scan, Text, NamedDate, LocalDate, AfterNamed;
    TextOfNamed(order, f, MONTHS[month], l);
    RunNamed(order, f, month, l);
    ScanReadsTokens(NamedTokens(order, f, MONTHS[month], l), START);
    FinishNamed(order, f, month, l, utc);
    NamedIsNotEmpty(order, f, month, l);
  }
}
