/**
 Reading dates in the seven formats a server accepts: each format is printed here on its own
 account, and every date printed so is read back.
 */
module HttpFormats {
  import opened Calendar
  import opened Common
  import opened HttpDate

  // ----- the formats -----

  /** The seven formats, in the order in which they are tried. */
  datatype Style =
    | DashDate    // 06-Nov-94 08:49:37 GMT
    | BlankDate   // 06 Nov 94 08:49:37 GMT
    | ClockDash   // 08:49:37 GMT 06-Nov-94
    | ClockBlank  // 08:49:37 GMT 06 Nov 94
    | DayDash     // Sunday, 06-Nov-94 08:49:37 GMT
    | DayBlank    // Sun, 06 Nov 1994 08:49:37 GMT
    | DayMonth    // Sun Nov 06 08:49:37 GMT 1994

  const SHORT_DAYS: seq<string> := ["sun", "mon", "tue", "wed", "thu", "fri", "sat"]
  const LONG_DAYS: seq<string> := ["sunday", "monday", "tuesday", "wednesday", "thursday", "friday", "saturday"]
  const SHORT_MONTHS: seq<string> := ["jan", "feb", "mar", "apr", "may", "jun", "jul", "aug", "sep", "oct", "nov", "dec"]
  const LONG_MONTHS: seq<string> := [
    "january", "february", "march", "april", "may", "june",
    "july", "august", "september", "october", "november", "december"]

  /** The short or the long name, in letters of any case. */
  predicate NamesDay(wd: string, wday: nat) {
    wday < 7 && (Lower(wd) == SHORT_DAYS[wday] || Lower(wd) == LONG_DAYS[wday])
  }

  predicate NamesMonth(mo: string, mon: int) {
    0 <= mon < 12 && (Lower(mo) == SHORT_MONTHS[mon] || Lower(mo) == LONG_MONTHS[mon])
  }

  /** All digits of the year, or from 1970 to 2069 its last two. */
  predicate NamesYear(text: string, year: nat) {
    text == Dec(year) || (1970 <= year < 2070 && text == Two(year % 100))
  }

  function ClockText(tm: Tm, after: string): string
    requires ValidTm(tm)
  {
    Two(tm.hour) + (":" + (Two(tm.min) + (":" + (Two(tm.sec) + after))))
  }

  function DateText(sep: string, tm: Tm, mo: string, year: string, after: string): string
    requires ValidTm(tm)
  {
    Two(tm.mday) + (sep + (mo + (sep + (year + after))))
  }

  /** The date `tm` in a format, with the names of its day and month and its year as spelled. */
  function Text(style: Style, tm: Tm, wd: string, mo: string, year: string): string
    requires ValidTm(tm)
  {
    match style
    case DashDate => DateText("-", tm, mo, year, " " + ClockText(tm, " GMT"))
    case BlankDate => DateText(" ", tm, mo, year, " " + ClockText(tm, " GMT"))
    case ClockDash => ClockText(tm, " GMT " + DateText("-", tm, mo, year, ""))
    case ClockBlank => ClockText(tm, " GMT " + DateText(" ", tm, mo, year, ""))
    case DayDash => wd + (", " + DateText("-", tm, mo, year, " " + ClockText(tm, " GMT")))
    case DayBlank => wd + (", " + DateText(" ", tm, mo, year, " " + ClockText(tm, " GMT")))
    case DayMonth => wd + (" " + (mo + (" " + (Two(tm.mday) + (" " + ClockText(tm, " GMT " + year))))))
  }

  // ----- scanning one piece -----

  lemma {:induction false} SpanAll(k: Class, a: string, b: string)
    requires All(k, a) && (b == [] || !In(k, b[0]))
    ensures Span(k, a + b) == |a|
  {
    hide In;
    if a == [] {
      assert a + b == b;
    } else {
      assert (a + b)[1..] == a[1..] + b;
      SpanAll(k, a[1..], b);
    }
  }

  lemma StepAlpha(f: Format, a: string, b: string)
    requires a != [] && All(Alphas, a) && b != [] && !IsAlpha(b[0])
    ensures Scan(Dir(Alpha, f), a + b) == [Str(a)] + Scan(f, b)
  {
    SpanAll(Alphas, a, b);
    assert (a + b)[..|a|] == a && (a + b)[|a|..] == b;
  }

  lemma StepLit(f: Format, c: char, b: string)
    ensures Scan(Dir(Lit(c), f), [c] + b) == Scan(f, b)
  {
    assert ([c] + b)[1..] == b;
  }

  lemma StepSpace(f: Format, a: string, b: string)
    requires All(Spaces, a) && b != [] && !IsSpace(b[0])
    ensures Scan(Dir(Space, f), a + b) == Scan(f, b)
  {
    SpanAll(Spaces, a, b);
    assert (a + b)[|a|..] == b;
  }

  lemma StepInt(f: Format, d: string, b: string)
    requires d != [] && All(Digits, d) && (b == [] || !IsDigit(b[0]))
    ensures Scan(Dir(Int, f), d + b) == [Num(NumVal(d))] + Scan(f, b)
  {
    var s := d + b;
    assert In(Digits, d[0]) && s[0] == d[0] && !IsSpace(s[0]);
    assert Span(Spaces, s) == 0 && s[0..] == s;
    SpanAll(Digits, d, b);
    assert s[..|d|] == d && s[|d|..] == b;
    assert ScanInt(s) == Some((NumVal(d), b));
  }

  /** A number may have a sign, and a minus is heeded. */
  lemma StepSigned(f: Format, minus: bool, d: string, b: string)
    requires d != [] && All(Digits, d) && (b == [] || !IsDigit(b[0]))
    ensures Scan(Dir(Int, f), (if minus then "-" else "+") + (d + b)) == [Num(if minus then -NumVal(d) else NumVal(d))] + Scan(f, b)
  {
    var sign := if minus then "-" else "+";
    var s := sign + (d + b);
    assert Span(Spaces, s) == 0 && s[0..] == s && s[1..] == d + b;
    SpanAll(Digits, d, b);
    assert (d + b)[..|d|] == d && (d + b)[|d|..] == b;
    assert ScanInt(s) == Some((if minus then -NumVal(d) else NumVal(d), b));
  }

  lemma {:induction false} DecIsNumber(n: nat)
    ensures Dec(n) != [] && All(Digits, Dec(n)) && NumVal(Dec(n)) == n
  {
    if n >= 10 {
      DecIsNumber(n / 10);
      assert Dec(n)[..|Dec(n)| - 1] == Dec(n / 10);
    }
  }

  lemma {:induction false} ZerosKeepValue(k: nat, d: string)
    ensures NumVal(Repeat('0', k) + d) == NumVal(d)
    decreases |d|, k
  {
    var s := Repeat('0', k) + d;
    if d != [] {
      assert s[..|s| - 1] == Repeat('0', k) + d[..|d| - 1];
      ZerosKeepValue(k, d[..|d| - 1]);
    } else if k > 0 {
      assert s[..|s| - 1] == Repeat('0', k - 1) + d;
      ZerosKeepValue(k - 1, d);
    }
  }

  lemma TwoIsNumber(n: nat)
    ensures Two(n) != [] && All(Digits, Two(n)) && NumVal(Two(n)) == n
  {
    hide Dec, NumVal;
    DecIsNumber(n);
    if |Dec(n)| < 2 {
      ZerosKeepValue(2 - |Dec(n)|, Dec(n));
    }
  }

  lemma NumberMissing(f: Format, s: string)
    requires s != [] && IsAlpha(s[0])
    ensures Scan(Dir(Int, f), s) == []
  {
    assert Span(Spaces, s) == 0 && s[0..] == s;
  }

  lemma LitMissing(f: Format, c: char, s: string)
    requires s != [] && s[0] != c
    ensures Scan(Dir(Lit(c), f), s) == []
  {
  }

  /** No white space, and no letter after it. */
  lemma WordMissing(f: Format, s: string)
    requires s != [] && !IsAlpha(s[0]) && !IsSpace(s[0])
    ensures Scan(Dir(Space, Dir(Alpha, f)), s) == []
  {
    assert Span(Spaces, s) == 0 && s[0..] == s;
  }

  // ----- names and years -----

  lemma LettersOf(s: string)
    requires All(Alphas, Lower(s))
    ensures |s| == |Lower(s)| && All(Alphas, s)
  {
    LowerAt(s);
    forall i | 0 <= i < |s| ensures In(Alphas, s[i]) {
      assert In(Alphas, Lower(s)[i]);
    }
  }

  lemma DayNames(wday: nat)
    requires wday < 7
    ensures |SHORT_DAYS[wday]| > 0 && All(Alphas, SHORT_DAYS[wday])
    ensures |LONG_DAYS[wday]| > 0 && All(Alphas, LONG_DAYS[wday])
  {
  }

  lemma MonthNames(mon: nat)
    requires mon < 12
    ensures |SHORT_MONTHS[mon]| > 0 && All(Alphas, SHORT_MONTHS[mon])
    ensures |LONG_MONTHS[mon]| > 0 && All(Alphas, LONG_MONTHS[mon])
  {
  }

  /** A date spelled in any of the ways. */
  ghost predicate Spelled(tm: Tm, wd: string, wday: nat, mo: string, year: string) {
    ValidTm(tm) && NamesDay(wd, wday) && NamesMonth(mo, tm.mon) && NamesYear(year, tm.year)
  }

  /** What the parts of a text look like to the scanner. */
  ghost predicate Parts(wd: string, mo: string, year: string) {
    && wd != [] && All(Alphas, wd) && mo != [] && All(Alphas, mo)
    && year != [] && All(Digits, year)
  }

  lemma SpelledParts(tm: Tm, wd: string, wday: nat, mo: string, year: string)
    requires Spelled(tm, wd, wday, mo, year)
    ensures Parts(wd, mo, year) && YearsFrom1900(NumVal(year)) == tm.year - 1900
  {
    hide Lower, In, Dec, NumVal, Two;
    DayNames(wday);
    MonthNames(tm.mon);
    LettersOf(wd);
    LettersOf(mo);
    DecIsNumber(tm.year);
    TwoIsNumber(tm.year % 100);
  }

  const MON_AT: seq<nat> := [8, 6, 14, 0, 16, 12, 10, 2, 21, 19, 17, 4]
  const LONG_MON_AT: seq<nat> := [9, 7, 15, 1, 16, 13, 11, 3, 22, 20, 18, 5]
  const WDAY_AT: seq<nat> := [6, 2, 10, 12, 8, 0, 4]
  const LONG_WDAY_AT: seq<nat> := [7, 3, 11, 13, 9, 1, 5]

  lemma MonthAt(mon: nat)
    requires mon < 12
    ensures MON_TAB[MON_AT[mon]] == StrLong(SHORT_MONTHS[mon], mon)
    ensures MON_TAB[LONG_MON_AT[mon]] == StrLong(LONG_MONTHS[mon], mon)
  {
  }

  lemma DayAt(wday: nat)
    requires wday < 7
    ensures WDAY_TAB[WDAY_AT[wday]] == StrLong(SHORT_DAYS[wday], wday)
    ensures WDAY_TAB[LONG_WDAY_AT[wday]] == StrLong(LONG_DAYS[wday], wday)
  {
  }

  lemma FoundAt(tab: seq<StrLong>, i: nat)
    requires SortedTable(tab) && i < |tab|
    ensures Lookup(tab, tab[i].s) == Some(tab[i].l)
  {
    hide StrLess, Lookup, SortedTable;
    BeforeDiffer(tab, i);
    LookupAt(tab, i);
  }

  /** Every way of writing a name is found in the tables, and stands for the right day or month. */
  lemma NamesFound(wd: string, wday: nat, mo: string, mon: nat)
    requires NamesDay(wd, wday) && NamesMonth(mo, mon)
    ensures ScanWday(wd) == Some(wday) && ScanMon(mo) == Some(mon)
  {
    hide StrLess, Lookup, Lower, SortedTable;
    TablesSorted();
    DayAt(wday);
    MonthAt(mon);
    FoundAt(WDAY_TAB, if Lower(wd) == SHORT_DAYS[wday] then WDAY_AT[wday] else LONG_WDAY_AT[wday]);
    FoundAt(MON_TAB, if Lower(mo) == SHORT_MONTHS[mon] then MON_AT[mon] else LONG_MON_AT[mon]);
  }

  // ----- scanning a clock, a date and the zone -----

  lemma ClockScans(f: Format, tm: Tm, after: string)
    requires ValidTm(tm) && after != [] && !IsDigit(after[0])
    ensures Scan(ClockThen(f), ClockText(tm, after)) == [Num(tm.hour), Num(tm.min), Num(tm.sec)] + Scan(f, after)
  {
    hide Scan, Two, NumVal;
    TwoIsNumber(tm.hour);
    TwoIsNumber(tm.min);
    TwoIsNumber(tm.sec);
    var r1 := Two(tm.sec) + after;
    var r2 := Two(tm.min) + (":" + r1);
    var f1 := Dir(Int, f);
    var f2 := Dir(Int, Dir(Lit(':'), f1));
    StepInt(Dir(Lit(':'), f2), Two(tm.hour), ":" + r2);
    StepLit(f2, ':', r2);
    StepInt(Dir(Lit(':'), f1), Two(tm.min), ":" + r1);
    StepLit(f1, ':', r1);
    StepInt(f, Two(tm.sec), after);
  }

  lemma StartsWithDigit(n: nat, after: string)
    ensures Two(n) + after != [] && IsDigit((Two(n) + after)[0]) && !IsSpace((Two(n) + after)[0]) && !IsAlpha((Two(n) + after)[0])
  {
    hide Two, NumVal;
    TwoIsNumber(n);
    assert In(Digits, Two(n)[0]);
  }

  /** The separator of a date: a dash, or white space. */
  lemma SepScans(dash: bool, f: Format, b: string)
    requires b != [] && !IsSpace(b[0])
    ensures Scan(Dir(if dash then Lit('-') else Space, f), (if dash then "-" else " ") + b) == Scan(f, b)
  {
    hide Scan;
    if dash {
      StepLit(f, '-', b);
    } else {
      StepSpace(f, " ", b);
    }
  }

  lemma DateScans(dash: bool, f: Format, tm: Tm, mo: string, year: string, after: string)
    requires ValidTm(tm) && mo != [] && All(Alphas, mo) && year != [] && All(Digits, year)
    requires after == [] || !IsDigit(after[0])
    ensures Scan(DateThen(if dash then Lit('-') else Space, f), DateText(if dash then "-" else " ", tm, mo, year, after))
         == [Num(tm.mday), Str(mo), Num(NumVal(year))] + Scan(f, after)
  {
    hide Scan, Two, NumVal;
    TwoIsNumber(tm.mday);
    var (sep, text) := if dash then (Lit('-'), "-") else (Space, " ");
    var r1 := year + after;
    var r2 := mo + (text + r1);
    assert In(Alphas, mo[0]) && In(Digits, year[0]);
    var f1 := Dir(Int, f);
    var f2 := Dir(Alpha, Dir(sep, f1));
    StepInt(Dir(sep, f2), Two(tm.mday), text + r2);
    SepScans(dash, f2, r2);
    StepAlpha(Dir(sep, f1), mo, text + r1);
    SepScans(dash, f1, r1);
    StepInt(f, year, after);
  }

  lemma ZoneScans(f: Format, after: string)
    ensures Scan(Dir(Space, Dir(Lit('G'), Dir(Lit('M'), Dir(Lit('T'), f)))), " GMT" + after) == Scan(f, after)
  {
    hide Scan;
    assert " GMT" + after == " " + ("GMT" + after);
    assert "GMT" + after == ['G'] + (['M'] + (['T'] + after));
    StepSpace(Dir(Lit('G'), Dir(Lit('M'), Dir(Lit('T'), f))), " ", "GMT" + after);
    StepLit(Dir(Lit('M'), Dir(Lit('T'), f)), 'G', ['M'] + (['T'] + after));
    StepLit(Dir(Lit('T'), f), 'M', ['T'] + after);
    StepLit(f, 'T', after);
  }

  // ----- the two halves in either order -----

  /** A date, then a clock. */
  lemma DateClockScans(dash: bool, tm: Tm, mo: string, year: string)
    requires ValidTm(tm) && mo != [] && All(Alphas, mo) && year != [] && All(Digits, year)
    ensures Scan(DateThen(if dash then Lit('-') else Space, Dir(Space, ClockThen(GMT))),
                 DateText(if dash then "-" else " ", tm, mo, year, " " + ClockText(tm, " GMT")))
         == [Num(tm.mday), Str(mo), Num(NumVal(year)), Num(tm.hour), Num(tm.min), Num(tm.sec)]
  {
    hide Scan, Two, NumVal, DateText;
    DateScans(dash, Dir(Space, ClockThen(GMT)), tm, mo, year, " " + ClockText(tm, " GMT"));
    StartsWithDigit(tm.hour, ":" + (Two(tm.min) + (":" + (Two(tm.sec) + " GMT"))));
    StepSpace(ClockThen(GMT), " ", ClockText(tm, " GMT"));
    ClockScans(GMT, tm, " GMT");
    assert " GMT" + "" == " GMT";
    ZoneScans(End, "");
    NothingLeft();
  }

  lemma NothingLeft()
    ensures Scan(End, "") == []
  {
  }

  /** A clock, the zone, then what stands after it. */
  lemma ClockZoneScans(f: Format, tm: Tm, after: string)
    requires ValidTm(tm) && after != [] && !IsSpace(after[0])
    ensures Scan(ClockThen(Dir(Space, Dir(Lit('G'), Dir(Lit('M'), Dir(Lit('T'), Dir(Space, f)))))), ClockText(tm, " GMT " + after))
         == [Num(tm.hour), Num(tm.min), Num(tm.sec)] + Scan(f, after)
  {
    hide Scan, Two, NumVal, ClockText;
    ClockScans(Dir(Space, Dir(Lit('G'), Dir(Lit('M'), Dir(Lit('T'), Dir(Space, f))))), tm, " GMT " + after);
    assert " GMT " + after == " GMT" + (" " + after);
    ZoneScans(Dir(Space, f), " " + after);
    StepSpace(f, " ", after);
  }

  lemma ClockDateScans(dash: bool, tm: Tm, mo: string, year: string)
    requires ValidTm(tm) && mo != [] && All(Alphas, mo) && year != [] && All(Digits, year)
    ensures Scan(FORMATS[if dash then 2 else 3], ClockText(tm, " GMT " + DateText(if dash then "-" else " ", tm, mo, year, "")))
         == [Num(tm.hour), Num(tm.min), Num(tm.sec), Num(tm.mday), Str(mo), Num(NumVal(year))]
  {
    hide Scan, Two, NumVal, ClockText;
    var text := if dash then "-" else " ";
    StartsWithDigit(tm.mday, text + (mo + (text + (year + ""))));
    hide DateText;
    ClockZoneScans(DateThen(if dash then Lit('-') else Space, End), tm, DateText(text, tm, mo, year, ""));
    DateScans(dash, End, tm, mo, year, "");
    NothingLeft();
  }

  lemma DayScans(dash: bool, tm: Tm, wd: string, mo: string, year: string)
    requires ValidTm(tm) && Parts(wd, mo, year)
    ensures Scan(FORMATS[if dash then 4 else 5], Text(if dash then DayDash else DayBlank, tm, wd, mo, year))
         == [Str(wd), Num(tm.mday), Str(mo), Num(NumVal(year)), Num(tm.hour), Num(tm.min), Num(tm.sec)]
  {
    hide Scan, Two, NumVal, ClockText;
    var text := if dash then "-" else " ";
    var date := DateText(text, tm, mo, year, " " + ClockText(tm, " GMT"));
    StartsWithDigit(tm.mday, text + (mo + (text + (year + (" " + ClockText(tm, " GMT"))))));
    hide DateText;
    var f := DateThen(if dash then Lit('-') else Space, Dir(Space, ClockThen(GMT)));
    CommaScans(f, wd, date);
    DateClockScans(dash, tm, mo, year);
  }

  lemma CommaScans(f: Format, wd: string, after: string)
    requires wd != [] && All(Alphas, wd) && after != [] && !IsSpace(after[0])
    ensures Scan(Dir(Alpha, Dir(Lit(','), Dir(Space, f))), wd + (", " + after)) == [Str(wd)] + Scan(f, after)
  {
    hide Scan;
    StepAlpha(Dir(Lit(','), Dir(Space, f)), wd, ", " + after);
    assert ", " + after == [','] + (" " + after);
    StepLit(Dir(Space, f), ',', " " + after);
    StepSpace(f, " ", after);
  }

  lemma DayMonthScans(tm: Tm, wd: string, mo: string, year: string)
    requires ValidTm(tm) && Parts(wd, mo, year)
    ensures Scan(FORMATS[6], Text(DayMonth, tm, wd, mo, year))
         == [Str(wd), Str(mo), Num(tm.mday), Num(tm.hour), Num(tm.min), Num(tm.sec), Num(NumVal(year))]
  {
    hide Scan, Two, NumVal;
    assert In(Alphas, mo[0]) && In(Digits, year[0]) && year + "" == year;
    TwoIsNumber(tm.mday);
    StartsWithDigit(tm.hour, ":" + (Two(tm.min) + (":" + (Two(tm.sec) + (" GMT " + year)))));
    hide ClockText;
    var clock := ClockText(tm, " GMT " + year);
    var r1 := Two(tm.mday) + (" " + clock);
    StartsWithDigit(tm.mday, " " + clock);
    var f1 := ClockThen(Dir(Space, Dir(Lit('G'), Dir(Lit('M'), Dir(Lit('T'), Dir(Space, Dir(Int, End)))))));
    var f2 := Dir(Int, Dir(Space, f1));
    StepAlpha(Dir(Space, Dir(Alpha, Dir(Space, f2))), wd, " " + (mo + (" " + r1)));
    StepSpace(Dir(Alpha, Dir(Space, f2)), " ", mo + (" " + r1));
    StepAlpha(Dir(Space, f2), mo, " " + r1);
    StepSpace(f2, " ", r1);
    StepInt(Dir(Space, f1), Two(tm.mday), " " + clock);
    StepSpace(f1, " ", clock);
    ClockZoneScans(Dir(Int, End), tm, year);
    StepInt(End, year, "");
    NothingLeft();
  }

  // ----- earlier formats do not match -----

  function Order(style: Style): (k: nat)
    ensures k < 7
  {
    match style
    case DashDate => 0
    case BlankDate => 1
    case ClockDash => 2
    case ClockBlank => 3
    case DayDash => 4
    case DayBlank => 5
    case DayMonth => 6
  }

  lemma NoDash(f: Format, n: nat, after: string)
    requires after != [] && after[0] != '-' && !IsDigit(after[0])
    ensures |Scan(Dir(Int, Dir(Lit('-'), f)), Two(n) + after)| == 1
  {
    hide Scan, Two, NumVal;
    TwoIsNumber(n);
    StepInt(Dir(Lit('-'), f), Two(n), after);
    LitMissing(f, '-', after);
  }

  lemma NoWord(f: Format, n: nat, after: string)
    requires after != [] && !IsDigit(after[0]) && !IsAlpha(after[0]) && !IsSpace(after[0])
    ensures |Scan(Dir(Int, Dir(Space, Dir(Alpha, f))), Two(n) + after)| == 1
  {
    hide Scan, Two, NumVal;
    TwoIsNumber(n);
    StepInt(Dir(Space, Dir(Alpha, f)), Two(n), after);
    WordMissing(f, after);
  }

  lemma NoComma(f: Format, wd: string, after: string)
    requires wd != [] && All(Alphas, wd) && after != [] && after[0] != ',' && !IsAlpha(after[0])
    ensures |Scan(Dir(Alpha, Dir(Lit(','), f)), wd + after)| == 1
  {
    hide Scan;
    StepAlpha(Dir(Lit(','), f), wd, after);
    LitMissing(f, ',', after);
  }

  ghost predicate Fails(k: nat, s: string)
    requires k < 7
  {
    |Scan(FORMATS[k], s)| < 6
  }

  lemma BlankDateFails(tm: Tm, wd: string, mo: string, year: string)
    requires ValidTm(tm)
    ensures Fails(0, Text(BlankDate, tm, wd, mo, year))
  {
    hide Scan, Two, NumVal, ClockText;
    NoDash(FORMATS[0].rest.rest, tm.mday, " " + (mo + (" " + (year + (" " + ClockText(tm, " GMT"))))));
  }

  lemma ClockFails(tm: Tm, after: string)
    requires ValidTm(tm)
    ensures Fails(0, ClockText(tm, after)) && Fails(1, ClockText(tm, after))
  {
    hide Scan, Two, NumVal;
    var r := ":" + (Two(tm.min) + (":" + (Two(tm.sec) + after)));
    NoDash(FORMATS[0].rest.rest, tm.hour, r);
    NoWord(FORMATS[1].rest.rest.rest, tm.hour, r);
  }

  lemma ClockBlankFails(tm: Tm, wd: string, mo: string, year: string)
    requires ValidTm(tm)
    ensures Fails(2, Text(ClockBlank, tm, wd, mo, year))
  {
    hide Scan, Two, NumVal, ClockText;
    var r := " " + (mo + (" " + (year + "")));
    StartsWithDigit(tm.mday, r);
    var f := DateThen(Lit('-'), End);
    ClockZoneScans(f, tm, DateText(" ", tm, mo, year, ""));
    NoDash(f.rest.rest, tm.mday, r);
  }

  lemma DayFails(wd: string, after: string)
    requires wd != [] && All(Alphas, wd)
    ensures Fails(0, wd + after) && Fails(1, wd + after) && Fails(2, wd + after) && Fails(3, wd + after)
  {
    hide Scan;
    assert In(Alphas, wd[0]);
    NumberMissing(FORMATS[0].rest, wd + after);
    NumberMissing(FORMATS[1].rest, wd + after);
    NumberMissing(FORMATS[2].rest, wd + after);
    NumberMissing(FORMATS[3].rest, wd + after);
  }

  lemma DayBlankFails(tm: Tm, wd: string, mo: string, year: string)
    requires ValidTm(tm) && wd != [] && All(Alphas, wd)
    ensures Fails(4, Text(DayBlank, tm, wd, mo, year))
  {
    hide Scan, Two, NumVal, ClockText;
    var r := " " + (mo + (" " + (year + (" " + ClockText(tm, " GMT")))));
    StartsWithDigit(tm.mday, r);
    var f := DateThen(Lit('-'), Dir(Space, ClockThen(GMT)));
    CommaScans(f, wd, Two(tm.mday) + r);
    NoDash(f.rest.rest, tm.mday, r);
  }

  lemma DayMonthFails(tm: Tm, wd: string, mo: string, year: string)
    requires ValidTm(tm) && wd != [] && All(Alphas, wd)
    ensures Fails(4, Text(DayMonth, tm, wd, mo, year)) && Fails(5, Text(DayMonth, tm, wd, mo, year))
  {
    hide Scan, Two, NumVal, ClockText;
    var r := " " + (mo + (" " + (Two(tm.mday) + (" " + ClockText(tm, " GMT " + year)))));
    NoComma(FORMATS[4].rest.rest, wd, r);
    NoComma(FORMATS[5].rest.rest, wd, r);
  }

  lemma EarlierFail(style: Style, tm: Tm, wd: string, mo: string, year: string)
    requires ValidTm(tm) && Parts(wd, mo, year)
    ensures forall k | 0 <= k < Order(style) :: Fails(k, Text(style, tm, wd, mo, year))
  {
    hide Fails, ClockText, DateText;
    match style {
      case DashDate =>
      case BlankDate => BlankDateFails(tm, wd, mo, year);
      case ClockDash => ClockFails(tm, " GMT " + DateText("-", tm, mo, year, ""));
      case ClockBlank =>
        ClockFails(tm, " GMT " + DateText(" ", tm, mo, year, ""));
        ClockBlankFails(tm, wd, mo, year);
      case DayDash => DayFails(wd, ", " + DateText("-", tm, mo, year, " " + ClockText(tm, " GMT")));
      case DayBlank =>
        DayFails(wd, ", " + DateText(" ", tm, mo, year, " " + ClockText(tm, " GMT")));
        DayBlankFails(tm, wd, mo, year);
      case DayMonth =>
        DayFails(wd, " " + (mo + (" " + (Two(tm.mday) + (" " + ClockText(tm, " GMT " + year))))));
        DayMonthFails(tm, wd, mo, year);
    }
  }

  lemma {:induction false} FirstIs(j: nat, k: nat, s: string)
    requires j <= k < 7 && Attempt(k, s).Some? && forall i | j <= i < k :: Fails(i, s)
    ensures FirstMatch(j, s) == Attempt(k, s)
    decreases k - j
  {
    hide Scan, ScanWday, ScanMon;
    if j < k {
      assert Fails(j, s);
      FirstIs(j + 1, k, s);
    }
  }

  // ----- every format is read back -----

  /** The values of the conversions, in the order of the text. */
  function Values(style: Style, tm: Tm, wd: string, mo: string, y: int): seq<Val> {
    var date, clock := [Num(tm.mday), Str(mo), Num(y)], [Num(tm.hour), Num(tm.min), Num(tm.sec)];
    match style
    case DashDate => date + clock
    case BlankDate => date + clock
    case ClockDash => clock + date
    case ClockBlank => clock + date
    case DayDash => [Str(wd)] + date + clock
    case DayBlank => [Str(wd)] + date + clock
    case DayMonth => [Str(wd), Str(mo), Num(tm.mday)] + clock + [Num(y)]
  }

  lemma TextScans(style: Style, tm: Tm, wd: string, mo: string, year: string)
    requires ValidTm(tm) && Parts(wd, mo, year)
    ensures Scan(FORMATS[Order(style)], Text(style, tm, wd, mo, year)) == Values(style, tm, wd, mo, NumVal(year))
  {
    hide Scan, ClockText, DateText, NumVal;
    match style {
      case DashDate => DateClockScans(true, tm, mo, year);
      case BlankDate => DateClockScans(false, tm, mo, year);
      case ClockDash => ClockDateScans(true, tm, mo, year);
      case ClockBlank => ClockDateScans(false, tm, mo, year);
      case DayDash => DayScans(true, tm, wd, mo, year);
      case DayBlank => DayScans(false, tm, wd, mo, year);
      case DayMonth => DayMonthScans(tm, wd, mo, year);
    }
  }

  lemma AttemptReads(style: Style, tm: Tm, s: string, wd: string, mo: string, y: int)
    requires ValidTm(tm) && Scan(FORMATS[Order(style)], s) == Values(style, tm, wd, mo, y)
    requires ScanWday(wd).Some? && ScanMon(mo) == Some(tm.mon)
    ensures Attempt(Order(style), s) == Some(tm.(year := y))
  {
    hide Scan, ScanWday, ScanMon;
  }

  lemma NoBlankInFront(style: Style, tm: Tm, wd: string, mo: string, year: string)
    requires ValidTm(tm) && Parts(wd, mo, year)
    ensures var s := Text(style, tm, wd, mo, year); s != [] && s[0] != ' ' && s[0] != '\t'
  {
    hide Two, NumVal;
    TwoIsNumber(tm.hour);
    TwoIsNumber(tm.mday);
    assert In(Digits, Two(tm.hour)[0]) && In(Digits, Two(tm.mday)[0]) && In(Alphas, wd[0]);
  }

  lemma {:induction false} BlanksSkipped(blanks: string, s: string)
    requires (forall i | 0 <= i < |blanks| :: blanks[i] == ' ' || blanks[i] == '\t') && s != [] && s[0] != ' ' && s[0] != '\t'
    ensures SkipBlanks(blanks + s) == s
  {
    if blanks == [] {
      assert blanks + s == s;
    } else {
      assert (blanks + s)[1..] == blanks[1..] + s;
      BlanksSkipped(blanks[1..], s);
    }
  }

  /** In each format, behind any number of blanks, every field comes back. */
  lemma ReadsEveryFormat(style: Style, blanks: string, tm: Tm, wd: string, wday: nat, mo: string, year: string)
    requires Spelled(tm, wd, wday, mo, year)
    requires forall i | 0 <= i < |blanks| :: blanks[i] == ' ' || blanks[i] == '\t'
    ensures FirstMatch(0, SkipBlanks(blanks + Text(style, tm, wd, mo, year))) == Some(tm.(year := NumVal(year)))
    ensures YearsFrom1900(NumVal(year)) == tm.year - 1900
  {
    hide Scan, Text, Values, Attempt, FirstMatch, SkipBlanks, ScanWday, ScanMon, NumVal, Fails, NamesDay, NamesMonth, NamesYear;
    var s := Text(style, tm, wd, mo, year);
    SpelledParts(tm, wd, wday, mo, year);
    hide Parts;
    NamesFound(wd, wday, mo, tm.mon);
    NoBlankInFront(style, tm, wd, mo, year);
    BlanksSkipped(blanks, s);
    TextScans(style, tm, wd, mo, year);
    AttemptReads(style, tm, s, wd, mo, NumVal(year));
    EarlierFail(style, tm, wd, mo, year);
    FirstIs(0, Order(style), s);
  }

  /** So every date in every format is read as its time, with a four-digit or a two-digit year,
      up to the error of the leap test. */
  lemma ParsesEveryFormat(style: Style, blanks: string, tm: Tm, wd: string, wday: nat, mo: string, year: string)
    requires Spelled(tm, wd, wday, mo, year)
    requires forall i | 0 <= i < |blanks| :: blanks[i] == ' ' || blanks[i] == '\t'
    ensures HttpdateToTimet(blanks + Text(style, tm, wd, mo, year)) == Epoch(tm) + 86400 * DayError(tm.year, tm.mon)
  {
    hide FirstMatch, Text, Time, NumVal, YearsFrom1900, NamesDay, NamesMonth, NamesYear;
    ReadsEveryFormat(style, blanks, tm, wd, wday, mo, year);
    TimeIsEpoch(tm.(year := tm.year - 1900));
  }

  // ----- printing and parsing -----

  lemma LowerThree(s: string)
    requires |s| == 3
    ensures Lower(s) == [LowerChar(s[0]), LowerChar(s[1]), LowerChar(s[2])]
  {
    LowerAt(s);
  }

  lemma PrintedNames(wday: nat, mon: nat)
    requires wday < 7 && mon < 12
    ensures NamesDay(DAY_OF_WEEK[wday], wday) && NamesMonth(MONTHS[mon], mon)
  {
    hide Lower;
    LowerThree(DAY_OF_WEEK[wday]);
    LowerThree(MONTHS[mon]);
  }

  /** From the year 1000 on, "%4d" pads nothing. */
  lemma YearNotPadded(year: nat)
    requires year >= 1000
    ensures PadLeft(' ', 4, Dec(year)) == Dec(year)
  {
    assert |Dec(year / 10 / 10)| >= 2;
    assert |Dec(year / 10)| >= 3;
  }

  /** What the server prints is the sixth format. */
  lemma PrintedIsDayBlank(wday: nat, tm: Tm)
    requires wday < 7 && ValidTm(tm)
    ensures PrintTm(wday, tm) == Text(DayBlank, tm, DAY_OF_WEEK[wday], MONTHS[tm.mon], Dec(tm.year))
  {
    hide Two, Dec;
    YearNotPadded(tm.year);
  }

  /** The first three letters name the day, which is one further each day. */
  lemma PrintNamesTheDay(t: nat)
    ensures |Print(t)| > 3 && Lower(Print(t)[..3]) == SHORT_DAYS[Weekday(t)]
    ensures t < 86400 ==> Weekday(t) == 4
    ensures Weekday(t + 86400) == if Weekday(t) == 6 then 0 else Weekday(t) + 1
  {
    hide Lower, Two, Dec, Gmtime;
    WeekdayAdvances(t);
    hide Weekday;
    NamesAreWords(Weekday(t), 0);
    LowerThree(DAY_OF_WEEK[Weekday(t)]);
    assert Print(t)[..3] == DAY_OF_WEEK[Weekday(t)];
  }

  /** The printed date is read by the sixth format, and all fields come back. */
  lemma ParsePrinted(wday: nat, tm: Tm)
    requires wday < 7 && ValidTm(tm)
    ensures FirstMatch(0, SkipBlanks(PrintTm(wday, tm))) == Some(tm)
  {
    hide FirstMatch, SkipBlanks, PrintTm, Text, Dec, NumVal, YearsFrom1900, NamesDay, NamesMonth;
    PrintedIsDayBlank(wday, tm);
    PrintedNames(wday, tm.mon);
    DecIsNumber(tm.year);
    assert "" + PrintTm(wday, tm) == PrintTm(wday, tm);
    ReadsEveryFormat(DayBlank, "", tm, DAY_OF_WEEK[wday], wday, MONTHS[tm.mon], Dec(tm.year));
  }

  /** Parsing a printed date gives the time back, up to the error of the leap test. */
  lemma RoundTripTm(wday: nat, tm: Tm)
    requires wday < 7 && ValidTm(tm)
    ensures HttpdateToTimet(PrintTm(wday, tm)) == Epoch(tm) + 86400 * DayError(tm.year, tm.mon)
  {
    hide FirstMatch, PrintTm, Time;
    ParsePrinted(wday, tm);
    TimeIsEpoch(tm.(year := tm.year - 1900));
  }

  /** For every time from 1970 on, parsing what was printed returns it exactly when it is not in
      March to December of a year that is 0 or 300 modulo 400. */
  lemma RoundTripIff(t: nat)
    ensures HttpdateToTimet(Print(t)) == t <==>
      var tm := Gmtime(t); !(tm.mon >= 2 && (tm.year % 400 == 0 || tm.year % 400 == 300))
    ensures HttpdateToTimet(Print(t)) == t + 86400 * DayError(Gmtime(t).year, Gmtime(t).mon)
  {
    hide HttpdateToTimet, PrintTm, Gmtime, Epoch, Weekday;
    RoundTripTm(Weekday(t), Gmtime(t));
  }

  /** The first of March 2000 is read as the day before it, and that of 2300 as the day after. */
  lemma RoundTripFails()
    ensures var tm := Tm(2000, 2, 1, 0, 0, 0); ValidTm(tm) && HttpdateToTimet(PrintTm(3, tm)) == Epoch(tm) - 86400
    ensures var tm := Tm(2300, 2, 1, 0, 0, 0); ValidTm(tm) && HttpdateToTimet(PrintTm(4, tm)) == Epoch(tm) + 86400
  {
    hide HttpdateToTimet, PrintTm, Epoch;
    RoundTripTm(3, Tm(2000, 2, 1, 0, 0, 0));
    RoundTripTm(4, Tm(2300, 2, 1, 0, 0, 0));
  }
}
