/**
 HTTP dates: parsing the date formats a server meets into seconds since 1970, and
 printing the format it sends.
 */
module HttpDate {
  import opened Calendar
  import opened Common

  // ----- tm_to_time -----

  /** C division, which truncates toward zero. */
  function CDiv(a: int, b: int): int
    requires b > 0
  {
    if a >= 0 then a / b else -((-a) / b)
  }

  /** C remainder compared with zero. */
  predicate Divides(b: int, a: int)
    requires b > 0
  {
    a % b == 0
  }

  predicate IsLeap(year: int) {
    if !Divides(400, year) then (if !Divides(100, year) then (if !Divides(4, year) then false else true) else false) else true
  }

  const MONTHTAB: seq<int> := [0, 31, 59, 90, 120, 151, 181, 212, 243, 273, 304, 334]

  /** Leap days of the years before `1900 + ty`, counted from 1970. */
  function LeapDays(ty: int): int {
    CDiv(ty - 1 - 68, 4)
    - (if ty > 200 then CDiv(ty - 1 - 100, 100) else 0)
    + (if ty > 500 then CDiv(ty - 1 - 100, 400) else 0)
  }

  /** The leap test is given the year minus 1900, so it is wrong from March on in two years
      out of four hundred: one day early or one day late. */
  function DayError(year: int, mon: int): int {
    if mon < 2 then 0 else if year % 400 == 0 then -1 else if year % 400 == 300 then 1 else 0
  }

  lemma Step4(ty: int)
    ensures (ty - 68) / 4 == (ty - 69) / 4 + (if (1900 + ty) % 4 == 0 then 1 else 0)
  {
  }

  lemma Step100(ty: int)
    ensures (ty - 100) / 100 == (ty - 101) / 100 + (if (1900 + ty) % 100 == 0 then 1 else 0)
  {
  }

  lemma Step400(ty: int)
    ensures (ty - 100) / 400 == (ty - 101) / 400 + (if (1900 + ty) % 400 == 0 then 1 else 0)
  {
  }

  lemma LeapDaysTerms(ty: int, past: int)
    requires ty >= 70 && past == ty - 101
    ensures LeapDays(ty) == (past + 32) / 4 - (if ty > 200 then past / 100 else 0) + (if ty > 500 then past / 400 else 0)
  {
  }

  lemma LeapStep(ty: int)
    requires ty >= 70
    ensures LeapDays(ty + 1) == LeapDays(ty) + (if Leap(1900 + ty) then 1 else 0)
  {
    hide LeapDays;
    LeapDaysTerms(ty, ty - 101);
    LeapDaysTerms(ty + 1, ty - 100);
    Step4(ty);
    Step100(ty);
    Step400(ty);
    Centuries(ty);
  }

  /** Before 2101 the century terms are zero anyway, but for the leap year 2000. */
  lemma Centuries(ty: int)
    requires ty >= 70
    ensures 101 <= ty <= 200 ==> (ty - 101) / 100 == 0
    ensures 101 <= ty <= 500 ==> (ty - 101) / 400 == 0
    ensures ty <= 199 ==> ((1900 + ty) % 100 == 0 <==> ty == 100)
    ensures ty < 100 ==> (1900 + ty) % 400 == 300 + ty
    ensures 100 <= ty < 500 ==> (1900 + ty) % 400 == ty - 100
  {
  }

  /** The count of leap days in earlier years is exact, for all years from 1970. */
  lemma {:induction false} LeapDaysExact(year: int)
    requires year >= 1970
    ensures (year - 1970) * 365 + LeapDays(year - 1900) == DaysBeforeYear(year)
    decreases year
  {
    if year > 1970 {
      LeapDaysExact(year - 1);
      LeapStep(year - 1901);
    }
  }

  lemma MonthTabExact(year: int, mon: int)
    requires 0 <= mon < 12
    ensures MONTHTAB[mon] + (if mon >= 2 && Leap(year) then 1 else 0) == DaysBeforeMonth(year, mon)
  {
    MonthStarts(year);
  }

  lemma IsLeapOff(year: int)
    ensures (if IsLeap(year - 1900) then 1 else 0) - (if Leap(year) then 1 else 0) ==
            if year % 400 == 0 then -1 else if year % 400 == 300 then 1 else 0
  {
    hide Divides;
    LeapTests(year);
  }

  /** The year minus 1900 has the same place in its century, but not in its four centuries. */
  lemma LeapTests(year: int)
    ensures Divides(4, year - 1900) <==> year % 4 == 0
    ensures Divides(100, year - 1900) <==> year % 100 == 0
    ensures Divides(400, year - 1900) <==> year % 400 == 300
    ensures year % 100 == 0 ==> year % 4 == 0
    ensures year % 400 == 0 || year % 400 == 300 ==> year % 100 == 0
  {
    Place4(year);
    Place100(year);
    Place400(year);
  }

  lemma Place4(year: int)
    ensures (year - 1900) % 4 == year % 4 && (year % 100 == 0 ==> year % 4 == 0)
  {
    var k := year / 100;
    assert year % 100 == 0 ==> year == 4 * (25 * k);
  }

  lemma Place100(year: int)
    ensures (year - 1900) % 100 == year % 100 && (year % 400 == 0 || year % 400 == 300 ==> year % 100 == 0)
  {
    var k := year / 400;
    assert year % 400 == 0 ==> year == 100 * (4 * k);
    assert year % 400 == 300 ==> year == 100 * (4 * k + 3);
  }

  lemma Place400(year: int)
    ensures (year - 1900) % 400 == 0 <==> year % 400 == 300
  {
  }

  /** tm_to_time, with `tm.year` counted from 1900: exact up to the error of the leap test. */
  method TmToTime(tm: Tm) returns (t: int)
    requires 0 <= tm.mon < 12
    ensures t == Time(tm)
    ensures tm.year >= 70 ==>
      var full := tm.(year := tm.year + 1900);
      t == Epoch(full) + 86400 * DayError(full.year, full.mon)
  {
    t := (tm.year - 70) * 365;
    t := t + CDiv(tm.year - 1 - 68, 4);
    if tm.year > 200 {
      t := t - CDiv(tm.year - 1 - 100, 100);
    }
    if tm.year > 500 {
      t := t + CDiv(tm.year - 1 - 100, 400);
    }
    t := t + MONTHTAB[tm.mon];
    if tm.mon >= 2 && IsLeap(tm.year) {
      t := t + 1;
    }
    t := t + tm.mday - 1;
    t := t * 24 + tm.hour;
    t := t * 60 + tm.min;
    t := t * 60 + tm.sec;
    TimeIsEpoch(tm);
  }

  function Time(tm: Tm): int
    requires 0 <= tm.mon < 12
  {
    var days := (tm.year - 70) * 365 + LeapDays(tm.year) + MONTHTAB[tm.mon]
                + (if tm.mon >= 2 && IsLeap(tm.year) then 1 else 0) + tm.mday - 1;
    ((days * 24 + tm.hour) * 60 + tm.min) * 60 + tm.sec
  }

  lemma TimeIsEpoch(tm: Tm)
    requires 0 <= tm.mon < 12
    ensures tm.year >= 70 ==>
      var full := tm.(year := tm.year + 1900);
      Time(tm) == Epoch(full) + 86400 * DayError(full.year, full.mon)
  {
    hide LeapDays, IsLeap, Leap;
    if tm.year >= 70 {
      LeapDaysExact(tm.year + 1900);
      MonthTabExact(tm.year + 1900, tm.mon);
      IsLeapOff(tm.year + 1900);
    }
  }

  // ----- names -----

  datatype StrLong = StrLong(s: string, l: int)

  /** strcmp < 0 */
  predicate StrLess(a: string, b: string) {
    b != [] && (a == [] || a[0] < b[0] || (a[0] == b[0] && StrLess(a[1..], b[1..])))
  }

  lemma {:induction false} StrLessTransitive(a: string, b: string, c: string)
    requires StrLess(a, b) && StrLess(b, c)
    ensures StrLess(a, c)
  {
    if a != [] && a[0] == b[0] && b[0] == c[0] {
      StrLessTransitive(a[1..], b[1..], c[1..]);
    }
  }

  lemma {:induction false} StrLessTotal(a: string, b: string)
    ensures StrLess(a, b) || a == b || StrLess(b, a)
    ensures !(StrLess(a, b) && StrLess(b, a)) && !StrLess(a, a)
  {
    if a != [] && b != [] {
      StrLessTotal(a[1..], b[1..]);
      StrLessTotal(a[1..], a[1..]);
      assert a == [a[0]] + a[1..] && b == [b[0]] + b[1..];
    } else if a != [] {
      StrLessTotal(a[1..], a[1..]);
    }
  }

  ghost predicate SortedTable(tab: seq<StrLong>) {
    forall i, j | 0 <= i < j < |tab| :: StrLess(tab[i].s, tab[j].s)
  }

  /** The value of the first entry with this name. */
  function Lookup(tab: seq<StrLong>, str: string): Option<int> {
    if tab == [] then None else if tab[0].s == str then Some(tab[0].l) else Lookup(tab[1..], str)
  }

  lemma {:induction false} LookupAt(tab: seq<StrLong>, i: nat)
    requires i < |tab| && forall j | 0 <= j < i :: tab[j].s != tab[i].s
    ensures Lookup(tab, tab[i].s) == Some(tab[i].l)
  {
    if i > 0 {
      assert forall j | 0 <= j < i - 1 :: tab[1..][j] == tab[j + 1];
      LookupAt(tab[1..], i - 1);
    }
  }

  lemma {:induction false} LookupNone(tab: seq<StrLong>, str: string)
    requires forall j | 0 <= j < |tab| :: tab[j].s != str
    ensures Lookup(tab, str) == None
  {
    if tab != [] {
      LookupNone(tab[1..], str);
    }
  }

  /** strlong_search: on a sorted table binary search finds what a search in order finds. */
  method StrlongSearch(str: string, tab: seq<StrLong>) returns (r: Option<int>)
    requires tab != [] && SortedTable(tab)
    ensures r == Lookup(tab, str)
  {
    hide StrLess, Lookup;
    var l, h := 0, |tab| - 1;
    while true
      invariant 0 <= l <= h < |tab|
      invariant forall i | 0 <= i < l || h < i < |tab| :: tab[i].s != str
      decreases h - l
    {
      var i := (h + l) / 2;
      StrLessTotal(str, tab[i].s);
      if StrLess(str, tab[i].s) {
        AboveDiffer(tab, i, str);
        h := i - 1;
      } else if StrLess(tab[i].s, str) {
        BelowDiffer(tab, i, str);
        l := i + 1;
      } else {
        BeforeDiffer(tab, i);
        LookupAt(tab, i);
        return Some(tab[i].l);
      }
      if h < l {
        LookupNone(tab, str);
        return None;
      }
    }
  }

  lemma AboveDiffer(tab: seq<StrLong>, i: nat, str: string)
    requires SortedTable(tab) && i < |tab| && StrLess(str, tab[i].s)
    ensures forall j | i <= j < |tab| :: tab[j].s != str
  {
    forall j | i <= j < |tab| ensures tab[j].s != str {
      if i < j { StrLessTransitive(str, tab[i].s, tab[j].s); }
      StrLessTotal(str, str);
    }
  }

  lemma BelowDiffer(tab: seq<StrLong>, i: nat, str: string)
    requires SortedTable(tab) && i < |tab| && StrLess(tab[i].s, str)
    ensures forall j | 0 <= j <= i :: tab[j].s != str
  {
    forall j | 0 <= j <= i ensures tab[j].s != str {
      if j < i { StrLessTransitive(tab[j].s, tab[i].s, str); }
      StrLessTotal(str, str);
    }
  }

  lemma BeforeDiffer(tab: seq<StrLong>, i: nat)
    requires SortedTable(tab) && i < |tab|
    ensures forall j | 0 <= j < i :: tab[j].s != tab[i].s
  {
    StrLessTotal(tab[i].s, tab[i].s);
  }

  /** mon_tab and wday_tab as qsort leaves them. */
  const MON_TAB: seq<StrLong> := [
    StrLong("apr", 3), StrLong("april", 3), StrLong("aug", 7), StrLong("august", 7), StrLong("dec", 11),
    StrLong("december", 11), StrLong("feb", 1), StrLong("february", 1), StrLong("jan", 0), StrLong("january", 0),
    StrLong("jul", 6), StrLong("july", 6), StrLong("jun", 5), StrLong("june", 5), StrLong("mar", 2),
    StrLong("march", 2), StrLong("may", 4), StrLong("nov", 10), StrLong("november", 10), StrLong("oct", 9),
    StrLong("october", 9), StrLong("sep", 8), StrLong("september", 8)]

  const WDAY_TAB: seq<StrLong> := [
    StrLong("fri", 5), StrLong("friday", 5), StrLong("mon", 1), StrLong("monday", 1), StrLong("sat", 6),
    StrLong("saturday", 6), StrLong("sun", 0), StrLong("sunday", 0), StrLong("thu", 4), StrLong("thursday", 4),
    StrLong("tue", 2), StrLong("tuesday", 2), StrLong("wed", 3), StrLong("wednesday", 3)]

  /** Neighbours in order make the whole table sorted. */
  lemma {:induction false} Chain(tab: seq<StrLong>, i: nat, j: nat)
    requires forall k | 0 <= k < |tab| - 1 :: StrLess(tab[k].s, tab[k + 1].s)
    requires i < j < |tab|
    ensures StrLess(tab[i].s, tab[j].s)
    decreases j - i
  {
    if i + 1 < j {
      Chain(tab, i, j - 1);
      assert StrLess(tab[j - 1].s, tab[j - 1 + 1].s);
      StrLessTransitive(tab[i].s, tab[j - 1].s, tab[j].s);
    }
  }

  /** Names are ordered by the first place where they differ. */
  lemma {:induction false} LessAt(a: string, b: string, n: nat)
    requires n <= |a| && n < |b| && a[..n] == b[..n] && (n == |a| || a[n] < b[n])
    ensures StrLess(a, b)
  {
    if n > 0 {
      assert a[0] == a[..n][0] == b[..n][0] == b[0];
      assert a[1..][..n - 1] == a[..n][1..] == b[..n][1..] == b[1..][..n - 1];
      LessAt(a[1..], b[1..], n - 1);
    }
  }

  lemma MonPairLow(k: nat)
    requires k < 11
    ensures StrLess(MON_TAB[k].s, MON_TAB[k + 1].s)
  {
    hide StrLess;
    LessAt(MON_TAB[k].s, MON_TAB[k + 1].s, [3, 1, 3, 0, 3, 0, 3, 0, 3, 1, 3][k]);
  }

  lemma MonPairHigh(k: nat)
    requires 11 <= k < |MON_TAB| - 1
    ensures StrLess(MON_TAB[k].s, MON_TAB[k + 1].s)
  {
    hide StrLess;
    LessAt(MON_TAB[k].s, MON_TAB[k + 1].s, [2, 3, 0, 3, 2, 0, 3, 0, 3, 0, 3][k - 11]);
  }

  lemma MonPair(k: nat)
    requires k < |MON_TAB| - 1
    ensures StrLess(MON_TAB[k].s, MON_TAB[k + 1].s)
  {
    hide StrLess;
    if k < 11 {
      MonPairLow(k);
    } else {
      MonPairHigh(k);
    }
  }

  lemma WdayPair(k: nat)
    requires k < |WDAY_TAB| - 1
    ensures StrLess(WDAY_TAB[k].s, WDAY_TAB[k + 1].s)
  {
    hide StrLess;
    LessAt(WDAY_TAB[k].s, WDAY_TAB[k + 1].s, [3, 0, 3, 0, 3, 1, 3, 0, 3, 1, 3, 0, 3][k]);
  }

  lemma TablesSorted()
    ensures SortedTable(MON_TAB) && SortedTable(WDAY_TAB)
  {
    hide StrLess;
    forall i, j | 0 <= i < j < |MON_TAB| ensures StrLess(MON_TAB[i].s, MON_TAB[j].s) {
      forall k | 0 <= k < |MON_TAB| - 1 ensures StrLess(MON_TAB[k].s, MON_TAB[k + 1].s) { MonPair(k); }
      Chain(MON_TAB, i, j);
    }
    forall i, j | 0 <= i < j < |WDAY_TAB| ensures StrLess(WDAY_TAB[i].s, WDAY_TAB[j].s) {
      forall k | 0 <= k < |WDAY_TAB| - 1 ensures StrLess(WDAY_TAB[k].s, WDAY_TAB[k + 1].s) { WdayPair(k); }
      Chain(WDAY_TAB, i, j);
    }
  }

  function LowerChar(c: char): char {
    if 'A' <= c <= 'Z' then (c as int + 32) as char else c
  }

  function Lower(s: string): string {
    if s == [] then [] else [LowerChar(s[0])] + Lower(s[1..])
  }

  // ----- scanning -----

  datatype Dir = Int | Alpha | Lit(c: char) | Space

  /** A scanf format: conversions, characters to match and white space to skip. */
  datatype Format = End | Dir(d: Dir, rest: Format)

  datatype Val = Num(n: int) | Str(s: string)

  predicate IsDigit(c: char) { '0' <= c <= '9' }
  predicate IsAlpha(c: char) { 'a' <= c <= 'z' || 'A' <= c <= 'Z' }
  predicate IsSpace(c: char) { c == ' ' || '\t' <= c <= '\r' }

  datatype Class = Digits | Alphas | Spaces

  predicate In(k: Class, c: char) {
    match k
    case Digits => IsDigit(c)
    case Alphas => IsAlpha(c)
    case Spaces => IsSpace(c)
  }

  ghost predicate All(k: Class, s: string) {
    forall i | 0 <= i < |s| :: In(k, s[i])
  }

  /** The length of the longest prefix of characters of a class. */
  function Span(k: Class, s: string): (n: nat)
    ensures n <= |s|
  {
    if s != [] && In(k, s[0]) then 1 + Span(k, s[1..]) else 0
  }

  function NumVal(digits: string): int {
    if digits == [] then 0
    else 10 * NumVal(digits[..|digits| - 1]) + (digits[|digits| - 1] as int - '0' as int)
  }

  /** The %d conversion: the number and what follows it. */
  function ScanInt(s: string): Option<(int, string)> {
    var s := s[Span(Spaces, s)..];
    var signed := s != [] && (s[0] == '-' || s[0] == '+');
    var t := if signed then s[1..] else s;
    var n := Span(Digits, t);
    if n == 0 then None
    else Some((if signed && s[0] == '-' then -NumVal(t[..n]) else NumVal(t[..n]), t[n..]))
  }

  /** The values sscanf assigns before the input fails to match. */
  function Scan(f: Format, s: string): seq<Val> {
    match f
    case End => []
    case Dir(Space, rest) => Scan(rest, s[Span(Spaces, s)..])
    case Dir(Lit(c), rest) => if s != [] && s[0] == c then Scan(rest, s[1..]) else []
    case Dir(Alpha, rest) =>
      var n := Span(Alphas, s);
      if n == 0 then [] else [Str(s[..n])] + Scan(rest, s[n..])
    case Dir(Int, rest) =>
      match ScanInt(s)
      case None => []
      case Some((n, t)) => [Num(n)] + Scan(rest, t)
  }

  const GMT: Format := Dir(Space, Dir(Lit('G'), Dir(Lit('M'), Dir(Lit('T'), End))))
  function ClockThen(after: Format): Format {
    Dir(Int, Dir(Lit(':'), Dir(Int, Dir(Lit(':'), Dir(Int, after)))))
  }
  /** Day, month and year with a separator, which is a dash or white space. */
  function DateThen(sep: Dir, after: Format): Format {
    Dir(Int, Dir(sep, Dir(Alpha, Dir(sep, Dir(Int, after)))))
  }

  const FORMATS: seq<Format> := [
    DateThen(Lit('-'), Dir(Space, ClockThen(GMT))),
    DateThen(Space, Dir(Space, ClockThen(GMT))),
    ClockThen(Dir(Space, Dir(Lit('G'), Dir(Lit('M'), Dir(Lit('T'), Dir(Space, DateThen(Lit('-'), End))))))),
    ClockThen(Dir(Space, Dir(Lit('G'), Dir(Lit('M'), Dir(Lit('T'), Dir(Space, DateThen(Space, End))))))),
    Dir(Alpha, Dir(Lit(','), Dir(Space, DateThen(Lit('-'), Dir(Space, ClockThen(GMT)))))),
    Dir(Alpha, Dir(Lit(','), Dir(Space, DateThen(Space, Dir(Space, ClockThen(GMT)))))),
    Dir(Alpha, Dir(Space, Dir(Alpha, Dir(Space, Dir(Int, Dir(Space,
      ClockThen(Dir(Space, Dir(Lit('G'), Dir(Lit('M'), Dir(Lit('T'), Dir(Space, Dir(Int, End)))))))))))))]

  /** Where the conversions of each format go: week day (or none), month day, month, year,
      hour, minute, second. */
  datatype Slots = Slots(count: nat, wday: int, mday: nat, mon: nat, year: nat, hour: nat, min: nat, sec: nat)
  const SLOTS: seq<Slots> := [
    Slots(6, -1, 0, 1, 2, 3, 4, 5), Slots(6, -1, 0, 1, 2, 3, 4, 5),
    Slots(6, -1, 3, 4, 5, 0, 1, 2), Slots(6, -1, 3, 4, 5, 0, 1, 2),
    Slots(7, 0, 1, 2, 3, 4, 5, 6), Slots(7, 0, 1, 2, 3, 4, 5, 6),
    Slots(7, 0, 2, 1, 6, 3, 4, 5)]

  function NumOf(v: Val): int { if v.Num? then v.n else 0 }
  function StrOf(v: Val): string { if v.Str? then v.s else [] }

  lemma {:induction false} LookupRange(tab: seq<StrLong>, str: string, n: int)
    requires forall i | 0 <= i < |tab| :: 0 <= tab[i].l < n
    ensures Lookup(tab, str).Some? ==> 0 <= Lookup(tab, str).value < n
  {
    if tab != [] && tab[0].s != str {
      LookupRange(tab[1..], str, n);
    }
  }

  lemma MonthInRange(i: nat)
    requires i < |MON_TAB|
    ensures 0 <= MON_TAB[i].l < 12
  {
  }

  /** scan_mon */
  function ScanMon(str: string): (r: Option<int>)
    ensures r.Some? ==> 0 <= r.value < 12
  {
    assert Lookup(MON_TAB, Lower(str)).Some? ==> 0 <= Lookup(MON_TAB, Lower(str)).value < 12 by {
      hide Lookup;
      forall i | 0 <= i < |MON_TAB| ensures 0 <= MON_TAB[i].l < 12 { MonthInRange(i); }
      LookupRange(MON_TAB, Lower(str), 12);
    }
    Lookup(MON_TAB, Lower(str))
  }

  /** scan_wday */
  function ScanWday(str: string): Option<int> {
    Lookup(WDAY_TAB, Lower(str))
  }

  /** One of the sscanf attempts with the name lookups that follow it. */
  function Attempt(k: nat, s: string): (r: Option<Tm>)
    requires k < 7
    ensures r.Some? ==> 0 <= r.value.mon < 12
  {
    var vals, at := Scan(FORMATS[k], s), SLOTS[k];
    if |vals| != at.count then None
    else if at.wday == 0 && ScanWday(StrOf(vals[0])).None? then None
    else
      match ScanMon(StrOf(vals[at.mon]))
      case None => None
      case Some(mon) => Some(Tm(NumOf(vals[at.year]), mon, NumOf(vals[at.mday]),
                                NumOf(vals[at.hour]), NumOf(vals[at.min]), NumOf(vals[at.sec])))
  }

  function FirstMatch(k: nat, s: string): (r: Option<Tm>)
    requires k <= 7
    ensures r.Some? ==> 0 <= r.value.mon < 12
    decreases 7 - k
  {
    if k == 7 then None else if Attempt(k, s).Some? then Attempt(k, s) else FirstMatch(k + 1, s)
  }

  function SkipBlanks(s: string): string {
    if s != [] && (s[0] == ' ' || s[0] == '\t') then SkipBlanks(s[1..]) else s
  }

  /** Two- and four-digit years, as years since 1900. */
  function YearsFrom1900(y: int): int {
    if y > 1900 then y - 1900 else if y < 70 then y + 100 else y
  }

  /** httpdate_to_timet */
  function HttpdateToTimet(str: string): int {
    match FirstMatch(0, SkipBlanks(str))
    case None => -1
    case Some(tm) => Time(tm.(year := YearsFrom1900(tm.year)))
  }

  // ----- printing -----

  function Digit(n: nat): char
    requires n < 10
  {
    (n + '0' as int) as char
  }

  function Dec(n: nat): string {
    if n < 10 then [Digit(n)] else Dec(n / 10) + [Digit(n % 10)]
  }

  function Repeat(c: char, n: nat): string {
    seq(n, _ => c)
  }

  function PadLeft(c: char, width: nat, s: string): string {
    if |s| < width then Repeat(c, width - |s|) + s else s
  }

  const DAY_OF_WEEK: seq<string> := ["Sun", "Mon", "Tue", "Wed", "Thu", "Fri", "Sat"]
  const MONTHS: seq<string> := ["Jan", "Feb", "Mar", "Apr", "May", "Jun", "Jul", "Aug", "Sep", "Oct", "Nov", "Dec"]

  function Two(n: nat): string {
    PadLeft('0', 2, Dec(n))
  }

  /** The string "%s, %02d %s %4d %02d:%02d:%02d GMT" prints. */
  function PrintTm(wday: nat, tm: Tm): string
    requires wday < 7 && ValidTm(tm)
  {
    DAY_OF_WEEK[wday] + (", " + (Two(tm.mday) + (" " + (MONTHS[tm.mon] + (" " + (PadLeft(' ', 4, Dec(tm.year)) + (" " +
      PrintClock(tm.hour, tm.min, tm.sec))))))))
  }

  function PrintClock(h: nat, m: nat, s: nat): string {
    Two(h) + (":" + (Two(m) + (":" + (Two(s) + " GMT"))))
  }

  function Print(t: nat): string {
    PrintTm(Weekday(t), Gmtime(t))
  }

  /** timet_to_httpdate into a buffer of `strlen` characters, for a time gmtime_r accepts. */
  function TimetToHttpdate(t: nat, strlen: nat): (r: (int, string))
    ensures r.1 == Print(t) <==> |Print(t)| < strlen
    ensures r.1 <= Print(t)
  {
    var full := Print(t);
    (if |full| == strlen then -1 else 0,
     if |full| < strlen then full else if strlen == 0 then [] else full[..strlen - 1])
  }

  /** An error should mean a cut text, and a cut text an error. That is so if and only if the buffer
      is at most one character too small. */
  lemma TruncationReportedIff(t: nat, strlen: nat)
    ensures var r := TimetToHttpdate(t, strlen);
      (r.0 == -1 <==> r.1 != Print(t)) <==> |Print(t)| <= strlen
  {
    hide Print;
  }

  /** A buffer of 20 characters cuts every date up to the year 9999, and success is reported. */
  lemma TruncationNotReported(t: nat)
    requires Gmtime(t).year <= 9999
    ensures var r := TimetToHttpdate(t, 20); r.0 == 0 && r.1 != Print(t) && |r.1| == 19
  {
    PrintLength(t);
    hide Print;
  }

  /** Up to the year 9999 every printed date has 29 characters. */
  lemma PrintLength(t: nat)
    requires Gmtime(t).year <= 9999
    ensures |Print(t)| == 29
  {
    hide Dec;
    var tm := Gmtime(t);
    TwoLength(tm.mday);
    TwoLength(tm.hour);
    TwoLength(tm.min);
    TwoLength(tm.sec);
    YearLength(tm.year);
    NamesAreWords(Weekday(t), tm.mon);
  }

  lemma TwoLength(n: nat)
    requires n < 100
    ensures |Two(n)| == 2
  {
    assert n >= 10 ==> |Dec(n / 10)| == 1;
  }

  lemma YearLength(n: nat)
    requires 1000 <= n <= 9999
    ensures |PadLeft(' ', 4, Dec(n))| == 4
  {
    assert |Dec(n / 10 / 10)| == 2;
    assert |Dec(n / 10)| == 3;
  }

  lemma NamesAreWords(wday: nat, mon: nat)
    requires wday < 7 && mon < 12
    ensures |DAY_OF_WEEK[wday]| == 3 && All(Alphas, DAY_OF_WEEK[wday])
    ensures |MONTHS[mon]| == 3 && All(Alphas, MONTHS[mon])
  {
  }

  /** pound_case */
  method PoundCase(str: array<char>)
    modifies str
    ensures str[..] == Lower(old(str[..]))
  {
    for i := 0 to str.Length
      invariant forall j | 0 <= j < str.Length :: str[j] == if j < i then LowerChar(old(str[j])) else old(str[j])
    {
      if 'A' <= str[i] <= 'Z' {
        str[i] := (str[i] as int + 32) as char;
      }
    }
    LowerAt(old(str[..]));
  }

  lemma {:induction false} LowerAt(s: string)
    ensures |Lower(s)| == |s| && forall j | 0 <= j < |s| :: Lower(s)[j] == LowerChar(s[j])
  {
    if s != [] {
      LowerAt(s[1..]);
    }
  }
}
