/**
 The timestamp recogniser of sex_stats.py: the `Regex` field patterns, the
 two anchored grammars tried by `parse_time_str`, the `TimeStamp` tuple of
 captured strings, and its `_datetime` conversion.

   grammar A   Year-Month-Day*Hour:Minute[:Second]
   grammar B   Day/Month/Year Hour:Minute[:Second]

 Both grammars are anchored at the start of the string only: whatever
 follows the time is ignored.
 */
module TimeStamps {
  import opened Wrappers
  import opened Lexical

  /** The named groups of a successful match, as the strings they captured. */
  datatype TimeStamp = TimeStamp(
    Year: string, Month: string, Day: string,
    Hour: string, Minute: string, Second: Option<string>)

  /** A calendar instant, the fields `datetime(...)` is called with. */
  datatype DateTime = DateTime(year: int, month: int, day: int, hour: int, minute: int, second: int)

  /** Exceptions the parsing layer can raise. */
  datatype Fault =
    | InvalidDateTime  // ValueError from the `datetime(...)` constructor
    | MissingSuffix    // TypeError from subscripting the `None` of a failed line match

  // ---------------------------------------------------------------------------
  // Character classes, spelled as the regular expressions spell them
  // ---------------------------------------------------------------------------

  /** The century group `(19|2\d)` followed by `\d{2}`. */
  predicate CenturyYearClass(a: char, b: char, c: char, d: char) {
    ((a == '1' && b == '9') || (a == '2' && IsDigit(b))) && IsDigit(c) && IsDigit(d)
  }

  /** `1[0-2]|0\d` */
  predicate MonthClass(a: char, b: char) {
    (a == '1' && '0' <= b <= '2') || (a == '0' && IsDigit(b))
  }

  /** `[123]\d|0\d` */
  predicate DayClass(a: char, b: char) {
    ('1' <= a <= '3' && IsDigit(b)) || (a == '0' && IsDigit(b))
  }

  /** `[0-5]\d`, the Minute and Second pattern. */
  predicate SixtyClass(a: char, b: char) {
    '0' <= a <= '5' && IsDigit(b)
  }

  // ---------------------------------------------------------------------------
  // Field recognisers. Each looks at the front of `s` for a field that is
  // followed by the literal separator `sep` and returns the field's length,
  // trying the alternatives in the order the regex engine backtracks through
  // them.
  // ---------------------------------------------------------------------------

  /** `(19|2\d)?\d{2}` then `sep`: the optional century group is tried first. */
  function YearField(s: string, sep: char): (r: Option<nat>)
    ensures r.Some? ==> (r.value == 2 || r.value == 4) && r.value < |s| && s[r.value] == sep
    ensures r.Some? ==> IsDigits(s[..r.value])
  {
    if |s| > 4 && CenturyYearClass(s[0], s[1], s[2], s[3]) && s[4] == sep then Some(4)
    else if |s| > 2 && IsDigit(s[0]) && IsDigit(s[1]) && s[2] == sep then Some(2)
    else None
  }

  /** A two-character class then `sep`: Month, Day and Minute. */
  function PairField(s: string, sep: char, accepts: (char, char) -> bool): (r: Option<nat>)
    ensures r.Some? ==> r.value == 2 && |s| > 2 && s[2] == sep && accepts(s[0], s[1])
  {
    if |s| > 2 && accepts(s[0], s[1]) && s[2] == sep then Some(2) else None
  }

  /** `[01]?\d|2[0-3]` then `:`. The first alternative takes its optional
      digit greedily and retries without it; the second is tried last. */
  function HourField(s: string): (r: Option<nat>)
    ensures r.Some? ==> (r.value == 1 || r.value == 2) && r.value < |s| && s[r.value] == ':'
    ensures r.Some? ==> IsDigits(s[..r.value])
  {
    if |s| > 2 && (s[0] == '0' || s[0] == '1') && IsDigit(s[1]) && s[2] == ':' then Some(2)
    else if |s| > 1 && IsDigit(s[0]) && s[1] == ':' then Some(1)
    else if |s| > 2 && s[0] == '2' && '0' <= s[1] <= '3' && s[2] == ':' then Some(2)
    else None
  }

  /** The captured Hour, Minute and optional Second of `Time`. */
  datatype Clock = Clock(hour: string, minute: string, second: Option<string>)

  /** `{Hour}:{Minute}(:{Second})?`; the optional group is greedy. */
  function MatchClock(s: string): Option<Clock> {
    var h :- HourField(s);
    var rest := s[h + 1..];
    if |rest| >= 2 && SixtyClass(rest[0], rest[1]) then
      var tail := rest[2..];
      if |tail| >= 3 && tail[0] == ':' && SixtyClass(tail[1], tail[2]) then
        Some(Clock(s[..h], rest[..2], Some(tail[1..3])))
      else
        Some(Clock(s[..h], rest[..2], None))
    else
      None
  }

  /** The last date field of a grammar, its separator and the `Time` after it. */
  datatype FieldClock = FieldClock(field: string, clock: Clock)

  /** `{Day}\*{Time}`, the end of grammar A. */
  function MatchDayClock(s: string): Option<FieldClock> {
    var d :- PairField(s, '*', DayClass);
    var c :- MatchClock(s[d + 1..]);
    Some(FieldClock(s[..d], c))
  }

  /** `{Year} {Time}`, the end of grammar B. */
  function MatchYearClock(s: string): Option<FieldClock> {
    var y :- YearField(s, ' ');
    var c :- MatchClock(s[y + 1..]);
    Some(FieldClock(s[..y], c))
  }

  /** The Month captured between the two separators of a grammar, and what
      the grammar reads after it. */
  datatype MonthRest = MonthRest(month: string, rest: FieldClock)

  /** `{Month}-{Day}\*{Time}`, grammar A after its Year. */
  function MatchMonthDayClock(s: string): Option<MonthRest> {
    var m :- PairField(s, '-', MonthClass);
    var t :- MatchDayClock(s[m + 1..]);
    Some(MonthRest(s[..m], t))
  }

  /** `{Month}/{Year} {Time}`, grammar B after its Day. */
  function MatchMonthYearClock(s: string): Option<MonthRest> {
    var m :- PairField(s, '/', MonthClass);
    var t :- MatchYearClock(s[m + 1..]);
    Some(MonthRest(s[..m], t))
  }

  /** Grammar A, `^{Year}-{Month}-{Day}\*{Time}`. */
  function MatchIso(s: string): Option<TimeStamp> {
    var y :- YearField(s, '-');
    var mt :- MatchMonthDayClock(s[y + 1..]);
    var c := mt.rest.clock;
    Some(TimeStamp(s[..y], mt.month, mt.rest.field, c.hour, c.minute, c.second))
  }

  /** Grammar B, `^{Day}/{Month}/{Year} {Time}`. */
  function MatchDmy(s: string): Option<TimeStamp> {
    var d :- PairField(s, '/', DayClass);
    var mt :- MatchMonthYearClock(s[d + 1..]);
    var c := mt.rest.clock;
    Some(TimeStamp(mt.rest.field, mt.month, s[..d], c.hour, c.minute, c.second))
  }

  /** `parse_time_str`: the first grammar that matches, or `None`. The source
      iterates over a set, so its trial order is unspecified;
      `ParseOrderIrrelevant` shows that the order chosen here does not matter. */
  function ParseTimeStr(s: string): (r: Option<TimeStamp>)
    ensures r.Some? ==> WellFormed(r.value)
    ensures r.Some? ==> Leads(s, IsoText(r.value), r.value.Second) || Leads(s, DmyText(r.value), r.value.Second)
  {
    match MatchIso(s)
    case Some(ts) =>
      IsoMatchCharacterized(s, ts);
      Some(ts)
    case None =>
      var r := MatchDmy(s);
      if r.Some? then DmyMatchCharacterized(s, r.value); r else r
  }

  // ---------------------------------------------------------------------------
  // Declarative description of what is accepted: field values, not patterns
  // ---------------------------------------------------------------------------

  /** Two digits, or four digits from 1900 to 2999; no pivot, no calendar check. */
  predicate YearText(y: string) {
    IsDigits(y) && (|y| == 2 || (|y| == 4 && 1900 <= NatOf(y) <= 2999))
  }

  /** 00 to 12 (month 00 is accepted). */
  predicate MonthText(m: string) {
    |m| == 2 && IsDigits(m) && NatOf(m) <= 12
  }

  /** 00 to 39, regardless of the month. */
  predicate DayText(d: string) {
    |d| == 2 && IsDigits(d) && NatOf(d) <= 39
  }

  /** 0 to 23, written with one or two digits. */
  predicate HourText(h: string) {
    1 <= |h| <= 2 && IsDigits(h) && NatOf(h) <= 23
  }

  /** 00 to 59: Minute and Second. */
  predicate SixtyText(m: string) {
    |m| == 2 && IsDigits(m) && NatOf(m) <= 59
  }

  predicate WellFormed(ts: TimeStamp) {
    && YearText(ts.Year) && MonthText(ts.Month) && DayText(ts.Day)
    && HourText(ts.Hour) && SixtyText(ts.Minute)
    && (ts.Second.Some? ==> SixtyText(ts.Second.value))
  }

  function SecondText(second: Option<string>): string {
    match second
    case None => ""
    case Some(x) => ":" + x
  }

  function ClockText(hour: string, minute: string, second: Option<string>): string {
    hour + ":" + (minute + SecondText(second))
  }

  /** The text grammar A reads `ts` from. */
  function IsoText(ts: TimeStamp): string {
    ts.Year + "-" + (ts.Month + "-" + (ts.Day + "*" + ClockText(ts.Hour, ts.Minute, ts.Second)))
  }

  /** The text grammar B reads `ts` from. */
  function DmyText(ts: TimeStamp): string {
    ts.Day + "/" + (ts.Month + "/" + (ts.Year + " " + ClockText(ts.Hour, ts.Minute, ts.Second)))
  }

  /** A `:SS` group could be read at the front of `rest`. */
  predicate SecondFollows(rest: string) {
    |rest| >= 3 && rest[0] == ':' && SixtyText(rest[1..3])
  }

  /** `s` begins with `text`; when no Second was captured, the greedy optional
      group had nothing to take. */
  predicate Leads(s: string, text: string, second: Option<string>) {
    text <= s && (second.None? ==> !SecondFollows(s[|text|..]))
  }

  // ---------------------------------------------------------------------------
  // Each character class accepts exactly the values its field promises
  // ---------------------------------------------------------------------------

  lemma CenturyYearValue(y: string)
    requires |y| == 4
    ensures CenturyYearClass(y[0], y[1], y[2], y[3]) <==> IsDigits(y) && 1900 <= NatOf(y) <= 2999
  {
    if IsDigits(y) {
      NatOfFour(y);
    } else {
      var i :| 0 <= i < 4 && !IsDigit(y[i]);
    }
  }

  lemma PairValue(p: string)
    requires |p| == 2
    ensures MonthClass(p[0], p[1]) <==> MonthText(p)
    ensures DayClass(p[0], p[1]) <==> DayText(p)
    ensures SixtyClass(p[0], p[1]) <==> SixtyText(p)
  {
    if IsDigits(p) {
      NatOfTwo(p);
    } else {
      var i :| 0 <= i < 2 && !IsDigit(p[i]);
    }
  }

  lemma HourValue(h: string)
    requires 1 <= |h| <= 2
    ensures HourText(h) <==>
      if |h| == 1 then IsDigit(h[0])
      else ((h[0] == '0' || h[0] == '1') && IsDigit(h[1])) || (h[0] == '2' && '0' <= h[1] <= '3')
  {
    if |h| == 1 {
      assert h[..0] == [];
    } else if IsDigits(h) {
      NatOfTwo(h);
    } else {
      var i :| 0 <= i < 2 && !IsDigit(h[i]);
    }
  }

  // ---------------------------------------------------------------------------
  // Each field recogniser finds a field exactly when one is there
  // ---------------------------------------------------------------------------

  lemma YearFieldCharacterized(s: string, sep: char, n: nat)
    requires !IsDigit(sep)
    ensures YearField(s, sep) == Some(n) <==> n < |s| && YearText(s[..n]) && s[n] == sep
  {
    if |s| >= 4 {
      CenturyYearValue(s[..4]);
    }
    if n < |s| && YearText(s[..n]) && s[n] == sep {
      if n == 4 {
        assert CenturyYearClass(s[0], s[1], s[2], s[3]);
      } else {
        assert IsDigit(s[..n][0]) && IsDigit(s[..n][1]);
      }
    }
  }

  lemma PairFieldCharacterized(s: string, sep: char, n: nat)
    ensures PairField(s, sep, MonthClass) == Some(n) <==> n < |s| && MonthText(s[..n]) && s[n] == sep
    ensures PairField(s, sep, DayClass) == Some(n) <==> n < |s| && DayText(s[..n]) && s[n] == sep
    ensures PairField(s, sep, SixtyClass) == Some(n) <==> n < |s| && SixtyText(s[..n]) && s[n] == sep
  {
    if |s| >= 2 {
      PairValue(s[..2]);
    }
  }

  lemma HourFieldCharacterized(s: string, n: nat)
    ensures HourField(s) == Some(n) <==> n < |s| && HourText(s[..n]) && s[n] == ':'
  {
    if 1 <= n <= 2 && n <= |s| {
      HourValue(s[..n]);
    }
    if |s| >= 1 {
      HourValue(s[..1]);
    }
    if |s| >= 2 {
      HourValue(s[..2]);
    }
  }

  // ---------------------------------------------------------------------------
  // Prefix bookkeeping
  // ---------------------------------------------------------------------------

  /** Reading a field `x`, a separator `c`, then the rest `t` off the front of `s`. */
  lemma LeadsStep(x: string, c: char, t: string, s: string, second: Option<string>)
    ensures Leads(s, x + [c] + t, second) <==>
      |x| < |s| && s[..|x|] == x && s[|x|] == c && Leads(s[|x| + 1..], t, second)
  {
    var text := x + [c] + t;
    if text <= s {
      assert s[..|x|] == text[..|x|];
      assert s[|x| + 1..][..|t|] == t;
      assert s[|text|..] == s[|x| + 1..][|t|..];
    }
    if |x| < |s| && s[..|x|] == x && s[|x|] == c && t <= s[|x| + 1..] {
      assert s[..|text|] == s[..|x|] + [s[|x|]] + s[|x| + 1..][..|t|];
      assert s[|text|..] == s[|x| + 1..][|t|..];
    }
  }

  /** The same, for a field of known length directly followed by more text. */
  lemma LeadsJoin(x: string, t: string, s: string, second: Option<string>)
    ensures Leads(s, x + t, second) <==> |x| <= |s| && s[..|x|] == x && Leads(s[|x|..], t, second)
  {
    var text := x + t;
    if text <= s {
      assert s[..|x|] == text[..|x|];
      assert s[|x|..][..|t|] == t;
      assert s[|text|..] == s[|x|..][|t|..];
    }
    if |x| <= |s| && s[..|x|] == x && t <= s[|x|..] {
      assert s[..|text|] == s[..|x|] + s[|x|..][..|t|];
      assert s[|text|..] == s[|x|..][|t|..];
    }
  }

  // ---------------------------------------------------------------------------
  // The recognisers match exactly the declarative description
  // ---------------------------------------------------------------------------

  lemma ClockMatchSound(s: string, c: Clock)
    requires MatchClock(s) == Some(c)
    ensures ClockWellFormed(c) && Leads(s, ClockText(c.hour, c.minute, c.second), c.second)
  {
    var h := HourField(s).value;
    HourFieldCharacterized(s, h);
    var rest := s[h + 1..];
    var tail := rest[2..];
    PairValue(rest[..2]);
    if |tail| >= 3 {
      PairValue(tail[1..3]);
    }
    if c.second.Some? {
      assert tail[..3] == ":" + c.second.value;
    }
    LeadsJoin(c.minute, SecondText(c.second), rest, c.second);
    LeadsStep(c.hour, ':', c.minute + SecondText(c.second), s, c.second);
  }

  lemma ClockMatchComplete(s: string, c: Clock)
    requires ClockWellFormed(c) && Leads(s, ClockText(c.hour, c.minute, c.second), c.second)
    ensures MatchClock(s) == Some(c)
  {
    LeadsStep(c.hour, ':', c.minute + SecondText(c.second), s, c.second);
    HourFieldCharacterized(s, |c.hour|);
    var rest := s[|c.hour| + 1..];
    LeadsJoin(c.minute, SecondText(c.second), rest, c.second);
    PairValue(c.minute);
    var tail := rest[2..];
    if |tail| >= 3 {
      PairValue(tail[1..3]);
    }
    if c.second.Some? {
      assert tail[..3] == ":" + c.second.value;
      assert tail[1..3] == c.second.value;
    }
  }

  lemma ClockMatchCharacterized(s: string, c: Clock)
    ensures MatchClock(s) == Some(c) <==>
      ClockWellFormed(c) && Leads(s, ClockText(c.hour, c.minute, c.second), c.second)
  {
    if MatchClock(s) == Some(c) {
      ClockMatchSound(s, c);
    }
    if ClockWellFormed(c) && Leads(s, ClockText(c.hour, c.minute, c.second), c.second) {
      ClockMatchComplete(s, c);
    }
  }

  /** Well-formed clock fields. */
  predicate ClockWellFormed(c: Clock) {
    HourText(c.hour) && SixtyText(c.minute) && (c.second.Some? ==> SixtyText(c.second.value))
  }

  lemma DayClockCharacterized(s: string, t: FieldClock)
    ensures MatchDayClock(s) == Some(t) <==>
      && DayText(t.field) && ClockWellFormed(t.clock)
      && Leads(s, t.field + "*" + ClockText(t.clock.hour, t.clock.minute, t.clock.second), t.clock.second)
  {
    var c := t.clock;
    LeadsStep(t.field, '*', ClockText(c.hour, c.minute, c.second), s, c.second);
    var dn := PairField(s, '*', DayClass);
    if dn.Some? {
      PairFieldCharacterized(s, '*', dn.value);
      ClockMatchCharacterized(s[dn.value + 1..], c);
      if DayText(t.field) && |t.field| < |s| && s[..|t.field|] == t.field && s[|t.field|] == '*' {
        assert |t.field| == 2;
      }
    } else {
      PairFieldCharacterized(s, '*', |t.field|);
    }
  }

  lemma YearClockCharacterized(s: string, t: FieldClock)
    ensures MatchYearClock(s) == Some(t) <==>
      && YearText(t.field) && ClockWellFormed(t.clock)
      && Leads(s, t.field + " " + ClockText(t.clock.hour, t.clock.minute, t.clock.second), t.clock.second)
  {
    var c := t.clock;
    LeadsStep(t.field, ' ', ClockText(c.hour, c.minute, c.second), s, c.second);
    YearFieldCharacterized(s, ' ', |t.field|);
    var yn := YearField(s, ' ');
    if yn.Some? {
      YearFieldCharacterized(s, ' ', yn.value);
      ClockMatchCharacterized(s[yn.value + 1..], c);
    }
  }

  /** The text grammar A reads after its Year. */
  function MonthDayClockText(m: MonthRest): string {
    m.month + "-" + (m.rest.field + "*" + ClockText(m.rest.clock.hour, m.rest.clock.minute, m.rest.clock.second))
  }

  /** The text grammar B reads after its Day. */
  function MonthYearClockText(m: MonthRest): string {
    m.month + "/" + (m.rest.field + " " + ClockText(m.rest.clock.hour, m.rest.clock.minute, m.rest.clock.second))
  }

  lemma MonthDayClockSound(s: string, m: MonthRest)
    requires MatchMonthDayClock(s) == Some(m)
    ensures MonthText(m.month) && DayText(m.rest.field) && ClockWellFormed(m.rest.clock)
    ensures Leads(s, MonthDayClockText(m), m.rest.clock.second)
  {
    var c := m.rest.clock;
    var n := PairField(s, '-', MonthClass).value;
    PairFieldCharacterized(s, '-', n);
    DayClockCharacterized(s[n + 1..], m.rest);
    LeadsStep(m.month, '-', m.rest.field + "*" + ClockText(c.hour, c.minute, c.second), s, c.second);
  }

  lemma MonthDayClockComplete(s: string, m: MonthRest)
    requires MonthText(m.month) && DayText(m.rest.field) && ClockWellFormed(m.rest.clock)
    requires Leads(s, MonthDayClockText(m), m.rest.clock.second)
    ensures MatchMonthDayClock(s) == Some(m)
  {
    var c := m.rest.clock;
    LeadsStep(m.month, '-', m.rest.field + "*" + ClockText(c.hour, c.minute, c.second), s, c.second);
    PairFieldCharacterized(s, '-', |m.month|);
    DayClockCharacterized(s[|m.month| + 1..], m.rest);
  }

  lemma MonthYearClockSound(s: string, m: MonthRest)
    requires MatchMonthYearClock(s) == Some(m)
    ensures MonthText(m.month) && YearText(m.rest.field) && ClockWellFormed(m.rest.clock)
    ensures Leads(s, MonthYearClockText(m), m.rest.clock.second)
  {
    var c := m.rest.clock;
    var n := PairField(s, '/', MonthClass).value;
    PairFieldCharacterized(s, '/', n);
    YearClockCharacterized(s[n + 1..], m.rest);
    LeadsStep(m.month, '/', m.rest.field + " " + ClockText(c.hour, c.minute, c.second), s, c.second);
  }

  lemma MonthYearClockComplete(s: string, m: MonthRest)
    requires MonthText(m.month) && YearText(m.rest.field) && ClockWellFormed(m.rest.clock)
    requires Leads(s, MonthYearClockText(m), m.rest.clock.second)
    ensures MatchMonthYearClock(s) == Some(m)
  {
    var c := m.rest.clock;
    LeadsStep(m.month, '/', m.rest.field + " " + ClockText(c.hour, c.minute, c.second), s, c.second);
    PairFieldCharacterized(s, '/', |m.month|);
    YearClockCharacterized(s[|m.month| + 1..], m.rest);
  }

  /** The stamp's text after its first field, in each grammar. */
  function IsoRest(ts: TimeStamp): MonthRest {
    MonthRest(ts.Month, FieldClock(ts.Day, Clock(ts.Hour, ts.Minute, ts.Second)))
  }

  function DmyRest(ts: TimeStamp): MonthRest {
    MonthRest(ts.Month, FieldClock(ts.Year, Clock(ts.Hour, ts.Minute, ts.Second)))
  }

  lemma IsoMatchSound(s: string, ts: TimeStamp)
    requires MatchIso(s) == Some(ts)
    ensures WellFormed(ts) && Leads(s, IsoText(ts), ts.Second)
  {
    var n := YearField(s, '-').value;
    YearFieldCharacterized(s, '-', n);
    MonthDayClockSound(s[n + 1..], IsoRest(ts));
    LeadsStep(ts.Year, '-', MonthDayClockText(IsoRest(ts)), s, ts.Second);
  }

  lemma IsoMatchComplete(s: string, ts: TimeStamp)
    requires WellFormed(ts) && Leads(s, IsoText(ts), ts.Second)
    ensures MatchIso(s) == Some(ts)
  {
    LeadsStep(ts.Year, '-', MonthDayClockText(IsoRest(ts)), s, ts.Second);
    YearFieldCharacterized(s, '-', |ts.Year|);
    MonthDayClockComplete(s[|ts.Year| + 1..], IsoRest(ts));
  }

  lemma DmyMatchSound(s: string, ts: TimeStamp)
    requires MatchDmy(s) == Some(ts)
    ensures WellFormed(ts) && Leads(s, DmyText(ts), ts.Second)
  {
    var n := PairField(s, '/', DayClass).value;
    PairFieldCharacterized(s, '/', n);
    MonthYearClockSound(s[n + 1..], DmyRest(ts));
    LeadsStep(ts.Day, '/', MonthYearClockText(DmyRest(ts)), s, ts.Second);
  }

  lemma DmyMatchComplete(s: string, ts: TimeStamp)
    requires WellFormed(ts) && Leads(s, DmyText(ts), ts.Second)
    ensures MatchDmy(s) == Some(ts)
  {
    LeadsStep(ts.Day, '/', MonthYearClockText(DmyRest(ts)), s, ts.Second);
    PairFieldCharacterized(s, '/', |ts.Day|);
    MonthYearClockComplete(s[|ts.Day| + 1..], DmyRest(ts));
  }

  lemma IsoMatchCharacterized(s: string, ts: TimeStamp)
    ensures MatchIso(s) == Some(ts) <==> WellFormed(ts) && Leads(s, IsoText(ts), ts.Second)
  {
    if MatchIso(s) == Some(ts) {
      IsoMatchSound(s, ts);
    }
    if WellFormed(ts) && Leads(s, IsoText(ts), ts.Second) {
      IsoMatchComplete(s, ts);
    }
  }

  lemma DmyMatchCharacterized(s: string, ts: TimeStamp)
    ensures MatchDmy(s) == Some(ts) <==> WellFormed(ts) && Leads(s, DmyText(ts), ts.Second)
  {
    if MatchDmy(s) == Some(ts) {
      DmyMatchSound(s, ts);
    }
    if WellFormed(ts) && Leads(s, DmyText(ts), ts.Second) {
      DmyMatchComplete(s, ts);
    }
  }

  // ---------------------------------------------------------------------------
  // parse_time_str as a whole
  // ---------------------------------------------------------------------------

  /** Character 2 is `-` or a digit in grammar A but `/` in grammar B. */
  lemma GrammarsExclusive(s: string)
    ensures MatchIso(s).None? || MatchDmy(s).None?
  {
    var yn := YearField(s, '-');
    if yn.Some? && yn.value == 4 {
      assert IsDigit(s[..4][2]);
    }
  }

  /** Trying grammar B before grammar A gives the same answer. */
  lemma ParseOrderIrrelevant(s: string)
    ensures ParseTimeStr(s) == (if MatchDmy(s).Some? then MatchDmy(s) else MatchIso(s))
  {
    GrammarsExclusive(s);
  }

  /** A timestamp is returned exactly when the string starts with the text of
      one of the grammars for it. */
  lemma ParseTimeStrCharacterized(s: string, ts: TimeStamp)
    ensures ParseTimeStr(s) == Some(ts) <==>
      WellFormed(ts) && (Leads(s, IsoText(ts), ts.Second) || Leads(s, DmyText(ts), ts.Second))
  {
    IsoMatchCharacterized(s, ts);
    DmyMatchCharacterized(s, ts);
    GrammarsExclusive(s);
  }

  /** Text after a complete `H:MM:SS` never changes the result. */
  lemma TrailingTextIgnored(s: string, t: string)
    requires ParseTimeStr(s).Some? && ParseTimeStr(s).value.Second.Some?
    ensures ParseTimeStr(s + t) == ParseTimeStr(s)
  {
    var ts := ParseTimeStr(s).value;
    ParseTimeStrCharacterized(s, ts);
    ParseTimeStrCharacterized(s + t, ts);
    assert s <= s + t;
  }

  // ---------------------------------------------------------------------------
  // TimeStamp._datetime
  // ---------------------------------------------------------------------------

  predicate IsLeapYear(y: int) {
    y % 4 == 0 && (y % 100 != 0 || y % 400 == 0)
  }

  function DaysInMonth(y: int, m: int): (n: int)
    requires 1 <= m <= 12
    ensures 28 <= n <= 31
  {
    if m == 2 then (if IsLeapYear(y) then 29 else 28)
    else if m == 4 || m == 6 || m == 9 || m == 11 then 30
    else 31
  }

  /** The range checks of Python's `datetime(...)` constructor (proleptic
      Gregorian calendar, years 1 to 9999). */
  predicate ValidDateTime(dt: DateTime) {
    && 1 <= dt.year <= 9999
    && 1 <= dt.month <= 12
    && 1 <= dt.day <= DaysInMonth(dt.year, dt.month)
    && 0 <= dt.hour <= 23
    && 0 <= dt.minute <= 59
    && 0 <= dt.second <= 59
  }

  /** `int(_) if _ else 0` for the optional Second group. */
  function SecondValue(second: Option<string>): nat
    requires second.Some? ==> IsDigits(second.value)
  {
    match second
    case None => 0
    case Some(x) => if x == "" then 0 else NatOf(x)
  }

  /** `TimeStamp._datetime`: every field converted exactly as written (no
      two-digit-year pivot), an absent Second read as 0, then `datetime(...)`.
      Only stamps produced by `parse_time_str` reach it, hence `WellFormed`. */
  function ToDateTime(ts: TimeStamp): (r: Result<DateTime, Fault>)
    requires WellFormed(ts)
    ensures r.Success? ==>
      && r.value.year == NatOf(ts.Year) && r.value.month == NatOf(ts.Month) && r.value.day == NatOf(ts.Day)
      && r.value.hour == NatOf(ts.Hour) && r.value.minute == NatOf(ts.Minute)
      && r.value.second == (if ts.Second.None? then 0 else NatOf(ts.Second.value))
    ensures r.Failure? ==> r.error == InvalidDateTime
    // the lexical patterns already bound the clock fields: only the date can be rejected
    ensures r.Success? <==>
      && 1 <= NatOf(ts.Year) && 1 <= NatOf(ts.Month)
      && 1 <= NatOf(ts.Day) <= DaysInMonth(NatOf(ts.Year), NatOf(ts.Month))
  {
    var dt := DateTime(NatOf(ts.Year), NatOf(ts.Month), NatOf(ts.Day),
                       NatOf(ts.Hour), NatOf(ts.Minute), SecondValue(ts.Second));
    if ValidDateTime(dt) then Success(dt) else Failure(InvalidDateTime)
  }

  /** The stamp of `dt` as grammar texts print it: four-digit year, every other
      field two digits, with or without seconds. */
  function StampOf(dt: DateTime, withSecond: bool): TimeStamp
    requires ValidDateTime(dt)
  {
    TimeStamp(Padded(dt.year, 4), Padded(dt.month, 2), Padded(dt.day, 2),
              Padded(dt.hour, 2), Padded(dt.minute, 2),
              if withSecond then Some(Padded(dt.second, 2)) else None)
  }

  /** The printed stamp of an instant is well formed, and each of its fields
      reads back as the instant's value. */
  lemma StampOfFields(dt: DateTime, withSecond: bool)
    requires ValidDateTime(dt) && 1900 <= dt.year <= 2999
    requires !withSecond ==> dt.second == 0
    ensures WellFormed(StampOf(dt, withSecond))
    ensures ToDateTime(StampOf(dt, withSecond)) == Success(dt)
  {
    assert Pow10(2) == 100 && Pow10(4) == 10000;
    NatOfPadded(dt.year, 4);
    NatOfPadded(dt.month, 2);
    NatOfPadded(dt.day, 2);
    NatOfPadded(dt.hour, 2);
    NatOfPadded(dt.minute, 2);
    NatOfPadded(dt.second, 2);
  }

  /** A stamp's own text, with nothing after it, parses back to the stamp. */
  lemma StampTextsParse(ts: TimeStamp)
    requires WellFormed(ts)
    ensures ParseTimeStr(IsoText(ts)) == Some(ts)
    ensures ParseTimeStr(DmyText(ts)) == Some(ts)
  {
    var iso, dmy := IsoText(ts), DmyText(ts);
    assert iso[|iso|..] == [] && dmy[|dmy|..] == [];
    ParseTimeStrCharacterized(iso, ts);
    ParseTimeStrCharacterized(dmy, ts);
  }

  /** Formatting an instant in either grammar and parsing it back gives the
      same instant; an omitted Second comes back as 0. */
  lemma {:induction false} DateTimeRoundTrip(dt: DateTime, withSecond: bool)
    requires ValidDateTime(dt) && 1900 <= dt.year <= 2999
    requires !withSecond ==> dt.second == 0
    ensures ParseTimeStr(IsoText(StampOf(dt, withSecond))) == Some(StampOf(dt, withSecond))
    ensures ParseTimeStr(DmyText(StampOf(dt, withSecond))) == Some(StampOf(dt, withSecond))
    ensures ToDateTime(StampOf(dt, withSecond)) == Success(dt)
  {
    StampOfFields(dt, withSecond);
    StampTextsParse(StampOf(dt, withSecond));
  }

  /** A two-digit year is taken literally: "21" is the year 21, not 2021. */
  lemma NoYearPivot()
    ensures ToDateTime(TimeStamp("21", "05", "01", "14", "30", None)) == Success(DateTime(21, 5, 1, 14, 30, 0))
    ensures ToDateTime(TimeStamp("00", "05", "01", "14", "30", None)) == Failure(InvalidDateTime)
  {
    var ts := TimeStamp("21", "05", "01", "14", "30", None);
    NatOfTwo("21"); NatOfTwo("05"); NatOfTwo("01"); NatOfTwo("14"); NatOfTwo("30"); NatOfTwo("00");
    assert WellFormed(ts);
    assert WellFormed(ts.(Year := "00"));
  }

  /** Month 00, day 00 and 31 February pass the patterns and are rejected only
      by the calendar check. */
  lemma MonthZeroRejected()
    ensures var ts := TimeStamp("21", "00", "10", "9", "05", None);
      WellFormed(ts) && ToDateTime(ts) == Failure(InvalidDateTime)
  {
    NatOfTwo("21"); NatOfTwo("00"); NatOfTwo("10"); NatOfTwo("05");
    assert NatOf("9") == 9 by { assert "9"[..0] == []; }
  }

  lemma DayZeroRejected()
    ensures var ts := TimeStamp("21", "02", "00", "9", "05", None);
      WellFormed(ts) && ToDateTime(ts) == Failure(InvalidDateTime)
  {
    NatOfTwo("21"); NatOfTwo("02"); NatOfTwo("00"); NatOfTwo("05");
    assert NatOf("9") == 9 by { assert "9"[..0] == []; }
  }

  lemma ThirtyFirstFebruaryRejected()
    ensures var ts := TimeStamp("21", "02", "31", "9", "05", None);
      WellFormed(ts) && ToDateTime(ts) == Failure(InvalidDateTime)
  {
    NatOfTwo("21"); NatOfTwo("02"); NatOfTwo("31"); NatOfTwo("05");
    assert NatOf("9") == 9 by { assert "9"[..0] == []; }
  }

  /** 29 February follows the Gregorian leap rule: 2000 has one, 1900 does not. */
  lemma LeapDay2000()
    ensures var ts := TimeStamp("2000", "02", "29", "9", "05", None);
      WellFormed(ts) && ToDateTime(ts).Success?
  {
    NatOfFour("2000");
    NatOfTwo("02"); NatOfTwo("29"); NatOfTwo("05");
    assert NatOf("9") == 9 by { assert "9"[..0] == []; }
  }

  lemma NoLeapDay1900()
    ensures var ts := TimeStamp("1900", "02", "29", "9", "05", None);
      WellFormed(ts) && ToDateTime(ts) == Failure(InvalidDateTime)
  {
    NatOfFour("1900");
    NatOfTwo("02"); NatOfTwo("29"); NatOfTwo("05");
    assert NatOf("9") == 9 by { assert "9"[..0] == []; }
  }
}
