/**
 The log-line parser of sex_stats.py: `LogLine`, the `Repeat` and `Kind`
 patterns, and `parse_log_line`.

 A line is first required to begin with a timestamp. Then the whole line is
 matched against `^.+ {Repeat} {Kind}`: the greedy `.+` makes the engine try
 the rightmost place first, so the last ` <d> time(s) <kind>` on the first
 physical line wins.
 */
module LogLines {
  import opened Wrappers
  import opened Lexical
  import opened TimeStamps

  /** A parsed log line: when, how many times, and what. */
  datatype LogLine = LogLine(Stamp: DateTime, Repeat: nat, Kind: string)

  /** What `Kind` captured: a word and an optional parenthesised word. */
  datatype Kind = Kind(word: string, qualifier: Option<string>)

  /** What ` {Repeat} {Kind}` captured, with `plural` telling `times` from `time`. */
  datatype Suffix = Suffix(digit: char, plural: bool, kind: Kind)

  /** The suffix and the position of its leading space in the line. */
  datatype LineMatch = LineMatch(at: nat, suffix: Suffix)

  /** The optional group ` (word)` as written. */
  function QualifierText(q: Option<string>): string {
    match q
    case None => ""
    case Some(x) => " (" + x + ")"
  }

  function KindText(k: Kind): string {
    k.word + QualifierText(k.qualifier)
  }

  /** The fixed part of a suffix, up to the space before the kind. */
  function SuffixHead(digit: char, plural: bool): string {
    " " + [digit] + " time" + (if plural then "s" else "") + " "
  }

  function SuffixText(x: Suffix): string {
    SuffixHead(x.digit, x.plural) + KindText(x.kind)
  }

  predicate NotNewline(c: char) {
    c != '\n'
  }

  /** The optional group ` \(\w+\)` at the front of `rest`. The inner run
      must be followed by `)`, so it is taken only when it is maximal. */
  function MatchQualifier(rest: string): (r: Option<string>)
    ensures r.Some? ==> IsWord(r.value) && QualifierText(r) <= rest
  {
    if |rest| >= 2 && rest[0] == ' ' && rest[1] == '(' then
      var m := Run(rest[2..], IsWordChar);
      if 0 < m && m + 2 < |rest| && rest[m + 2] == ')' then
        assert (" (" + rest[2..m + 2] + ")") == rest[..m + 3];
        Some(rest[2..m + 2])
      else
        None
    else
      None
  }

  /** One prefix after another is a prefix. */
  lemma PrefixThen(a: string, b: string, t: string)
    requires a <= t && b <= t[|a|..]
    ensures a + b <= t
  {
    assert t[..|a| + |b|] == t[..|a|] + t[|a|..][..|b|];
  }

  /** `(?P<Kind>\w+( \(\w+\))?)` at the front of `t`. The outer `\w+` is
      maximal (giving characters back never lets the group match where it did
      not), and the optional group is taken when it can be. */
  function MatchKind(t: string): (r: Option<Kind>)
    ensures r.Some? ==> IsWord(r.value.word) && (r.value.qualifier.Some? ==> IsWord(r.value.qualifier.value))
    ensures r.Some? ==> KindText(r.value) <= t
    ensures r.None? <==> |t| == 0 || !IsWordChar(t[0])
    // the word is the whole `\w+` run, and the qualifier is taken whenever it follows
    ensures r.Some? ==> |r.value.word| == |t| || !IsWordChar(t[|r.value.word|])
    ensures r.Some? ==> r.value.qualifier == MatchQualifier(t[|r.value.word|..])
  {
    var n := Run(t, IsWordChar);
    if n == 0 then None
    else
      var q := MatchQualifier(t[n..]);
      if q.Some? then
        PrefixThen(t[..n], QualifierText(q), t);
        Some(Kind(t[..n], q))
      else
        Some(Kind(t[..n], q))
  }

  /** ` (?P<Repeat>\d) times? {Kind}` at the front of `t`. After `time` the
      optional `s` is tried first; without it a space must follow at once. */
  function MatchSuffixAt(t: string): (r: Option<Suffix>)
    ensures r.Some? ==> IsDigit(r.value.digit) && SuffixText(r.value) <= t
    ensures r.Some? ==> IsWord(r.value.kind.word)
  {
    if !(|t| > 7 && t[0] == ' ' && IsDigit(t[1]) && t[2..7] == " time") then None
    else
      var plural := t[7] == 's';
      var n := if plural then 9 else 8;
      if |t| < n || t[n - 1] != ' ' then None
      else
        match MatchKind(t[n..])
        case None => None
        case Some(k) =>
          HeadThenKind(t, n, t[1], plural, k);
          Some(Suffix(t[1], plural, k))
  }

  lemma HeadThenKind(t: string, n: nat, digit: char, plural: bool, k: Kind)
    requires n == |SuffixHead(digit, plural)| <= |t|
    requires t[0] == ' ' && t[1] == digit && t[2..7] == " time" && t[n - 1] == ' '
    requires plural <==> t[7] == 's'
    requires KindText(k) <= t[n..]
    ensures SuffixText(Suffix(digit, plural, k)) <= t
  {
    var head := SuffixHead(digit, plural);
    assert t[2] == t[2..7][0] && t[3] == t[2..7][1] && t[4] == t[2..7][2] && t[5] == t[2..7][3] && t[6] == t[2..7][4];
    if plural {
      assert head == [' ', digit, ' ', 't', 'i', 'm', 'e', 's', ' '];
    } else {
      assert head == [' ', digit, ' ', 't', 'i', 'm', 'e', ' '];
    }
    assert head == t[..n];
    var whole := head + KindText(k);
    assert whole == t[..n] + t[n..][..|KindText(k)|];
    assert whole == t[..|whole|];
  }

  /** The backtracking of the greedy `.+`: the suffix reader `at` is tried
      after `i` characters, then `i - 1`, down to one. */
  function ScanBack(line: string, i: nat, at: string -> Option<Suffix>): (r: Option<LineMatch>)
    requires i <= |line|
    ensures r.Some? ==> 1 <= r.value.at <= i && at(line[r.value.at..]) == Some(r.value.suffix)
    ensures r.Some? ==> forall j :: r.value.at < j <= i ==> at(line[j..]).None?
    ensures r.None? <==> forall j :: 1 <= j <= i ==> at(line[j..]).None?
  {
    if i == 0 then None
    else
      var m := at(line[i..]);
      if m.Some? then Some(LineMatch(i, m.value))
      else ScanBack(line, i - 1, at)
  }

  /** `match(r'^.+ {Repeat} {Kind}', line)`. `.` stops at the first newline,
      so only places before it are tried; the rightmost one that fits wins. */
  function MatchLine(line: string): (r: Option<LineMatch>)
    ensures r.Some? ==> 1 <= r.value.at <= Run(line, NotNewline)
    ensures r.Some? ==> MatchSuffixAt(line[r.value.at..]) == Some(r.value.suffix)
    ensures r.Some? ==> forall j :: r.value.at < j <= Run(line, NotNewline) ==> MatchSuffixAt(line[j..]).None?
    ensures r.None? <==> forall j :: 1 <= j <= Run(line, NotNewline) ==> MatchSuffixAt(line[j..]).None?
  {
    ScanBack(line, Run(line, NotNewline), MatchSuffixAt)
  }

  /** The body of `parse_log_line` once both matches are known: `stamp` is
      what `parse_time_str` returned and `matched` what the line pattern
      found. `datetime(...)` is evaluated before the missing match is
      subscripted, so an impossible date is reported first. */
  function Assemble(stamp: Option<TimeStamp>, matched: Option<LineMatch>): (r: Result<Option<LogLine>, Fault>)
    requires stamp.Some? ==> WellFormed(stamp.value)
    requires matched.Some? ==> IsDigit(matched.value.suffix.digit)
    ensures r == Success(None) <==> stamp.None?
    ensures stamp.Some? ==> (r.Failure? <==> ToDateTime(stamp.value).Failure? || matched.None?)
    ensures r == Failure(MissingSuffix) ==> matched.None?
    ensures stamp.Some? && ToDateTime(stamp.value).Failure? ==> r == Failure(InvalidDateTime)
    ensures stamp.Some? && ToDateTime(stamp.value).Success? && matched.None? ==> r == Failure(MissingSuffix)
    ensures r.Success? && r.value.Some? ==>
      && stamp.Some? && matched.Some?
      && ToDateTime(stamp.value) == Success(r.value.value.Stamp)
      && r.value.value.Repeat <= 9
      && matched.value.suffix.digit == DigitChar(r.value.value.Repeat)
      && r.value.value.Kind == KindText(matched.value.suffix.kind)
  {
    match stamp
    case None => Success(None)
    case Some(ts) =>
      var dt :- ToDateTime(ts);
      match matched
      case None => Failure(MissingSuffix)
      case Some(x) => Success(Some(LogLine(dt, DigitValue(x.suffix.digit), KindText(x.suffix.kind))))
  }

  /** `parse_log_line`. `Success(None)` is the function's own `None`; a
      `Failure` is an exception. */
  function ParseLogLine(line: string): (r: Result<Option<LogLine>, Fault>)
    ensures r == Success(None) <==> ParseTimeStr(line).None?
    ensures ParseTimeStr(line).Some? ==>
      (r.Failure? <==> ToDateTime(ParseTimeStr(line).value).Failure? || MatchLine(line).None?)
    ensures r == Failure(MissingSuffix) ==> MatchLine(line).None?
    ensures ParseTimeStr(line).Some? && ToDateTime(ParseTimeStr(line).value).Failure? ==>
      r == Failure(InvalidDateTime)
    ensures ParseTimeStr(line).Some? && ToDateTime(ParseTimeStr(line).value).Success? && MatchLine(line).None? ==>
      r == Failure(MissingSuffix)
    ensures r.Success? && r.value.Some? ==>
      && ParseTimeStr(line).Some? && MatchLine(line).Some?
      && ToDateTime(ParseTimeStr(line).value) == Success(r.value.value.Stamp)
      && r.value.value.Repeat <= 9
      && MatchLine(line).value.suffix.digit == DigitChar(r.value.value.Repeat)
      && r.value.value.Kind == KindText(MatchLine(line).value.suffix.kind)
  {
    Assemble(ParseTimeStr(line), MatchLine(line))
  }

  /** After ` d time ` or ` d times `, the kind is read from what follows. */
  lemma SuffixAfterHead(d: char, plural: bool, rest: string)
    requires IsDigit(d)
    ensures MatchSuffixAt(SuffixHead(d, plural) + rest) ==
      (if MatchKind(rest).Some? then Some(Suffix(d, plural, MatchKind(rest).value)) else None)
  {
    SuffixHeadShape(d, plural, rest);
  }

  /** `time` and `times` are read alike: only the `plural` flag differs. */
  lemma TimeOrTimes(d: char, rest: string)
    requires IsDigit(d)
    ensures MatchSuffixAt(" " + [d] + " time " + rest) ==
      (if MatchKind(rest).Some? then Some(Suffix(d, false, MatchKind(rest).value)) else None)
    ensures MatchSuffixAt(" " + [d] + " times " + rest) ==
      (if MatchKind(rest).Some? then Some(Suffix(d, true, MatchKind(rest).value)) else None)
  {
    assert " " + [d] + " time " + rest == SuffixHead(d, false) + rest;
    assert " " + [d] + " times " + rest == SuffixHead(d, true) + rest;
    SuffixAfterHead(d, false, rest);
    SuffixAfterHead(d, true, rest);
  }

  /** The count is one digit: a space must come right before it. */
  lemma RepeatIsOneDigit(t: string)
    requires MatchSuffixAt(t).Some?
    ensures |t| > 2 && t[0] == ' ' && IsDigit(t[1]) && t[2] == ' '
  {
    assert t[2..7][0] == t[2];
  }

  // ---------------------------------------------------------------------------
  // A canonical log line parses back to the record it was written from
  // ---------------------------------------------------------------------------

  /** What a line ends with when it comes from `readlines()`. */
  predicate LineEnd(eol: string) {
    eol == "" || eol == "\n"
  }

  /** The text after a written kind cannot lengthen its capture: a qualified
      kind is complete, and a bare word must not be followed by another word
      character or by a ` (word)` group. */
  predicate KindEnds(k: Kind, rest: string) {
    k.qualifier.Some? || rest == [] || (!IsWordChar(rest[0]) && MatchQualifier(rest).None?)
  }

  predicate ValidKind(k: Kind) {
    IsWord(k.word) && (k.qualifier.Some? ==> IsWord(k.qualifier.value))
  }

  predicate ValidSuffix(x: Suffix) {
    IsDigit(x.digit) && ValidKind(x.kind)
  }

  /** A space followed by a digit, a space and a `t`: what every suffix begins with. */
  predicate CountAt(u: string) {
    |u| > 3 && u[0] == ' ' && IsDigit(u[1]) && u[2] == ' ' && u[3] == 't'
  }

  lemma WordRun(w: string, rest: string)
    requires IsWord(w)
    requires rest == [] || !IsWordChar(rest[0])
    ensures Run(w + rest, IsWordChar) == |w|
  {
    assert forall j :: 0 <= j < |w| ==> (w + rest)[j] == w[j];
    assert |rest| > 0 ==> (w + rest)[|w|] == rest[0];
  }

  lemma MatchBareKindOfText(w: string, rest: string)
    requires IsWord(w) && KindEnds(Kind(w, None), rest)
    ensures MatchKind(w + rest) == Some(Kind(w, None))
  {
    WordRun(w, rest);
    assert (w + rest)[..|w|] == w;
    assert (w + rest)[|w|..] == rest;
  }

  /** The qualifier text `q)` followed by anything. */
  lemma QualifierRun(q: string, rest: string)
    requires IsWord(q)
    ensures var inner := q + (")" + rest);
      Run(inner, IsWordChar) == |q| < |inner| && inner[|q|] == ')' && inner[..|q|] == q
  {
    WordRun(q, ")" + rest);
  }

  /** A word followed by ` (`: the word run stops at the space. */
  lemma WordThenParen(w: string, inner: string)
    requires IsWord(w)
    ensures var t := w + (" (" + inner);
      Run(t, IsWordChar) == |w| && t[..|w|] == w && t[|w|..] == " (" + inner
  {
    WordRun(w, " (" + inner);
    var t := w + (" (" + inner);
    assert t[..|w|] == w;
    assert t[|w|..] == " (" + inner;
  }

  /** Whenever ` (word)` stands at the front, the optional group takes it,
      whatever follows the `)`. */
  lemma QualifierOfText(q: string, rest: string)
    requires IsWord(q)
    ensures MatchQualifier(" (" + (q + (")" + rest))) == Some(q)
  {
    var inner := q + (")" + rest);
    var after := " (" + inner;
    QualifierRun(q, rest);
    assert after[2..] == inner;
    assert after[|q| + 2] == inner[|q|];
    assert after[2..|q| + 2] == inner[..|q|];
  }

  lemma MatchQualifiedKindOfText(w: string, q: string, rest: string)
    requires IsWord(w) && IsWord(q)
    ensures MatchKind(w + (" (" + (q + (")" + rest)))) == Some(Kind(w, Some(q)))
  {
    QualifierOfText(q, rest);
    WordThenParen(w, q + (")" + rest));
  }

  /** The text of a qualified kind, regrouped from the right. */
  lemma QualifiedKindText(w: string, q: string, eol: string)
    ensures KindText(Kind(w, Some(q))) + eol == w + (" (" + (q + (")" + eol)))
  {
    assert QualifierText(Some(q)) + eol == " (" + (q + (")" + eol));
  }

  /** A written kind is read back verbatim when what follows cannot extend it. */
  lemma MatchKindOfText(k: Kind, rest: string)
    requires ValidKind(k) && KindEnds(k, rest)
    ensures MatchKind(KindText(k) + rest) == Some(k)
  {
    match k.qualifier
    case None =>
      assert KindText(k) == k.word && k == Kind(k.word, None);
      MatchBareKindOfText(k.word, rest);
    case Some(q) =>
      assert k == Kind(k.word, Some(q));
      QualifiedKindText(k.word, q, rest);
      MatchQualifiedKindOfText(k.word, q, rest);
  }

  /** The end of a line never extends a kind. */
  lemma LineEndEndsKind(k: Kind, eol: string)
    requires LineEnd(eol)
    ensures KindEnds(k, eol)
  {
  }

  /** Where the fixed characters of a suffix head sit. */
  lemma SuffixHeadShape(digit: char, plural: bool, u: string)
    ensures var t := SuffixHead(digit, plural) + u;
      var n := |SuffixHead(digit, plural)|;
      && n == (if plural then 9 else 8) && |t| > 7
      && t[0] == ' ' && t[1] == digit && t[2..7] == " time" && (t[7] == 's' <==> plural)
      && t[n - 1] == ' ' && t[n..] == u
  {
    var head := SuffixHead(digit, plural);
    if plural {
      assert head == [' ', digit, ' ', 't', 'i', 'm', 'e', 's', ' '];
    } else {
      assert head == [' ', digit, ' ', 't', 'i', 'm', 'e', ' '];
    }
    var t := head + u;
    assert t[..|head|] == head;
    assert t[2..7] == head[2..7];
  }

  lemma MatchSuffixOfText(x: Suffix, rest: string)
    requires ValidSuffix(x) && KindEnds(x.kind, rest)
    ensures MatchSuffixAt(SuffixText(x) + rest) == Some(x)
  {
    var head := SuffixHead(x.digit, x.plural);
    var u := KindText(x.kind) + rest;
    assert SuffixText(x) + rest == head + u;
    SuffixHeadShape(x.digit, x.plural, u);
    MatchKindOfText(x.kind, rest);
  }

  /** No count starts inside a bare word or the line end after it. */
  lemma NoCountInBareKind(w: string, eol: string, i: nat)
    requires IsWord(w) && LineEnd(eol) && i <= |w + eol|
    ensures !CountAt((w + eol)[i..])
  {
    var t := w + eol;
    if i < |w| {
      assert t[i..][0] == w[i];
    } else if i < |t| {
      assert t[i..][0] == eol[i - |w|];
    }
  }

  lemma NoCountInQualifiedKind(w: string, q: string, eol: string, i: nat)
    requires IsWord(w) && IsWord(q) && LineEnd(eol)
    requires i <= |w + (" (" + (q + (")" + eol)))|
    ensures !CountAt((w + (" (" + (q + (")" + eol))))[i..])
  {
    var inner := q + (")" + eol);
    var after := " (" + inner;
    var t := w + after;
    if i < |w| {
      assert t[i..][0] == w[i];
    } else if i == |w| {
      assert t[i..][1] == after[1] == '(';
    } else if i == |w| + 1 {
      assert t[i..][0] == after[1];
    } else if i < |t| {
      var j := i - |w| - 2;
      assert t[i..][0] == inner[j];
      if j < |q| {
        assert inner[j] == q[j];
      } else if j > |q| {
        assert inner[j] == eol[j - |q| - 1];
      }
    }
  }

  /** The space before the kind does not start a count either. */
  lemma NoCountBeforeKind(k: Kind, eol: string)
    requires ValidKind(k) && LineEnd(eol)
    ensures !CountAt(" " + (KindText(k) + eol))
  {
    var u := " " + (KindText(k) + eol);
    var w := k.word;
    assert u[1] == w[0];
    if |w| > 1 {
      assert u[2] == w[1];
    } else if k.qualifier.Some? {
      assert u[3] == '(';
    } else if |u| > 2 {
      assert u[2] == '\n';
    }
  }

  /** No suffix starts inside the kind text, nor at the space before it. */
  lemma NoCountInKind(k: Kind, eol: string, i: nat)
    requires ValidKind(k) && LineEnd(eol)
    requires i <= |KindText(k) + eol|
    ensures !CountAt((KindText(k) + eol)[i..])
  {
    match k.qualifier
    case None =>
      assert KindText(k) == k.word;
      NoCountInBareKind(k.word, eol, i);
    case Some(q) =>
      assert k == Kind(k.word, Some(q));
      QualifiedKindText(k.word, q, eol);
      NoCountInQualifiedKind(k.word, q, eol, i);
  }

  /** Inside the fixed head ` d time(s) ` only the front has a count. */
  lemma NoCountInHead(x: Suffix, rest: string, i: nat)
    requires 1 <= i < |SuffixHead(x.digit, x.plural)| - 1
    ensures !CountAt((SuffixHead(x.digit, x.plural) + rest)[i..])
  {
    var head := SuffixHead(x.digit, x.plural);
    var t := head + rest;
    assert t[..|head|] == head;
    assert head[1] == x.digit && head[2..7] == " time";
    if x.plural {
      assert head[7] == 's';
    }
    assert t[i] == head[i] && t[i + 1] == head[i + 1];
  }

  /** A suffix line is its head followed by the kind and the line end. */
  lemma SuffixTextSplit(x: Suffix, eol: string)
    ensures SuffixText(x) + eol == SuffixHead(x.digit, x.plural) + (KindText(x.kind) + eol)
  {
  }

  lemma DropPrefix(a: string, b: string, i: nat)
    requires |a| <= i <= |a + b|
    ensures (a + b)[i..] == b[i - |a|..]
  {
  }

  lemma FromLastOfPrefix(a: string, b: string)
    requires |a| > 0 && a[|a| - 1] == ' '
    ensures (a + b)[|a| - 1..] == " " + b
  {
    assert (a + b)[|a| - 1..] == [a[|a| - 1]] + b;
  }

  /** Past the head, a count would have to lie in the kind text. */
  lemma NoCountPastHead(x: Suffix, eol: string, i: nat)
    requires ValidSuffix(x) && LineEnd(eol)
    requires |SuffixHead(x.digit, x.plural)| - 1 <= i <= |SuffixHead(x.digit, x.plural) + (KindText(x.kind) + eol)|
    ensures !CountAt((SuffixHead(x.digit, x.plural) + (KindText(x.kind) + eol))[i..])
  {
    var head := SuffixHead(x.digit, x.plural);
    var kt := KindText(x.kind) + eol;
    if i >= |head| {
      DropPrefix(head, kt, i);
      NoCountInKind(x.kind, eol, i - |head|);
    } else {
      assert head[|head| - 1] == ' ';
      FromLastOfPrefix(head, kt);
      NoCountBeforeKind(x.kind, eol);
    }
  }

  lemma NoCountAfterFront(x: Suffix, eol: string, i: nat)
    requires ValidSuffix(x) && LineEnd(eol)
    requires 1 <= i <= |SuffixText(x) + eol|
    ensures !CountAt((SuffixText(x) + eol)[i..])
  {
    var head := SuffixHead(x.digit, x.plural);
    SuffixTextSplit(x, eol);
    if i >= |head| - 1 {
      NoCountPastHead(x, eol, i);
    } else {
      NoCountInHead(x, KindText(x.kind) + eol, i);
    }
  }

  /** In `SuffixText(x) + eol`, the only place a suffix can start is the front. */
  lemma OnlySuffixAtFront(x: Suffix, eol: string, i: nat)
    requires ValidSuffix(x) && LineEnd(eol)
    requires 1 <= i <= |SuffixText(x) + eol|
    ensures MatchSuffixAt((SuffixText(x) + eol)[i..]).None?
  {
    NoCountAfterFront(x, eol, i);
    NoSuffixWithoutCount((SuffixText(x) + eol)[i..]);
  }

  /** Neither timestamp grammar can produce a newline. */
  lemma StampTextsHaveNoNewline(ts: TimeStamp)
    requires WellFormed(ts)
    ensures forall i :: 0 <= i < |IsoText(ts)| ==> IsoText(ts)[i] != '\n'
    ensures forall i :: 0 <= i < |DmyText(ts)| ==> DmyText(ts)[i] != '\n'
  {
    var fields := [ts.Year, ts.Month, ts.Day, ts.Hour, ts.Minute];
    assert forall f :: f in fields ==> IsDigits(f);
    var sec := SecondText(ts.Second);
    assert forall i :: 0 <= i < |sec| ==> sec[i] != '\n';
    var clock := ClockText(ts.Hour, ts.Minute, ts.Second);
    assert forall i :: 0 <= i < |clock| ==> clock[i] != '\n';
  }

  /** A hit at `p` with none after it up to `i` is the one the backward scan
      reports. */
  lemma ScanBackFinds(line: string, i: nat, at: string -> Option<Suffix>, p: nat, x: Suffix)
    requires 1 <= p <= i <= |line|
    requires at(line[p..]) == Some(x)
    requires forall j :: p < j <= i ==> at(line[j..]).None?
    ensures ScanBack(line, i, at) == Some(LineMatch(p, x))
  {
    var r := ScanBack(line, i, at);
    assert r.Some?;
    assert at(line[r.value.at..]).Some?;
    assert r.value.at <= p;
  }

  /** A suffix at `p` with none after it on the first physical line is the
      one the line match reports. */
  lemma MatchLineAt(line: string, p: nat, x: Suffix)
    requires 1 <= p <= Run(line, NotNewline)
    requires MatchSuffixAt(line[p..]) == Some(x)
    requires forall j :: p < j <= Run(line, NotNewline) ==> MatchSuffixAt(line[j..]).None?
    ensures MatchLine(line) == Some(LineMatch(p, x))
  {
    ScanBackFinds(line, Run(line, NotNewline), MatchSuffixAt, p, x);
  }

  /** No suffix starts after the front of `t` on its first physical line. */
  predicate NoLaterSuffix(t: string) {
    forall j :: 1 <= j <= Run(t, NotNewline) ==> MatchSuffixAt(t[j..]).None?
  }

  /** A newline-free prefix lengthens the first physical line by its own length. */
  lemma {:induction false} RunThrough(stamp: string, t: string)
    requires forall i :: 0 <= i < |stamp| ==> stamp[i] != '\n'
    ensures Run(stamp + t, NotNewline) == |stamp| + Run(t, NotNewline)
  {
    if |stamp| > 0 {
      assert (stamp + t)[0] == stamp[0];
      assert (stamp + t)[1..] == stamp[1..] + t;
      RunThrough(stamp[1..], t);
    } else {
      assert stamp + t == t;
    }
  }

  /** A written suffix ended by the line end has no other suffix after it. */
  lemma LineEndNoLaterSuffix(x: Suffix, eol: string)
    requires ValidSuffix(x) && LineEnd(eol)
    ensures NoLaterSuffix(SuffixText(x) + eol)
  {
    forall j | 1 <= j <= Run(SuffixText(x) + eol, NotNewline)
      ensures MatchSuffixAt((SuffixText(x) + eol)[j..]).None?
    {
      OnlySuffixAtFront(x, eol, j);
    }
  }

  /** The suffix found in `stamp + SuffixText(x) + rest` is `x`, right after the
      stamp, when nothing after it on the first line is another suffix. */
  lemma MatchLineAfterStamp(stamp: string, x: Suffix, rest: string)
    requires ValidSuffix(x) && KindEnds(x.kind, rest)
    requires 0 < |stamp| && forall i :: 0 <= i < |stamp| ==> stamp[i] != '\n'
    requires NoLaterSuffix(SuffixText(x) + rest)
    ensures MatchLine(stamp + (SuffixText(x) + rest)) == Some(LineMatch(|stamp|, x))
  {
    var t := SuffixText(x) + rest;
    var line := stamp + t;
    RunThrough(stamp, t);
    var n := Run(line, NotNewline);
    assert line[|stamp|..] == t;
    MatchSuffixOfText(x, rest);
    forall j | |stamp| < j <= n
      ensures MatchSuffixAt(line[j..]).None?
    {
      assert line[j..] == t[j - |stamp|..];
    }
    MatchLineAt(line, |stamp|, x);
  }

  /** Writing a record as `<timestamp> <d> time(s) <kind>` in either grammar,
      followed by any text that neither extends the kind nor holds a later
      suffix on the first line, then parsing the line, gives the record back
      with its kind verbatim. */
  lemma {:induction false} LogLineRoundTrip(ts: TimeStamp, x: Suffix, rest: string, iso: bool)
    requires WellFormed(ts) && ToDateTime(ts).Success?
    requires ValidSuffix(x) && KindEnds(x.kind, rest) && NoLaterSuffix(SuffixText(x) + rest)
    ensures var line := (if iso then IsoText(ts) else DmyText(ts)) + (SuffixText(x) + rest);
      ParseLogLine(line) == Success(Some(LogLine(ToDateTime(ts).value, DigitValue(x.digit), KindText(x.kind))))
  {
    var stamp := if iso then IsoText(ts) else DmyText(ts);
    var t := SuffixText(x) + rest;
    var line := stamp + t;
    assert line[|stamp|..] == t;
    assert !SecondFollows(t);
    assert Leads(line, stamp, ts.Second);
    ParseTimeStrCharacterized(line, ts);
    StampTextsHaveNoNewline(ts);
    MatchLineAfterStamp(stamp, x, rest);
  }

  /** The round trip for a line exactly as written, up to its line end. */
  lemma LogLineRoundTripAtLineEnd(ts: TimeStamp, x: Suffix, eol: string, iso: bool)
    requires WellFormed(ts) && ToDateTime(ts).Success?
    requires ValidSuffix(x) && LineEnd(eol)
    ensures var line := (if iso then IsoText(ts) else DmyText(ts)) + (SuffixText(x) + eol);
      ParseLogLine(line) == Success(Some(LogLine(ToDateTime(ts).value, DigitValue(x.digit), KindText(x.kind))))
  {
    LineEndEndsKind(x.kind, eol);
    LineEndNoLaterSuffix(x, eol);
    LogLineRoundTrip(ts, x, eol, iso);
  }

  /** A line without a leading timestamp yields `None`, not an exception. */
  lemma NotALogEntry()
    ensures ParseLogLine("not a log entry") == Success(None)
  {
    assert MatchIso("not a log entry").None?;
    assert MatchDmy("not a log entry").None?;
  }

  /** Without a count at some position, no suffix starts there. */
  lemma NoSuffixWithoutCount(u: string)
    requires !CountAt(u)
    ensures MatchSuffixAt(u).None?
  {
    if |u| > 7 && u[0] == ' ' && IsDigit(u[1]) {
      assert u[2..7][0] == u[2] && u[2..7][1] == u[3];
    }
  }

  /** Grammar A never writes a space. */
  lemma IsoTextHasNoSpace(ts: TimeStamp)
    requires WellFormed(ts)
    ensures forall i :: 0 <= i < |IsoText(ts)| ==> IsoText(ts)[i] != ' '
  {
    var fields := [ts.Year, ts.Month, ts.Day, ts.Hour, ts.Minute];
    assert forall f :: f in fields ==> IsDigits(f);
    var sec := SecondText(ts.Second);
    assert forall i :: 0 <= i < |sec| ==> sec[i] != ' ';
    var clock := ClockText(ts.Hour, ts.Minute, ts.Second);
    assert forall i :: 0 <= i < |clock| ==> clock[i] != ' ';
  }

  /** No position of ` 12 times <kind>` and the line end holds a one-digit count. */
  lemma NoCountInTwoDigitTail(k: Kind, eol: string, i: nat)
    requires ValidKind(k) && LineEnd(eol)
    requires i <= |" 12 times " + (KindText(k) + eol)|
    ensures !CountAt((" 12 times " + (KindText(k) + eol))[i..])
  {
    var head := " 12 times ";
    var kt := KindText(k) + eol;
    var t := head + kt;
    if i >= |head| {
      DropPrefix(head, kt, i);
      NoCountInKind(k, eol, i - |head|);
    } else if i == |head| - 1 {
      FromLastOfPrefix(head, kt);
      NoCountBeforeKind(k, eol);
    } else {
      assert t[..|head|] == head;
      if i == 0 {
        assert t[2] == head[2] == '2';
      } else if i == 3 {
        assert t[4] == head[4] == 't';
      } else {
        assert t[i] == head[i];
      }
    }
  }

  /** Around a lone space between two space-free texts there is no count:
      a count needs a second space two characters on. */
  lemma NoCountAroundSpace(pre: string, post: string, rest: string, j: nat)
    requires forall i :: 0 <= i < |pre| ==> pre[i] != ' '
    requires forall i :: 0 <= i < |post| ==> post[i] != ' '
    requires |post| >= 2 && j < |pre| + 1 + |post|
    ensures !CountAt((pre + " " + post + rest)[j..])
  {
    var line := pre + " " + post + rest;
    if j < |pre| {
      assert line[j] == pre[j];
    } else if j == |pre| {
      assert line[j + 2] == post[1];
    } else {
      assert line[j] == post[j - |pre| - 1];
    }
  }

  /** Grammar B writes one space, between the Year and the Hour. */
  lemma DmyTextSpace(ts: TimeStamp)
    requires WellFormed(ts)
    ensures var pre := ts.Day + "/" + ts.Month + "/" + ts.Year;
      var clock := ClockText(ts.Hour, ts.Minute, ts.Second);
      && DmyText(ts) == pre + " " + clock && |clock| >= 2
      && (forall i :: 0 <= i < |pre| ==> pre[i] != ' ')
      && (forall i :: 0 <= i < |clock| ==> clock[i] != ' ')
  {
    var fields := [ts.Year, ts.Month, ts.Day, ts.Hour, ts.Minute];
    assert forall f :: f in fields ==> IsDigits(f);
    var sec := SecondText(ts.Second);
    assert forall i :: 0 <= i < |sec| ==> sec[i] != ' ';
  }

  /** No count starts inside a timestamp's text, whatever follows it: grammar
      A writes no space, and in grammar B the one space is followed by the
      Hour and then `:` or a second Hour digit. */
  lemma NoCountInStamp(ts: TimeStamp, rest: string, iso: bool, j: nat)
    requires WellFormed(ts)
    requires j < |if iso then IsoText(ts) else DmyText(ts)|
    ensures !CountAt(((if iso then IsoText(ts) else DmyText(ts)) + rest)[j..])
  {
    if iso {
      IsoTextHasNoSpace(ts);
      assert (IsoText(ts) + rest)[j..][0] == IsoText(ts)[j];
    } else {
      DmyTextSpace(ts);
      NoCountAroundSpace(ts.Day + "/" + ts.Month + "/" + ts.Year, ClockText(ts.Hour, ts.Minute, ts.Second), rest, j);
    }
  }

  /** The text of a line whose count has two digits. */
  function TwoDigitLine(ts: TimeStamp, k: Kind, eol: string, iso: bool): string {
    (if iso then IsoText(ts) else DmyText(ts)) + (" 12 times " + (KindText(k) + eol))
  }

  /** No suffix starts anywhere in such a line. */
  lemma NoSuffixInTwoDigitLine(ts: TimeStamp, k: Kind, eol: string, iso: bool, j: nat)
    requires WellFormed(ts) && ValidKind(k) && LineEnd(eol)
    requires j <= |TwoDigitLine(ts, k, eol, iso)|
    ensures MatchSuffixAt(TwoDigitLine(ts, k, eol, iso)[j..]).None?
  {
    var stamp := if iso then IsoText(ts) else DmyText(ts);
    var t := " 12 times " + (KindText(k) + eol);
    var line := stamp + t;
    if j < |stamp| {
      NoCountInStamp(ts, t, iso, j);
    } else {
      assert line[j..] == t[j - |stamp|..];
      NoCountInTwoDigitTail(k, eol, j - |stamp|);
    }
    NoSuffixWithoutCount(line[j..]);
  }

  /** A two-digit count is no count: a line that reads `12 times <kind>`
      after a valid timestamp in either grammar, with or without its newline,
      has no suffix, and parsing it raises. */
  lemma {:induction false} TwoDigitCountRaises(ts: TimeStamp, k: Kind, eol: string, iso: bool)
    requires WellFormed(ts) && ToDateTime(ts).Success? && ValidKind(k) && LineEnd(eol)
    ensures ParseLogLine(TwoDigitLine(ts, k, eol, iso)) == Failure(MissingSuffix)
  {
    var stamp := if iso then IsoText(ts) else DmyText(ts);
    var t := " 12 times " + (KindText(k) + eol);
    var line := TwoDigitLine(ts, k, eol, iso);
    assert line[|stamp|..] == t;
    assert !SecondFollows(t);
    assert Leads(line, stamp, ts.Second);
    ParseTimeStrCharacterized(line, ts);
    forall j | 1 <= j <= Run(line, NotNewline)
      ensures MatchSuffixAt(line[j..]).None?
    {
      NoSuffixInTwoDigitLine(ts, k, eol, iso, j);
    }
  }
}
