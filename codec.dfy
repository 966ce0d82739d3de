/** The compact duration codec of the bot: `parse_time_interval` and
    `format_time_interval`.

    The parser is `re.match` of `(?:(\d+)d)?(?:(\d+)h)?(?:(\d+)m)?(?:(\d+)s)?`,
    written out as a scanner over ASCII digits.  For each unit in the order
    d, h, m, s the scanner takes the maximal digit run at the current position
    and consumes it, with the unit letter, only when that letter follows the
    run; otherwise the group is skipped and nothing is consumed.  No
    backtracking is needed, for two reasons.  Across groups, every later group
    may match the empty string, so the greedy `?` never has to give a group
    back.  Inside a group, a run shorter than the maximal one is followed by a
    digit, never by the unit letter, so only the maximal run can be taken.
    The match is a prefix match: what follows the last group is ignored, and
    the match is the longest prefix made of groups (`MatchedPrefixLongest`). */
module Codec {
  import opened Optional

  const SecondsPerMinute: nat := 60
  const SecondsPerHour: nat := 3600
  const SecondsPerDay: nat := 86400

  /** Outcome of parsing: the total number of seconds, or the `ValueError`
      raised for an invalid format. */
  datatype ParseResult = Ok(seconds: nat) | InvalidFormat

  /** The four optional capture groups of the pattern, each holding the digits
      it captured. */
  datatype Components = Components(
    days: Option<string>,
    hours: Option<string>,
    minutes: Option<string>,
    seconds: Option<string>)

  // ---------------------------------------------------------------------
  // Decimal digits
  // ---------------------------------------------------------------------

  predicate IsDigit(c: char) { '0' <= c <= '9' }

  predicate AllDigits(s: string) { forall i :: 0 <= i < |s| ==> IsDigit(s[i]) }

  function DigitValue(c: char): (d: nat)
    requires IsDigit(c)
    ensures d < 10
  {
    c as int - '0' as int
  }

  function DigitChar(d: nat): (c: char)
    requires d < 10
    ensures IsDigit(c) && DigitValue(c) == d
  {
    ('0' as int + d) as char
  }

  /** Python's `int(ds)` on a string of ASCII digits (leading zeros allowed). */
  function DecimalValue(ds: string): (v: nat)
    requires AllDigits(ds)
    ensures ds != [] && ds[0] == '0' ==> v == DecimalValue(ds[1..])
  {
    if ds == [] then 0
    else
      var init := ds[..|ds| - 1];
      assert ds != [] && ds[0] == '0' && |ds| > 1 ==> init[0] == '0' && init[1..] == ds[1..][..|ds| - 2];
      10 * DecimalValue(init) + DigitValue(ds[|ds| - 1])
  }

  /** Python's `str(n)` for a non-negative integer. */
  function NatToString(n: nat): (s: string)
    ensures s != [] && AllDigits(s)
    decreases n
  {
    if n < 10 then [DigitChar(n)] else NatToString(n / 10) + [DigitChar(n % 10)]
  }

  lemma {:induction false} NatToStringValue(n: nat)
    ensures DecimalValue(NatToString(n)) == n
    decreases n
  {
    if n >= 10 {
      NatToStringValue(n / 10);
      var s := NatToString(n);
      assert s[..|s| - 1] == NatToString(n / 10);
    }
  }

  /** `str(n)` has no leading zero except for the number zero itself. */
  lemma {:induction false} NatToStringLeadingDigit(n: nat)
    ensures NatToString(n)[0] == '0' <==> n == 0
    decreases n
  {
    if n >= 10 {
      NatToStringLeadingDigit(n / 10);
      assert NatToString(n)[0] == NatToString(n / 10)[0];
    }
  }

  // ---------------------------------------------------------------------
  // The scanner
  // ---------------------------------------------------------------------

  /** Length of the maximal run of ASCII digits at the start of `s` (what the
      greedy `\d+` can take). */
  function DigitRun(s: string): (k: nat)
    ensures k <= |s| && AllDigits(s[..k])
    ensures k == |s| || !IsDigit(s[k])
  {
    if s != [] && IsDigit(s[0]) then 1 + DigitRun(s[1..]) else 0
  }

  /** One optional group `(?:(\d+)u)?` at the start of `s`: the captured
      digits and what is left to scan. */
  function Step(s: string, unit: char): (r: (Option<string>, string))
    ensures r.0.None? ==> r.1 == s
    ensures r.0.Some? ==> r.0.value != [] && AllDigits(r.0.value)
    ensures s == RenderGroup(r.0, unit) + r.1
  {
    var k := DigitRun(s);
    if 0 < k < |s| && s[k] == unit then (Some(s[..k]), s[k + 1..]) else (None, s)
  }

  predicate WellFormedGroup(o: Option<string>) { o.Some? ==> o.value != [] && AllDigits(o.value) }

  predicate WellFormed(c: Components)
  {
    WellFormedGroup(c.days) && WellFormedGroup(c.hours)
    && WellFormedGroup(c.minutes) && WellFormedGroup(c.seconds)
  }

  /** `any(match.groups())`: some group captured (a capture is never empty). */
  predicate AnyPresent(c: Components)
  {
    c.days.Some? || c.hours.Some? || c.minutes.Some? || c.seconds.Some?
  }

  /** The text a group matched: its digits followed by its unit letter. */
  function RenderGroup(o: Option<string>, unit: char): string
  {
    match o
    case None => []
    case Some(ds) => ds + [unit]
  }

  /** The text the four groups matched together. */
  function Render(c: Components): string
  {
    RenderGroup(c.days, 'd') + RenderGroup(c.hours, 'h')
    + RenderGroup(c.minutes, 'm') + RenderGroup(c.seconds, 's')
  }

  /** `re.match` of the pattern: the groups and the ignored remainder.  The
      input is exactly the matched groups followed by the remainder. */
  function Scan(s: string): (r: (Components, string))
    ensures WellFormed(r.0)
    ensures s == Render(r.0) + r.1
  {
    var (d, s1) := Step(s, 'd');
    var (h, s2) := Step(s1, 'h');
    var (m, s3) := Step(s2, 'm');
    var (sec, s4) := Step(s3, 's');
    var c := Components(d, h, m, sec);
    RenderSplit(RenderGroup(d, 'd'), RenderGroup(h, 'h'), RenderGroup(m, 'm'), RenderGroup(sec, 's'), s4);
    (c, s4)
  }

  lemma RenderSplit(a: string, b: string, c: string, d: string, t: string)
    ensures a + b + c + d + t == a + (b + (c + (d + t)))
  {
  }

  /** `int(group or 0)`. */
  function GroupValue(o: Option<string>): nat
    requires WellFormedGroup(o)
  {
    match o
    case None => 0
    case Some(ds) => DecimalValue(ds)
  }

  /** Total seconds denoted by the groups. */
  function Value(c: Components): nat
    requires WellFormed(c)
  {
    GroupValue(c.days) * SecondsPerDay + GroupValue(c.hours) * SecondsPerHour
    + GroupValue(c.minutes) * SecondsPerMinute + GroupValue(c.seconds)
  }

  /** Components within their bounds (hours below 24, minutes and seconds
      below 60) are recovered from the total by `divmod`. */
  lemma ValueDivMod(c: Components)
    requires WellFormed(c)
    requires GroupValue(c.hours) < 24 && GroupValue(c.minutes) < 60 && GroupValue(c.seconds) < 60
    ensures Value(c) / SecondsPerDay == GroupValue(c.days)
    ensures Value(c) % SecondsPerDay / SecondsPerHour == GroupValue(c.hours)
    ensures Value(c) % SecondsPerDay % SecondsPerHour / SecondsPerMinute == GroupValue(c.minutes)
    ensures Value(c) % SecondsPerDay % SecondsPerHour % SecondsPerMinute == GroupValue(c.seconds)
  {
    var d, h, m, s := GroupValue(c.days), GroupValue(c.hours), GroupValue(c.minutes), GroupValue(c.seconds);
    var n := Value(c);
    assert n == d * 86400 + (h * 3600 + (m * 60 + s));
    assert n / 86400 == d && n % 86400 == h * 3600 + (m * 60 + s);
    assert (h * 3600 + (m * 60 + s)) / 3600 == h && (h * 3600 + (m * 60 + s)) % 3600 == m * 60 + s;
    assert (m * 60 + s) / 60 == m && (m * 60 + s) % 60 == s;
  }

  /** `parse_time_interval`: the empty string is 0; otherwise the string must
      start with at least one group; trailing text is ignored. */
  function Parse(s: string): (r: ParseResult)
    ensures r == InvalidFormat <==> s != [] && !StartsWithGroup(s)
  {
    if s == [] then Ok(0)
    else
      var (c, _) := Scan(s);
      if AnyPresent(c) then Ok(Value(c)) else InvalidFormat
  }

  /** The text before the first character the scanner did not consume. */
  function MatchedPrefix(s: string): (p: string)
    ensures p <= s
  {
    var (c, rest) := Scan(s);
    assert s == Render(c) + rest;
    Render(c)
  }

  // ---------------------------------------------------------------------
  // Scanning rendered groups
  // ---------------------------------------------------------------------

  lemma {:induction false} DigitRunAppend(ds: string, t: string)
    requires AllDigits(ds)
    ensures DigitRun(ds + t) == |ds| + DigitRun(t)
    decreases |ds|
  {
    if ds != [] {
      assert (ds + t)[0] == ds[0];
      assert (ds + t)[1..] == ds[1..] + t;
      DigitRunAppend(ds[1..], t);
    } else {
      assert ds + t == t;
    }
  }

  /** A group followed by `t` is consumed by the step for its own unit. */
  lemma StepOwnGroup(ds: string, unit: char, t: string)
    requires ds != [] && AllDigits(ds) && !IsDigit(unit)
    ensures Step(ds + [unit] + t, unit) == (Some(ds), t)
  {
    var s := ds + [unit] + t;
    assert s == ds + ([unit] + t);
    DigitRunAppend(ds, [unit] + t);
    assert s[..|ds|] == ds && s[|ds|] == unit && s[|ds| + 1..] == t;
  }

  /** A group of another unit is not consumed. */
  lemma StepOtherGroup(ds: string, other: char, t: string, unit: char)
    requires ds != [] && AllDigits(ds) && !IsDigit(other) && other != unit
    ensures Step(ds + [other] + t, unit) == (None, ds + [other] + t)
  {
    var s := ds + [other] + t;
    assert s == ds + ([other] + t);
    DigitRunAppend(ds, [other] + t);
    assert s[|ds|] == other;
  }

  /** Text that does not start with a group is not consumed by any step, in
      particular text of digits alone (`"30"` after `"1h"`). */
  lemma StepNoGroup(t: string, unit: char)
    requires !StartsWithGroup(t) && unit in "dhms"
    ensures Step(t, unit) == (None, t)
  {
  }

  /** A step for `unit` consumes the rendered group `o` in front of `t` when it
      would consume nothing of `t`. */
  lemma StepRendered(o: Option<string>, unit: char, t: string)
    requires WellFormedGroup(o) && !IsDigit(unit)
    requires Step(t, unit).0.None?
    ensures Step(RenderGroup(o, unit) + t, unit) == (o, t)
  {
    match o
    case None =>
      assert RenderGroup(o, unit) + t == t;
    case Some(ds) =>
      StepOwnGroup(ds, unit, t);
  }

  /** A step for `unit` consumes nothing of a group of another unit, nor of
      what follows it when that group is absent. */
  lemma StepBlocked(o: Option<string>, other: char, t: string, unit: char)
    requires WellFormedGroup(o) && !IsDigit(other) && other != unit
    requires Step(t, unit).0.None?
    ensures Step(RenderGroup(o, other) + t, unit).0.None?
  {
    match o
    case None =>
      assert RenderGroup(o, other) + t == t;
    case Some(ds) =>
      StepOtherGroup(ds, other, t, unit);
  }

  /** Scanning well-formed groups followed by text that does not start with a
      group gives back exactly those groups and that text. */
  lemma ScanRendered(c: Components, rest: string)
    requires WellFormed(c)
    requires !StartsWithGroup(rest)
    ensures Scan(Render(c) + rest) == (c, rest)
  {
    var t3 := RenderGroup(c.seconds, 's') + rest;
    var t2 := RenderGroup(c.minutes, 'm') + t3;
    var t1 := RenderGroup(c.hours, 'h') + t2;
    var t0 := RenderGroup(c.days, 'd') + t1;
    assert Render(c) + rest == t0;
    StepNoGroup(rest, 's');
    StepRendered(c.seconds, 's', rest);
    assert Step(t3, 's') == (c.seconds, rest);
    StepNoGroup(rest, 'm');
    StepBlocked(c.seconds, 's', rest, 'm');
    StepRendered(c.minutes, 'm', t3);
    assert Step(t2, 'm') == (c.minutes, t3);
    StepNoGroup(rest, 'h');
    StepBlocked(c.seconds, 's', rest, 'h');
    StepBlocked(c.minutes, 'm', t3, 'h');
    StepRendered(c.hours, 'h', t2);
    assert Step(t1, 'h') == (c.hours, t2);
    StepNoGroup(rest, 'd');
    StepBlocked(c.seconds, 's', rest, 'd');
    StepBlocked(c.minutes, 'm', t3, 'd');
    StepBlocked(c.hours, 'h', t2, 'd');
    StepRendered(c.days, 'd', t1);
    assert Step(t0, 'd') == (c.days, t1);
  }

  /** `s` starts with a digit run followed by a letter other than `unit`: a
      step for `unit` captures nothing there. */
  predicate BlockedFor(s: string, unit: char)
  {
    var k := DigitRun(s);
    0 < k < |s| && s[k] != unit
  }

  /** A digit run that ends inside `a` is not changed by what follows `a`. */
  lemma {:induction false} DigitRunPrefix(a: string, b: string)
    requires DigitRun(a) < |a|
    ensures DigitRun(a + b) == DigitRun(a)
    decreases |a|
  {
    assert (a + b)[0] == a[0];
    if IsDigit(a[0]) {
      assert (a + b)[1..] == a[1..] + b;
      DigitRunPrefix(a[1..], b);
    }
  }

  /** Rendered groups of units other than `unit`, if any, block the step for
      `unit`. */
  lemma BlockedGroup(o: Option<string>, other: char, more: string, unit: char)
    requires WellFormedGroup(o) && !IsDigit(other) && other != unit
    requires more == [] || BlockedFor(more, unit)
    ensures RenderGroup(o, other) + more == [] || BlockedFor(RenderGroup(o, other) + more, unit)
  {
    match o
    case None =>
      assert RenderGroup(o, other) + more == more;
    case Some(ds) =>
      var s := ds + ([other] + more);
      assert RenderGroup(o, other) + more == s;
      DigitRunAppend(ds, [other] + more);
      assert s[|ds|] == other;
  }

  /** A step in front of the rendered group `o` and the blocking groups
      `later` consumes exactly `o`, whatever text `t` follows. */
  lemma StepTail(o: Option<string>, unit: char, later: string, t: string)
    requires WellFormedGroup(o) && !IsDigit(unit)
    requires later == [] || BlockedFor(later, unit)
    requires o.Some? || later != []
    ensures Step(RenderGroup(o, unit) + later + t, unit) == (o, later + t)
  {
    match o
    case Some(ds) =>
      assert RenderGroup(o, unit) + later + t == ds + [unit] + (later + t);
      StepOwnGroup(ds, unit, later + t);
    case None =>
      assert RenderGroup(o, unit) + later + t == later + t;
      DigitRunPrefix(later, t);
      assert (later + t)[DigitRun(later)] == later[DigitRun(later)];
  }

  /** A prefix and the rest of the string make up the string. */
  lemma PrefixSplit(p: string, s: string)
    requires p <= s
    ensures s == p + s[|p|..]
  {
  }

  /** A step in front of the rendered group `o`, the blocking groups `later`
      and any text `t` leaves `later` in front of a suffix of `t`. */
  lemma StepCarry(o: Option<string>, unit: char, later: string, t: string)
    requires WellFormedGroup(o) && !IsDigit(unit)
    requires later == [] || BlockedFor(later, unit)
    ensures var r := Step(RenderGroup(o, unit) + later + t, unit).1;
      later <= r && |r| <= |later| + |t|
  {
    if o.Some? || later != [] {
      StepTail(o, unit, later, t);
    } else {
      assert RenderGroup(o, unit) + later + t == t;
    }
  }

  /** The last step, for seconds, leaves a suffix of the text after the
      seconds group. */
  lemma CarrySeconds(c: Components, t: string)
    requires WellFormed(c)
    ensures |Step(RenderGroup(c.seconds, 's') + t, 's').1| <= |t|
  {
    assert RenderGroup(c.seconds, 's') + t == RenderGroup(c.seconds, 's') + [] + t;
    StepCarry(c.seconds, 's', [], t);
  }

  /** The steps for minutes and seconds leave a suffix of the text after the
      minutes and seconds groups. */
  lemma CarryMinutes(c: Components, t: string)
    requires WellFormed(c)
    ensures var rs := RenderGroup(c.seconds, 's');
      |Step(Step(RenderGroup(c.minutes, 'm') + rs + t, 'm').1, 's').1| <= |t|
  {
    var rm, rs := RenderGroup(c.minutes, 'm'), RenderGroup(c.seconds, 's');
    assert rs == [] || BlockedFor(rs, 'm') by {
      BlockedGroup(c.seconds, 's', [], 'm');
      assert rs + [] == rs;
    }
    StepCarry(c.minutes, 'm', rs, t);
    var s3 := Step(rm + rs + t, 'm').1;
    PrefixSplit(rs, s3);
    CarrySeconds(c, s3[|rs|..]);
  }

  /** The steps from hours on leave a suffix of the text after the hours,
      minutes and seconds groups. */
  lemma CarryHours(c: Components, t: string)
    requires WellFormed(c)
    ensures var rm, rs := RenderGroup(c.minutes, 'm'), RenderGroup(c.seconds, 's');
      |Step(Step(Step(RenderGroup(c.hours, 'h') + (rm + rs) + t, 'h').1, 'm').1, 's').1| <= |t|
  {
    var rh := RenderGroup(c.hours, 'h');
    var rm, rs := RenderGroup(c.minutes, 'm'), RenderGroup(c.seconds, 's');
    assert rm + rs == [] || BlockedFor(rm + rs, 'h') by {
      BlockedGroup(c.seconds, 's', [], 'h');
      BlockedGroup(c.minutes, 'm', rs, 'h');
    }
    StepCarry(c.hours, 'h', rm + rs, t);
    var s2 := Step(rh + (rm + rs) + t, 'h').1;
    PrefixSplit(rm + rs, s2);
    CarryMinutes(c, s2[|rm + rs|..]);
  }

  /** Scanning well-formed groups followed by any text captures at least those
      groups: what is left over is a suffix of that text. */
  lemma ScanLongest(c: Components, t: string)
    requires WellFormed(c)
    ensures |Scan(Render(c) + t).1| <= |t|
  {
    var rd, rh := RenderGroup(c.days, 'd'), RenderGroup(c.hours, 'h');
    var rm, rs := RenderGroup(c.minutes, 'm'), RenderGroup(c.seconds, 's');
    var s0 := Render(c) + t;
    assert s0 == rd + (rh + (rm + rs)) + t;
    assert rh + (rm + rs) == [] || BlockedFor(rh + (rm + rs), 'd') by {
      BlockedGroup(c.seconds, 's', [], 'd');
      BlockedGroup(c.minutes, 'm', rs, 'd');
      BlockedGroup(c.hours, 'h', rm + rs, 'd');
    }
    StepCarry(c.days, 'd', rh + (rm + rs), t);
    var s1 := Step(s0, 'd').1;
    PrefixSplit(rh + (rm + rs), s1);
    CarryHours(c, s1[|rh + (rm + rs)|..]);
    assert Scan(s0).1 == Step(Step(Step(s1, 'h').1, 'm').1, 's').1;
  }

  /** The scanner's match is the longest prefix made of well-formed groups in
      d, h, m, s order, as the greedy optional groups of `re.match` give. */
  lemma MatchedPrefixLongest(s: string, c: Components)
    requires WellFormed(c) && Render(c) <= s
    ensures |Render(c)| <= |MatchedPrefix(s)|
  {
    var t := s[|Render(c)|..];
    assert s == Render(c) + t;
    ScanLongest(c, t);
  }

  // ---------------------------------------------------------------------
  // Properties of Parse
  // ---------------------------------------------------------------------

  /** Groups in d, h, m, s order, each with any number of digits (leading zeros
      included), parse to days * 86400 + hours * 3600 + minutes * 60 + seconds,
      whatever text follows them, as long as it does not start with a group. */
  lemma ParseRendered(c: Components, rest: string)
    requires WellFormed(c) && AnyPresent(c)
    requires !StartsWithGroup(rest)
    ensures Parse(Render(c) + rest) == Ok(Value(c))
  {
    ScanRendered(c, rest);
    assert Render(c) != [] by {
      if c.days.Some? { assert Render(c)[0] == c.days.value[0]; }
      else if c.hours.Some? { assert Render(c)[0] == c.hours.value[0]; }
      else if c.minutes.Some? { assert Render(c)[0] == c.minutes.value[0]; }
      else { assert Render(c)[0] == c.seconds.value[0]; }
    }
  }

  /** A group can start at position 0: a non-empty digit run followed by one
      of the unit letters. */
  predicate StartsWithGroup(s: string)
  {
    var k := DigitRun(s);
    0 < k < |s| && s[k] in "dhms"
  }

  /** Every parse result is a non-negative number of seconds that only depends
      on the matched prefix: the text after it is ignored. */
  lemma ParseIgnoresTrailing(s: string)
    requires Parse(s).Ok? && s != []
    ensures Parse(MatchedPrefix(s)) == Parse(s)
    ensures s == MatchedPrefix(s) + s[|MatchedPrefix(s)|..]
  {
    var (c, rest) := Scan(s);
    ParseRendered(c, []);
    assert Render(c) + [] == Render(c);
  }

  lemma ParseEmpty()
    ensures Parse("") == Ok(0)
  {
  }

  /** Strings with no group at their start are rejected. */
  lemma ParseRejects()
    ensures Parse("garbage") == InvalidFormat
    ensures Parse("5") == InvalidFormat
    ensures Parse("h") == InvalidFormat
  {
    assert !StartsWithGroup("garbage") && !StartsWithGroup("5") && !StartsWithGroup("h");
  }

  /** ParseRendered for a string already known to be the rendered groups. */
  lemma ParseAs(s: string, c: Components, rest: string, n: nat)
    requires WellFormed(c) && AnyPresent(c) && Value(c) == n
    requires !StartsWithGroup(rest)
    requires s == Render(c) + rest
    ensures Parse(s) == Ok(n)
  {
    ParseRendered(c, rest);
  }

  /** A captured "0" is a matched group. */
  lemma ParseZeroSeconds()
    ensures Parse("0s") == Ok(0)
  {
    var c := Components(None, None, None, Some("0"));
    assert Render(c) == "0s";
    ParseAs("0s", c, [], 0);
  }

  lemma ParseAllUnits()
    ensures Parse("1d2h3m4s") == Ok(93784)
  {
    var c := Components(Some("1"), Some("2"), Some("3"), Some("4"));
    assert Render(c) == "1d" + "2h" + "3m" + "4s" == "1d2h3m4s";
    assert DecimalValue("1") == 1 && DecimalValue("2") == 2;
    assert DecimalValue("3") == 3 && DecimalValue("4") == 4;
    ParseAs("1d2h3m4s", c, [], 93784);
  }

  lemma ParseLeadingZero()
    ensures Parse("01d") == Ok(86400)
  {
    var c := Components(Some("01"), None, None, None);
    assert DecimalValue("01") == 1 by { assert "01"[..1] == "0"; }
    assert Render(c) == "01d";
    ParseAs("01d", c, [], 86400);
  }

  /** Trailing text is ignored. */
  lemma ParseTrailing()
    ensures Parse("1dxyz") == Ok(86400)
  {
    var c := Components(Some("1"), None, None, None);
    assert Render(c) == "1d";
    assert "1dxyz" == "1d" + "xyz";
    ParseAs("1dxyz", c, "xyz", 86400);
  }

  /** Trailing digits with no unit letter are ignored too: `"1h30"` is just
      the hour. */
  lemma ParseTrailingDigits()
    ensures Parse("1h30") == Ok(3600)
  {
    var c := Components(None, Some("1"), None, None);
    assert Render(c) == "1h";
    assert "1h30" == "1h" + "30";
    assert !StartsWithGroup("30");
    ParseAs("1h30", c, "30", 3600);
  }

  /** A days group after an hours group is out of order: it is trailing text,
      and only the hours count. */
  lemma ParseDaysAfterHours(s: string, hs: string, ds: string)
    requires hs != [] && AllDigits(hs) && ds != [] && AllDigits(ds)
    requires s == hs + ['h'] + ds + ['d']
    ensures Parse(s) == Ok(DecimalValue(hs) * SecondsPerHour)
  {
    var rest := ds + ['d'] + [];
    assert s == hs + ['h'] + rest;
    StepOtherGroup(hs, 'h', rest, 'd');
    StepOwnGroup(hs, 'h', rest);
    StepOtherGroup(ds, 'd', [], 'm');
    StepOtherGroup(ds, 'd', [], 's');
    var c := Components(None, Some(hs), None, None);
    assert Step(s, 'd') == (None, s);
    assert Step(s, 'h') == (Some(hs), rest);
    assert Step(rest, 'm') == (None, rest);
    assert Step(rest, 's') == (None, rest);
    assert Scan(s) == (c, rest);
    assert s != [];
    assert AnyPresent(c) && Value(c) == DecimalValue(hs) * SecondsPerHour;
  }

  /** So "1h1d" is one hour. */
  lemma ParseOutOfOrder()
    ensures Parse("1h1d") == Ok(3600)
  {
    var one := "1";
    assert DecimalValue(one) == 1;
    ParseDaysAfterHours("1h1d", one, one);
  }

  // ---------------------------------------------------------------------
  // Format
  // ---------------------------------------------------------------------

  /** The groups `format_time_interval` emits: `divmod` by a day, an hour and a
      minute; a component is emitted only when it is positive, and the seconds
      also when nothing else was emitted. */
  function Breakdown(n: nat): (c: Components)
    ensures Canonical(c) && Value(c) == n
  {
    var days := n / SecondsPerDay;
    var hours := n % SecondsPerDay / SecondsPerHour;
    var minutes := n % SecondsPerDay % SecondsPerHour / SecondsPerMinute;
    var seconds := n % SecondsPerDay % SecondsPerHour % SecondsPerMinute;
    EmitCanonical(days, hours, minutes, seconds);
    assert n == days * 86400 + hours * 3600 + minutes * 60 + seconds;
    Emit(days, hours, minutes, seconds)
  }

  /** The emit rule of `format_time_interval`: each positive component, and
      the seconds also when nothing else was emitted. */
  function Emit(days: nat, hours: nat, minutes: nat, seconds: nat): Components
  {
    Components(
      if days > 0 then Some(NatToString(days)) else None,
      if hours > 0 then Some(NatToString(hours)) else None,
      if minutes > 0 then Some(NatToString(minutes)) else None,
      if seconds > 0 || (days == 0 && hours == 0 && minutes == 0) then Some(NatToString(seconds)) else None)
  }

  lemma EmitCanonical(days: nat, hours: nat, minutes: nat, seconds: nat)
    requires hours < 24 && minutes < 60 && seconds < 60
    ensures Canonical(Emit(days, hours, minutes, seconds))
    ensures Value(Emit(days, hours, minutes, seconds)) == days * 86400 + hours * 3600 + minutes * 60 + seconds
  {
    var c := Emit(days, hours, minutes, seconds);
    if days > 0 { PositiveGroupOf(days); }
    if hours > 0 { PositiveGroupOf(hours); }
    if minutes > 0 { PositiveGroupOf(minutes); }
    NatToStringValue(seconds);
    assert GroupValue(c.days) == days && GroupValue(c.hours) == hours;
    assert GroupValue(c.minutes) == minutes && GroupValue(c.seconds) == seconds;
  }

  /** `format_time_interval`: the emitted groups one after another. */
  function Format(n: nat): (r: string)
    ensures r != []
  {
    var c := Breakdown(n);
    assert c.seconds.Some? ==> Render(c)[|Render(c)| - 1] == 's';
    assert c.seconds.None? ==> c.minutes.Some? || c.hours.Some? || c.days.Some?;
    Render(c)
  }

  /** A group written as `str(v)` of a positive value `v`. */
  predicate PositiveGroup(o: Option<string>)
    requires WellFormedGroup(o)
  {
    o.Some? ==> o.value == NatToString(DecimalValue(o.value)) && DecimalValue(o.value) > 0
  }

  /** The canonical form of a duration: only positive components, each
      without leading zeros, hours below 24, minutes and seconds below 60; the
      seconds are written as `0` only when they are the only component. */
  predicate Canonical(c: Components)
  {
    WellFormed(c) && AnyPresent(c)
    && PositiveGroup(c.days) && PositiveGroup(c.hours) && PositiveGroup(c.minutes)
    && (c.seconds.Some? ==> c.seconds.value == NatToString(DecimalValue(c.seconds.value)))
    && (c.seconds.Some? && DecimalValue(c.seconds.value) == 0 ==>
          c.days.None? && c.hours.None? && c.minutes.None?)
    && GroupValue(c.hours) < 24 && GroupValue(c.minutes) < 60 && GroupValue(c.seconds) < 60
  }

  lemma PositiveGroupOf(v: nat)
    requires v > 0
    ensures WellFormedGroup(Some(NatToString(v))) && PositiveGroup(Some(NatToString(v)))
    ensures GroupValue(Some(NatToString(v))) == v
  {
    NatToStringValue(v);
  }

  /** A canonical form is the one `format_time_interval` emits for its value:
      there is exactly one canonical form per duration. */
  lemma CanonicalIsBreakdown(c: Components)
    requires Canonical(c)
    ensures Breakdown(Value(c)) == c
  {
    ValueDivMod(c);
    var b := Breakdown(Value(c));
    assert b.days == c.days;
    assert b.hours == c.hours;
    assert b.minutes == c.minutes;
    assert b.seconds == c.seconds;
  }

  /** No canonical group starts with a zero, except the lone `0s`. */
  lemma CanonicalNoLeadingZero(c: Components)
    requires Canonical(c)
    ensures c.days.Some? ==> c.days.value[0] != '0'
    ensures c.hours.Some? ==> c.hours.value[0] != '0'
    ensures c.minutes.Some? ==> c.minutes.value[0] != '0'
    ensures c.seconds.Some? && c.seconds.value[0] == '0' ==>
      c.seconds.value == "0" && c.days.None? && c.hours.None? && c.minutes.None?
  {
    if c.days.Some? { NatToStringLeadingDigit(DecimalValue(c.days.value)); }
    if c.hours.Some? { NatToStringLeadingDigit(DecimalValue(c.hours.value)); }
    if c.minutes.Some? { NatToStringLeadingDigit(DecimalValue(c.minutes.value)); }
    if c.seconds.Some? { NatToStringLeadingDigit(DecimalValue(c.seconds.value)); }
  }

  /** Round trip: `parse(format(n)) == n` for every non-negative n. */
  lemma ParseFormat(n: nat)
    ensures Parse(Format(n)) == Ok(n)
  {
    assert Format(n) == Render(Breakdown(n)) + [];
    ParseRendered(Breakdown(n), []);
  }

  /** The other direction, on canonical strings (in particular on every string
      `format_time_interval` produced): formatting what was parsed gives the
      string back. */
  lemma FormatParseCanonical(c: Components)
    requires Canonical(c)
    ensures Parse(Render(c)) == Ok(Value(c))
    ensures Format(Parse(Render(c)).seconds) == Render(c)
  {
    assert Render(c) == Render(c) + [];
    ParseRendered(c, []);
    CanonicalIsBreakdown(c);
  }

  /** `format_time_interval` is one-to-one. */
  lemma FormatInjective(n: nat, m: nat)
    requires Format(n) == Format(m)
    ensures n == m
  {
    ParseFormat(n);
    ParseFormat(m);
  }

  /** Format of a value given by components within their bounds: the emit
      rule applied to those components. */
  lemma FormatAs(n: nat, days: nat, hours: nat, minutes: nat, seconds: nat, r: string)
    requires hours < 24 && minutes < 60 && seconds < 60
    requires n == days * 86400 + hours * 3600 + minutes * 60 + seconds
    requires r == Render(Emit(days, hours, minutes, seconds))
    ensures Format(n) == r
  {
    var c := Emit(days, hours, minutes, seconds);
    EmitCanonical(days, hours, minutes, seconds);
    CanonicalIsBreakdown(c);
    assert Value(c) == n;
    assert Breakdown(n) == c;
    assert Format(n) == Render(c);
  }

  lemma FormatZero()
    ensures Format(0) == "0s"
  {
  }

  lemma FormatMinutes()
    ensures Format(90) == "1m30s"
  {
    assert NatToString(30) == "30" && NatToString(1) == "1";
    assert Render(Emit(0, 0, 1, 30)) == "1m30s";
    FormatAs(90, 0, 0, 1, 30, "1m30s");
  }

  lemma FormatAllUnits()
    ensures Format(90061) == "1d1h1m1s"
  {
    assert NatToString(1) == "1";
    assert Render(Emit(1, 1, 1, 1)) == "1d1h1m1s";
    FormatAs(90061, 1, 1, 1, 1, "1d1h1m1s");
  }

  lemma FormatOneDay()
    ensures Format(86400) == "1d"
  {
    assert NatToString(1) == "1";
    assert Render(Emit(1, 0, 0, 0)) == "1d";
    FormatAs(86400, 1, 0, 0, 0, "1d");
  }

  /** "01d" parses, but formats back without the leading zero. */
  lemma FormatCanonicalizes()
    ensures Format(Parse("01d").seconds) == "1d"
  {
    FormatOneDay();
    ParseLeadingZero();
  }
}
