/** `parse_iso8601` (scripts/util/parse.py): the ISO 8601 date-times its
    pattern and `strptime` accept — upper-case `T` and `Z` only, a
    four-digit year, one- or two-digit other fields, trailing text ignored —
    matched at the start of the text by
    `(\d+-\d+-\d+T\d+:\d+:\d+)\.?\d*([-\+Z])((\d+):(\d+))?`, the offset
    folded into `±HHMM`, then read by
    `datetime.strptime(..., '%Y-%m-%dT%H:%M:%S%z').timestamp()`.
    `\d` is modelled as an ASCII digit. */
module Timestamp {
  import opened Wrappers
  import opened Text
  import Calendar

  /** The three ways the Python code raises `ValueError`: the pattern does
      not match, the offset groups disagree with the sign, or `strptime`
      (or `datetime`) rejects a field. */
  datatype TimestampError = NoMatch | BadOffset | OutOfRange

  /** The `(\d+):(\d+)` groups of the offset. */
  datatype Offset = Offset(hours: string, minutes: string)

  /** What the pattern matched: the six date-time digit runs, the discarded
      fraction text `\.?\d*`, the sign group and the optional offset groups. */
  datatype Match = Match(
    year: string, month: string, day: string,
    hour: string, minute: string, second: string,
    fraction: string, sign: char, offset: Option<Offset>)

  /** `\d+`: at least one digit. */
  predicate Digits(s: string) {
    s != [] && AllDigits(s)
  }

  /** The discarded `\.?\d*` text as it can occur after the seconds: empty,
      or a dot and digits. */
  predicate IsFraction(f: string) {
    f == [] || (f[0] == '.' && AllDigits(f[1..]))
  }

  predicate WellFormed(m: Match) {
    && Digits(m.year) && Digits(m.month) && Digits(m.day)
    && Digits(m.hour) && Digits(m.minute) && Digits(m.second)
    && IsFraction(m.fraction)
    && m.sign in "+-Z"
    && (m.offset.Some? ==> Digits(m.offset.value.hours) && Digits(m.offset.value.minutes))
  }

  function OffsetText(offset: Option<Offset>, rest: string): string {
    match offset
    case None => rest
    case Some(o) => o.hours + ([':'] + (o.minutes + rest))
  }

  /** The matched text followed by the `rest` the match leaves unread. */
  function Render(m: Match, rest: string): string {
    m.year + (['-'] + (m.month + (['-'] + (m.day + (['T'] +
    (m.hour + ([':'] + (m.minute + ([':'] + (m.second +
    (m.fraction + ([m.sign] + OffsetText(m.offset, rest)))))))))))))
  }

  /** Greedy `\d*`: the leading digits and what follows them. */
  function SpanDigits(s: string): (r: (string, string))
    ensures r.0 + r.1 == s
    ensures AllDigits(r.0)
    ensures r.1 == [] || !IsDigit(r.1[0])
  {
    if s != [] && IsDigit(s[0]) then
      var r := SpanDigits(s[1..]);
      assert s == [s[0]] + s[1..];
      ([s[0]] + r.0, r.1)
    else ([], s)
  }

  /** `\d+` followed by the literal `sep`: the digits and the text after `sep`. */
  function Group(s: string, sep: char): (r: Option<(string, string)>)
    ensures r.Some? ==> Digits(r.value.0) && s == r.value.0 + ([sep] + r.value.1)
  {
    var (d, t) := SpanDigits(s);
    if d != [] && t != [] && t[0] == sep then
      assert t == [sep] + t[1..];
      Some((d, t[1..]))
    else None
  }

  /** `\.?\d*`. */
  function SpanFraction(s: string): (r: (string, string))
    requires s == [] || !IsDigit(s[0])
    ensures r.0 + r.1 == s
    ensures IsFraction(r.0)
  {
    if s != [] && s[0] == '.' then
      var (d, t) := SpanDigits(s[1..]);
      var f := ['.'] + d;
      assert f[1..] == d;
      assert f + t == ['.'] + (d + t);
      assert s == ['.'] + s[1..];
      (f, t)
    else ([], s)
  }

  /** The optional group `((\d+):(\d+))?`: taken when both digit runs are
      there, otherwise nothing is consumed. */
  function SpanOffset(s: string): (r: (Option<Offset>, string))
    ensures s == OffsetText(r.0, r.1)
    ensures r.0.Some? ==> Digits(r.0.value.hours) && Digits(r.0.value.minutes)
  {
    match Group(s, ':')
    case Some((h, t)) =>
      var (mm, rest) := SpanDigits(t);
      if mm != [] then (Some(Offset(h, mm)), rest) else (None, s)
    case None => (None, s)
  }

  /** The part of the pattern after the minutes' colon,
      `\d+)\.?\d*([-\+Z])((\d+):(\d+))?`: the seconds, the fraction text,
      the sign, the offset groups and the unread rest. */
  function MatchSeconds(s: string): (r: Option<(string, string, char, Option<Offset>, string)>)
    ensures r.Some? ==> var (second, fraction, sign, offset, rest) := r.value;
      && Digits(second) && IsFraction(fraction) && sign in "+-Z"
      && (offset.Some? ==> Digits(offset.value.hours) && Digits(offset.value.minutes))
      && s == second + (fraction + ([sign] + OffsetText(offset, rest)))
  {
    var (second, afterSecond) := SpanDigits(s);
    if second == [] then None
    else
      var (fraction, afterFraction) := SpanFraction(afterSecond);
      if afterFraction == [] || afterFraction[0] !in "+-Z" then None
      else
        var (offset, rest) := SpanOffset(afterFraction[1..]);
        assert afterFraction == [afterFraction[0]] + afterFraction[1..];
        Some((second, fraction, afterFraction[0], offset, rest))
  }

  /** `TIMESTAMP_PATTERN.match(s)` (anchored at the start only): the groups,
      and the trailing text the match ignores. */
  function MatchPattern(s: string): (r: Option<(Match, string)>)
    ensures r.Some? ==> WellFormed(r.value.0) && s == Render(r.value.0, r.value.1)
  {
    var g1 :- Group(s, '-');
    var g2 :- Group(g1.1, '-');
    var g3 :- Group(g2.1, 'T');
    var g4 :- Group(g3.1, ':');
    var g5 :- Group(g4.1, ':');
    var (second, fraction, sign, offset, rest) :- MatchSeconds(g5.1);
    Some((Match(g1.0, g2.0, g3.0, g4.0, g5.0, second, fraction, sign, offset), rest))
  }

  /** `datetime.strptime(naive + sign + zone, TIME_FORMAT).timestamp()` for the
      matched naive fields. Each directive's regex in `_strptime` bounds its
      field: `%Y` exactly four digits, the others one or two digits in range;
      `datetime` then rejects year 0, a day past the end of the month and a
      60th or 61st second. `%z` is `[+-]\d\d[0-5]\d` and must end the text,
      and `datetime.timezone` wants an offset strictly inside one day. */
  function Strptime(m: Match, sign: char, zone: string): (r: Result<int, TimestampError>)
    requires WellFormed(m) && AllDigits(zone)
    ensures r.Failure? ==> r.error == OutOfRange
    ensures r.Success? ==>
              && |m.year| == 4 && |m.month| <= 2 && |m.day| <= 2 && |m.hour| <= 2 && |m.minute| <= 2 && |m.second| <= 2
              && |zone| == 4 && Value(zone[..2]) * 60 + Value(zone[2..]) < 24 * 60 && Value(zone[2..]) <= 59
              && Calendar.ValidDate(Value(m.year), Value(m.month), Value(m.day))
              && Value(m.hour) <= 23 && Value(m.minute) <= 59 && Value(m.second) <= 59
  {
    if !(|m.year| == 4 && 1 <= |m.month| <= 2 && 1 <= |m.day| <= 2
         && 1 <= |m.hour| <= 2 && 1 <= |m.minute| <= 2 && 1 <= |m.second| <= 2) then
      Failure(OutOfRange)
    else if !(|zone| == 4 && zone[2] <= '5') then
      Failure(OutOfRange)
    else
      var y, mo, d := Value(m.year), Value(m.month), Value(m.day);
      var h, mi, se := Value(m.hour), Value(m.minute), Value(m.second);
      var zoneMinutes := Value(zone[..2]) * 60 + Value(zone[2..]);
      if !(y >= 1 && 1 <= mo <= 12) || !(1 <= d <= Calendar.DaysInMonth(y, mo))
         || h > 23 || mi > 59 || se > 59 then
        Failure(OutOfRange)
      else if zoneMinutes >= 24 * 60 then
        Failure(OutOfRange)
      else
        var offsetSeconds := (if sign == '-' then -zoneMinutes else zoneMinutes) * 60;
        Success(Calendar.DaysFromCivil(y, mo, d) * 86400 + h * 3600 + mi * 60 + se - offsetSeconds)
  }

  /** `parse_iso8601(s)`: a bare `Z` becomes `+0000`, a sign with `HH:MM`
      becomes `±HHMM`, anything else raises. */
  function ParseIso8601(s: string): (r: Result<int, TimestampError>)
    ensures r == Failure(NoMatch) <==> MatchPattern(s).None?
    ensures r.Success? ==> MatchPattern(s).Some? && (MatchPattern(s).value.0.sign == 'Z' <==> MatchPattern(s).value.0.offset.None?)
  {
    match MatchPattern(s)
    case None => Failure(NoMatch)
    case Some((m, _)) => FoldOffset(m)
  }

  /** The offset folding of `parse_iso8601` on the matched groups, then
      `strptime`. */
  function FoldOffset(m: Match): (r: Result<int, TimestampError>)
    requires WellFormed(m)
    ensures r == Failure(BadOffset) <==> (m.sign == 'Z' <==> m.offset.Some?)
    ensures r.Failure? ==> r.error != NoMatch
  {
    if m.sign == 'Z' && m.offset.None? then
      Strptime(m, '+', "0000")
    else if (m.sign == '+' || m.sign == '-') && m.offset.Some? then
      Strptime(m, m.sign, m.offset.value.hours + m.offset.value.minutes)
    else
      Failure(BadOffset)
  }

  // ---------------------------------------------------------------------
  // A reference formatter and the round trip through the parser.

  /** A calendar date and time of day. */
  datatype DateTime = DateTime(year: int, month: int, day: int, hour: int, minute: int, second: int)

  predicate ValidDateTime(t: DateTime) {
    && t.year <= 9999 && Calendar.ValidDate(t.year, t.month, t.day)
    && 0 <= t.hour <= 23 && 0 <= t.minute <= 59 && 0 <= t.second <= 59
  }

  /** `Z`, or a signed `HH:MM` offset east (`+`) or west (`-`) of UTC. */
  datatype Zone = Zulu | Numeric(sign: char, hours: nat, minutes: nat)

  predicate ValidZone(z: Zone) {
    z.Numeric? ==> (z.sign == '+' || z.sign == '-') && z.hours <= 23 && z.minutes <= 59
  }

  /** Seconds the zone is ahead of UTC. */
  function OffsetSeconds(z: Zone): int {
    match z
    case Zulu => 0
    case Numeric(sign, h, m) => (if sign == '-' then -1 else 1) * (h * 3600 + m * 60)
  }

  /** Seconds since 1970-01-01T00:00:00 of the date-time read as UTC. */
  function UtcSeconds(t: DateTime): int
    requires ValidDateTime(t)
  {
    Calendar.DaysFromCivil(t.year, t.month, t.day) * 86400 + t.hour * 3600 + t.minute * 60 + t.second
  }

  /** `YYYY-MM-DDTHH:MM:SS`, the fraction text, then `Z` or `±HH:MM`. */
  function Formatted(t: DateTime, fraction: string, z: Zone): Match
    requires ValidDateTime(t) && ValidZone(z)
  {
    Match(Decimal(t.year, 4), Decimal(t.month, 2), Decimal(t.day, 2),
          Decimal(t.hour, 2), Decimal(t.minute, 2), Decimal(t.second, 2),
          fraction,
          if z.Zulu? then 'Z' else z.sign,
          if z.Zulu? then None else Some(Offset(Decimal(z.hours, 2), Decimal(z.minutes, 2))))
  }

  lemma {:induction false} SpanDigitsOf(d: string, t: string)
    requires AllDigits(d)
    requires t == [] || !IsDigit(t[0])
    ensures SpanDigits(d + t) == (d, t)
    decreases |d|
  {
    if d == [] {
      assert d + t == t;
    } else {
      assert (d + t)[1..] == d[1..] + t;
      SpanDigitsOf(d[1..], t);
      assert [d[0]] + d[1..] == d;
    }
  }

  lemma GroupOf(d: string, sep: char, t: string)
    requires Digits(d) && !IsDigit(sep)
    ensures Group(d + ([sep] + t), sep) == Some((d, t))
  {
    SpanDigitsOf(d, [sep] + t);
    assert ([sep] + t)[1..] == t;
  }

  /** The text after the match does not extend it: after an offset it does
      not start with a digit, and after a bare sign it holds no `\d+:\d+`. */
  predicate EndsMatch(offset: Option<Offset>, rest: string) {
    if offset.None? then SpanOffset(rest).0.None? else rest == [] || !IsDigit(rest[0])
  }

  lemma MatchSecondsRender(m: Match, rest: string)
    requires WellFormed(m)
    requires EndsMatch(m.offset, rest)
    ensures MatchSeconds(m.second + (m.fraction + ([m.sign] + OffsetText(m.offset, rest))))
         == Some((m.second, m.fraction, m.sign, m.offset, rest))
  {
    var tail := OffsetText(m.offset, rest);
    var afterFraction := [m.sign] + tail;
    if m.fraction == [] {
      assert m.fraction + afterFraction == afterFraction;
      SpanDigitsOf(m.second, afterFraction);
      SpanDigitsOf([], afterFraction);
      assert [] + afterFraction == afterFraction;
    } else {
      assert (m.fraction + afterFraction)[0] == '.';
      SpanDigitsOf(m.second, m.fraction + afterFraction);
      var ds := m.fraction[1..];
      assert m.fraction + afterFraction == ['.'] + (ds + afterFraction);
      SpanDigitsOf(ds, afterFraction);
      assert ['.'] + ds == m.fraction;
    }
    assert afterFraction[1..] == tail;
    match m.offset
    case None =>
    case Some(o) =>
      GroupOf(o.hours, ':', o.minutes + rest);
      SpanDigitsOf(o.minutes, rest);
  }

  /** Matching the rendered text recovers the groups and the trailing text. */
  lemma MatchRender(m: Match, rest: string)
    requires WellFormed(m)
    requires EndsMatch(m.offset, rest)
    ensures MatchPattern(Render(m, rest)) == Some((m, rest))
  {
    var s6 := m.second + (m.fraction + ([m.sign] + OffsetText(m.offset, rest)));
    var s5 := m.minute + ([':'] + s6);
    var s4 := m.hour + ([':'] + s5);
    var s3 := m.day + (['T'] + s4);
    var s2 := m.month + (['-'] + s3);
    GroupOf(m.year, '-', s2);
    GroupOf(m.month, '-', s3);
    GroupOf(m.day, 'T', s4);
    GroupOf(m.hour, ':', s5);
    GroupOf(m.minute, ':', s6);
    MatchSecondsRender(m, rest);
  }

  lemma DecimalTwoDigits(n: nat)
    requires n < 100
    ensures Value(Decimal(n, 2)) == n
    ensures Decimal(n, 2)[0] == DigitChar(n / 10)
  {
    ValueOfDecimal(n, 2);
  }

  /** `strptime` accepts a four-digit year and one- or two-digit other fields
      in range, and yields the UTC reading of the fields minus the signed
      zone offset. */
  lemma StrptimeAccepts(m: Match, sign: char, zone: string, t: DateTime, zoneHours: nat, zoneMinutes: nat)
    requires WellFormed(m) && AllDigits(zone)
    requires |m.year| == 4 && 1 <= |m.month| <= 2 && 1 <= |m.day| <= 2
    requires 1 <= |m.hour| <= 2 && 1 <= |m.minute| <= 2 && 1 <= |m.second| <= 2
    requires |zone| == 4 && zone[2] <= '5'
    requires t == DateTime(Value(m.year), Value(m.month), Value(m.day), Value(m.hour), Value(m.minute), Value(m.second))
    requires ValidDateTime(t)
    requires zoneHours == Value(zone[..2]) && zoneMinutes == Value(zone[2..])
    requires zoneHours <= 23 && zoneMinutes <= 59
    ensures Strptime(m, sign, zone)
         == Success(UtcSeconds(t) - (if sign == '-' then -1 else 1) * (zoneHours * 3600 + zoneMinutes * 60))
  {
  }

  /** The formatted date-time fields read back as the date-time. */
  lemma FieldsFormatted(t: DateTime, fraction: string, z: Zone)
    requires ValidDateTime(t) && ValidZone(z)
    requires IsFraction(fraction)
    ensures var m := Formatted(t, fraction, z);
      && WellFormed(m)
      && |m.year| == 4 && |m.month| == 2 && |m.day| == 2
      && |m.hour| == 2 && |m.minute| == 2 && |m.second| == 2
      && t == DateTime(Value(m.year), Value(m.month), Value(m.day), Value(m.hour), Value(m.minute), Value(m.second))
  {
    ValueOfDecimal(t.year, 4);
    DecimalTwoDigits(t.month);
    DecimalTwoDigits(t.day);
    DecimalTwoDigits(t.hour);
    DecimalTwoDigits(t.minute);
    DecimalTwoDigits(t.second);
  }

  /** The formatted groups fold and read back as the date-time and the zone. */
  lemma FoldFormatted(t: DateTime, fraction: string, z: Zone)
    requires ValidDateTime(t) && ValidZone(z)
    requires IsFraction(fraction)
    ensures WellFormed(Formatted(t, fraction, z))
    ensures FoldOffset(Formatted(t, fraction, z)) == Success(UtcSeconds(t) - OffsetSeconds(z))
  {
    FieldsFormatted(t, fraction, z);
    if z.Zulu? {
      FoldFormattedZulu(t, fraction);
    } else {
      FoldFormattedNumeric(t, fraction, z);
    }
  }

  lemma FoldFormattedZulu(t: DateTime, fraction: string)
    requires ValidDateTime(t) && IsFraction(fraction)
    requires WellFormed(Formatted(t, fraction, Zulu))
    ensures FoldOffset(Formatted(t, fraction, Zulu)) == Success(UtcSeconds(t))
  {
    var m := Formatted(t, fraction, Zulu);
    FieldsFormatted(t, fraction, Zulu);
    var zone := "0000";
    assert zone[..2] == "00" && zone[2..] == "00";
    assert Value("00") == 0;
    StrptimeAccepts(m, '+', zone, t, 0, 0);
  }

  lemma FoldFormattedNumeric(t: DateTime, fraction: string, z: Zone)
    requires ValidDateTime(t) && ValidZone(z) && z.Numeric? && IsFraction(fraction)
    requires WellFormed(Formatted(t, fraction, z))
    ensures FoldOffset(Formatted(t, fraction, z)) == Success(UtcSeconds(t) - OffsetSeconds(z))
  {
    var m := Formatted(t, fraction, z);
    FieldsFormatted(t, fraction, z);
    var zone := Decimal(z.hours, 2) + Decimal(z.minutes, 2);
    DecimalTwoDigits(z.hours);
    DecimalTwoDigits(z.minutes);
    assert zone[..2] == Decimal(z.hours, 2);
    assert zone[2..] == Decimal(z.minutes, 2);
    assert zone[2] == DigitChar(z.minutes / 10);
    assert m.offset.value.hours + m.offset.value.minutes == zone;
    StrptimeAccepts(m, z.sign, zone, t, z.hours, z.minutes);
  }

  /** The parser inverts the formatter: any valid date-time, with or without
      a fraction (dropped, never rounded), with `Z` or a `±HH:MM` offset, and
      followed by any text that does not extend the match, reads as its UTC
      seconds minus the signed offset. */
  lemma ParseFormatted(t: DateTime, fraction: string, z: Zone, rest: string)
    requires ValidDateTime(t) && ValidZone(z)
    requires fraction == [] || (fraction[0] == '.' && AllDigits(fraction[1..]))
    requires EndsMatch(if z.Zulu? then None else Some(Offset(Decimal(z.hours, 2), Decimal(z.minutes, 2))), rest)
    ensures ParseIso8601(Render(Formatted(t, fraction, z), rest)) == Success(UtcSeconds(t) - OffsetSeconds(z))
  {
    assert IsFraction(fraction);
    FoldFormatted(t, fraction, z);
    MatchRender(Formatted(t, fraction, z), rest);
  }

  /** `Z` followed by `HH:MM` raises. */
  lemma ZuluWithOffsetRejected(m: Match, rest: string)
    requires WellFormed(m) && EndsMatch(m.offset, rest)
    requires m.sign == 'Z' && m.offset.Some?
    ensures ParseIso8601(Render(m, rest)) == Failure(BadOffset)
  {
    MatchRender(m, rest);
  }

  /** A sign without `HH:MM` groups raises. */
  lemma SignWithoutOffsetRejected(m: Match, rest: string)
    requires WellFormed(m) && EndsMatch(m.offset, rest)
    requires m.sign != 'Z' && m.offset.None?
    ensures ParseIso8601(Render(m, rest)) == Failure(BadOffset)
  {
    MatchRender(m, rest);
  }

  /** Text that does not start with a digit never matches. */
  lemma NoLeadingDigitRejected(s: string)
    requires s == [] || !IsDigit(s[0])
    ensures ParseIso8601(s) == Failure(NoMatch)
  {
    SpanDigitsOf([], s);
    assert [] + s == s;
  }

  /** `not-a-date` raises. */
  lemma NotADateRejected()
    ensures ParseIso8601("not-a-date") == Failure(NoMatch)
  {
    NoLeadingDigitRejected("not-a-date");
  }
}
