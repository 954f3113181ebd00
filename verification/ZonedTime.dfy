/** Local date-times of a time zone: parsing, conversion to an instant, and formatting.

    An instant is a whole number of seconds since the epoch.  A time zone is an arbitrary function
    from instants to offsets in seconds. */
module ZonedTime {
  import opened Wrappers
  import opened Calendar
  import opened Decimals
  import opened OffsetSearch

  datatype Zone = UnknownZone | Zone(offset: int -> int)

  // ---------- fields ----------

  function Pad(n: nat): string {
    if |Decimal(n)| < 2 then "0" + Decimal(n) else Decimal(n)
  }

  // ---------- parsing ----------

  predicate AllDigits(s: string, from: nat, to: nat)
    requires from <= to <= |s|
  {
    forall i :: from <= i < to ==> Digit(s[i])
  }

  /** The regular expression of parseLocalDateTime. */
  predicate Shape(s: string) {
    && (|s| == 16 || |s| == 19)
    && AllDigits(s, 0, 4) && s[4] == '-' && AllDigits(s, 5, 7) && s[7] == '-' && AllDigits(s, 8, 10)
    && s[10] == 'T' && AllDigits(s, 11, 13) && s[13] == ':' && AllDigits(s, 14, 16)
    && (|s| == 19 ==> s[16] == ':' && AllDigits(s, 17, 19))
  }

  function Fields(s: string): Parts
    requires Shape(s)
  {
    Parts(Number(s[0..4]), Number(s[5..7]), Number(s[8..10]), Number(s[11..13]), Number(s[14..16]),
          if |s| == 19 then Number(s[17..19]) else 0)
  }

  function ParseLocalDateTime(s: string): Option<Parts> {
    if Shape(s) && FromSeconds(DateUtc(Fields(s))) == Fields(s) then Some(Fields(s)) else None
  }

  // ---------- conversion ----------

  /** What Intl displays for an instant: years before year 1 are counted back from 1 BC. */
  function ZonedParts(t: int, offset: int -> int): Parts {
    var p := FromSeconds(t + offset(t));
    if p.year >= 1 then p else p.(year := 1 - p.year)
  }

  /** partsAsUtc of what is displayed. */
  function Reading(offset: int -> int): int -> int { t => DateUtc(ZonedParts(t, offset)) }

  function Shows(local: Parts, offset: int -> int): int -> bool { t => ZonedParts(t, offset) == local }

  const ATTEMPTS: nat := 4

  function Resolve(local: Parts, offset: int -> int): Option<int> {
    var t := Settle(DateUtc(local), Reading(offset), DateUtc(local), ATTEMPTS);
    if Shows(local, offset)(t) then Some(t) else None
  }

  function Convert(value: string, zone: Zone): Option<int> {
    match (ParseLocalDateTime(value), zone)
    case (Some(local), Zone(offset)) => Resolve(local, offset)
    case _ => None
  }

  method ZonedLocalDateTimeToUtc(value: string, zone: Zone) returns (result: Option<int>)
    ensures result == Convert(value, zone)
  {
    hide DateUtc, ParseLocalDateTime, Reading, Shows;
    var local := ParseLocalDateTime(value);
    if local.None? || zone.UnknownZone? { return None; }
    var expected := DateUtc(local.value);
    var candidate := expected;
    var attempt := 0;
    while attempt < ATTEMPTS
      invariant 0 <= attempt <= ATTEMPTS
      invariant Settle(expected, Reading(zone.offset), candidate, ATTEMPTS - attempt)
             == Settle(expected, Reading(zone.offset), expected, ATTEMPTS)
    {
      var correction := expected - Reading(zone.offset)(candidate);
      candidate := candidate + correction;
      if correction == 0 { break; }
      attempt := attempt + 1;
    }
    if !Shows(local.value, zone.offset)(candidate) { return None; }
    return Some(candidate);
  }

  function FormatParts(p: Parts): string
    requires p.year >= 0 && p.month >= 0 && p.day >= 0 && p.hour >= 0 && p.minute >= 0
  {
    Decimal(p.year) + "-" + Pad(p.month) + "-" + Pad(p.day) + "T" + Pad(p.hour) + ":" + Pad(p.minute)
  }

  function FormatDateTimeLocalValue(t: int, zone: Zone): Option<string> {
    match zone
    case UnknownZone => None
    case Zone(offset) =>
      ReadingIsExact(t + offset(t));
      Some(FormatParts(ZonedParts(t, offset)))
  }

  // ---------- what the parser accepts ----------

  lemma TwoDigits(s: string, from: nat)
    requires from + 2 <= |s| && AllDigits(s, from, from + 2)
    ensures Number(s[from..from + 2]) == 10 * DigitValue(s[from]) + DigitValue(s[from + 1])
    ensures 0 <= Number(s[from..from + 2]) <= 99
  {
    var w := s[from..from + 2];
    assert w == [s[from], s[from + 1]];
    assert w[..1] == [s[from]] && w[..1][..0] == "";
    assert Number(w[..1]) == DigitValue(s[from]);
  }

  lemma FourDigits(s: string)
    requires 4 <= |s| && AllDigits(s, 0, 4)
    ensures Number(s[0..4]) == 10 * (10 * (10 * DigitValue(s[0]) + DigitValue(s[1])) + DigitValue(s[2])) + DigitValue(s[3])
    ensures 0 <= Number(s[0..4]) <= 9999
  {
    TwoDigits(s, 0);
    assert s[0..4][..3] == s[0..3] && s[0..3][..2] == s[0..2];
    assert Number(s[0..3]) == 10 * Number(s[0..2]) + DigitValue(s[2]);
  }

  lemma FieldRanges(s: string)
    requires Shape(s)
    ensures var p := Fields(s);
            && 0 <= p.year <= 9999 && 0 <= p.month <= 99 && 0 <= p.day <= 99
            && 0 <= p.hour <= 99 && 0 <= p.minute <= 99 && 0 <= p.second <= 99
  {
    FourDigits(s);
    TwoDigits(s, 5);
    TwoDigits(s, 8);
    TwoDigits(s, 11);
    TwoDigits(s, 14);
    if |s| == 19 { TwoDigits(s, 17); }
  }

  /** A two-digit year is read as 19xx, so its reading can never equal the field. */
  lemma TwoDigitYearRejected(p: Parts)
    requires 0 <= p.year <= 99 && 0 <= p.month <= 99 && p.day >= 0 && p.hour >= 0 && p.minute >= 0 && p.second >= 0
    ensures FromSeconds(DateUtc(p)).year >= 100
  {
    hide Seconds, FromSeconds, DayFromYear;
    SecondsFloor(p.(year := 1900 + p.year), 900);
    YearBound(DateUtc(p), 900);
  }

  /** Digit fields are accepted exactly when they name a real date and time of year 100 or later. */
  lemma ParserAcceptsRealDates(s: string)
    ensures ParseLocalDateTime(s).Some? <==> Shape(s) && Valid(Fields(s)) && Fields(s).year >= 100
  {
    if Shape(s) {
      var p := Fields(s);
      FieldRanges(s);
      if p.year <= 99 {
        TwoDigitYearRejected(p);
      } else {
        ReadingIsExact(DateUtc(p));
        if Valid(p) { ReadBack(p); }
      }
    }
  }

  // ---------- soundness ----------

  /** For every offset function, a converted instant displays exactly the requested local time. */
  lemma ConversionIsSound(value: string, offset: int -> int, t: int)
    requires Convert(value, Zone(offset)) == Some(t)
    ensures ParseLocalDateTime(value) == Some(ZonedParts(t, offset))
  {}

  // ---------- completeness ----------

  /** The program's clock reads instants as the search expects. */
  lemma ZoneIsClock(local: Parts, offset: int -> int)
    requires Valid(local) && local.year >= 100
    ensures Clock(Reading(offset), Shows(local, offset), DateUtc(local), offset)
  {
    hide Reading, Shows, DateUtc, Valid, ZonedParts;
    var read, shows, expected := Reading(offset), Shows(local, offset), DateUtc(local);
    forall t {:trigger read(t)}
      ensures t + offset(t) >= YEAR_100 ==> read(t) == t + offset(t)
      ensures YEAR_100 - 300 * DAY <= t + offset(t) < YEAR_100 ==> read(t) >= YEAR_1900
      ensures t + offset(t) < YEAR_MINUS_1000 ==> read(t) >= YEAR_900
    {
      ModernReading(t, offset);
      EarlyReading(t, offset);
      FarReading(t, offset);
    }
    forall t {:trigger shows(t)}
      ensures t + offset(t) >= YEAR_1 ==> (shows(t) <==> t + offset(t) == expected)
      ensures expected < YEAR_101 && t + offset(t) < YEAR_MINUS_1000 ==> !shows(t)
    {
      FinalComparison(local, t, offset);
      FarNeverShows(local, t, offset);
    }
  }

  lemma ModernReading(t: int, offset: int -> int)
    ensures t + offset(t) >= YEAR_100 ==> Reading(offset)(t) == t + offset(t)
  {
    hide Seconds, FromSeconds, Valid;
    BoundaryYears(t + offset(t));
    ReadingIsExact(t + offset(t));
  }

  lemma EarlyReading(t: int, offset: int -> int)
    ensures YEAR_100 - 300 * DAY <= t + offset(t) < YEAR_100 ==> Reading(offset)(t) >= YEAR_1900
  {
    hide Seconds, FromSeconds, DayFromYear;
    var u := t + offset(t);
    var p := FromSeconds(u);
    if YEAR_100 - 300 * DAY <= u < YEAR_100 {
      BoundaryYears(u);
      ReadingIsExact(u);
      assert ZonedParts(t, offset) == p && p.year == 99;
      SecondsFloor(p.(year := 1999), 1900);
      YearStarts();
    }
  }

  lemma FarReading(t: int, offset: int -> int)
    ensures t + offset(t) < YEAR_MINUS_1000 ==> Reading(offset)(t) >= YEAR_900 && ZonedParts(t, offset).year > 1000
  {
    hide Seconds, FromSeconds, DayFromYear;
    var u := t + offset(t);
    if u < YEAR_MINUS_1000 {
      BoundaryYears(u);
      ReadingIsExact(u);
      SecondsFloor(ZonedParts(t, offset), 900);
      YearStarts();
    }
  }

  lemma FinalComparison(local: Parts, t: int, offset: int -> int)
    requires Valid(local) && local.year >= 100
    ensures t + offset(t) >= YEAR_1 ==> (Shows(local, offset)(t) <==> t + offset(t) == DateUtc(local))
  {
    hide Seconds, FromSeconds, Valid;
    BoundaryYears(t + offset(t));
    ReadBack(local);
    ReadingIsExact(t + offset(t));
  }

  lemma FarNeverShows(local: Parts, t: int, offset: int -> int)
    requires Valid(local) && local.year >= 100
    ensures DateUtc(local) < YEAR_101 && t + offset(t) < YEAR_MINUS_1000 ==> !Shows(local, offset)(t)
  {
    hide Seconds, FromSeconds, Valid;
    FarReading(t, offset);
    ReadBack(local);
    BoundaryYears(DateUtc(local));
  }

  lemma AcceptedIsModern(value: string, local: Parts)
    requires ParseLocalDateTime(value) == Some(local)
    ensures Valid(local) && local.year >= 100 && DateUtc(local) >= YEAR_100
    ensures local.year >= 101 ==> DateUtc(local) >= YEAR_101
  {
    hide DateUtc, FromSeconds, Valid;
    ParserAcceptsRealDates(value);
    BoundaryYears(DateUtc(local));
  }

  /** With at most two offsets near the target, conversion succeeds exactly when the local time exists
      and the first two readings stay in year 100 or later.  Of two instants that show the local time it
      returns the one at the offset in force at the instant whose UTC reading it is, if that is one. */
  lemma ConversionIsComplete(value: string, local: Parts, offset: int -> int, a: int, b: int)
    requires ParseLocalDateTime(value) == Some(local)
    requires Bounded(offset) && TwoOffsets(DateUtc(local), offset, a, b)
    ensures var result := Convert(value, Zone(offset));
            && (result.Some? <==> LocalTimeExists(DateUtc(local), offset) && ReadingsStayModern(DateUtc(local), offset))
            && (result.Some? ==> result.value == Corrected(DateUtc(local), offset)
                                 && result.value + offset(result.value) == DateUtc(local))
  {
    hide DateUtc, ParseLocalDateTime, Reading, Shows, Valid, Clock, Bounded, TwoOffsets;
    AcceptedIsModern(value, local);
    ZoneIsClock(local, offset);
    SearchSucceedsExactly(Reading(offset), Shows(local, offset), DateUtc(local), offset, a, b, ATTEMPTS);
  }

  /** From year 101 on the only condition is that the local time exists: null means a gap. */
  lemma ConversionFromYear101(value: string, local: Parts, offset: int -> int, a: int, b: int)
    requires ParseLocalDateTime(value) == Some(local) && local.year >= 101
    requires Bounded(offset) && TwoOffsets(DateUtc(local), offset, a, b)
    ensures Convert(value, Zone(offset)).Some? <==> LocalTimeExists(DateUtc(local), offset)
  {
    hide DateUtc, ParseLocalDateTime, Convert, LocalTimeExists;
    AcceptedIsModern(value, local);
    ConversionIsComplete(value, local, offset, a, b);
    var e := DateUtc(local);
    assert -MAX_OFFSET <= offset(e) <= MAX_OFFSET && -MAX_OFFSET <= offset(e - offset(e));
  }

  const LAGGING: int -> int := t => -3600

  lemma FirstHalfHour()
    ensures DateUtc(Parts(100, 1, 1, 0, 30, 0)) == YEAR_100 + 1800
  {
    YearStarts();
    hide DayFromYear;
  }

  lemma FieldsOfYear100(value: string)
    requires value == "0100-01-01T00:30"
    ensures Shape(value) && Fields(value) == Parts(100, 1, 1, 0, 30, 0)
  {
    hide Number;
    assert |value| == 16;
    FourDigits(value);
    TwoDigits(value, 5);
    TwoDigits(value, 8);
    TwoDigits(value, 11);
    TwoDigits(value, 14);
  }

  /** A zone one hour behind UTC: the first half hour of year 100 exists there and is refused. */
  lemma Year100CanFail(value: string)
    requires value == "0100-01-01T00:30"
    ensures ParseLocalDateTime(value) == Some(Parts(100, 1, 1, 0, 30, 0))
    ensures LocalTimeExists(DateUtc(Parts(100, 1, 1, 0, 30, 0)), LAGGING)
    ensures Convert(value, Zone(LAGGING)).None?
  {
    hide FromSeconds, DateUtc, Convert, DayFromYear;
    var local := Parts(100, 1, 1, 0, 30, 0);
    var e := DateUtc(local);
    FieldsOfYear100(value);
    ParserAcceptsRealDates(value);
    FirstHalfHour();
    assert (e + 3600) + LAGGING(e + 3600) == e;
    ConversionIsComplete(value, local, LAGGING, -3600, -3600);
  }

  /** Three offsets within hours of the target e: fourteen hours behind UTC, then seven, then fourteen ahead. */
  function Stepped(e: int): int -> int {
    t => if t < e + 5 * 3600 then -14 * 3600 else if t < e + 9 * 3600 then -7 * 3600 else 14 * 3600
  }

  /** For arbitrary offset functions two offsets cannot be relaxed to three: in this zone the local time
      exists, and the search swings past it. */
  lemma ThreeOffsetsCanMiss(value: string, local: Parts)
    requires ParseLocalDateTime(value) == Some(local) && local.year >= 101
    ensures Bounded(Stepped(DateUtc(local))) && LocalTimeExists(DateUtc(local), Stepped(DateUtc(local)))
    ensures Convert(value, Zone(Stepped(DateUtc(local)))).None?
  {
    hide DateUtc, ParseLocalDateTime, Reading, Shows, Stepped, Settle, Clock, LocalTimeExists;
    var e := DateUtc(local);
    AcceptedIsModern(value, local);
    ZoneIsClock(local, Stepped(e));
    assert Bounded(Stepped(e)) by { SteppedBounded(e); }
    SteppedMisses(Reading(Stepped(e)), Shows(local, Stepped(e)), e);
  }

  lemma SteppedBounded(e: int)
    ensures Bounded(Stepped(e))
  {}

  lemma SteppedMisses(read: int -> int, shows: int -> bool, e: int)
    requires e >= YEAR_101 && Clock(read, shows, e, Stepped(e))
    ensures LocalTimeExists(e, Stepped(e)) && !shows(Settle(e, read, e, ATTEMPTS))
  {
    var hours := 14 * 3600;
    assert (e + 7 * 3600) + Stepped(e)(e + 7 * 3600) == e;
    assert read(e) == e - hours && read(e + hours) == e + 2 * hours && read(e - hours) == e - 2 * hours;
    assert Settle(e, read, e, 4) == Settle(e, read, e + hours, 3) == Settle(e, read, e - hours, 2)
        == Settle(e, read, e + hours, 1) == Settle(e, read, e - hours, 0) == e - hours;
    assert !shows(e - hours);
  }

  /** From e on the zone falls an hour further behind UTC every hour, until it is `steps` hours behind. */
  function Stairs(e: int, steps: nat): int -> int {
    t => if t < e then -3600 else -3600 * (if (t - e) / 3600 + 1 < steps then (t - e) / 3600 + 1 else steps)
  }

  /** Four corrections climb four such steps, and no more: five steps are missed, though the local time exists. */
  lemma FourAttempts(value: string, local: Parts)
    requires ParseLocalDateTime(value) == Some(local) && local.year >= 101
    ensures Convert(value, Zone(Stairs(DateUtc(local), 4))) == Some(DateUtc(local) + 4 * 3600)
    ensures Convert(value, Zone(Stairs(DateUtc(local), 5))) == None
    ensures LocalTimeExists(DateUtc(local), Stairs(DateUtc(local), 5))
  {
    hide DateUtc, ParseLocalDateTime, Reading, Shows, Stairs, Settle, Clock, LocalTimeExists;
    var e := DateUtc(local);
    AcceptedIsModern(value, local);
    ZoneIsClock(local, Stairs(e, 4));
    ZoneIsClock(local, Stairs(e, 5));
    StairsClimbed(Reading(Stairs(e, 4)), Shows(local, Stairs(e, 4)), e);
    StairsMissed(Reading(Stairs(e, 5)), Shows(local, Stairs(e, 5)), e);
  }

  lemma StairsAt(e: int, steps: nat, k: int)
    requires 0 <= k && steps in {4, 5}
    ensures Stairs(e, steps)(e + k * 3600) == -3600 * if k + 1 < steps then k + 1 else steps
  {}

  lemma StairsClimbed(read: int -> int, shows: int -> bool, e: int)
    requires e >= YEAR_101 && Clock(read, shows, e, Stairs(e, 4))
    ensures shows(Settle(e, read, e, ATTEMPTS)) && Settle(e, read, e, ATTEMPTS) == e + 4 * 3600
  {
    StairsRead(read, shows, e, 4);
    FourSteps(read, e);
    hide Settle, Clock, Stairs;
  }

  lemma StairsMissed(read: int -> int, shows: int -> bool, e: int)
    requires e >= YEAR_101 && Clock(read, shows, e, Stairs(e, 5))
    ensures !shows(Settle(e, read, e, ATTEMPTS)) && LocalTimeExists(e, Stairs(e, 5))
  {
    hide Settle, Clock, Stairs;
    StairsRead(read, shows, e, 5);
    StairsAt(e, 5, 5);
    assert (e + 5 * 3600) + Stairs(e, 5)(e + 5 * 3600) == e;
    FourSteps(read, e);
  }

  lemma OneStep(read: int -> int, e: int, candidate: int, attempts: nat)
    requires attempts > 0 && read(candidate) == e - 3600
    ensures Settle(e, read, candidate, attempts) == Settle(e, read, candidate + 3600, attempts - 1)
  {}

  lemma FourSteps(read: int -> int, e: int)
    requires read(e) == read(e + 3600) == read(e + 7200) == read(e + 10800) == e - 3600
    ensures Settle(e, read, e, ATTEMPTS) == e + 14400
  {
    assert Settle(e, read, e + 14400, 0) == e + 14400;
    hide Settle;
    OneStep(read, e, e, 4);
    OneStep(read, e, e + 3600, 3);
    OneStep(read, e, e + 7200, 2);
    OneStep(read, e, e + 10800, 1);
  }

  /** Before the top each reading is an hour short. */
  lemma StairsRead(read: int -> int, shows: int -> bool, e: int, steps: nat)
    requires e >= YEAR_101 && steps in {4, 5} && Clock(read, shows, e, Stairs(e, steps))
    ensures read(e) == read(e + 3600) == read(e + 7200) == read(e + 10800) == e - 3600
    ensures shows(e + 14400) <==> steps == 4
  {
    hide Stairs;
    StairsAt(e, steps, 0);
    StairsAt(e, steps, 1);
    StairsAt(e, steps, 2);
    StairsAt(e, steps, 3);
    StairsAt(e, steps, 4);
  }

  // ---------- formatting gives the input back ----------

  lemma DecimalSnoc(n: nat, d: int)
    requires n > 0 && 0 <= d < 10
    ensures Decimal(10 * n + d) == Decimal(n) + [DigitChar(d)]
  {}

  lemma CharOfDigit(c: char)
    requires Digit(c)
    ensures 0 <= DigitValue(c) < 10 && DigitChar(DigitValue(c)) == c
  {}

  lemma PadOfDigits(a: char, b: char)
    requires Digit(a) && Digit(b)
    ensures Pad(10 * DigitValue(a) + DigitValue(b)) == [a, b]
  {
    CharOfDigit(a);
    CharOfDigit(b);
    if DigitValue(a) > 0 { DecimalSnoc(DigitValue(a), DigitValue(b)); }
  }

  /** A four-digit year prints as its digits when it is at least 1000, and shorter otherwise. */
  lemma DecimalOfYear(s: string)
    requires 4 <= |s| && AllDigits(s, 0, 4) && Number(s[0..4]) >= 100
    ensures Number(s[0..4]) >= 1000 ==> Decimal(Number(s[0..4])) == s[0..4]
    ensures Number(s[0..4]) < 1000 ==> |Decimal(Number(s[0..4]))| == 3
  {
    FourDigits(s);
    CharOfDigit(s[0]);
    CharOfDigit(s[1]);
    CharOfDigit(s[2]);
    CharOfDigit(s[3]);
    var a, b, c, d := DigitValue(s[0]), DigitValue(s[1]), DigitValue(s[2]), DigitValue(s[3]);
    DecimalSnoc(10 * (10 * a + b) + c, d);
    DecimalSnoc(10 * a + b, c);
    if a > 0 {
      DecimalSnoc(a, b);
      assert s[0..4] == [s[0]] + [s[1]] + [s[2]] + [s[3]];
    }
  }

  lemma FormatOfFields(value: string)
    requires Shape(value) && |value| == 16 && Fields(value).year >= 100
    requires var p := Fields(value); p.month >= 0 && p.day >= 0 && p.hour >= 0 && p.minute >= 0
    ensures FormatParts(Fields(value)) == value <==> Fields(value).year >= 1000
  {
    hide Number, Pad, Decimal;
    var p := Fields(value);
    DecimalOfYear(value);
    TwoDigits(value, 5);
    TwoDigits(value, 8);
    TwoDigits(value, 11);
    TwoDigits(value, 14);
    PadOfDigits(value[5], value[6]);
    PadOfDigits(value[8], value[9]);
    PadOfDigits(value[11], value[12]);
    PadOfDigits(value[14], value[15]);
    if p.year >= 1000 {
      assert FormatParts(p) == value;
    } else {
      assert |FormatParts(p)| == 15;
    }
  }

  /** For minute precision, formatting a converted instant gives back the input exactly when the year has
      no leading zero. */
  lemma FormatGivesInputBack(value: string, zone: Zone, t: int)
    requires Convert(value, zone) == Some(t) && |value| == 16
    ensures FormatDateTimeLocalValue(t, zone) == Some(value) <==> Fields(value).year >= 1000
  {
    hide FromSeconds, DateUtc, Settle, Fields, FormatParts;
    ParserAcceptsRealDates(value);
    FormatOfFields(value);
  }

  /** With seconds given, formatting gives back all but them. */
  lemma FormatGivesMinutesBack(value: string, zone: Zone, t: int)
    requires Convert(value, zone) == Some(t) && |value| == 19
    ensures FormatDateTimeLocalValue(t, zone) == Some(value[..16]) <==> Fields(value).year >= 1000
  {
    hide FromSeconds, DateUtc, Settle, Fields, FormatParts;
    ParserAcceptsRealDates(value);
    WithoutSeconds(value);
    FormatOfFields(value[..16]);
  }

  lemma WithoutSeconds(value: string)
    requires Shape(value) && |value| == 19
    requires var p := Fields(value); p.year >= 0 && p.month >= 0 && p.day >= 0 && p.hour >= 0 && p.minute >= 0
    ensures Shape(value[..16]) && Fields(value[..16]) == Fields(value).(second := 0)
    ensures FormatParts(Fields(value[..16])) == FormatParts(Fields(value))
  {
    var s := value[..16];
    hide Number;
    assert s[0..4] == value[0..4] && s[5..7] == value[5..7] && s[8..10] == value[8..10]
        && s[11..13] == value[11..13] && s[14..16] == value[14..16];
  }

  // ---------- the same in plain terms ----------

  /** A parsed text is yyyy-mm-ddThh:mm or yyyy-mm-ddThh:mm:ss, and its digits are the fields. */
  lemma ParsedPlainly(s: string, p: Parts)
    requires ParseLocalDateTime(s) == Some(p)
    ensures |s| == 16 || |s| == 19
    ensures s[4] == '-' && s[7] == '-' && s[10] == 'T' && s[13] == ':' && (|s| == 19 ==> s[16] == ':')
    ensures forall i :: 0 <= i < |s| && i !in {4, 7, 10, 13, 16} ==> '0' <= s[i] <= '9'
    ensures p.year == 1000 * (s[0] as int - 48) + 100 * (s[1] as int - 48) + 10 * (s[2] as int - 48) + s[3] as int - 48
    ensures p.month == 10 * (s[5] as int - 48) + s[6] as int - 48
    ensures p.day == 10 * (s[8] as int - 48) + s[9] as int - 48
    ensures p.hour == 10 * (s[11] as int - 48) + s[12] as int - 48
    ensures p.minute == 10 * (s[14] as int - 48) + s[15] as int - 48
    ensures p.second == if |s| == 19 then 10 * (s[17] as int - 48) + s[18] as int - 48 else 0
  {
    hide Number, FromSeconds, DateUtc;
    FourDigits(s);
    TwoDigits(s, 5);
    TwoDigits(s, 8);
    TwoDigits(s, 11);
    TwoDigits(s, 14);
    if |s| == 19 { TwoDigits(s, 17); }
  }

  /** In a zone that is at most a day off and has at most two offsets within a day of the wanted time, a time from
      year 101 on is converted exactly when it exists, to an instant that shows it. */
  lemma ConversionPlainly(value: string, local: Parts, offset: int -> int, a: int, b: int)
    requires ParseLocalDateTime(value) == Some(local) && local.year >= 101
    requires forall t :: -86400 <= offset(t) <= 86400
    requires forall t :: DateUtc(local) - 86400 <= t <= DateUtc(local) + 86400 ==> offset(t) == a || offset(t) == b
    ensures Convert(value, Zone(offset)).Some? <==> exists t :: t + offset(t) == DateUtc(local)
    ensures var result := Convert(value, Zone(offset));
            result.Some? ==> result.value + offset(result.value) == DateUtc(local)
  {
    hide DateUtc, ParseLocalDateTime, Convert;
    assert Bounded(offset) && TwoOffsets(DateUtc(local), offset, a, b);
    hide Bounded, TwoOffsets;
    ConversionFromYear101(value, local, offset, a, b);
    ConversionIsComplete(value, local, offset, a, b);
  }

  lemma KnownFields(value: string)
    requires value == "2000-02-29T12:34:56"
    ensures ParseLocalDateTime(value) == Some(Parts(2000, 2, 29, 12, 34, 56))
  {
    hide Number, FromSeconds, DateUtc;
    assert |value| == 19;
    FourDigits(value);
    TwoDigits(value, 5);
    TwoDigits(value, 8);
    TwoDigits(value, 11);
    TwoDigits(value, 14);
    TwoDigits(value, 17);
    assert Fields(value) == Parts(2000, 2, 29, 12, 34, 56);
    ParserAcceptsRealDates(value);
  }

  lemma KnownShown(value: string, offset: int -> int)
    requires ParseLocalDateTime(value) == Some(Parts(2000, 2, 29, 12, 34, 56)) && forall t :: offset(t) == 3600
    requires DateUtc(Parts(2000, 2, 29, 12, 34, 56)) == 951827696
    ensures Convert(value, Zone(offset)) == Some(951824096) && Shape(value) && Fields(value).year == 2000
    ensures Convert(value, UnknownZone) == None && FormatDateTimeLocalValue(951824096, UnknownZone) == None
  {
    hide DateUtc, FromSeconds, Fields;
    var local := Parts(2000, 2, 29, 12, 34, 56);
    ConversionPlainly(value, local, offset, 3600, 3600);
    assert 951824096 + offset(951824096) == DateUtc(local);
    hide Resolve;
  }

  /** An hour ahead of UTC, 12:34:56 on the last of February 2000 is 951824096 seconds after the epoch. */
  lemma KnownConversion(value: string, offset: int -> int)
    requires value == "2000-02-29T12:34:56" && forall t :: offset(t) == 3600
    ensures Convert(value, Zone(offset)) == Some(951824096)
    ensures FormatDateTimeLocalValue(951824096, Zone(offset)) == Some("2000-02-29T12:34")
    ensures Convert(value, UnknownZone) == None && FormatDateTimeLocalValue(951824096, UnknownZone) == None
  {
    hide DateUtc, FromSeconds, ParseLocalDateTime, Convert, FormatDateTimeLocalValue;
    KnownFields(value);
    KnownInstants();
    KnownShown(value, offset);
    FormatGivesMinutesBack(value, Zone(offset), 951824096);
    hide Shape, Fields;
    assert value[..16] == "2000-02-29T12:34";
  }
}
