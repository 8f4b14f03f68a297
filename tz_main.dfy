/**
 The instant resolver of the `tz` world clock: the two argument readers
 (`HH:MM` and `yyyy-mm-dd`) and the decision, from which of the optional
 time and date arguments are present and from the `--utc` flag, of how the
 instant to display is built from "now". Every panic of the program (a
 failed `expect`, an explicit `panic!`, an `unwrap` of `None`) is a `Fatal`
 outcome naming where it happened; the clock is injected as a `Clock`.
 */
module TzMain {
  import opened RustStd
  import opened Chrono

  // ---------------------------------------------------------------------------
  // The argument readers
  // ---------------------------------------------------------------------------

  /** `read_hour_minute`: exactly two `:`-separated pieces, each a `u32`.
      No range check: `25:00` reads as (25, 0). */
  function ReadHourMinute(hhmm: string): (r: Option<(nat, nat)>)
    ensures r.Some? ==> Count(hhmm, ':') == 1
    ensures r.Some? ==> r.value.0 <= U32_MAX && r.value.1 <= U32_MAX
  {
    var tokens := Split(hhmm, ':');
    if |tokens| != 2 then None
    else
      match (ParseU32(tokens[0]), ParseU32(tokens[1]))
      case (Some(hour), Some(minute)) => Some((hour, minute))
      case _ => None
  }

  /** `read_yy_mm_dd`: exactly three `-`-separated pieces, an `i32` and two
      `u32`s. A year can never come out negative: a leading `-` is itself a
      separator and leaves an empty first piece. */
  function ReadYyMmDd(yymmdd: string): (r: Option<(int, nat, nat)>)
    ensures r.Some? ==> Count(yymmdd, '-') == 2
    ensures r.Some? ==> 0 <= r.value.0 <= I32_MAX && r.value.1 <= U32_MAX && r.value.2 <= U32_MAX
  {
    var tokens := Split(yymmdd, '-');
    if |tokens| != 3 then None
    else
      match (ParseI32(tokens[0]), ParseU32(tokens[1]), ParseU32(tokens[2]))
      case (Some(year), Some(month), Some(day)) => Some((year, month, day))
      case _ => None
  }

  /** A string without the separator splits into itself. */
  lemma SplitWhole(a: string, sep: char)
    requires sep !in a
    ensures Split(a, sep) == [a]
  {
    JoinSplit(a, sep);
  }

  /** Any string with no `:` other than the separator reads as its two
      sides, each parsed as a `u32`; with one side malformed, it is rejected. */
  lemma ReadHourMinutePieces(a: string, b: string)
    requires ':' !in a && ':' !in b
    ensures ReadHourMinute(a + [':'] + b) ==
      if ParseU32(a).Some? && ParseU32(b).Some? then Some((ParseU32(a).value, ParseU32(b).value))
      else None
  {
    SplitCons(a, b, ':');
    SplitWhole(b, ':');
  }

  /** Every string whose `:`-split does not give exactly two pieces is rejected. */
  lemma ReadHourMinuteTokenCount(hhmm: string)
    requires Count(hhmm, ':') != 1
    ensures ReadHourMinute(hhmm) == None
  {
  }

  /** Every accepted string is the decimal (optionally `+`-signed, possibly
      zero-padded) text of its hour, a `:`, and that of its minute. */
  lemma ReadHourMinuteShape(hhmm: string)
    requires ReadHourMinute(hhmm).Some?
    ensures exists a, b :: hhmm == a + [':'] + b && ':' !in a && ':' !in b
                           && ParseU32(a) == Some(ReadHourMinute(hhmm).value.0)
                           && ParseU32(b) == Some(ReadHourMinute(hhmm).value.1)
  {
    var tokens := Split(hhmm, ':');
    JoinSplit(hhmm, ':');
    assert hhmm == tokens[0] + [':'] + tokens[1];
  }

  /** Round trip: the decimal texts of two numbers, joined by `:`, read
      back as those numbers exactly when both fit in `u32`; a side beyond
      `u32::MAX` is rejected, never wrapped. */
  lemma ReadHourMinuteDecimal(h: nat, m: nat)
    ensures ReadHourMinute(Decimal(h) + [':'] + Decimal(m)) ==
            if h <= U32_MAX && m <= U32_MAX then Some((h, m)) else None
  {
    ReadHourMinutePieces(Decimal(h), Decimal(m));
    ParseU32Literal(false, [], h);
    ParseU32Literal(false, [], m);
    assert "" + [] + Decimal(h) == Decimal(h) && "" + [] + Decimal(m) == Decimal(m);
  }

  /** A two-digit, zero-padded rendering, as in the `HH:MM` the program asks for. */
  function TwoDigits(n: nat): (s: string)
    requires n < 100
    ensures |s| == 2 && AllDigits(s) && DigitsValue(s) == n
  {
    var s := ['0' + (n / 10) as char, '0' + (n % 10) as char];
    assert s[..1][..0] == [] && s[..1] == [s[0]];
    assert (s[0] - '0') as nat == n / 10 && (s[1] - '0') as nat == n % 10;
    assert DigitsValue(s[..1]) == n / 10;
    assert DigitsValue(s) == DigitsValue(s[..1]) * 10 + n % 10;
    s
  }

  /** Round trip on the documented format: `HH:MM` with zero padding reads
      back as the hour and minute written, whatever their range. */
  lemma ReadHourMinuteTwoDigits(h: nat, m: nat)
    requires h < 100 && m < 100
    ensures ReadHourMinute(TwoDigits(h) + [':'] + TwoDigits(m)) == Some((h, m))
  {
    var a, b := TwoDigits(h), TwoDigits(m);
    assert ':' !in a && ':' !in b by {
      assert forall i :: 0 <= i < 2 ==> IsDigit(a[i]) && IsDigit(b[i]);
    }
    ReadHourMinutePieces(a, b);
    assert ParseU32(a) == Some(h) by { assert IsDigit(a[0]); }
    assert ParseU32(b) == Some(m) by { assert IsDigit(b[0]); }
  }

  /** Malformed times the program rejects: no separator, two separators,
      an empty side, a non-digit side, the wrong separator. */
  lemma ReadHourMinuteRejects()
    ensures ReadHourMinute("") == None
    ensures ReadHourMinute("1230") == None
    ensures ReadHourMinute("1:2:3") == None
    ensures ReadHourMinute("12:") == None
    ensures ReadHourMinute("ab:30") == None
    ensures ReadHourMinute("12-30") == None
  {
    assert "1:2:3" == "1" + [':'] + "2:3" && "2:3" == "2" + [':'] + "3";
    assert "12:" == "12" + [':'] + "";
    assert "ab:30" == "ab" + [':'] + "30";
    assert ':' !in "1230" && ':' !in "12-30";
    SplitCons("2", "3", ':');
    SplitCons("1", "2:3", ':');
    SplitWhole("3", ':');
    ReadHourMinutePieces("12", "");
    ReadHourMinutePieces("ab", "30");
    assert !IsDigit('a');
  }

  /** `25:00` is read without complaint: the reader does no range check. */
  lemma ReadHourMinuteNoRangeCheck()
    ensures ReadHourMinute("25:00") == Some((25, 0))
  {
    assert TwoDigits(25) == "25" && TwoDigits(0) == "00";
    assert "25:00" == TwoDigits(25) + [':'] + TwoDigits(0);
    ReadHourMinuteTwoDigits(25, 0);
  }

  /** A string without `-` other than the two separators reads as its three
      pieces, parsed as `i32`, `u32`, `u32`. */
  lemma ReadYyMmDdPieces(a: string, b: string, c: string)
    requires '-' !in a && '-' !in b && '-' !in c
    ensures ReadYyMmDd(a + ['-'] + b + ['-'] + c) ==
      if ParseI32(a).Some? && ParseU32(b).Some? && ParseU32(c).Some? then
        Some((ParseI32(a).value, ParseU32(b).value, ParseU32(c).value))
      else None
  {
    SplitCons(b, c, '-');
    SplitWhole(c, '-');
    SplitCons(a, b + ['-'] + c, '-');
    assert a + ['-'] + b + ['-'] + c == a + ['-'] + (b + ['-'] + c);
  }

  /** Every string whose `-`-split does not give exactly three pieces is rejected. */
  lemma ReadYyMmDdTokenCount(yymmdd: string)
    requires Count(yymmdd, '-') != 2
    ensures ReadYyMmDd(yymmdd) == None
  {
  }

  /** Round trip: the decimal texts of a year, a month and a day, joined by
      `-`, read back as those numbers exactly when the year fits in `i32`
      and the month and day fit in `u32`; anything wider is rejected. */
  lemma ReadYyMmDdDecimal(y: nat, mo: nat, d: nat)
    ensures ReadYyMmDd(Decimal(y) + ['-'] + Decimal(mo) + ['-'] + Decimal(d)) ==
            if y <= I32_MAX && mo <= U32_MAX && d <= U32_MAX then Some((y, mo, d)) else None
  {
    ReadYyMmDdPieces(Decimal(y), Decimal(mo), Decimal(d));
    ParseI32Literal(NoSign, [], y);
    ParseU32Literal(false, [], mo);
    ParseU32Literal(false, [], d);
    assert SignText(NoSign) + [] + Decimal(y) == Decimal(y);
    assert "" + [] + Decimal(mo) == Decimal(mo) && "" + [] + Decimal(d) == Decimal(d);
  }

  /** Every accepted date is some `a-b-c`, with no other `-`, whose pieces
      parse as `i32`, `u32`, `u32` to the three values returned. */
  lemma ReadYyMmDdShape(yymmdd: string)
    requires ReadYyMmDd(yymmdd).Some?
    ensures exists a, b, c :: && yymmdd == a + ['-'] + b + ['-'] + c
                              && '-' !in a && '-' !in b && '-' !in c
                              && ParseI32(a) == Some(ReadYyMmDd(yymmdd).value.0)
                              && ParseU32(b) == Some(ReadYyMmDd(yymmdd).value.1)
                              && ParseU32(c) == Some(ReadYyMmDd(yymmdd).value.2)
  {
    var tokens := Split(yymmdd, '-');
    var a, b, c := tokens[0], tokens[1], tokens[2];
    assert a + ['-'] + (b + ['-'] + c) == a + ['-'] + b + ['-'] + c;
    assert tokens[1..][1..] == [c];
    JoinSplit(yymmdd, '-');
    assert Join(tokens[1..], '-') == b + ['-'] + c;
    assert '-' !in a && '-' !in b && '-' !in c;
  }

  /** A leading `-` is a separator that leaves an empty first piece, so a
      negative year is never read. */
  lemma ReadYyMmDdLeadingMinus(rest: string)
    ensures ReadYyMmDd(['-'] + rest) == None
  {
    var t := ['-'] + rest;
    assert t[0] == '-' && t[1..] == rest;
    assert Split(t, '-') == [[]] + Split(rest, '-');
  }

  /** Month 13 is read without complaint: the reader does no range check. */
  lemma ReadYyMmDdNoRangeCheck()
    ensures ReadYyMmDd("2024-13-01") == Some((2024, 13, 1))
  {
    var year, month, day := TwoDigits(20) + TwoDigits(24), TwoDigits(13), TwoDigits(1);
    assert "2024-13-01" == year + ['-'] + month + ['-'] + day;
    assert AllDigits(year) && DigitsValue(year) == 2024 by {
      assert year[..3] == "202" && year[..3][..2] == TwoDigits(20);
    }
    assert ParseI32(year) == Some(2024) by { assert IsDigit(year[0]); }
    assert ParseU32(month) == Some(13) by { assert IsDigit(month[0]); }
    assert ParseU32(day) == Some(1) by { assert IsDigit(day[0]); }
    assert '-' !in year && '-' !in month && '-' !in day by {
      assert forall i :: 0 <= i < |year| ==> IsDigit(year[i]);
      assert forall i :: 0 <= i < 2 ==> IsDigit(month[i]) && IsDigit(day[i]);
    }
    ReadYyMmDdPieces(year, month, day);
  }

  // ---------------------------------------------------------------------------
  // Resolving the instant
  // ---------------------------------------------------------------------------

  /** "Now" as the clock reports it in UTC and in the local zone. */
  datatype Clock = Clock(utcNow: DateTime, localNow: DateTime)

  /** Where the program panics. */
  datatype Failure =
    | TimeFormat        // read_hour_minute: wrong piece count or a piece not a u32
    | DateFormat        // read_yy_mm_dd: wrong piece count or a piece not an i32/u32
    | HourRejected      // with_hour(..).unwrap()
    | MinuteRejected    // with_minute(..).unwrap()
    | DateTimeRejected  // with_ymd_and_hms(..).unwrap()

  datatype Resolution = Resolved(at: Zoned) | Fatal(failure: Failure)

  /** "Now" in the reference frame `--utc` selects. */
  function Now(utc: bool, clock: Clock): Zoned {
    if utc then Zoned(Utc, clock.utcNow) else Zoned(Local, clock.localNow)
  }

  /** The `match` in `main` that builds the instant to display, in the frame
      it was built in (before `with_timezone(&Utc)`). */
  function Resolve(time: Option<string>, date: Option<string>, utc: bool, clock: Clock, env: TzEnv)
    : (r: Resolution)
    ensures time.None? ==> r == Resolved(Zoned(Utc, clock.utcNow))
    ensures r.Resolved? && time.Some? ==> r.at.zone == (if utc then Utc else Local)
  {
    match time
    case None => Resolved(Zoned(Utc, clock.utcNow))
    case Some(t) =>
      match date
      case None => (
        match ReadHourMinute(t)
        case None => Fatal(TimeFormat)
        case Some((hour, minute)) => (
          match WithHour(env, Now(utc, clock), hour)
          case None => Fatal(HourRejected)
          case Some(withHour) => (
            match WithMinute(env, withHour, minute)
            case None => Fatal(MinuteRejected)
            case Some(withMinute) => Resolved(withMinute))))
      case Some(d) =>
        match ReadHourMinute(t)
        case None => Fatal(TimeFormat)
        case Some((hour, minute)) => (
          match ReadYyMmDd(d)
          case None => Fatal(DateFormat)
          case Some((year, month, day)) => (
            match WithYmdAndHms(env, if utc then Utc else Local, year, month, day, hour, minute, 0)
            case None => Fatal(DateTimeRejected)
            case Some(at) => Resolved(at)))
  }

  /** Without a time argument the instant is UTC "now", whatever the date
      argument and the `--utc` flag say. */
  lemma ResolveWithoutTime(date: Option<string>, utc: bool, clock: Clock, env: TzEnv)
    ensures Resolve(None, date, utc, clock, env) == Resolved(Zoned(Utc, clock.utcNow))
  {
  }

  /** With a time only: the instant keeps today's date, seconds and
      fraction in the chosen frame and takes the hour and minute read; it
      fails exactly when the hour or minute is out of range or a step lands
      on a local reading that is not a single instant. */
  lemma ResolveTimeOnly(t: string, h: nat, m: nat, utc: bool, clock: Clock, env: TzEnv)
    requires ReadHourMinute(t) == Some((h, m))
    ensures var now := Now(utc, clock);
            var r := Resolve(Some(t), None, utc, clock, env);
            && (r.Resolved? <==> && h < 24 && m < 60
                                 && Single(env, now.zone, now.local.(hour := h))
                                 && Single(env, now.zone, now.local.(hour := h, minute := m)))
            && (r.Resolved? ==> && r.at.zone == now.zone
                                && SameDate(r.at.local, now.local)
                                && r.at.local.hour == h && r.at.local.minute == m
                                && r.at.local.second == now.local.second
                                && r.at.local.nanos == now.local.nanos)
  {
  }

  /** With a time only, which `unwrap` panics: an hour of 24 or more fails at
      `with_hour`, and in UTC a minute of 60 or more fails at `with_minute`. */
  lemma ResolveTimeOnlyFailures(t: string, utc: bool, clock: Clock, env: TzEnv)
    ensures ReadHourMinute(t).None? ==> Resolve(Some(t), None, utc, clock, env) == Fatal(TimeFormat)
    ensures ReadHourMinute(t).Some? && ReadHourMinute(t).value.0 >= 24 ==>
              Resolve(Some(t), None, utc, clock, env) == Fatal(HourRejected)
    ensures ReadHourMinute(t).Some? && ReadHourMinute(t).value.1 >= 60 ==>
              Resolve(Some(t), None, utc, clock, env).Fatal?
    ensures utc && ReadHourMinute(t).Some? && ReadHourMinute(t).value.0 < 24
              && ReadHourMinute(t).value.1 >= 60 ==>
              Resolve(Some(t), None, utc, clock, env) == Fatal(MinuteRejected)
  {
  }

  /** With a time and a date: the instant is exactly that date, hour and
      minute in the chosen frame, at second 0; it fails exactly when the
      date is not a calendar date, the time is out of range, or the local
      reading is not a single instant. */
  lemma ResolveTimeAndDate(t: string, d: string, utc: bool, clock: Clock, env: TzEnv)
    ensures ReadHourMinute(t).Some? && ReadYyMmDd(d).Some? ==>
            var (h, m) := ReadHourMinute(t).value;
            var (y, mo, dd) := ReadYyMmDd(d).value;
            var zone := if utc then Utc else Local;
            var r := Resolve(Some(t), Some(d), utc, clock, env);
            && (r.Resolved? <==> && env.isCalendarDate(y, mo, dd) && h < 24 && m < 60
                                 && Single(env, zone, DateTime(y, mo, dd, h, m, 0, 0)))
            && (r.Resolved? ==> r.at == Zoned(zone, DateTime(y, mo, dd, h, m, 0, 0)))
  {
  }

  /** With a time and a date, the time is read first: a malformed time is
      reported whatever the date; a well-formed time with a malformed date
      fails on the date; a well-formed pair with an hour of 24 or more
      fails at `with_ymd_and_hms`. */
  lemma ResolveTimeAndDateFailures(t: string, d: string, utc: bool, clock: Clock, env: TzEnv)
    ensures ReadHourMinute(t).None? ==> Resolve(Some(t), Some(d), utc, clock, env) == Fatal(TimeFormat)
    ensures ReadHourMinute(t).Some? && ReadYyMmDd(d).None? ==>
              Resolve(Some(t), Some(d), utc, clock, env) == Fatal(DateFormat)
    ensures ReadHourMinute(t).Some? && ReadYyMmDd(d).Some? && ReadHourMinute(t).value.0 >= 24 ==>
              Resolve(Some(t), Some(d), utc, clock, env) == Fatal(DateTimeRejected)
  {
  }

  /** Whatever the arguments, a resolved instant in the date path has a
      non-negative year and second 0, and every resolved instant is a
      well-formed reading when the clock's are. */
  lemma ResolveWellFormed(time: Option<string>, date: Option<string>, utc: bool, clock: Clock, env: TzEnv)
    requires WellFormed(env, clock.utcNow) && WellFormed(env, clock.localNow)
    ensures var r := Resolve(time, date, utc, clock, env);
            r.Resolved? ==> WellFormed(env, r.at.local)
    ensures var r := Resolve(time, date, utc, clock, env);
            r.Resolved? && time.Some? && date.Some? ==> r.at.local.year >= 0 && r.at.local.second == 0
  {
  }

  /** Under `--utc` the local clock and the local zone rules play no part. */
  lemma ResolveUtcIgnoresLocal(time: Option<string>, date: Option<string>,
                               clock: Clock, env: TzEnv, localNow: DateTime, isSingleLocal: DateTime -> bool)
    ensures Resolve(time, date, true, clock, env) ==
            Resolve(time, date, true, clock.(localNow := localNow), env.(isSingleLocal := isSingleLocal))
  {
  }

  /** The scenario of `09:30` with `--utc` on 2024-06-01: the instant is
      09:30 UTC that day, with the clock's seconds kept. */
  lemma ResolveScenarioUtcMorning(clock: Clock, env: TzEnv)
    requires SameDate(clock.utcNow, DateTime(2024, 6, 1, 0, 0, 0, 0))
    ensures Resolve(Some("09:30"), None, true, clock, env) ==
            Resolved(Zoned(Utc, DateTime(2024, 6, 1, 9, 30, clock.utcNow.second, clock.utcNow.nanos)))
  {
    assert TwoDigits(9) == "09" && TwoDigits(30) == "30";
    assert "09:30" == TwoDigits(9) + [':'] + TwoDigits(30);
    ReadHourMinuteTwoDigits(9, 30);
  }

  /** `25:00` parses, and only the later `with_hour` rejects it. */
  lemma ResolveOutOfRangeHour(utc: bool, clock: Clock, env: TzEnv)
    ensures Resolve(Some("25:00"), None, utc, clock, env) == Fatal(HourRejected)
  {
    ReadHourMinuteNoRangeCheck();
  }
}
