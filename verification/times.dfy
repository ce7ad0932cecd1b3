/** Times of day: an hour and a minute, plus the `24:00` end-of-day sentinel.
    Both fields are unsigned bytes in the daemon; nothing stops an ill-formed
    value such as `07:75` from being built by hand, so every property that needs
    a well-formed time says so with `Valid`. */
module Times {
  import opened Results

  /** An unsigned byte: the width of both fields of a time of day. */
  type u8 = x: int | 0 <= x < 0x100

  /** An unsigned 16-bit integer: the width of `as_minutes` and `from_minutes`. */
  type u16 = x: int | 0 <= x < 0x1_0000

  datatype TimeOfDay = TimeOfDay(hours: u8, minutes: u8)

  const DayBegins := TimeOfDay(0, 0)
  const DayEnds := TimeOfDay(24, 0)

  /** Minutes in one day; `24:00` is exactly this many minutes after midnight. */
  const MinutesPerDay := 1440

  /** A time the configuration parser accepts: `00:00`..`23:59`, or `24:00`. */
  predicate Valid(t: TimeOfDay) {
    (t.hours <= 23 && t.minutes <= 59) || t == DayEnds
  }

  /** Minutes since midnight. The sum never overflows its 16-bit result, even for
      ill-formed times, and a valid time lands inside the day. */
  function AsMinutes(t: TimeOfDay): (r: u16)
    ensures Valid(t) ==> r <= MinutesPerDay
    ensures Valid(t) && t != DayEnds ==> r < MinutesPerDay
  {
    t.minutes + t.hours * 60
  }

  /** The daemon's ordering on times: hours first, then minutes. On valid times
      it is the ordering of the minutes since midnight. */
  function Le(a: TimeOfDay, b: TimeOfDay): (r: bool)
    ensures Valid(a) && Valid(b) ==> (r <==> AsMinutes(a) <= AsMinutes(b))
  {
    a.hours < b.hours || (a.hours == b.hours && a.minutes <= b.minutes)
  }

  function Lt(a: TimeOfDay, b: TimeOfDay): (r: bool)
    ensures r <==> !Le(b, a)
    ensures Valid(a) && Valid(b) ==> (r <==> AsMinutes(a) < AsMinutes(b))
  {
    a.hours < b.hours || (a.hours == b.hours && a.minutes < b.minutes)
  }

  /** `Ord::min`: the first argument when the two compare equal. */
  function Min(a: TimeOfDay, b: TimeOfDay): (r: TimeOfDay)
    ensures Le(r, a) && Le(r, b)
    ensures r == a || r == b
  {
    if Le(a, b) then a else b
  }

  /** `Ord::max`: the second argument when the two compare equal. */
  function Max(a: TimeOfDay, b: TimeOfDay): (r: TimeOfDay)
    ensures Le(a, r) && Le(b, r)
    ensures r == a || r == b
  {
    if Lt(b, a) then a else b
  }

  /** The conversion into a `Duration`, in seconds. */
  function Seconds(t: TimeOfDay): (r: nat)
    ensures Valid(t) ==> r == 60 * AsMinutes(t)
  {
    t.hours * 3600 + t.minutes * 60
  }

  // ---------------------------------------------------------------------------
  // from_minutes

  /** `from_minutes` as written: the hour is reduced modulo 23, so no result ever
      has hour 23 and the conversion is not the inverse of `AsMinutes` past 22:59. */
  function FromMinutes(m: u16): (r: TimeOfDay)
    ensures r.hours <= 22 && r.minutes <= 59
    ensures Valid(r)
  {
    TimeOfDay((m / 60) % 23, m % 60)
  }

  /** The round trip through `FromMinutes` holds for exactly the valid times
      whose hour is at most 22. */
  lemma FromMinutesRoundTrip(t: TimeOfDay)
    requires Valid(t)
    ensures FromMinutes(AsMinutes(t)) == t <==> t.hours <= 22
  {
    if t.hours <= 22 {
      assert AsMinutes(t) / 60 == t.hours;
    } else {
      assert FromMinutes(AsMinutes(t)).hours != t.hours;
    }
  }

  /** The input that shows it: 23:30 comes back as 00:30. */
  lemma FromMinutesDropsHour23()
    ensures AsMinutes(TimeOfDay(23, 30)) == 1410
    ensures FromMinutes(1410) == TimeOfDay(0, 30)
  {
  }

  /** `from_minutes` with the hour reduced modulo 24, as a wrap-around into one
      day evidently intends. */
  function FromMinutesIntended(m: u16): (r: TimeOfDay)
    ensures Valid(r) && r != DayEnds
    ensures AsMinutes(r) == m % MinutesPerDay
  {
    TimeOfDay((m / 60) % 24, m % 60)
  }

  /** With the modulo-24 reduction every time of the day round-trips, and the
      end-of-day sentinel wraps to midnight. */
  lemma FromMinutesIntendedRoundTrip(t: TimeOfDay)
    requires Valid(t)
    ensures t != DayEnds ==> FromMinutesIntended(AsMinutes(t)) == t
    ensures t == DayEnds ==> FromMinutesIntended(AsMinutes(t)) == DayBegins
  {
    if t != DayEnds {
      assert AsMinutes(t) / 60 == t.hours;
    }
  }

  // ---------------------------------------------------------------------------
  // Parsing and printing

  /** A scalar of the configuration document, where a time of day is expected. */
  datatype Scalar = Number(n: nat) | Text(s: string) | OtherScalar

  datatype TimeError =
    | InvalidLength(length: nat)
    | NotATimeOfDay
    | HoursOutOfRange(h: nat)
    | MinutesOutOfRange(m: nat)

  /** The range check shared by both parsers: `24:00`, or hours up to 23 and
      minutes up to 59; out-of-range hours are reported before minutes. */
  function Validate(h: nat, m: nat): (r: Result<TimeOfDay, TimeError>)
    ensures r.Ok? <==> (h <= 23 && m <= 59) || (h == 24 && m == 0)
    ensures r.Ok? ==> Valid(r.value) && r.value.hours == h && r.value.minutes == m
    ensures r.Err? ==> r.error == (if h > 23 then HoursOutOfRange(h) else MinutesOutOfRange(m))
  {
    if h == 24 && m == 0 then Ok(DayEnds)
    else if h > 23 then Err(HoursOutOfRange(h))
    else if m > 59 then Err(MinutesOutOfRange(m))
    else Ok(TimeOfDay(h, m))
  }

  /** `TimeOfDay::parse` once its pattern has captured the hour and minute
      fields: an explicit match on the pair of numbers. */
  function ParseFields(hh: nat, mm: nat): (r: Result<TimeOfDay, TimeError>)
    ensures r.Ok? <==> (hh == 24 && mm == 0) || (hh <= 23 && mm <= 59)
    ensures r.Ok? ==> Valid(r.value) && r.value.hours as nat == hh && r.value.minutes as nat == mm
    ensures r.Err? && hh <= 23 ==> r.error == MinutesOutOfRange(mm)
    ensures r.Err? && hh > 23 ==> r.error == HoursOutOfRange(hh)
  {
    if hh == 24 && mm == 0 then Ok(DayEnds)
    else if hh <= 23 && mm <= 59 then Ok(TimeOfDay(hh, mm))
    else if hh <= 23 then Err(MinutesOutOfRange(mm))
    else Err(HoursOutOfRange(hh))
  }

  /** The explicit match of `parse` and the guard chain of the deserializer
      accept the same pairs and report the same errors. */
  lemma ParseFieldsAgreesWithValidate(hh: nat, mm: nat)
    ensures ParseFields(hh, mm) == Validate(hh, mm)
  {
  }

  predicate IsDigit(c: char) { '0' <= c <= '9' }

  function DigitValue(c: char): (r: nat)
    requires IsDigit(c)
    ensures r <= 9
  {
    c as int - '0' as int
  }

  function DigitChar(n: nat): (c: char)
    requires n <= 9
    ensures IsDigit(c) && DigitValue(c) == n
  {
    ('0' as int + n) as char
  }

  /** `{:02}`: at least two decimal digits, zero-padded. */
  function Pad2(n: u8): (r: string)
    ensures n < 100 ==>
              |r| == 2 && IsDigit(r[0]) && IsDigit(r[1]) && 10 * DigitValue(r[0]) + DigitValue(r[1]) == n
    ensures n >= 100 ==> |r| == 3
  {
    if n < 10 then ['0', DigitChar(n)]
    else if n < 100 then [DigitChar(n / 10), DigitChar(n % 10)]
    else [DigitChar(n / 100), DigitChar(n / 10 % 10), DigitChar(n % 10)]
  }

  /** The serialized form, `"HHMM"`: four digits for every valid time. */
  function Serialize(t: TimeOfDay): (r: string)
    ensures Valid(t) ==> |r| == 4 && forall i :: 0 <= i < 4 ==> IsDigit(r[i])
  {
    Pad2(t.hours) + Pad2(t.minutes)
  }

  /** What the pattern `([0-2][0-9]):?([0-5][0-9])` matches inside a string of
      exactly four characters: the whole string, without the optional colon. */
  predicate ClockDigits(s: string)
    requires |s| == 4
  {
    '0' <= s[0] <= '2' && IsDigit(s[1]) && '0' <= s[2] <= '5' && IsDigit(s[3])
  }

  /** The deserializer of a time of day. A number `n` is read as `n / 100`
      hours and `n % 100` minutes; a string must have exactly four characters,
      all clock digits; both then go through the same range check. */
  function Deserialize(v: Scalar): (r: Result<TimeOfDay, TimeError>)
    ensures r.Ok? ==> Valid(r.value)
    ensures v.Number? ==> (r.Ok? <==> (v.n / 100 <= 23 && v.n % 100 <= 59) || v.n == 2400)
    ensures v.Text? && |v.s| != 4 ==> r == Err(InvalidLength(|v.s|))
  {
    match v
    case Number(n) => Validate(n / 100, n % 100)
    case Text(s) =>
      if |s| != 4 then Err(InvalidLength(|s|))
      else if !ClockDigits(s) then Err(NotATimeOfDay)
      else Validate(10 * DigitValue(s[0]) + DigitValue(s[1]), 10 * DigitValue(s[2]) + DigitValue(s[3]))
    case OtherScalar => Err(NotATimeOfDay)
  }

  /** Printing a valid time and reading it back gives the same time. */
  lemma DeserializeSerialize(t: TimeOfDay)
    requires Valid(t)
    ensures Deserialize(Text(Serialize(t))) == Ok(t)
  {
    var s := Serialize(t);
    assert s[..2] == Pad2(t.hours) && s[2..] == Pad2(t.minutes);
    assert ClockDigits(s);
  }

  /** The integer spelling `HHMM` of a valid time reads back as that time. */
  lemma DeserializeNumber(t: TimeOfDay)
    requires Valid(t)
    ensures Deserialize(Number(100 * t.hours + t.minutes)) == Ok(t)
  {
  }

  /** Worked examples: `"0911"`, `911` and `"2400"` are accepted; `"2401"`,
      `"0960"`-like numbers and three-character strings are not. */
  lemma DeserializeExamples()
    ensures Deserialize(Text("0911")) == Ok(TimeOfDay(9, 11))
    ensures Deserialize(Number(911)) == Ok(TimeOfDay(9, 11))
    ensures Deserialize(Text("2400")) == Ok(DayEnds)
    ensures Deserialize(Text("2401")) == Err(HoursOutOfRange(24))
    ensures Deserialize(Number(960)) == Err(MinutesOutOfRange(60))
    ensures Deserialize(Text("911")) == Err(InvalidLength(3))
  {
    assert ClockDigits("0911");
    assert ClockDigits("2400");
    assert ClockDigits("2401");
  }
}
