/** Days of the week, Monday = 0 through Sunday = 6, with the two textual
    readers the daemon uses (`DayOfWeek::parse` and the configuration
    deserializer) and the printer. Strings are taken to be ASCII, so one
    character is one byte. */
module Days {
  import opened Results
  import opened Times

  type Day = d: int | 0 <= d <= 6

  datatype DayError = NotADay(source: string) | NumberOutOfRange(n: nat)

  /** `to_ascii_lowercase` on one character: never an upper-case ASCII
      letter; an upper-case letter becomes the same letter of the alphabet in
      lower case, and anything else is left alone. */
  function LowerChar(c: char): (r: char)
    ensures !('A' <= r <= 'Z')
    ensures 'A' <= c <= 'Z' ==> 'a' <= r <= 'z' && r as int - 'a' as int == c as int - 'A' as int
    ensures !('A' <= c <= 'Z') ==> r == c
  {
    if 'A' <= c <= 'Z' then (c as int + 32) as char else c
  }

  function Lower(s: string): (r: string)
    ensures |r| == |s|
    ensures forall i :: 0 <= i < |s| ==> r[i] == LowerChar(s[i])
  {
    seq(|s|, i requires 0 <= i < |s| => LowerChar(s[i]))
  }

  /** The printed name of a day (`Display`). */
  function Name(d: Day): (r: string)
    ensures |r| >= 6
    ensures Lower(r) == r
  {
    match d
    case 0 => "monday"
    case 1 => "tuesday"
    case 2 => "wednesday"
    case 3 => "thursday"
    case 4 => "friday"
    case 5 => "saturday"
    case 6 => "sunday"
  }

  /** `DayOfWeek::parse`: only the lower-cased first three characters are
      looked at. The digit alternatives `"0"`..`"6"` of the source's match are
      kept, although a three-character prefix can never equal them. Slicing
      the first three characters fails on shorter input, hence the requires. */
  function Parse(source: string): (r: Result<Day, DayError>)
    requires |source| >= 3
    ensures r.Ok? ==> Name(r.value)[..3] == Lower(source[..3])
    ensures r.Err? ==> r.error == NotADay(source)
  {
    var prefix := Lower(source[..3]);
    if prefix == "mon" || prefix == "0" then Ok(0)
    else if prefix == "tue" || prefix == "1" then Ok(1)
    else if prefix == "wed" || prefix == "2" then Ok(2)
    else if prefix == "thu" || prefix == "3" then Ok(3)
    else if prefix == "fri" || prefix == "4" then Ok(4)
    else if prefix == "sat" || prefix == "5" then Ok(5)
    else if prefix == "sun" || prefix == "6" then Ok(6)
    else Err(NotADay(source))
  }

  /** Reading back a printed day gives the same day. */
  lemma ParseName(d: Day)
    ensures Parse(Name(d)) == Ok(d)
  {
    var n := Name(d);
    assert Lower(n[..3]) == n[..3];
    match d
    case 0 => assert n[..3] == "mon";
    case 1 => assert n[..3] == "tue";
    case 2 => assert n[..3] == "wed";
    case 3 => assert n[..3] == "thu";
    case 4 => assert n[..3] == "fri";
    case 5 => assert n[..3] == "sat";
    case 6 => assert n[..3] == "sun";
  }

  /** Two inputs that agree on their lower-cased first three characters parse
      alike, whatever follows. */
  lemma ParseReadsOnlyPrefix(a: string, b: string)
    requires |a| >= 3 && |b| >= 3
    requires Lower(a[..3]) == Lower(b[..3])
    ensures Parse(a).Ok? <==> Parse(b).Ok?
    ensures Parse(a).Ok? ==> Parse(a).value == Parse(b).value
  {
  }

  /** A source starting with a digit never parses: the digit alternatives are
      dead. */
  lemma DigitAlternativesUnreachable(source: string)
    requires |source| >= 3 && IsDigit(source[0])
    ensures Parse(source).Err?
  {
    var prefix := Lower(source[..3]);
    assert prefix[0] == source[0];
  }

  /** A day key of the configuration document: a string or a small number. */
  datatype DayKey = NameKey(s: string) | NumberKey(n: u8)

  /** The configuration deserializer for days. Strings are read like `Parse`,
      but `"wen"` is also taken for Wednesday; numbers up to 6 are taken as
      they are. */
  function DeserializeDay(key: DayKey): (r: Result<Day, DayError>)
    requires key.NameKey? ==> |key.s| >= 3
    ensures key.NumberKey? ==> (r.Ok? <==> key.n <= 6) && (r.Ok? ==> r.value == key.n)
  {
    match key
    case NumberKey(n) => if n <= 6 then Ok(n) else Err(NumberOutOfRange(n))
    case NameKey(source) =>
      var prefix := Lower(source)[..3];
      if prefix == "0" || prefix == "mon" then Ok(0)
      else if prefix == "1" || prefix == "tue" then Ok(1)
      else if prefix == "2" || prefix == "wed" || prefix == "wen" then Ok(2)
      else if prefix == "3" || prefix == "thu" then Ok(3)
      else if prefix == "4" || prefix == "fri" then Ok(4)
      else if prefix == "5" || prefix == "sat" then Ok(5)
      else if prefix == "6" || prefix == "sun" then Ok(6)
      else Err(NotADay(source))
  }

  /** The two string readers agree except on the `"wen"` spelling. */
  lemma DeserializeDayAgreesWithParse(source: string)
    requires |source| >= 3
    ensures Lower(source[..3]) != "wen" ==> DeserializeDay(NameKey(source)) == Parse(source)
    ensures Lower(source[..3]) == "wen" ==> DeserializeDay(NameKey(source)) == Ok(2) && Parse(source).Err?
  {
    assert Lower(source)[..3] == Lower(source[..3]);
  }

  /** Arbitrary casing and trailing text are accepted, as in the configuration
      test that keys Wednesday by `WEDanythinggoes`. */
  lemma DeserializeDayExamples()
    ensures DeserializeDay(NameKey("WEDanythinggoes")) == Ok(2)
    ensures DeserializeDay(NameKey("monday")) == Ok(0)
    ensures DeserializeDay(NumberKey(6)) == Ok(6)
    ensures DeserializeDay(NumberKey(7)).Err?
  {
    assert Lower("WEDanythinggoes")[..3] == "wed";
    assert Lower("monday")[..3] == "mon";
  }
}
