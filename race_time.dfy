/**
 * The race-time parser of the results service (parseRaceResult in
 * runners/services/resultsService.go). A race result is a fixed-width
 * "HH:MM:SS" string; the parser cuts out the three two-character fields and
 * hands "HHhMMmSSs" to Go's duration parser. Durations are modelled as whole
 * seconds.
 */
module RaceTime {
  import opened Wrappers

  predicate IsDigit(c: char) { '0' <= c <= '9' }

  function DigitValue(c: char): (v: nat)
    requires IsDigit(c)
    ensures v < 10
  {
    c as int - '0' as int
  }

  function DigitChar(n: nat): (c: char)
    requires n < 10
    ensures IsDigit(c) && DigitValue(c) == n
  {
    ('0' as int + n) as char
  }

  /** One two-character field as the duration parser reads it: two decimal digits. */
  function ParseField(hi: char, lo: char): (v: Option<nat>)
    ensures v.Some? <==> IsDigit(hi) && IsDigit(lo)
    ensures v.Some? ==> v.value < 100
  {
    if IsDigit(hi) && IsDigit(lo) then Some(10 * DigitValue(hi) + DigitValue(lo)) else None
  }

  /** The largest value the parser can return: "99:99:99". */
  const MaxSeconds: nat := 99 * 3600 + 99 * 60 + 99

  /**
   * parseRaceResult: hours from s[0..2], minutes from s[3..5], seconds from
   * s[6..8], as total seconds; None where the duration parser reports an
   * error. The characters at indices 2 and 5 and everything from index 8 on are
   * never looked at. Strings shorter than 8 make the Go slicing panic, so the
   * parser may not be called on them.
   */
  function ParseRaceResult(s: string): (d: Option<nat>)
    requires |s| >= 8
    ensures d.Some? <==> IsDigit(s[0]) && IsDigit(s[1]) && IsDigit(s[3]) && IsDigit(s[4])
                         && IsDigit(s[6]) && IsDigit(s[7])
    ensures d.Some? ==> d.value <= MaxSeconds
  {
    match (ParseField(s[0], s[1]), ParseField(s[3], s[4]), ParseField(s[6], s[7]))
    case (Some(h), Some(m), Some(sec)) => Some(h * 3600 + m * 60 + sec)
    case _ => None
  }

  /** A race-time string the parser accepts. */
  predicate WellFormed(s: string) { |s| >= 8 && ParseRaceResult(s).Some? }

  /** The duration of a well-formed race time, in seconds. */
  function Seconds(s: string): nat
    requires WellFormed(s)
  {
    ParseRaceResult(s).value
  }

  /** The value of the two-character field starting at index i. */
  function Field(s: string, i: nat): (v: nat)
    requires i + 1 < |s| && IsDigit(s[i]) && IsDigit(s[i + 1])
    ensures v < 100
  {
    ParseField(s[i], s[i + 1]).value
  }

  function TwoDigits(n: nat): (s: string)
    requires n < 100
    ensures |s| == 2 && ParseField(s[0], s[1]) == Some(n)
  {
    [DigitChar(n / 10), DigitChar(n % 10)]
  }

  /** The canonical "HH:MM:SS" spelling of three two-digit fields. */
  function FormatRaceResult(h: nat, m: nat, sec: nat): (s: string)
    requires h < 100 && m < 100 && sec < 100
    ensures |s| == 8 && s[2] == ':' && s[5] == ':'
  {
    TwoDigits(h) + ":" + TwoDigits(m) + ":" + TwoDigits(sec)
  }

  /** Parsing a formatted time gives back its total seconds. */
  lemma ParseFormatted(h: nat, m: nat, sec: nat)
    requires h < 100 && m < 100 && sec < 100
    ensures WellFormed(FormatRaceResult(h, m, sec))
    ensures Seconds(FormatRaceResult(h, m, sec)) == h * 3600 + m * 60 + sec
  {
    var s := FormatRaceResult(h, m, sec);
    assert s[0..2] == TwoDigits(h) && s[3..5] == TwoDigits(m) && s[6..8] == TwoDigits(sec);
    assert ParseField(s[0], s[1]) == Some(h);
    assert ParseField(s[3], s[4]) == Some(m);
    assert ParseField(s[6], s[7]) == Some(sec);
  }

  /** Every eight-character time with ':' separators that parses is the canonical spelling of its fields. */
  lemma FormatParsed(s: string)
    requires |s| == 8 && s[2] == ':' && s[5] == ':' && WellFormed(s)
    ensures s == FormatRaceResult(Field(s, 0), Field(s, 3), Field(s, 6))
    ensures Seconds(s) == Field(s, 0) * 3600 + Field(s, 3) * 60 + Field(s, 6)
  {
    var t := FormatRaceResult(Field(s, 0), Field(s, 3), Field(s, 6));
    DigitRoundTrip(s[0], s[1]);
    DigitRoundTrip(s[3], s[4]);
    DigitRoundTrip(s[6], s[7]);
    assert forall i :: 0 <= i < 8 ==> t[i] == s[i];
  }

  lemma DigitRoundTrip(hi: char, lo: char)
    requires IsDigit(hi) && IsDigit(lo)
    ensures TwoDigits(ParseField(hi, lo).value) == [hi, lo]
  {
    var n := ParseField(hi, lo).value;
    assert n / 10 == DigitValue(hi) && n % 10 == DigitValue(lo);
  }

  /** Only the six field characters decide the parse: separators and trailing text are ignored. */
  lemma ParseIgnoresSeparators(s: string, t: string)
    requires |s| >= 8 && |t| >= 8
    requires s[0] == t[0] && s[1] == t[1] && s[3] == t[3] && s[4] == t[4] && s[6] == t[6] && s[7] == t[7]
    ensures ParseRaceResult(s) == ParseRaceResult(t)
  {
  }

  /** Minutes and seconds are not range-checked: "00:99:00" is 99 minutes. */
  lemma ParseAcceptsUnrangedMinutes()
    ensures WellFormed("00:99:00") && Seconds("00:99:00") == 5940
    ensures WellFormed("01x30y00 and more") && Seconds("01x30y00 and more") == 5400
  {
    assert ParseField('9', '9') == Some(99);
    assert ParseField('0', '1') == Some(1);
    assert ParseField('3', '0') == Some(30);
  }

  /** A non-digit in any of the six field positions is a parse error. */
  lemma ParseRejectsNonDigit(s: string, i: nat)
    requires |s| >= 8 && i in {0, 1, 3, 4, 6, 7} && !IsDigit(s[i])
    ensures ParseRaceResult(s) == None
  {
  }

  /**
   * For times whose minutes and seconds are below 60, comparing parsed
   * durations is the same as comparing (hours, minutes, seconds)
   * lexicographically.
   */
  lemma CanonicalOrder(s: string, t: string)
    requires WellFormed(s) && WellFormed(t)
    requires Field(s, 3) < 60 && Field(s, 6) < 60 && Field(t, 3) < 60 && Field(t, 6) < 60
    ensures Seconds(s) < Seconds(t) <==>
              Field(s, 0) < Field(t, 0)
              || (Field(s, 0) == Field(t, 0) && Field(s, 3) < Field(t, 3))
              || (Field(s, 0) == Field(t, 0) && Field(s, 3) == Field(t, 3) && Field(s, 6) < Field(t, 6))
  {
    var hs, ms, ss := Field(s, 0), Field(s, 3), Field(s, 6);
    var ht, mt, st := Field(t, 0), Field(t, 3), Field(t, 6);
    assert Seconds(s) == hs * 3600 + ms * 60 + ss;
    assert Seconds(t) == ht * 3600 + mt * 60 + st;
    assert ms * 60 + ss < 3600 && mt * 60 + st < 3600;
  }

  /** Without that range check the field order and the duration order disagree. */
  lemma UnrangedMinutesBreakFieldOrder()
    ensures WellFormed("00:99:00") && WellFormed("01:00:00")
    ensures Field("00:99:00", 0) < Field("01:00:00", 0)
    ensures Seconds("01:00:00") < Seconds("00:99:00")
  {
    assert ParseField('9', '9') == Some(99);
    assert ParseField('0', '1') == Some(1);
  }
}
