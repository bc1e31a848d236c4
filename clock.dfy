/**
 * Times of day and their "HH:MM" text, as add_availability renders them with
 * strftime("%H:%M") when it builds a slot's "HH:MM - HH:MM" label.
 */
module Clock {
  import opened Common

  const MinutesPerHour := 60
  const MinutesPerDay := 1440

  /** A time of day as minutes since midnight: what a parsed "%H:%M" field can hold. */
  type Minute = m: int | 0 <= m < 1440

  predicate IsDigit(c: char) {
    '0' <= c <= '9'
  }

  function DigitValue(c: char): (d: int)
    requires IsDigit(c)
    ensures 0 <= d < 10
  {
    c as int - '0' as int
  }

  function Digit(d: int): (c: char)
    requires 0 <= d < 10
    ensures IsDigit(c) && DigitValue(c) == d
  {
    ('0' as int + d) as char
  }

  /** A number below 100 as two zero-padded decimal digits (strftime's %H and %M). */
  function TwoDigits(n: int): (s: string)
    requires 0 <= n < 100
    ensures |s| == 2 && IsDigit(s[0]) && IsDigit(s[1])
    ensures 10 * DigitValue(s[0]) + DigitValue(s[1]) == n
  {
    [Digit(n / 10), Digit(n % 10)]
  }

  /** strftime("%H:%M") of the time of day m. */
  function FormatHHMM(m: Minute): (s: string)
    ensures |s| == 5 && s[2] == ':'
  {
    TwoDigits(m / MinutesPerHour) + ":" + TwoDigits(m % MinutesPerHour)
  }

  /** Reads fixed-width "HH:MM" text back: the inverse of FormatHHMM. */
  function ParseHHMM(s: string): (r: Option<Minute>)
    ensures r.Some? ==> |s| == 5 && s[2] == ':'
  {
    if |s| == 5 && IsDigit(s[0]) && IsDigit(s[1]) && s[2] == ':' && IsDigit(s[3]) && IsDigit(s[4]) then
      var h := 10 * DigitValue(s[0]) + DigitValue(s[1]);
      var m := 10 * DigitValue(s[3]) + DigitValue(s[4]);
      if h < 24 && m < MinutesPerHour then Some(h * MinutesPerHour + m) else None
    else
      None
  }

  lemma ParseFormat(m: Minute)
    ensures ParseHHMM(FormatHHMM(m)) == Some(m)
  {
    var s := FormatHHMM(m);
    assert s[..2] == TwoDigits(m / 60) && s[3..] == TwoDigits(m % 60);
    assert 10 * DigitValue(s[0]) + DigitValue(s[1]) == m / 60;
    assert 10 * DigitValue(s[3]) + DigitValue(s[4]) == m % 60;
  }

  lemma FormatParse(s: string)
    requires ParseHHMM(s).Some?
    ensures FormatHHMM(ParseHHMM(s).value) == s
  {
    var h := 10 * DigitValue(s[0]) + DigitValue(s[1]);
    var m := 10 * DigitValue(s[3]) + DigitValue(s[4]);
    var t := h * 60 + m;
    assert t / 60 == h && t % 60 == m;
    var f := FormatHHMM(t);
    assert h / 10 == DigitValue(s[0]) && h % 10 == DigitValue(s[1]);
    assert m / 10 == DigitValue(s[3]) && m % 10 == DigitValue(s[4]);
    forall i | 0 <= i < 5
      ensures f[i] == s[i]
    {
      if i != 2 {
        assert DigitValue(f[i]) == DigitValue(s[i]);
      }
    }
  }

  /** Two different times of day never render to the same text. */
  lemma FormatInjective(a: Minute, b: Minute)
    ensures FormatHHMM(a) == FormatHHMM(b) ==> a == b
  {
    ParseFormat(a);
    ParseFormat(b);
  }

  /** The parts written one after another with `sep` between neighbours. */
  function Join(parts: seq<string>, sep: string): string
    decreases |parts|
  {
    if |parts| == 0 then ""
    else if |parts| == 1 then parts[0]
    else parts[0] + sep + Join(parts[1..], sep)
  }

  lemma JoinTwo(a: string, b: string, sep: string)
    ensures Join([a, b], sep) == a + sep + b
  {
    assert [a, b][1..] == [b];
  }

  /** The `time` column of a generated slot: "HH:MM - HH:MM". */
  function SlotLabel(from: Minute, to: Minute): string
  {
    Join([FormatHHMM(from), FormatHHMM(to)], " - ")
  }

  /** Reads a slot label back into its two times: the inverse of SlotLabel. */
  function ParseSlotLabel(s: string): (r: Option<(Minute, Minute)>)
    ensures r.Some? ==> |s| == 13 && s[5..8] == " - "
  {
    if |s| == 13 && s[5..8] == " - " then
      match (ParseHHMM(s[..5]), ParseHHMM(s[8..]))
      case (Some(a), Some(b)) => Some((a, b))
      case _ => None
    else
      None
  }

  lemma ParseLabelRoundTrip(from: Minute, to: Minute)
    ensures ParseSlotLabel(SlotLabel(from, to)) == Some((from, to))
  {
    var s := SlotLabel(from, to);
    JoinTwo(FormatHHMM(from), FormatHHMM(to), " - ");
    assert s[..5] == FormatHHMM(from) && s[8..] == FormatHHMM(to);
    ParseFormat(from);
    ParseFormat(to);
  }

  lemma LabelParseRoundTrip(s: string)
    requires ParseSlotLabel(s).Some?
    ensures SlotLabel(ParseSlotLabel(s).value.0, ParseSlotLabel(s).value.1) == s
  {
    FormatParse(s[..5]);
    FormatParse(s[8..]);
    JoinTwo(s[..5], s[8..], " - ");
    assert s == s[..5] + s[5..8] + s[8..];
  }

  /** Distinct (start, end) pairs give distinct labels, so labels identify slots. */
  lemma LabelInjective(a: Minute, b: Minute, c: Minute, d: Minute)
    ensures SlotLabel(a, b) == SlotLabel(c, d) ==> a == c && b == d
  {
    ParseLabelRoundTrip(a, b);
    ParseLabelRoundTrip(c, d);
  }
}
