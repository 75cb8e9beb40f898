/**
 * The fixed timestamp format `%Y-%m-%d %H:%M:%S`: a strict parser that accepts
 * exactly the zero-padded form of a valid calendar date and time, and the
 * formatter that produces that form.
 */
module Timestamps {
  import opened Opt

  datatype DateTime = DateTime(year: nat, month: nat, day: nat, hour: nat, minute: nat, second: nat)

  predicate IsLeapYear(y: nat)
  {
    y % 4 == 0 && (y % 100 != 0 || y % 400 == 0)
  }

  function DaysInMonth(y: nat, m: nat): nat
    requires 1 <= m <= 12
  {
    if m == 2 then (if IsLeapYear(y) then 29 else 28)
    else if m == 4 || m == 6 || m == 9 || m == 11 then 30
    else 31
  }

  /** The date-times the calendar accepts: years 1 to 9999, a day that exists in
      its month, and a time of day with seconds below 60. */
  predicate Valid(dt: DateTime)
  {
    1 <= dt.year <= 9999 && 1 <= dt.month <= 12 && 1 <= dt.day <= DaysInMonth(dt.year, dt.month) &&
    dt.hour < 24 && dt.minute < 60 && dt.second < 60
  }

  // ---------------------------------------------------------------------------
  // Decimal digits

  predicate IsDigit(c: char)
  {
    '0' <= c <= '9'
  }

  predicate AllDigits(s: string)
  {
    forall i :: 0 <= i < |s| ==> IsDigit(s[i])
  }

  function Pow10(n: nat): (p: nat)
    ensures p >= 1
  {
    if n == 0 then 1 else 10 * Pow10(n - 1)
  }

  /** The value of a run of decimal digits. */
  function Number(s: string): (n: nat)
    requires AllDigits(s)
    ensures n < Pow10(|s|)
  {
    if s == [] then 0
    else 10 * Number(s[..|s| - 1]) + (s[|s| - 1] as int - '0' as int)
  }

  /** `n` written with exactly `width` digits, zero-padded on the left. */
  function Pad(n: nat, width: nat): (s: string)
    requires n < Pow10(width)
    ensures |s| == width && AllDigits(s)
  {
    if width == 0 then []
    else Pad(n / 10, width - 1) + [('0' as int + n % 10) as char]
  }

  /** Reading back a padded number gives the number. */
  lemma {:induction false} NumberPad(n: nat, width: nat)
    requires n < Pow10(width)
    ensures Number(Pad(n, width)) == n
  {
    if width > 0 {
      var s := Pad(n, width);
      NumberPad(n / 10, width - 1);
      assert s[..width - 1] == Pad(n / 10, width - 1);
    }
  }

  /** Padding the value of a digit run to its own width gives the run back. */
  lemma {:induction false} PadNumber(s: string)
    requires AllDigits(s)
    ensures Pad(Number(s), |s|) == s
  {
    if s != [] {
      var init, d := s[..|s| - 1], s[|s| - 1] as int - '0' as int;
      PadNumber(init);
      var n := Number(s);
      assert n == 10 * Number(init) + d && 0 <= d < 10;
      assert n / 10 == Number(init) && n % 10 == d;
      assert s == init + [s[|s| - 1]];
    }
  }

  // ---------------------------------------------------------------------------
  // The format

  /** `dt` in the fixed format, 19 characters: `YYYY-MM-DD HH:MM:SS`. */
  function Format(dt: DateTime): (s: string)
    requires Valid(dt)
    ensures |s| == 19
  {
    Pad(dt.year, 4) + "-" + Pad(dt.month, 2) + "-" + Pad(dt.day, 2) + " " +
    Pad(dt.hour, 2) + ":" + Pad(dt.minute, 2) + ":" + Pad(dt.second, 2)
  }

  /** The text has the shape of the format: 19 characters, digits where the fields
      go and the separators `-`, `-`, space, `:`, `:` between them. */
  predicate WellShaped(s: string)
  {
    |s| == 19 &&
    AllDigits(s[0..4]) && s[4] == '-' && AllDigits(s[5..7]) && s[7] == '-' && AllDigits(s[8..10]) &&
    s[10] == ' ' && AllDigits(s[11..13]) && s[13] == ':' && AllDigits(s[14..16]) && s[16] == ':' &&
    AllDigits(s[17..19])
  }

  /** The strict parse of a timestamp: None unless the text is well shaped and its
      fields form a valid date-time. */
  function ParseTimestamp(s: string): (r: Option<DateTime>)
    ensures r.Some? ==> Valid(r.value) && Format(r.value) == s
  {
    if !WellShaped(s) then None
    else
      var dt := DateTime(Number(s[0..4]), Number(s[5..7]), Number(s[8..10]),
                         Number(s[11..13]), Number(s[14..16]), Number(s[17..19]));
      if Valid(dt) then
        PadNumber(s[0..4]);
        PadNumber(s[5..7]);
        PadNumber(s[8..10]);
        PadNumber(s[11..13]);
        PadNumber(s[14..16]);
        PadNumber(s[17..19]);
        WellShapedPieces(s);
        Some(dt)
      else None
  }

  /** The hour of a timestamp that parses, between 0 and 23. */
  function ParseHour(s: string): (h: Option<nat>)
    ensures h.Some? ==> h.value < 24
  {
    match ParseTimestamp(s)
    case None => None
    case Some(dt) => Some(dt.hour)
  }

  // ---------------------------------------------------------------------------
  // Round trips

  /** The parser reads every formatted valid date-time back. */
  lemma ParseFormat(dt: DateTime)
    requires Valid(dt)
    ensures ParseTimestamp(Format(dt)) == Some(dt)
  {
    var s := Format(dt);
    assert s[0..4] == Pad(dt.year, 4);
    assert s[5..7] == Pad(dt.month, 2);
    assert s[8..10] == Pad(dt.day, 2);
    assert s[11..13] == Pad(dt.hour, 2);
    assert s[14..16] == Pad(dt.minute, 2);
    assert s[17..19] == Pad(dt.second, 2);
    NumberPad(dt.year, 4);
    NumberPad(dt.month, 2);
    NumberPad(dt.day, 2);
    NumberPad(dt.hour, 2);
    NumberPad(dt.minute, 2);
    NumberPad(dt.second, 2);
  }

  /** Whatever the parser accepts is the formatted form of what it returns. */
  lemma FormatParse(s: string)
    requires ParseTimestamp(s).Some?
    ensures Valid(ParseTimestamp(s).value) && Format(ParseTimestamp(s).value) == s
  {
    var dt := ParseTimestamp(s).value;
    PadNumber(s[0..4]);
    PadNumber(s[5..7]);
    PadNumber(s[8..10]);
    PadNumber(s[11..13]);
    PadNumber(s[14..16]);
    PadNumber(s[17..19]);
    WellShapedPieces(s);
  }

  /** A well-shaped text is its six digit runs joined by the fixed separators. */
  lemma WellShapedPieces(s: string)
    requires WellShaped(s)
    ensures s == s[0..4] + "-" + s[5..7] + "-" + s[8..10] + " " + s[11..13] + ":" + s[14..16] + ":" + s[17..19]
  {
    var t := s[0..4] + "-" + s[5..7] + "-" + s[8..10] + " " + s[11..13] + ":" + s[14..16] + ":" + s[17..19];
    assert |t| == 19;
    forall k | 0 <= k < 19 ensures t[k] == s[k] {
    }
  }

  /** A timestamp yields hour `h` exactly when it is the formatted form of a valid
      date-time at hour `h`. */
  lemma ParseHourExactly(s: string, h: nat)
    ensures ParseHour(s) == Some(h) <==> exists dt :: Valid(dt) && dt.hour == h && Format(dt) == s
  {
    if ParseHour(s) == Some(h) {
      FormatParse(s);
    }
    if exists dt :: Valid(dt) && dt.hour == h && Format(dt) == s {
      var dt :| Valid(dt) && dt.hour == h && Format(dt) == s;
      ParseFormat(dt);
    }
  }
}
