/** The waiver expiry parser (`parse_waiver_datetime`) and a reference encoder for
    the timestamp profiles it accepts. */
module Timestamps {

  import opened Wrappers
  import opened Digits
  import opened Calendar
  import opened Records

  /** A numeric UTC offset as `%z` reads it: sign, hours, minutes, written with or
      without a colon between hours and minutes. */
  datatype UtcOffset = UtcOffset(negative: bool, hours: int, minutes: int, colon: bool)

  /** `%z` takes minutes 00..59, and `timezone()` refuses offsets of a whole day or more. */
  predicate ValidOffset(o: UtcOffset) {
    0 <= o.hours <= 23 && 0 <= o.minutes <= 59
  }

  function OffsetSeconds(o: UtcOffset): int {
    var magnitude := o.hours * 3600 + o.minutes * 60;
    if o.negative then -magnitude else magnitude
  }

  /** The three textual profiles the parser accepts, as abstract values. */
  datatype Timestamp =
    | Utc(clock: WallClock)                              // YYYY-MM-DDTHH:MM:SSZ
    | UtcFraction(clock: WallClock, fraction: string)    // YYYY-MM-DDTHH:MM:SS.ffffffZ
    | WithOffset(clock: WallClock, offset: UtcOffset)    // YYYY-MM-DDTHH:MM:SS+HH:MM

  /** `%f`: one to six digits. */
  predicate IsFraction(f: string) {
    1 <= |f| <= 6 && AllDigits(f)
  }

  predicate ValidTimestamp(t: Timestamp) {
    && ValidWallClock(t.clock)
    && match t
       case Utc(_) => true
       case UtcFraction(_, f) => IsFraction(f)
       case WithOffset(_, o) => ValidOffset(o)
  }

  /** `%f` right-pads its digits with zeros to six places and reads the result, so
      "5" is 500000 us. */
  function FractionMicros(f: string): (us: nat)
    requires IsFraction(f)
    ensures AllDigits(f + Zeros(6 - |f|)) && us == Value(f + Zeros(6 - |f|))
    ensures us < MicrosPerSecond
  {
    ValueShifted(f, 6 - |f|);
    ValueAppendZeros(f, 6 - |f|);
    assert Pow10(6) == MicrosPerSecond;
    Value(f) * Pow10(6 - |f|)
  }

  /** The instant a timestamp denotes: UTC for the two `Z` profiles, local time
      minus the offset for the third. */
  function Denotes(t: Timestamp): Instant
    requires ValidTimestamp(t)
  {
    match t
    case Utc(w) => InstantAt(w, 0, 0)
    case UtcFraction(w, f) => InstantAt(w, FractionMicros(f), 0)
    case WithOffset(w, o) => InstantAt(w, 0, OffsetSeconds(o))
  }

  // ---------------------------------------------------------------------------
  // Reference encoder

  /** Fields that fit the zero-padded widths of the profile. */
  predicate Printable(w: WallClock) {
    && 0 <= w.year < 10000 && 0 <= w.month < 100 && 0 <= w.day < 100
    && 0 <= w.hour < 100 && 0 <= w.minute < 100 && 0 <= w.second < 100
  }

  function FormatClock(w: WallClock): (s: string)
    requires Printable(w)
    ensures |s| == 19
  {
    Pad(w.year, 4) + "-" + Pad(w.month, 2) + "-" + Pad(w.day, 2) + "T"
    + Pad(w.hour, 2) + ":" + Pad(w.minute, 2) + ":" + Pad(w.second, 2)
  }

  function FormatOffset(o: UtcOffset): (s: string)
    requires 0 <= o.hours < 100 && 0 <= o.minutes < 100
    ensures |s| == if o.colon then 6 else 5
  {
    [if o.negative then '-' else '+'] + Pad(o.hours, 2) + (if o.colon then ":" else "") + Pad(o.minutes, 2)
  }

  function Format(t: Timestamp): string
    requires ValidTimestamp(t)
  {
    match t
    case Utc(w) => FormatClock(w) + "Z"
    case UtcFraction(w, f) => FormatClock(w) + "." + f + "Z"
    case WithOffset(w, o) => FormatClock(w) + FormatOffset(o)
  }

  // ---------------------------------------------------------------------------
  // The parser

  /** Where `%Y-%m-%dT%H:%M:%S` puts its separators and digits, every field at full width. */
  predicate ClockShape(s: string) {
    && |s| == 19
    && s[4] == '-' && s[7] == '-' && s[10] == 'T' && s[13] == ':' && s[16] == ':'
    && AllDigits(s[0..4]) && AllDigits(s[5..7]) && AllDigits(s[8..10])
    && AllDigits(s[11..13]) && AllDigits(s[14..16]) && AllDigits(s[17..19])
  }

  function ClockFields(s: string): WallClock
    requires ClockShape(s)
  {
    WallClock(Value(s[0..4]), Value(s[5..7]), Value(s[8..10]),
              Value(s[11..13]), Value(s[14..16]), Value(s[17..19]))
  }

  /** `datetime.strptime(s, '%Y-%m-%dT%H:%M:%S')`; None where it raises ValueError
      (wrong shape, or fields `datetime` rejects). */
  function ParseClock(s: string): (r: Option<WallClock>)
    ensures r.Some? ==> ValidWallClock(r.value) && FormatClock(r.value) == s
  {
    if ClockShape(s) && ValidWallClock(ClockFields(s)) then
      ClockShapeFormats(s);
      Some(ClockFields(s))
    else None
  }

  /** `datetime.strptime(s, '%Y-%m-%dT%H:%M:%S.%f')`: the clock and its microseconds. */
  function ParseClockFraction(s: string): (r: Option<(WallClock, nat)>)
    ensures r.Some? ==> && 21 <= |s| && IsFraction(s[20..]) && ValidWallClock(r.value.0)
                        && s == FormatClock(r.value.0) + "." + s[20..]
                        && r.value.1 == FractionMicros(s[20..])
  {
    if 21 <= |s| <= 26 && s[19] == '.' && IsFraction(s[20..]) then
      assert s == s[..19] + "." + s[20..];
      match ParseClock(s[..19])
      case Some(w) => Some((w, FractionMicros(s[20..])))
      case None => None
    else None
  }

  /** `%z` in its `+HHMM` and `+HH:MM` forms. */
  function ParseOffset(z: string): (r: Option<UtcOffset>)
    ensures r.Some? ==> ValidOffset(r.value) && FormatOffset(r.value) == z
  {
    if |z| == 6 && (z[0] == '+' || z[0] == '-') && z[3] == ':'
       && AllDigits(z[1..3]) && AllDigits(z[4..6]) then
      var o := UtcOffset(z[0] == '-', Value(z[1..3]), Value(z[4..6]), true);
      ColonOffsetFormats(z);
      if ValidOffset(o) then Some(o) else None
    else if |z| == 5 && (z[0] == '+' || z[0] == '-') && AllDigits(z[1..3]) && AllDigits(z[3..5]) then
      var o := UtcOffset(z[0] == '-', Value(z[1..3]), Value(z[3..5]), false);
      BareOffsetFormats(z);
      if ValidOffset(o) then Some(o) else None
    else None
  }

  /** `datetime.strptime(s, '%Y-%m-%dT%H:%M:%S%z')`: an aware reading, as clock and offset. */
  function ParseClockOffset(s: string): (r: Option<(WallClock, UtcOffset)>)
    ensures r.Some? ==> && ValidWallClock(r.value.0) && ValidOffset(r.value.1)
                        && s == FormatClock(r.value.0) + FormatOffset(r.value.1)
  {
    if |s| >= 19 then
      assert s == s[..19] + s[19..];
      match (ParseClock(s[..19]), ParseOffset(s[19..]))
      case (Some(w), Some(o)) => Some((w, o))
      case _ => None
    else None
  }

  predicate EndsWithZ(s: string) {
    |s| > 0 && s[|s| - 1] == 'Z'
  }

  /** `parse_waiver_datetime`: a missing or non-string cell gives None; a string
      ending in `Z` is read as a UTC wall clock, first without and then with
      fractional seconds; any other string must carry a numeric offset. Every
      failure is None: the function never raises. Only strings of 20 to 27
      characters can succeed. */
  function ParseWaiverDatetime(c: Cell): (r: Option<Instant>)
    ensures !c.Text? ==> r == None
    ensures r.Some? ==> 20 <= |c.s| <= 27
  {
    if !c.Text? then None
    else
      var s := c.s;
      if EndsWithZ(s) then
        var naive := s[..|s| - 1];
        var whole := ParseClock(naive);
        if whole.Some? then Some(InstantAt(whole.value, 0, 0))
        else
          var fractional := ParseClockFraction(naive);
          if fractional.Some? then Some(InstantAt(fractional.value.0, fractional.value.1, 0))
          else None
      else
        var aware := ParseClockOffset(s);
        if aware.Some? then Some(InstantAt(aware.value.0, 0, OffsetSeconds(aware.value.1)))
        else None
  }

  // ---------------------------------------------------------------------------
  // Encoder and parser agree

  lemma ClockRoundTrip(w: WallClock)
    requires ValidWallClock(w)
    ensures ParseClock(FormatClock(w)) == Some(w)
  {
    var s := FormatClock(w);
    assert s[0..4] == Pad(w.year, 4);
    assert s[5..7] == Pad(w.month, 2);
    assert s[8..10] == Pad(w.day, 2);
    assert s[11..13] == Pad(w.hour, 2);
    assert s[14..16] == Pad(w.minute, 2);
    assert s[17..19] == Pad(w.second, 2);
    ValuePad(w.year, 4);
    ValuePad(w.month, 2);
    ValuePad(w.day, 2);
    ValuePad(w.hour, 2);
    ValuePad(w.minute, 2);
    ValuePad(w.second, 2);
    assert ClockShape(s);
  }

  lemma ClockShapeFormats(s: string)
    requires ClockShape(s)
    ensures Printable(ClockFields(s))
    ensures FormatClock(ClockFields(s)) == s
  {
    PadValue(s[0..4]);
    PadValue(s[5..7]);
    PadValue(s[8..10]);
    PadValue(s[11..13]);
    PadValue(s[14..16]);
    PadValue(s[17..19]);
    ClockSplit(s);
  }

  /** A clock-shaped string is its six digit fields joined by its separators. */
  lemma ClockSplit(s: string)
    requires ClockShape(s)
    ensures s == s[0..4] + "-" + s[5..7] + "-" + s[8..10] + "T"
                 + s[11..13] + ":" + s[14..16] + ":" + s[17..19]
  {
    assert s[0..4] + "-" + s[5..7] + "-" + s[8..10] == s[0..10];
    assert s[11..13] + ":" + s[14..16] + ":" + s[17..19] == s[11..19];
  }

  lemma OffsetRoundTrip(o: UtcOffset)
    requires ValidOffset(o)
    ensures ParseOffset(FormatOffset(o)) == Some(o)
  {
    var z := FormatOffset(o);
    assert z[1..3] == Pad(o.hours, 2);
    ValuePad(o.hours, 2);
    ValuePad(o.minutes, 2);
    if o.colon {
      assert z[4..6] == Pad(o.minutes, 2);
    } else {
      assert z[3..5] == Pad(o.minutes, 2);
    }
  }

  /** An offset string of the `+HH:MM` shape is the rendering of the fields read from it. */
  lemma ColonOffsetFormats(z: string)
    requires |z| == 6 && (z[0] == '+' || z[0] == '-') && z[3] == ':'
    requires AllDigits(z[1..3]) && AllDigits(z[4..6])
    ensures FormatOffset(UtcOffset(z[0] == '-', Value(z[1..3]), Value(z[4..6]), true)) == z
  {
    var hh, mm := z[1..3], z[4..6];
    PadValue(hh);
    PadValue(mm);
    assert z == [z[0]] + hh + [z[3]] + mm;
  }

  /** An offset string of the `+HHMM` shape is the rendering of the fields read from it. */
  lemma BareOffsetFormats(z: string)
    requires |z| == 5 && (z[0] == '+' || z[0] == '-')
    requires AllDigits(z[1..3]) && AllDigits(z[3..5])
    ensures FormatOffset(UtcOffset(z[0] == '-', Value(z[1..3]), Value(z[3..5]), false)) == z
  {
    var hh, mm := z[1..3], z[3..5];
    PadValue(hh);
    PadValue(mm);
    assert FormatOffset(UtcOffset(z[0] == '-', Value(hh), Value(mm), false)) == [z[0]] + hh + "" + mm;
    assert z == [z[0]] + hh + mm;
  }

  /** Reference encoder round trip: every timestamp of the three profiles parses back
      to the instant it denotes; in particular a `Z` string is read with a zero offset. */
  lemma ParseFormatRoundTrip(t: Timestamp)
    requires ValidTimestamp(t)
    ensures ParseWaiverDatetime(Text(Format(t))) == Some(Denotes(t))
  {
    match t
    case Utc(w) => UtcRoundTrip(w);
    case UtcFraction(w, f) => FractionRoundTrip(w, f);
    case WithOffset(w, o) => OffsetProfileRoundTrip(w, o);
  }

  lemma UtcRoundTrip(w: WallClock)
    requires ValidWallClock(w)
    ensures ParseWaiverDatetime(Text(Format(Utc(w)))) == Some(InstantAt(w, 0, 0))
  {
    var s := Format(Utc(w));
    ClockRoundTrip(w);
    assert s[..|s| - 1] == FormatClock(w);
  }

  /** The fractional profile is reached only after the whole-seconds reading fails,
      which it does on the longer string. */
  lemma FractionRoundTrip(w: WallClock, f: string)
    requires ValidWallClock(w) && IsFraction(f)
    ensures ParseWaiverDatetime(Text(Format(UtcFraction(w, f)))) == Some(InstantAt(w, FractionMicros(f), 0))
  {
    var s := Format(UtcFraction(w, f));
    ClockRoundTrip(w);
    var naive := s[..|s| - 1];
    assert naive == FormatClock(w) + "." + f;
    assert naive[..19] == FormatClock(w);
    assert naive[20..] == f;
    assert ParseClock(naive).None?;
  }

  lemma OffsetProfileRoundTrip(w: WallClock, o: UtcOffset)
    requires ValidWallClock(w) && ValidOffset(o)
    ensures ParseWaiverDatetime(Text(Format(WithOffset(w, o)))) == Some(InstantAt(w, 0, OffsetSeconds(o)))
  {
    var s := Format(WithOffset(w, o));
    ClockRoundTrip(w);
    OffsetRoundTrip(o);
    assert s[..19] == FormatClock(w);
    assert s[19..] == FormatOffset(o);
    assert ParseClockOffset(s) == Some((w, o));
    assert !EndsWithZ(s) by {
      assert s[|s| - 1] == Pad(o.minutes, 2)[1];
    }
  }

  lemma WholeSecondsFormatted(s: string)
    requires EndsWithZ(s) && ParseClock(s[..|s| - 1]).Some?
    ensures ValidTimestamp(Utc(ParseClock(s[..|s| - 1]).value))
    ensures Format(Utc(ParseClock(s[..|s| - 1]).value)) == s
  {
    var naive := s[..|s| - 1];
    assert s == naive + "Z";
  }

  lemma FractionFormatted(s: string)
    requires EndsWithZ(s) && ParseClockFraction(s[..|s| - 1]).Some?
    ensures var naive := s[..|s| - 1];
            var t := UtcFraction(ParseClock(naive[..19]).value, naive[20..]);
            ValidTimestamp(t) && Format(t) == s
            && Denotes(t) == InstantAt(ParseClockFraction(naive).value.0, ParseClockFraction(naive).value.1, 0)
  {
    var naive := s[..|s| - 1];
    assert naive == naive[..19] + "." + naive[20..];
    assert s == naive + "Z";
  }

  lemma OffsetFormatted(s: string)
    requires ParseClockOffset(s).Some?
    ensures var t := WithOffset(ParseClock(s[..19]).value, ParseOffset(s[19..]).value);
            ValidTimestamp(t) && Format(t) == s
  {
    assert s == s[..19] + s[19..];
  }

  /** The converse: whatever the parser accepts is the encoding of a valid timestamp
      of one of the three profiles, and the parsed instant is the one it denotes. */
  lemma ParsedIsFormatted(s: string)
    requires ParseWaiverDatetime(Text(s)).Some?
    ensures exists t :: ValidTimestamp(t) && Format(t) == s
                        && ParseWaiverDatetime(Text(s)) == Some(Denotes(t))
  {
    if EndsWithZ(s) {
      var naive := s[..|s| - 1];
      if ParseClock(naive).Some? {
        WholeSecondsFormatted(s);
        var t := Utc(ParseClock(naive).value);
        assert ParseWaiverDatetime(Text(s)) == Some(Denotes(t));
      } else {
        FractionFormatted(s);
        var t := UtcFraction(ParseClock(naive[..19]).value, naive[20..]);
        assert ParseWaiverDatetime(Text(s)) == Some(Denotes(t));
      }
    } else {
      OffsetFormatted(s);
      var t := WithOffset(ParseClock(s[..19]).value, ParseOffset(s[19..]).value);
      assert ParseWaiverDatetime(Text(s)) == Some(Denotes(t));
    }
  }

  /** A string without a trailing `Z` is accepted only in the numeric-offset profile,
      and denotes its wall clock shifted back by the offset. */
  lemma WithoutZOnlyOffsetForm(s: string)
    requires !EndsWithZ(s)
    requires ParseWaiverDatetime(Text(s)).Some?
    ensures exists w, o :: ValidWallClock(w) && ValidOffset(o)
                           && s == FormatClock(w) + FormatOffset(o)
                           && ParseWaiverDatetime(Text(s)) == Some(InstantAt(w, 0, OffsetSeconds(o)))
  {
    ParsedIsFormatted(s);
    var t :| ValidTimestamp(t) && Format(t) == s && ParseWaiverDatetime(Text(s)) == Some(Denotes(t));
    assert t.WithOffset?;
    assert s == FormatClock(t.clock) + FormatOffset(t.offset);
  }

  /** Fractional seconds are read only before a `Z`: with an offset, or with nothing
      after them, the string is unparseable. */
  lemma FractionWithoutZIsUnparseable(s: string)
    requires !EndsWithZ(s)
    requires |s| > 19 && s[19] == '.'
    ensures ParseWaiverDatetime(Text(s)) == None
  {
  }

  /** Inputs that are not timestamps give None instead of an error. */
  lemma MalformedInputs()
    ensures ParseWaiverDatetime(Text("not-a-date")) == None
    ensures ParseWaiverDatetime(Text("")) == None
    ensures ParseWaiverDatetime(Text("2024-13-40Z")) == None
    ensures ParseWaiverDatetime(Missing) == None
  {
  }
}
