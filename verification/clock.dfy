/**
 The readout of the digital clock component: the per-second `updateTime`
 step that formats the hour, minute, AM/PM marker and date, and the strings
 the render body lays over the faint "ghost" layer of fully lit segments.

 In the segment display font a true space is narrower than a digit, while
 the blank glyph `!` is as wide as one. So the ghost layer only lines up
 with the live layer when both have the same number of glyphs and the live
 layer puts a visible glyph (never a space) under each lit segment. Under
 the ghost colon the live layer shows the blinking separator, a colon or a
 space. `Covers` states that alignment, and every live string the model
 produces after a tick is proved to be covered by its ghost.
 */
module DigitalClock {
  import opened Text

  /** An hour of the day, as `Date.getHours` returns it. */
  type Hour = h: int | 0 <= h < 24

  /** A minute of the hour, as `Date.getMinutes` returns it. */
  type Minute = m: int | 0 <= m < 60

  /** The font's blank glyph: as wide as a digit, with no segment lit. */
  const Blank: char := '!'

  /** The font's glyph with every segment lit. */
  const Segment: char := '~'

  const GhostTime: string := "~~:~~"
  const GhostMeridiem: string := "~~"

  /**
   `live` lines up glyph for glyph with the ghost string `back`: same length, a visible
   glyph (never a space) under every lit segment, and a colon or a space
   under every ghost colon.
   */
  predicate Covers(back: string, live: string) {
    && |back| == |live|
    && (forall i {:trigger live[i]} :: 0 <= i < |live| && back[i] == Segment ==> live[i] != ' ')
    && (forall i {:trigger live[i]} :: 0 <= i < |live| && back[i] == ':' ==> live[i] == ':' || live[i] == ' ')
  }

  // ---------------------------------------------------------------- hours

  /** The hour shown: the raw hour in 24-hour mode, `h % 12 || 12` otherwise. */
  function DisplayHour(h: Hour, is24HourFormat: bool): (r: nat)
    ensures is24HourFormat ==> r == h
    ensures !is24HourFormat ==> 1 <= r <= 12 && r % 12 == h % 12
  {
    if is24HourFormat then h
    else if h % 12 == 0 then 12
    else h % 12
  }

  /** The pad glyph in front of a one-digit hour: `'0'` in 24-hour mode, the blank glyph otherwise. */
  function HourPad(is24HourFormat: bool): char {
    if is24HourFormat then '0' else Blank
  }

  /** The two-glyph hours field. */
  function HoursField(h: Hour, is24HourFormat: bool): (r: string)
    ensures |r| == 2
    ensures IsDigit(r[1])
    ensures IsDigit(r[0]) || (!is24HourFormat && r[0] == Blank)
    ensures !is24HourFormat ==> (r[0] == Blank <==> DisplayHour(h, false) < 10)
  {
    var n := DisplayHour(h, is24HourFormat);
    PaddedFieldShape(n, HourPad(is24HourFormat));
    PadStart(NatToString(n), 2, HourPad(is24HourFormat))
  }

  /**
   The hours field reads back as the displayed hour: directly in 24-hour
   mode, and in either mode once its blanks are stripped.
   */
  lemma HoursFieldReadsBack(h: Hour, is24HourFormat: bool)
    ensures var r := HoursField(h, is24HourFormat);
      && (is24HourFormat ==> AllDigits(r) && ParseDecimal(r) == h)
      && AllDigits(TrimStart(r, Blank))
      && ParseDecimal(TrimStart(r, Blank)) == DisplayHour(h, is24HourFormat)
  {
    PaddedFieldReadsBack(DisplayHour(h, is24HourFormat), HourPad(is24HourFormat));
  }

  /** A number below 100 padded to two glyphs: the pad appears exactly when the number has one digit. */
  lemma PaddedFieldShape(n: nat, pad: char)
    requires n < 100
    requires pad == '0' || pad == Blank
    ensures var r := PadStart(NatToString(n), 2, pad);
      && |r| == 2
      && IsDigit(r[1])
      && (IsDigit(r[0]) || r[0] == pad)
      && (pad == Blank ==> (r[0] == pad <==> n < 10))
  {
  }

  /** A number below 100 padded to two glyphs with `'0'` or the blank glyph reads back as itself once the blanks are stripped. */
  lemma PaddedFieldReadsBack(n: nat, pad: char)
    requires n < 100
    requires pad == '0' || pad == Blank
    ensures var r := PadStart(NatToString(n), 2, pad);
      && (pad == '0' ==> AllDigits(r) && ParseDecimal(r) == n)
      && AllDigits(TrimStart(r, Blank))
      && ParseDecimal(TrimStart(r, Blank)) == n
  {
    var s := NatToString(n);
    var r := PadStart(s, 2, pad);
    NatToStringReadsBack(n);
    if |s| == 1 {
      assert r == [pad] + s;
      if pad == '0' {
        assert r == "0" + s;
        ParseDecimalLeadingZero(s);
      }
    } else {
      assert r == s;
    }
    if pad == Blank {
      TrimPadStart(s, 2, Blank);
    } else {
      assert TrimStart(r, Blank) == r;
    }
  }

  // -------------------------------------------------------------- minutes

  /** The two-digit, zero-padded minutes field. */
  function MinutesField(m: Minute): (r: string)
    ensures |r| == 2
    ensures AllDigits(r)
    ensures ParseDecimal(r) == m
  {
    PaddedFieldReadsBack(m, '0');
    PadStart(NatToString(m), 2, '0')
  }

  // ----------------------------------------------------------------- time

  /** The blinking separator: a colon while the flag is set, a space otherwise. */
  function Separator(showColon: bool): (c: char)
    ensures c == ':' || c == ' '
    ensures c == ':' <==> showColon
  {
    if showColon then ':' else ' '
  }

  /** The five-glyph time readout: hours, separator, minutes. */
  function TimeString(h: Hour, m: Minute, is24HourFormat: bool, showColon: bool): (r: string)
    ensures |r| == |GhostTime| == 5
    ensures Covers(GhostTime, r)
    ensures r[2] == ':' <==> showColon
  {
    var hh := HoursField(h, is24HourFormat);
    var mm := MinutesField(m);
    var r := hh + [Separator(showColon)] + mm;
    assert r[0] == hh[0] && r[1] == hh[1] && r[3] == mm[0] && r[4] == mm[1];
    r
  }

  /**
   Reading the time readout back: in 24-hour mode the first two glyphs are
   digits giving the raw hour; in either mode the hours field with its
   blanks stripped gives the displayed hour, the glyph in the middle gives the blink state,
   and the last two glyphs give the minute.
   */
  lemma TimeStringReadsBack(h: Hour, m: Minute, is24HourFormat: bool, showColon: bool)
    ensures var r := TimeString(h, m, is24HourFormat, showColon);
      && (is24HourFormat ==> AllDigits(r[..2]) && ParseDecimal(r[..2]) == h)
      && AllDigits(TrimStart(r[..2], Blank))
      && ParseDecimal(TrimStart(r[..2], Blank)) == DisplayHour(h, is24HourFormat)
      && (r[2] == ':') == showColon
      && AllDigits(r[3..])
      && ParseDecimal(r[3..]) == m
  {
    TimeStringParts(h, m, is24HourFormat, showColon);
    HoursFieldReadsBack(h, is24HourFormat);
  }

  /** The time readout is the hours field, the separator and the minutes field, in that order. */
  lemma TimeStringParts(h: Hour, m: Minute, is24HourFormat: bool, showColon: bool)
    ensures var r := TimeString(h, m, is24HourFormat, showColon);
      r[..2] == HoursField(h, is24HourFormat) && r[3..] == MinutesField(m)
  {
    var hh := HoursField(h, is24HourFormat);
    var mm := MinutesField(m);
    var r := TimeString(h, m, is24HourFormat, showColon);
    assert r == hh + [Separator(showColon)] + mm;
  }

  /** Two readouts that differ only in the blink flag differ only in the middle glyph. */
  lemma BlinkOnlyTouchesSeparator(h: Hour, m: Minute, is24HourFormat: bool)
    ensures var on := TimeString(h, m, is24HourFormat, true);
      var off := TimeString(h, m, is24HourFormat, false);
      && on[2] == ':' && off[2] == ' '
      && on[..2] == off[..2] && on[3..] == off[3..]
  {
  }

  // ------------------------------------------------------------- meridiem

  /** AM before noon, PM from noon on, read off the raw hour in either mode. */
  function Meridiem(h: Hour): (r: string)
    ensures |r| == |GhostMeridiem|
    ensures r == "AM" <==> h < 12
    ensures r == "AM" || r == "PM"
  {
    if h < 12 then "AM" else "PM"
  }

  /** The raw hour recovered from a 12-hour reading and its marker. */
  function To24Hour(hour12: nat, meridiem: string): nat {
    if meridiem == "AM" then hour12 % 12 else hour12 % 12 + 12
  }

  /** The 12-hour display together with the marker loses nothing: the raw hour comes back. */
  lemma TwelveHourRoundTrip(h: Hour)
    ensures To24Hour(DisplayHour(h, false), Meridiem(h)) == h
  {
  }

  /** Exactly two raw hours show each 12-hour value, one in the morning and one in the afternoon; 0 and 12 both show 12. */
  lemma TwelveHourCollisions(h: Hour, k: Hour)
    ensures DisplayHour(h, false) == DisplayHour(k, false) <==> h % 12 == k % 12
    ensures DisplayHour(0, false) == DisplayHour(12, false) == 12
  {
  }

  /** The AM/PM column: the upper row lights "AM", the lower "PM", and an unlit row shows blank glyphs. */
  function MeridiemRows(ampm: string): (rows: (string, string))
    ensures Covers(GhostMeridiem, rows.0) && Covers(GhostMeridiem, rows.1)
    ensures rows.0 != "!!" <==> ampm == "AM"
    ensures rows.1 != "!!" <==> ampm == "PM"
    ensures ampm == "AM" ==> rows.0 == "AM"
    ensures ampm == "PM" ==> rows.1 == "PM"
  {
    (if ampm == "AM" then "AM" else "!!", if ampm == "PM" then "PM" else "!!")
  }

  /** Once a marker has been computed, exactly one row is lit and it is the right one. */
  lemma ExactlyOneMeridiemRowLit(h: Hour)
    ensures var rows := MeridiemRows(Meridiem(h));
      && (rows.0 == "!!" <==> rows.1 != "!!")
      && (rows.0 == "AM" <==> h < 12)
      && (rows.1 == "PM" <==> 12 <= h)
  {
  }

  // ----------------------------------------------------------------- date

  /** The date as the locale spells it: `"{weekday}, {month} {day}"`. */
  function RawDate(weekday: string, month: string, day: string): (r: string)
    ensures |r| == |weekday| + |month| + |day| + 3
  {
    weekday + (", " + (month + (" " + day)))
  }

  /** The date readout: the raw date with every space turned into the blank glyph. */
  function DateString(weekday: string, month: string, day: string): (r: string)
    ensures var raw := RawDate(weekday, month, day);
      && |r| == |raw|
      && ' ' !in r
      && (forall i {:trigger r[i]} :: 0 <= i < |r| && raw[i] != ' ' ==> r[i] == raw[i])
      && (forall i {:trigger r[i]} :: 0 <= i < |r| && raw[i] == ' ' ==> r[i] == Blank)
  {
    ReplaceAll(RawDate(weekday, month, day), ' ', Blank)
  }

  /** The readout keeps the shape of the raw date: the comma is followed by a blank, and each field only has its own spaces blanked. */
  lemma DateStringShape(weekday: string, month: string, day: string)
    ensures DateString(weekday, month, day)
      == ReplaceAll(weekday, ' ', Blank) + (",!" + (ReplaceAll(month, ' ', Blank) + ("!" + ReplaceAll(day, ' ', Blank))))
  {
    var tail := month + (" " + day);
    assert ReplaceAll(" ", ' ', Blank) == "!";
    assert ReplaceAll(", ", ' ', Blank) == ",!";
    ReplaceAllConcat(" ", day, ' ', Blank);
    ReplaceAllConcat(month, " " + day, ' ', Blank);
    ReplaceAllConcat(", ", tail, ' ', Blank);
    ReplaceAllConcat(weekday, ", " + tail, ' ', Blank);
  }

  /** When the locale strings hold no blank glyph, turning blanks back into spaces restores the raw date. */
  lemma DateStringRestores(weekday: string, month: string, day: string)
    requires Blank !in RawDate(weekday, month, day)
    ensures ReplaceAll(DateString(weekday, month, day), Blank, ' ') == RawDate(weekday, month, day)
  {
    ReplaceAllRoundTrip(RawDate(weekday, month, day), ' ', Blank);
  }

  /** The ghost under the date: one lit glyph per glyph of the date. */
  function GhostDate(date: string): (r: string)
    ensures |r| == |date|
    ensures AllChar(r, Segment)
  {
    Repeat(Segment, |date|)
  }

  /** The date readout always lines up with its ghost. */
  lemma DateCoveredByGhost(weekday: string, month: string, day: string)
    ensures Covers(GhostDate(DateString(weekday, month, day)), DateString(weekday, month, day))
  {
    var d := DateString(weekday, month, day);
    forall i | 0 <= i < |d|
      ensures d[i] != ' '
    {
      assert d[i] in d;
    }
  }

  // ------------------------------------------------------------ the ticks

  /** The component's state: what the last tick produced, and the blink flag for the next one. */
  datatype ClockState = ClockState(currentTime: string, showColon: bool, ampm: string, dayMonth: string)

  /** The state before the first tick. */
  const Initial: ClockState := ClockState("", true, "", "")

  /** What one reading of the clock and the locale supplies. */
  datatype Now = Now(hour: Hour, minute: Minute, weekday: string, month: string, day: string)

  /**
   One `updateTime` call: the readout is formatted with the current blink
   flag, the flag is negated, and the marker and date are recomputed from
   the same instant. Nothing of the previous readout survives.
   */
  function Tick(s: ClockState, now: Now, is24HourFormat: bool): (t: ClockState)
    ensures t.showColon == !s.showColon
    ensures Covers(GhostTime, t.currentTime)
    ensures t.currentTime[2] == ':' <==> s.showColon
    ensures t.ampm == "AM" <==> now.hour < 12
    ensures t.ampm == "AM" || t.ampm == "PM"
    ensures Covers(GhostDate(t.dayMonth), t.dayMonth)
  {
    DateCoveredByGhost(now.weekday, now.month, now.day);
    ClockState(
      TimeString(now.hour, now.minute, is24HourFormat, s.showColon),
      !s.showColon,
      Meridiem(now.hour),
      DateString(now.weekday, now.month, now.day))
  }

  /**
   What a tick shows can be read back: the displayed hour (in 24-hour mode
   the zero-padded raw hour, read directly; in 12-hour mode a one-digit
   hour behind the blank glyph) and the minute from the time string. The
   date string is the locale's date with each space blanked, and turns
   back into it when the locale strings hold no blank glyph.
   */
  lemma TickReadsBack(s: ClockState, now: Now, is24HourFormat: bool)
    ensures var t := Tick(s, now, is24HourFormat);
      && (is24HourFormat ==> AllDigits(t.currentTime[..2]) && ParseDecimal(t.currentTime[..2]) == now.hour)
      && AllDigits(TrimStart(t.currentTime[..2], Blank))
      && ParseDecimal(TrimStart(t.currentTime[..2], Blank)) == DisplayHour(now.hour, is24HourFormat)
      && AllDigits(t.currentTime[3..])
      && ParseDecimal(t.currentTime[3..]) == now.minute
      && (!is24HourFormat ==> (t.currentTime[0] == Blank <==> DisplayHour(now.hour, false) < 10))
    ensures var t := Tick(s, now, is24HourFormat);
      var raw := RawDate(now.weekday, now.month, now.day);
      && |t.dayMonth| == |raw|
      && forall i {:trigger t.dayMonth[i]} :: 0 <= i < |raw| ==>
           t.dayMonth[i] == (if raw[i] == ' ' then Blank else raw[i])
    ensures var t := Tick(s, now, is24HourFormat);
      Blank !in RawDate(now.weekday, now.month, now.day)
      ==> ReplaceAll(t.dayMonth, Blank, ' ') == RawDate(now.weekday, now.month, now.day)
  {
    TimeStringReadsBack(now.hour, now.minute, is24HourFormat, s.showColon);
    TimeStringParts(now.hour, now.minute, is24HourFormat, s.showColon);
    if Blank !in RawDate(now.weekday, now.month, now.day) {
      DateStringRestores(now.weekday, now.month, now.day);
    }
  }

  /** A tick depends on the previous state only through the blink flag. */
  lemma TickForgetsPreviousReading(s: ClockState, u: ClockState, now: Now, is24HourFormat: bool)
    requires s.showColon == u.showColon
    ensures Tick(s, now, is24HourFormat) == Tick(u, now, is24HourFormat)
  {
  }

  /** Consecutive ticks show opposite separators, and two ticks restore the blink flag. */
  lemma TicksAlternate(s: ClockState, now1: Now, now2: Now, is24HourFormat: bool)
    ensures var t1 := Tick(s, now1, is24HourFormat);
      var t2 := Tick(t1, now2, is24HourFormat);
      && t2.showColon == s.showColon
      && (t1.currentTime[2] == ':') != (t2.currentTime[2] == ':')
  {
  }

  /** The state after one tick per reading in `nows`, all in the same mode. */
  function Run(s: ClockState, nows: seq<Now>, is24HourFormat: bool): ClockState
    decreases |nows|
  {
    if |nows| == 0 then s else Run(Tick(s, nows[0], is24HourFormat), nows[1..], is24HourFormat)
  }

  /** After k ticks the blink flag is back where it started exactly when k is even. */
  lemma {:induction false} RunBlinkParity(s: ClockState, nows: seq<Now>, is24HourFormat: bool)
    ensures Run(s, nows, is24HourFormat).showColon == (s.showColon == (|nows| % 2 == 0))
    decreases |nows|
  {
    if |nows| > 0 {
      var t := Tick(s, nows[0], is24HourFormat);
      var rest := nows[1..];
      assert Run(s, nows, is24HourFormat) == Run(t, rest, is24HourFormat);
      assert t.showColon == !s.showColon;
      assert |rest| % 2 == 0 <==> |nows| % 2 != 0 by {
        assert |rest| + 1 == |nows|;
      }
      RunBlinkParity(t, rest, is24HourFormat);
    }
  }

  /** From the initial state, the tick after k earlier ticks shows a colon exactly when k is even. */
  lemma ColonOnOddTicks(nows: seq<Now>, now: Now, is24HourFormat: bool)
    ensures Tick(Run(Initial, nows, is24HourFormat), now, is24HourFormat).currentTime[2] == ':'
      <==> |nows| % 2 == 0
  {
    RunBlinkParity(Initial, nows, is24HourFormat);
  }

  // ---------------------------------------------------------------- render

  /** One text block of the view: the faint ghost and the live glyphs on top of it. */
  datatype Layer = Layer(back: string, live: string)

  /** The display flags the surrounding app passes in. */
  datatype Flags = Flags(is24HourFormat: bool, showDayMonth: bool)

  /**
   What the render body shows: the time block, the AM/PM column (two rows,
   absent in 24-hour mode) and the date block (absent unless enabled).
   */
  datatype Screen = Screen(time: Layer, meridiem: seq<Layer>, date: seq<Layer>)

  function Render(s: ClockState, flags: Flags): (v: Screen)
    ensures v.time.back == GhostTime && v.time.live == s.currentTime
    ensures |v.meridiem| == if flags.is24HourFormat then 0 else 2
    ensures |v.date| == if flags.showDayMonth then 1 else 0
    ensures forall l :: l in v.meridiem ==> l.back == GhostMeridiem
    ensures forall l :: l in v.date ==> l.live == s.dayMonth && l.back == GhostDate(s.dayMonth)
    ensures !flags.is24HourFormat ==>
      && v.meridiem[0].live == MeridiemRows(s.ampm).0
      && v.meridiem[1].live == MeridiemRows(s.ampm).1
  {
    var rows := MeridiemRows(s.ampm);
    Screen(
      Layer(GhostTime, s.currentTime),
      if flags.is24HourFormat then [] else [Layer(GhostMeridiem, rows.0), Layer(GhostMeridiem, rows.1)],
      if flags.showDayMonth then [Layer(GhostDate(s.dayMonth), s.dayMonth)] else [])
  }

  /** Every block of the view lines up with its ghost. */
  predicate Aligned(v: Screen) {
    && Covers(v.time.back, v.time.live)
    && (forall l :: l in v.meridiem ==> Covers(l.back, l.live))
    && (forall l :: l in v.date ==> Covers(l.back, l.live))
  }

  /** After any tick, whatever the flags, every block of the view lines up with its ghost. */
  lemma RenderAlignedAfterTick(s: ClockState, now: Now, is24HourFormat: bool, flags: Flags)
    ensures Aligned(Render(Tick(s, now, is24HourFormat), flags))
  {
  }

  /**
   After a tick in 12-hour mode the upper AM/PM row reads "AM" exactly
   before noon and the lower reads "PM" exactly from noon on; the other row
   is blank.
   */
  lemma MeridiemShownAfterTick(s: ClockState, now: Now, showDayMonth: bool)
    ensures var v := Render(Tick(s, now, false), Flags(false, showDayMonth));
      && (v.meridiem[0].live == "AM" <==> now.hour < 12)
      && (v.meridiem[1].live == "PM" <==> 12 <= now.hour)
      && (v.meridiem[0].live == "!!" <==> 12 <= now.hour)
      && (v.meridiem[1].live == "!!" <==> now.hour < 12)
  {
  }

  /** Before the first tick the time block is empty and neither AM/PM row is lit. */
  lemma InitialScreenIsBlank(flags: Flags)
    ensures !Aligned(Render(Initial, flags))
    ensures MeridiemRows(Initial.ampm) == ("!!", "!!")
  {
  }

  // ------------------------------------------------------------- scenarios

  /** 09:05 in 12-hour mode with the colon on. */
  lemma NineOhFiveTwelveHour()
    ensures TimeString(9, 5, false, true) == "!9:05"
    ensures Meridiem(9) == "AM"
  {
  }

  /** 13:00 in 24-hour mode; the marker is still computed. */
  lemma OnePmTwentyFourHour()
    ensures TimeString(13, 0, true, true) == "13:00"
    ensures TimeString(13, 0, false, false) == "!1 00"
    ensures TimeString(0, 0, false, true) == "12:00"
    ensures Meridiem(13) == "PM"
  {
  }
}
