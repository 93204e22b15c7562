# Digital clock readout and swipeable screens, in Dafny

A model of the two pieces of logic inside a small React Native clock app:

- **The clock readout** (`components/DigitalClockComponent.js`). Once a
  second, `updateTime` formats the hour and minute into a five-glyph time
  string with a blinking separator. It also picks the AM/PM marker and
  spells out the date. The render body lays each live string over a faint
  "ghost" string of fully lit segments (`~`). In the segment display font
  a true space is narrower than a digit, while the blank glyph `!` is as
  wide as one. So the two layers line up only when they have the same
  number of glyphs and the live layer puts a visible glyph, never a space,
  under each lit segment. Under the ghost colon the live layer shows the
  blinking separator, a colon or a space.
  Module `DigitalClock` (clock.dfy) models the formatting as pure
  functions. It models one tick as a transition of the component's state
  and the render body as a function from that state to the text blocks on
  screen. The predicate `Covers` states the glyph alignment. Module `Text`
  (text.dfy) models the JavaScript string built-ins the readout uses:
  `String(n)`, `padStart`, `repeat` and `replace(/ /g, …)`. Decimal
  parsing reads `String(n)` back, and stripping a leading filler undoes
  `padStart`. Replacing in the opposite direction undoes `replace`.
  `repeat` is pinned down by its length and contents.
- **Screen navigation** (`components/SwipeableScreens.js`). The component
  shows one child at a time. A swipe steps the index one screen left or
  right, with wraparound, according to the sign of the horizontal
  velocity. Module `Screens` (screens.dfy) models this.

Inputs the app takes from outside become parameters. The hour (0..23) and
minute (0..59) come from `Date`. Weekday, month and day-of-month are
arbitrary strings from the locale, counted in characters (see "Left
out" for text outside the Basic Multilingual Plane). The 24-hour and show-date flags are
booleans. The gesture's horizontal velocity is a `real`.

In 12-hour mode hour 13 is shown as `!1`: the display hour 1 padded with
the blank glyph, not `01`.

## Model

| member | source | states |
|---|---|---|
| Text.NatToString | components/DigitalClockComponent.js:19-20 | `String(n)` for the hours and minutes the clock passes (below 100) is a non-empty digit string; it has one digit exactly when n < 10 and at most two when n < 100 |
| Text.NatToStringReadsBack | components/DigitalClockComponent.js:19-20 | `String(n)` parses back to n and has no leading zero unless n is 0 |
| Text.Repeat | components/DigitalClockComponent.js:41 | `c.repeat(n)` has length n and consists only of c |
| Text.PadStart | components/DigitalClockComponent.js:19-20 | `padStart(width, fill)` has length `width` when the input is shorter, and keeps the input's length otherwise |
| Text.PadStartShape | components/DigitalClockComponent.js:19-20 | the padded string ends with the original text, and everything in front of it is the filler |
| Text.TrimPadStart | components/DigitalClockComponent.js:19 | stripping the filler from a padded string gives back the original, when the original does not start with the filler |
| Text.ParseDecimalLeadingZero | components/DigitalClockComponent.js:19-20 | a leading `'0'` does not change the value of a digit string |
| Text.ReplaceAll | components/DigitalClockComponent.js:29 | `replace(/x/g, y)` keeps the length, puts y at every position that held x, and leaves every other character unchanged |
| Text.ReplaceAllConcat | components/DigitalClockComponent.js:29 | replacing distributes over concatenation |
| Text.ReplaceAllRoundTrip | components/DigitalClockComponent.js:29 | replacing x by y and then y by x restores the input when y did not occur in it |
| DigitalClock.DisplayHour | components/DigitalClockComponent.js:17 | 24-hour mode shows the raw hour; 12-hour mode shows the value in 1..12 that is congruent to the hour modulo 12 |
| DigitalClock.TwelveHourCollisions | components/DigitalClockComponent.js:17 | two hours share a 12-hour display value exactly when they agree modulo 12; hours 0 and 12 both show 12 |
| DigitalClock.HoursField | components/DigitalClockComponent.js:17-19 | the hours field is two glyphs: a digit last, and a digit or (12-hour mode only) the blank glyph first; in 12-hour mode the blank appears exactly for display hours below 10 |
| DigitalClock.HoursFieldReadsBack | components/DigitalClockComponent.js:17-19 | the hours field parses back to the display hour once its blanks are stripped; in 24-hour mode it parses directly to the raw hour |
| DigitalClock.PaddedFieldShape | components/DigitalClockComponent.js:19-20 | a number below 100 padded to width 2 is two glyphs, the pad glyph or a digit first and a digit last; a blank pad appears exactly for one-digit numbers |
| DigitalClock.PaddedFieldReadsBack | components/DigitalClockComponent.js:19-20 | a number below 100 padded with `'0'` or the blank glyph parses back to itself |
| DigitalClock.MinutesField | components/DigitalClockComponent.js:20 | the minutes field is two digits and parses back to the minute |
| DigitalClock.Separator | components/DigitalClockComponent.js:21 | the separator is a colon exactly when the blink flag is set, and a space otherwise |
| DigitalClock.TimeString | components/DigitalClockComponent.js:15-21 | the time string has length 5, the length of the ghost `~~:~~`, and lines up with it glyph for glyph; its middle glyph is a colon exactly when the blink flag is set |
| DigitalClock.TimeStringReadsBack | components/DigitalClockComponent.js:15-21 | from the time string one reads back the display hour, the blink flag and the minute; in 24-hour mode the first two glyphs are digits that read directly as the raw hour |
| DigitalClock.TimeStringParts | components/DigitalClockComponent.js:21 | the time string is the hours field, then the separator, then the minutes field |
| DigitalClock.BlinkOnlyTouchesSeparator | components/DigitalClockComponent.js:21 | the blink flag changes only the middle glyph |
| DigitalClock.Meridiem | components/DigitalClockComponent.js:22 | the marker is "AM" exactly when the raw hour is below 12, and "PM" otherwise; it is two glyphs, like its ghost |
| DigitalClock.TwelveHourRoundTrip | components/DigitalClockComponent.js:17-22 | the 12-hour display value together with the marker determines the raw hour |
| DigitalClock.MeridiemRows | components/DigitalClockComponent.js:64-80 | the upper row shows "AM" when the marker is "AM" and `!!` otherwise; the lower shows "PM" when the marker is "PM" and `!!` otherwise; both rows line up with their `~~` ghosts |
| DigitalClock.ExactlyOneMeridiemRowLit | components/DigitalClockComponent.js:64-80 | for a computed marker exactly one row is lit, the AM row before noon and the PM row from noon on |
| DigitalClock.RawDate | components/DigitalClockComponent.js:29 | the unreplaced date string is the three locale strings plus three separator characters long |
| DigitalClock.DateString | components/DigitalClockComponent.js:29 | the date string has the raw date's length, contains no space, turns each space into the blank glyph and keeps every other character |
| DigitalClock.DateStringShape | components/DigitalClockComponent.js:29 | the date string is the weekday, then `,!`, the month, `!` and the day, with each field's own spaces blanked |
| DigitalClock.DateStringRestores | components/DigitalClockComponent.js:29 | turning blanks back into spaces restores the raw date when the locale strings contain no blank glyph |
| DigitalClock.GhostDate | components/DigitalClockComponent.js:41 | the date ghost is one `~` per glyph of the date string |
| DigitalClock.DateCoveredByGhost | components/DigitalClockComponent.js:29-41 | the date string lines up with its ghost |
| DigitalClock.Tick | components/DigitalClockComponent.js:11-31 | one tick negates the blink flag, shows a time string aligned with its ghost whose separator reflects the old flag, sets the marker to "AM" before noon and "PM" from noon on, and shows a date aligned with its ghost |
| DigitalClock.TickReadsBack | components/DigitalClockComponent.js:11-31 | after a tick the time string reads back as the display hour and the minute of that instant, in 24-hour mode its first two glyphs are digits reading as the raw hour, and in 12-hour mode it starts with the blank glyph exactly when the display hour has one digit; the date string is the locale's date with each space turned into the blank glyph and every other character kept, and turns back into that date when it holds no blank glyph |
| DigitalClock.TickForgetsPreviousReading | components/DigitalClockComponent.js:11-31 | a tick depends on the previous state only through the blink flag |
| DigitalClock.TicksAlternate | components/DigitalClockComponent.js:21-23 | consecutive ticks show opposite separators, and two ticks restore the blink flag |
| DigitalClock.RunBlinkParity | components/DigitalClockComponent.js:23 | after k ticks the blink flag is back at its start value exactly when k is even |
| DigitalClock.ColonOnOddTicks | components/DigitalClockComponent.js:6-23 | starting from the initial state, with the flag set, the tick that follows k earlier ticks shows a colon exactly when k is even |
| DigitalClock.Render | components/DigitalClockComponent.js:41-101 | the view has the time block over `~~:~~`; exactly in 12-hour mode it has two AM/PM rows over `~~`, the AM row first and the PM row second, each showing its label or `!!` as the marker says; exactly when the date is enabled it has the date block over one `~` per character of the date |
| DigitalClock.MeridiemShownAfterTick | components/DigitalClockComponent.js:22-83 | after a tick in 12-hour mode the upper row reads "AM" exactly before noon and the lower reads "PM" exactly from noon on, the other row showing `!!` |
| DigitalClock.RenderAlignedAfterTick | components/DigitalClockComponent.js:41-96 | after any tick, under any flags, every block on screen lines up with its ghost |
| DigitalClock.InitialScreenIsBlank | components/DigitalClockComponent.js:5-8 | before the first tick the time block is empty, so it does not line up with its ghost, and neither AM/PM row is lit |
| DigitalClock.NineOhFiveTwelveHour | components/DigitalClockComponent.js:15-22 | 09:05 in 12-hour mode with the colon on reads `!9:05`, AM |
| DigitalClock.OnePmTwentyFourHour | components/DigitalClockComponent.js:15-22 | 13:00 reads `13:00` in 24-hour mode and `!1 00` in 12-hour mode with the colon off; midnight reads `12:00`; 13:00 is PM |
| Screens.ScreenLeft | components/SwipeableScreens.js:10-14 | for 1 <= count and an index in range, `screenLeft` stays in range and equals (id - 1) mod count |
| Screens.ScreenRight | components/SwipeableScreens.js:16-20 | for 1 <= count and an index in range, `screenRight` stays in range and equals (id + 1) mod count |
| Screens.Wraparound | components/SwipeableScreens.js:10-20 | left from the first screen gives the last; right from the last gives the first |
| Screens.InteriorSteps | components/SwipeableScreens.js:10-20 | away from the ends, left is id - 1 and right is id + 1 |
| Screens.LeftRightInverse | components/SwipeableScreens.js:10-20 | `screenLeft` and `screenRight` undo each other on every index in range |
| Screens.SingleScreenFixed | components/SwipeableScreens.js:10-31 | with one screen, both steps and every gesture keep index 0 |
| Screens.NoScreensLeftEscapes | components/SwipeableScreens.js:10-20 | with no children, `screenLeft(0)` is -1, outside every valid range |
| Screens.Sign | components/SwipeableScreens.js:25-31 | the sign is -1, 1 or 0 exactly for negative, positive or zero velocity |
| Screens.OnGestureEnd | components/SwipeableScreens.js:22-32 | after a gesture the index stays in range and equals (active - sign of velocity) mod count: negative velocity moves right, positive moves left, zero stays |
| Screens.SwipesNet | components/SwipeableScreens.js:22-32 | any run of gestures lands at the start index minus the sum of the velocity signs, mod count |
| Screens.SwipesStayInRange | components/SwipeableScreens.js:22-32 | any run of gestures keeps the index in range |
| Screens.ActiveChild | components/SwipeableScreens.js:35 | the active child exists exactly when the index is in range, and it is the child at that index |
| Screens.AlwaysShowsAChild | components/SwipeableScreens.js:8-35 | starting from index 0, when the wraparound count is at least one and at most the length of the child array, some child is shown after any run of gestures |
| Screens.EmptyChildBlanksScreen | components/SwipeableScreens.js:10-35 | with a count of 2 but only one child in the array, one leftward swipe moves to index 1 and nothing is shown |

## Left out

- Timer scheduling: `setInterval`, `clearInterval` and the effect's dependency list (DigitalClockComponent.js:10, 33-39) are component lifecycle. The model has one tick as a pure transition (`Tick`) and a sequence of ticks (`Run`). It assumes the flags do not change mid-run.
- `new Date()`, `getHours` and `getMinutes` are reads of the system clock. The hour and minute are parameters bounded to 0..23 and 0..59.
- `toLocaleDateString` and `toLocaleString` are locale lookups. Weekday, month and day-of-month are arbitrary input strings.
- Styles, transforms, opacity, font family and the dark-mode colours are presentation only. `Render` keeps only the strings and which blocks are present.
- App.js is not part of this model. It holds brightness permissions, the fullscreen API, page reload, font loading, the splash screen and the buttons: platform I/O and UI.
- The gesture library and `console.log` are left out. Only the horizontal velocity of a finished gesture enters the model.
- Screens.Sign: the velocity is a Dafny `real`, so a NaN velocity is not modelled. In JavaScript a NaN fails both comparisons, so it would also leave the index unchanged.
- Screens.ScreenLeft: its range and wraparound facts assume at least one child. With no children the source returns -1, which `NoScreensLeftEscapes` records. Nothing is ever shown in that case.
- Screens.AlwaysShowsAChild: it proves a child is shown only when `React.Children.count` is no larger than the `toArray` length. React's `count` also counts empty children (`null`, `undefined`, booleans) that `toArray` drops, so for children such as `<A/>{false}` the source can step to an index with no child and show nothing, as `EmptyChildBlanksScreen` records. A child list that changes between renders while the index persists is not modelled either.
- DigitalClock.GhostDate: lengths are counted in Dafny characters (Unicode scalar values), while `dayMonth.length` counts UTF-16 code units. The two agree only for text inside the Basic Multilingual Plane. For a locale string with a character outside it the source's ghost is longer than the date, so `DateCoveredByGhost` does not carry over to such text.
- Text.NatToString: it is the plain decimal spelling for every natural number. JavaScript's `String(n)` agrees only below 10^21, where it switches to exponent notation, and holds integers exactly only up to 2^53. The clock passes only hours and minutes, which are below 100.
