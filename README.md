# Clock and countdown to July 10, 2025 — a Dafny model

`CountdownApp` (countdown.py) is a desktop window with two labels. Once a
second, a clock timer writes the time of day as `HH:MM:SS` on one label. A
countdown timer writes the time left until 2025-07-10 00:00:00 on the other,
as `"<h> hours, <m> minutes, <s> seconds"`. At the first update that finds
the target reached, that label reads "The moment has arrived!" and the
countdown timer is stopped for good.

This project models that logic and proves properties of it:

- `decimal.dfy` (module `Decimal`) renders numbers: the shortest decimal form
  of an integer, as an f-string writes it, and the two-digit zero-padded clock
  field. It also reads numbers back from text.
- `countdown.dfy` (module `Countdown`) holds the rest:
  - the hours/minutes/seconds arithmetic;
  - the countdown and clock texts;
  - the countdown timer as a pure state machine (`CountdownState`,
    `UpdateStep`, `TickStep`, `RunTicks`);
  - the class `CountdownApp`, with the two label texts and the running flag
    of the countdown timer as fields. Each of its methods is specified by the
    state-machine functions.
- `wrappers.dfy` (module `Wrappers`) gives the `Option` type used by the
  readers.

Instants are integers: microseconds on the local wall-clock timeline, counted
from 1970-01-01 00:00:00. The program subtracts naive local datetimes, and
that subtraction is plain calendar arithmetic with 86400-second days, so
nothing is lost on this timeline. The target is the constant
`TargetUs = 1752105600 * 10^6`. Each reading of the system clock
(`datetime.now()`) is a parameter. The constructor takes two readings, one
for its clock update and one for its countdown update, because the source
reads the clock twice.

## Model

| member | source | states |
|---|---|---|
| `Decimal.NatToString` | countdown.py:105 | An int field renders as at least one decimal digit, with no leading zero unless it is the single digit 0 (no zero-padding). |
| `Decimal.NatToStringValue` | countdown.py:105 | The digits NatToString writes denote exactly the number rendered. |
| `Decimal.CanonicalNumeral` | countdown.py:105 | Every digit string without a leading zero is the NatToString of its value, so the rendering is the unique canonical numeral. |
| `Decimal.NatToStringInjective` | countdown.py:105 | Different numbers never render as the same numeral. |
| `Decimal.Pad2` | countdown.py:88 | A clock field below 100 renders as exactly two digits whose value is the field (zero-padded `%H`, `%M`, `%S`). |
| `Countdown.Decompose` | countdown.py:101-103 | A whole second count splits into hours, minutes 0..59 and seconds 0..59 with hours*3600 + minutes*60 + seconds equal to the count. |
| `Countdown.DecomposeSeconds` | countdown.py:101-103 | The split is unique: any hours/minutes/seconds with minutes and seconds below 60 is the Decompose of its own second count. |
| `Countdown.TruncSeconds` | countdown.py:102-103 | `int()` of a second count truncates toward zero: for a non-negative delta, it is the whole seconds w with w*10^6 <= delta < (w+1)*10^6, and the mirrored bounds hold for a negative delta. |
| `Countdown.HoursAgree` | countdown.py:101-103 | For a non-negative delta, floor division of the seconds by 3600 equals the whole hours of the truncated second count, so `//` and `int()` agree. |
| `Countdown.ComputeRemaining` | countdown.py:94-103 | The reading is Arrived exactly when delta <= 0. Otherwise minutes and seconds are in 0..59, and the reading's total of seconds s satisfies s*10^6 <= delta < (s+1)*10^6: whole seconds by truncation, not rounding. |
| `Countdown.RemainingIsDecomposition` | countdown.py:101-103 | For a positive delta, the reading is the unique hours/minutes/seconds split of delta's truncated second count. |
| `Countdown.UnderOneSecond` | countdown.py:96-105 | A positive delta under one second is not arrival: it reads 0 hours, 0 minutes, 0 seconds, and the text is "0 hours, 0 minutes, 0 seconds". |
| `Countdown.ZeroRemainingText` | countdown.py:105 | The zero reading renders as the label's initial text "0 hours, 0 minutes, 0 seconds" (countdown.py:45). |
| `Countdown.FormatRemaining` | countdown.py:105 | The countdown text starts with a digit. Its full content is stated by ParseFormatRemaining together with ParsedIsFormatted. |
| `Countdown.ParseFormatRemaining` | countdown.py:105 | The text is exactly numeral, " hours, ", numeral, " minutes, ", numeral, " seconds", with plural words always. Reading it back yields the same hours, minutes and seconds. |
| `Countdown.ParsedIsFormatted` | countdown.py:105 | Every text that reads back as t is exactly FormatRemaining(t). The reader accepts only numerals without leading zeros, so the countdown text is the unique unpadded rendering of t. |
| `Countdown.FormatRemainingInjective` | countdown.py:105 | Different remaining times always show different texts. |
| `Countdown.FormatRemainingIsNotArrived` | countdown.py:97-105 | No countdown text equals the arrival message. |
| `Countdown.CountdownText` | countdown.py:96-105 | The countdown label shows "The moment has arrived!" exactly when delta <= 0. |
| `Countdown.CountdownTextCounting` | countdown.py:101-105 | For a positive delta, the label text is FormatRemaining of the hours/minutes/seconds split of delta's truncated second count. |
| `Countdown.TimeOfDay` | countdown.py:88 | The time of day of an instant has hour 0..23, minute and second 0..59, and stands for the instant's whole seconds modulo 86400. |
| `Countdown.FormatClock` | countdown.py:88 | `HH:MM:SS` is 8 characters: colons at positions 2 and 5, and two-digit fields whose values are the hour, minute and second. |
| `Countdown.ClockText` | countdown.py:87-89 | The clock label is always 8 characters in `HH:MM:SS` form, with hour 00..23 and minute and second 00..59. Together the fields give the instant's seconds within its day. |
| `Countdown.UpdateStep` | countdown.py:91-105 | An update with delta <= 0 sets the arrival text and stops the timer. With delta > 0 it leaves the running flag alone and sets the text to FormatRemaining of the hours/minutes/seconds split of delta's truncated second count, which is not the arrival text. |
| `Countdown.TickStep` | countdown.py:79-81 | A firing of a stopped timer changes nothing. A firing keeps "stopped iff the label shows arrival". |
| `Countdown.RunTicks` | countdown.py:79-99 | Any run of timer firings keeps "stopped iff the label shows arrival". |
| `Countdown.StartedConsistent` | countdown.py:45-81 | Right after the countdown timer is started, before the first update, it is running and its initial label is not the arrival text. |
| `Countdown.StoppedIsTerminal` | countdown.py:96-99 | Arrived is terminal: once the timer is stopped, no run of later firings changes the label or the flag. |
| `Countdown.RunStopsIffTargetSeen` | countdown.py:79-99 | A running timer ends a run stopped exactly when some firing in the run had now >= target. |
| `Countdown.RunningShowsLastReading` | countdown.py:101-105 | While the timer still runs after a run, the label shows the remaining time at the last firing. |
| `Countdown.CountdownApp.constructor` | countdown.py:75-85 | The countdown timer starts running. The clock timer never stops and has no modelled state. The clock label shows ClockText of its reading, and the countdown state is UpdateStep of the started state at its reading; the invariant holds. |
| `Countdown.CountdownApp.UpdateClock` | countdown.py:87-89 | The clock label becomes ClockText(now); nothing else changes. |
| `Countdown.CountdownApp.UpdateCountdown` | countdown.py:91-105 | The countdown label and flag become UpdateStep of the old state. Only the countdown label and flag may change. A running, consistent state stays consistent. |
| `Countdown.CountdownApp.CountdownTimerFires` | countdown.py:79-81 | A firing performs TickStep: a stopped timer leaves label and flag unchanged, and the invariant is kept. |

## Left out

- Window, layout, fonts, style sheets and palette (countdown.py:9-54, 115-134): GUI toolkit calls with no logic of their own.
- Audio playback, the audio-file existence check, the media error handler and stopping audio on close (countdown.py:56-72, 107-113): multimedia and file-system I/O.
- The Qt event loop, the 1000 ms timer period and the clock timer, which is never stopped (countdown.py:75-81): a firing is a method call, and the instant it sees is its parameter.
- `datetime.now()` and datetime's calendar arithmetic (countdown.py:88, 92-94): the clock reading is a parameter on the wall-clock microsecond timeline. The target's position on it (1752105600 s) is a constant and is not derived from the calendar.
- Countdown.ComputeRemaining: `delta.total_seconds()` is a float, and it is modelled as the exact number of microseconds divided by 10^6. Float rounding can move the value across a whole-second boundary only for deltas of at least 2^34 seconds (about 544 years), which are not modelled.
- Countdown.ClockText: `%H:%M:%S` is modelled from the instant's whole seconds modulo one day. Time zones and DST transitions of the local clock are part of `datetime.now()`, which is left out.
- Analog clock-hand angles: countdown.py has no code for them.
