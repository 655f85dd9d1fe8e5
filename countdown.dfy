/**
 * The clock and countdown logic of CountdownApp (countdown.py).
 *
 * Instants are integers: microseconds on the local wall-clock timeline,
 * counted from 1970-01-01 00:00:00. The program compares naive local
 * datetimes, whose difference is plain calendar arithmetic with 86400-second
 * days, so an instant on this timeline is exact. A reading of the system
 * clock is a parameter of the operation that takes it.
 */
module Countdown {
  import opened Wrappers
  import opened Decimal

  const MicrosPerSecond: nat := 1_000_000
  const SecondsPerMinute: nat := 60
  const SecondsPerHour: nat := 3600
  const SecondsPerDay: nat := 86400

  /** 2025-07-10 00:00:00, the fixed target of the countdown, as an instant. */
  const TargetUs: int := 1_752_105_600 * MicrosPerSecond

  /** The text shown once the target is reached. */
  const ArrivedText: string := "The moment has arrived!"
  /** The texts the two labels are created with, before their first update. */
  const InitialCountdownText: string := "0 hours, 0 minutes, 0 seconds"
  const InitialClockText: string := "00:00:00"

  // ---------------------------------------------------------------------------
  // Hours, minutes and seconds

  datatype Hms = Hms(hours: nat, minutes: nat, seconds: nat)

  /** Minutes and seconds are in their ranges 0..59; hours are unbounded. */
  predicate Normal(t: Hms) {
    t.minutes < SecondsPerMinute && t.seconds < SecondsPerMinute
  }

  /** The number of seconds a decomposition stands for. */
  function Seconds(t: Hms): nat {
    t.hours * SecondsPerHour + t.minutes * SecondsPerMinute + t.seconds
  }

  /** Splits a whole number of seconds into hours, minutes and seconds. */
  function Decompose(total: nat): (t: Hms)
    ensures Normal(t) && Seconds(t) == total
  {
    var rest := total % SecondsPerHour;
    assert rest / SecondsPerMinute * SecondsPerMinute + rest % SecondsPerMinute == rest;
    assert rest % SecondsPerMinute == total % SecondsPerMinute by {
      ModOfMod(total);
    }
    Hms(total / SecondsPerHour, rest / SecondsPerMinute, total % SecondsPerMinute)
  }

  lemma ModOfMod(total: nat)
    ensures (total % SecondsPerHour) % SecondsPerMinute == total % SecondsPerMinute
  {
  }

  /** A normal decomposition is the only one: Decompose inverts Seconds. */
  lemma DecomposeSeconds(t: Hms)
    requires Normal(t)
    ensures Decompose(Seconds(t)) == t
  {
    var total := Seconds(t);
    var low := t.minutes * SecondsPerMinute + t.seconds;
    DivModUnique(total, SecondsPerHour, t.hours, low);
    DivModUnique(low, SecondsPerMinute, t.minutes, t.seconds);
  }

  lemma DivModUnique(a: nat, b: nat, q: nat, r: nat)
    requires 0 < b && r < b && a == q * b + r
    ensures a / b == q && a % b == r
  {
    var q', r' := a / b, a % b;
    if q' < q {
      AtLeastOneMultiple(q', q - q', b);
    } else if q' > q {
      AtLeastOneMultiple(q, q' - q, b);
    }
  }

  lemma AtLeastOneMultiple(q: nat, d: nat, b: nat)
    requires d >= 1
    ensures (q + d) * b >= q * b + b
  {
    assert (q + d) * b == q * b + b + (d - 1) * b;
  }

  // ---------------------------------------------------------------------------
  // Remaining time (countdown.py:91-105)

  /**
   * int() of a number of seconds given in microseconds: truncation toward
   * zero, which for a positive amount drops the fractional second.
   */
  function TruncSeconds(us: int): (w: int)
    ensures us >= 0 ==> 0 <= w && w * MicrosPerSecond <= us < (w + 1) * MicrosPerSecond
    ensures us < 0 ==> w <= 0 && (w - 1) * MicrosPerSecond < us <= w * MicrosPerSecond
  {
    if us >= 0 then us / MicrosPerSecond else -((-us) / MicrosPerSecond)
  }

  /**
   * Floor division of the second count by 3600 (the float `//` at
   * countdown.py:101) equals the whole hours of the truncated second count.
   */
  lemma HoursAgree(us: nat)
    ensures us / (MicrosPerSecond * SecondsPerHour) == (us / MicrosPerSecond) / SecondsPerHour
  {
  }

  /** What one update of the countdown finds. */
  datatype Reading = Arrived | Remaining(left: Hms)

  /**
   * The remaining time for delta = target - now, in microseconds. It has
   * arrived exactly when delta <= 0; otherwise it is the whole seconds of
   * delta, truncated and not rounded, in normal hours, minutes and seconds.
   */
  function ComputeRemaining(deltaUs: int): (u: Reading)
    ensures u.Arrived? <==> deltaUs <= 0
    ensures u.Remaining? ==> Normal(u.left)
    ensures u.Remaining? ==>
      Seconds(u.left) * MicrosPerSecond <= deltaUs < (Seconds(u.left) + 1) * MicrosPerSecond
  {
    if deltaUs <= 0 then Arrived
    else
      var totalHours := deltaUs / (MicrosPerSecond * SecondsPerHour);
      var whole := TruncSeconds(deltaUs);
      var left := Hms(totalHours, (whole % SecondsPerHour) / SecondsPerMinute, whole % SecondsPerMinute);
      HoursAgree(deltaUs);
      assert left == Decompose(whole);
      Remaining(left)
  }

  /** For a positive delta the reading is the decomposition of its truncated second count. */
  lemma RemainingIsDecomposition(deltaUs: int)
    requires deltaUs > 0
    ensures ComputeRemaining(deltaUs) == Remaining(Decompose(deltaUs / MicrosPerSecond))
  {
  }

  /** Less than one second to go is not arrival: it reads as all zeros. */
  lemma UnderOneSecond(deltaUs: int)
    requires 0 < deltaUs < MicrosPerSecond
    ensures ComputeRemaining(deltaUs) == Remaining(Hms(0, 0, 0))
    ensures CountdownText(deltaUs) == InitialCountdownText
  {
    var left := ComputeRemaining(deltaUs).left;
    assert Seconds(left) == 0;
    assert left == Hms(0, 0, 0);
    ZeroRemainingText();
  }

  lemma ZeroRemainingText()
    ensures FormatRemaining(Hms(0, 0, 0)) == InitialCountdownText
  {
  }

  // ---------------------------------------------------------------------------
  // Countdown text (countdown.py:97, 105)

  /** "<h> hours, <m> minutes, <s> seconds": plain numerals, always plural words. */
  function FormatRemaining(t: Hms): (s: string)
    ensures |s| >= 1 && IsDigit(s[0])
  {
    NatToString(t.hours) + " hours, " + NatToString(t.minutes) + " minutes, "
      + NatToString(t.seconds) + " seconds"
  }

  /** Reads a text of the form FormatRemaining writes. */
  function ParseRemaining(s: string): Option<Hms> {
    match ReadNat(s)
    case None => None
    case Some((h, s1)) =>
      match ReadLiteral(" hours, ", s1)
      case None => None
      case Some(s2) =>
        match ReadNat(s2)
        case None => None
        case Some((m, s3)) =>
          match ReadLiteral(" minutes, ", s3)
          case None => None
          case Some(s4) =>
            match ReadNat(s4)
            case None => None
            case Some((sec, s5)) =>
              if s5 == " seconds" then Some(Hms(h, m, sec)) else None
  }

  /** The countdown text holds the three numbers exactly, so it can be read back. */
  lemma ParseFormatRemaining(t: Hms)
    ensures ParseRemaining(FormatRemaining(t)) == Some(t)
  {
    var a, b, c := NatToString(t.hours), NatToString(t.minutes), NatToString(t.seconds);
    var l1, l2, l3 := " hours, ", " minutes, ", " seconds";
    var tail2 := l2 + (c + l3);
    var tail1 := l1 + (b + tail2);
    FormatRemainingParts(t);
    assert ReadNat(a + tail1) == Some((t.hours, tail1)) by {
      ReadNatOfNatToString(t.hours, tail1);
    }
    assert ReadLiteral(l1, tail1) == Some(b + tail2) by {
      ReadLiteralOfPrefix(l1, b + tail2);
    }
    assert ReadNat(b + tail2) == Some((t.minutes, tail2)) by {
      ReadNatOfNatToString(t.minutes, tail2);
    }
    assert ReadLiteral(l2, tail2) == Some(c + l3) by {
      ReadLiteralOfPrefix(l2, c + l3);
    }
    assert ReadNat(c + l3) == Some((t.seconds, l3)) by {
      ReadNatOfNatToString(t.seconds, l3);
    }
  }

  /** Regroups the concatenation of FormatRemaining to the right, the way the reader takes it apart. */
  lemma FormatRemainingParts(t: Hms)
    ensures FormatRemaining(t) == NatToString(t.hours) + (" hours, " + (NatToString(t.minutes)
      + (" minutes, " + (NatToString(t.seconds) + " seconds"))))
  {
  }

  /** The countdown text is the only text that reads back as t: no other spelling, zero-padded or not. */
  lemma ParsedIsFormatted(s: string, t: Hms)
    requires ParseRemaining(s) == Some(t)
    ensures s == FormatRemaining(t)
  {
    var (h, s1) := ReadNat(s).value;
    var s2 := ReadLiteral(" hours, ", s1).value;
    var (m, s3) := ReadNat(s2).value;
    var s4 := ReadLiteral(" minutes, ", s3).value;
    var (sec, s5) := ReadNat(s4).value;
    assert t == Hms(h, m, sec) && s5 == " seconds";
    FormatRemainingParts(t);
  }

  /** Different remaining times never show the same text. */
  lemma FormatRemainingInjective(t: Hms, t': Hms)
    requires FormatRemaining(t) == FormatRemaining(t')
    ensures t == t'
  {
    ParseFormatRemaining(t);
    ParseFormatRemaining(t');
  }

  /** No countdown text can be mistaken for the arrival text. */
  lemma FormatRemainingIsNotArrived(t: Hms)
    ensures FormatRemaining(t) != ArrivedText
  {
  }

  /** The text update_countdown puts on the countdown label for a given delta. */
  function CountdownText(deltaUs: int): (s: string)
    ensures s == ArrivedText <==> deltaUs <= 0
  {
    match ComputeRemaining(deltaUs)
    case Arrived => ArrivedText
    case Remaining(t) => FormatRemainingIsNotArrived(t); FormatRemaining(t)
  }

  /** For a positive delta, the label shows the split of its truncated second count. */
  lemma CountdownTextCounting(deltaUs: int)
    requires deltaUs > 0
    ensures CountdownText(deltaUs) == FormatRemaining(Decompose(deltaUs / MicrosPerSecond))
  {
    RemainingIsDecomposition(deltaUs);
  }

  // ---------------------------------------------------------------------------
  // Clock text (countdown.py:87-89)

  /** The hours, minutes and seconds of the day an instant falls on. */
  function TimeOfDay(nowUs: int): (t: Hms)
    ensures Normal(t) && t.hours < 24
    ensures Seconds(t) == (nowUs / MicrosPerSecond) % SecondsPerDay
  {
    Decompose((nowUs / MicrosPerSecond) % SecondsPerDay)
  }

  /** strftime("%H:%M:%S"): zero-padded 24-hour fields separated by colons. */
  function FormatClock(h: nat, m: nat, s: nat): (r: string)
    requires h < 24 && m < 60 && s < 60
    ensures |r| == 8 && r[2] == ':' && r[5] == ':'
    ensures AllDigits(r[0..2]) && AllDigits(r[3..5]) && AllDigits(r[6..8])
    ensures DigitsValue(r[0..2]) == h && DigitsValue(r[3..5]) == m && DigitsValue(r[6..8]) == s
  {
    var r := Pad2(h) + ":" + Pad2(m) + ":" + Pad2(s);
    assert r[0..2] == Pad2(h) && r[3..5] == Pad2(m) && r[6..8] == Pad2(s);
    r
  }

  /** The text update_clock puts on the clock label at a given instant. */
  function ClockText(nowUs: int): (r: string)
    ensures |r| == 8 && r[2] == ':' && r[5] == ':'
    ensures AllDigits(r[0..2]) && AllDigits(r[3..5]) && AllDigits(r[6..8])
    ensures DigitsValue(r[0..2]) < 24 && DigitsValue(r[3..5]) < 60 && DigitsValue(r[6..8]) < 60
    ensures Seconds(Hms(DigitsValue(r[0..2]), DigitsValue(r[3..5]), DigitsValue(r[6..8])))
            == (nowUs / MicrosPerSecond) % SecondsPerDay
  {
    var t := TimeOfDay(nowUs);
    FormatClock(t.hours, t.minutes, t.seconds)
  }

  // ---------------------------------------------------------------------------
  // The countdown timer and label as a state machine (countdown.py:79-81, 91-105)

  /** Whether the countdown timer is running, and the countdown label's text. */
  datatype CountdownState = CountdownState(running: bool, text: string)

  /** Right after the countdown timer is started, before the first update. */
  const Started: CountdownState := CountdownState(true, InitialCountdownText)

  /** The label shows the arrival text exactly when the timer is stopped. */
  predicate Consistent(st: CountdownState) {
    st.running <==> st.text != ArrivedText
  }

  /** One call of update_countdown at instant nowUs. */
  function UpdateStep(st: CountdownState, nowUs: int): (st': CountdownState)
    ensures TargetUs - nowUs <= 0 ==> st' == CountdownState(false, ArrivedText)
    ensures TargetUs - nowUs > 0 ==> st'.running == st.running && st'.text != ArrivedText
    ensures TargetUs - nowUs > 0 ==>
      st'.text == FormatRemaining(Decompose((TargetUs - nowUs) / MicrosPerSecond))
  {
    var delta := TargetUs - nowUs;
    var st' := CountdownState(st.running && delta > 0, CountdownText(delta));
    if delta > 0 then CountdownTextCounting(delta); st' else st'
  }

  /** One firing of the countdown timer: a stopped timer does not call the update. */
  function TickStep(st: CountdownState, nowUs: int): (st': CountdownState)
    ensures !st.running ==> st' == st
    ensures Consistent(st) ==> Consistent(st')
  {
    if st.running then UpdateStep(st, nowUs) else st
  }

  /** A run of timer firings at the given instants; it keeps the label in step with the timer. */
  function RunTicks(st: CountdownState, nows: seq<int>): (st': CountdownState)
    ensures Consistent(st) ==> Consistent(st')
    decreases |nows|
  {
    if nows == [] then st else RunTicks(TickStep(st, nows[0]), nows[1..])
  }

  lemma StartedConsistent()
    ensures Consistent(Started) && Started.running
  {
  }

  /** Arrived is terminal: once stopped, no run of firings changes anything. */
  lemma {:induction false} StoppedIsTerminal(st: CountdownState, nows: seq<int>)
    requires !st.running
    ensures RunTicks(st, nows) == st
    decreases |nows|
  {
    if nows != [] {
      StoppedIsTerminal(TickStep(st, nows[0]), nows[1..]);
    }
  }

  /** A running timer stops during a run exactly when some firing sees the target reached. */
  lemma {:induction false} RunStopsIffTargetSeen(st: CountdownState, nows: seq<int>)
    requires st.running
    ensures !RunTicks(st, nows).running <==> exists i :: 0 <= i < |nows| && nows[i] >= TargetUs
    decreases |nows|
  {
    if nows != [] {
      var next := TickStep(st, nows[0]);
      if next.running {
        RunStopsIffTargetSeen(next, nows[1..]);
        assert forall i :: 1 <= i < |nows| ==> nows[i] == nows[1..][i - 1];
        assert forall i :: 0 <= i < |nows| - 1 ==> nows[1..][i] == nows[i + 1];
      } else {
        StoppedIsTerminal(next, nows[1..]);
      }
    }
  }

  /** While the timer still runs after some firings, the label shows the time left at the last one. */
  lemma {:induction false} RunningShowsLastReading(st: CountdownState, nows: seq<int>)
    requires st.running && nows != []
    requires RunTicks(st, nows).running
    ensures RunTicks(st, nows).text == CountdownText(TargetUs - nows[|nows| - 1])
    decreases |nows|
  {
    var next := TickStep(st, nows[0]);
    if !next.running {
      StoppedIsTerminal(next, nows[1..]);
    } else if |nows| > 1 {
      RunningShowsLastReading(next, nows[1..]);
      assert nows[1..][|nows[1..]| - 1] == nows[|nows| - 1];
    }
  }

  // ---------------------------------------------------------------------------
  // The application object (countdown.py:9-105, window, styling and audio left out)

  class CountdownApp {
    var clockLabel: string
    var countdownLabel: string
    var countdownRunning: bool

    function State(): CountdownState
      reads this
    {
      CountdownState(countdownRunning, countdownLabel)
    }

    ghost predicate Valid()
      reads this
    {
      Consistent(State())
    }

    /**
     * Creates both labels, starts both timers, then updates the clock at
     * clockNowUs and the countdown at countdownNowUs (two readings of the
     * system clock).
     */
    constructor (clockNowUs: int, countdownNowUs: int)
      ensures Valid()
      ensures clockLabel == ClockText(clockNowUs)
      ensures State() == UpdateStep(Started, countdownNowUs)
    {
      clockLabel := InitialClockText;
      countdownLabel := InitialCountdownText;
      countdownRunning := true;
      new;
      StartedConsistent();
      UpdateClock(clockNowUs);
      UpdateCountdown(countdownNowUs);
    }

    /** update_clock: shows the time of day at nowUs. */
    method UpdateClock(nowUs: int)
      modifies this`clockLabel
      ensures clockLabel == ClockText(nowUs)
    {
      clockLabel := ClockText(nowUs);
    }

    /** update_countdown: shows the remaining time, or the arrival text and stops the timer. */
    method UpdateCountdown(nowUs: int)
      modifies this`countdownLabel, this`countdownRunning
      ensures State() == UpdateStep(old(State()), nowUs)
      ensures old(countdownRunning) && old(Valid()) ==> Valid()
    {
      var delta := TargetUs - nowUs;
      if delta <= 0 {
        countdownLabel := ArrivedText;
        countdownRunning := false;
        return;
      }
      var totalHours := delta / (MicrosPerSecond * SecondsPerHour);
      var whole := TruncSeconds(delta);
      var minutes := (whole % SecondsPerHour) / SecondsPerMinute;
      var seconds := whole % SecondsPerMinute;
      countdownLabel := NatToString(totalHours) + " hours, " + NatToString(minutes) + " minutes, "
        + NatToString(seconds) + " seconds";
    }

    /** The countdown timer fires: it calls update_countdown only while it runs. */
    method CountdownTimerFires(nowUs: int)
      requires Valid()
      modifies this`countdownLabel, this`countdownRunning
      ensures Valid()
      ensures State() == TickStep(old(State()), nowUs)
      ensures !old(countdownRunning) ==> countdownLabel == old(countdownLabel) && !countdownRunning
    {
      if countdownRunning {
        UpdateCountdown(nowUs);
      }
    }
  }
}
