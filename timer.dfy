/** The exam countdown: whole seconds elapsed since the session's start,
    the `mm:ss` display, the colour and pulse thresholds on the time left,
    and the one-second interval that fires the time-up callback. */
module Countdown {
  import opened Common
  import opened Schema

  // ---------------------------------------------------------------------
  // The `mm:ss` display
  // ---------------------------------------------------------------------

  predicate IsDigit(c: char)
  {
    '0' <= c <= '9'
  }

  predicate AllDigits(s: string)
  {
    forall i :: 0 <= i < |s| ==> IsDigit(s[i])
  }

  function DigitChar(d: nat): (c: char)
    requires d < 10
    ensures IsDigit(c) && c as int - '0' as int == d
  {
    ('0' as int + d) as char
  }

  /** The decimal digits of `n`, without leading zeros. */
  function Decimal(n: nat): (s: string)
    ensures |s| >= 1 && AllDigits(s)
    ensures |s| > 1 ==> s[0] != '0'
  {
    if n < 10 then [DigitChar(n)] else Decimal(n / 10) + [DigitChar(n % 10)]
  }

  /** The number a string of digits spells. */
  function DigitsValue(s: string): nat
    requires AllDigits(s)
  {
    if |s| == 0 then 0 else 10 * DigitsValue(s[..|s| - 1]) + (s[|s| - 1] as int - '0' as int)
  }

  /** `Decimal` and `DigitsValue` are inverse. */
  lemma {:induction false} DecimalRoundTrip(n: nat)
    ensures DigitsValue(Decimal(n)) == n
  {
    if n >= 10 {
      DecimalRoundTrip(n / 10);
      var s := Decimal(n);
      assert s[..|s| - 1] == Decimal(n / 10);
    }
  }

  /** `String(n)` for an integer. */
  function JsString(n: int): (s: string)
    ensures n >= 0 ==> s == Decimal(n)
    ensures n < 0 ==> s == "-" + Decimal(-n)
  {
    if n < 0 then "-" + Decimal(-n) else Decimal(n)
  }

  /** `s.padStart(2, "0")`. */
  function PadStart2(s: string): (r: string)
    ensures |r| == if |s| >= 2 then |s| else 2
    ensures r[|r| - |s|..] == s
    ensures forall i :: 0 <= i < |r| - |s| ==> r[i] == '0'
  {
    if |s| >= 2 then s else seq(2 - |s|, _ => '0') + s
  }

  /** Leading zeros do not change the number a digit string spells. */
  lemma {:induction false} LeadingZeros(z: string, s: string)
    requires forall i :: 0 <= i < |z| ==> z[i] == '0'
    requires AllDigits(s)
    ensures AllDigits(z + s) && DigitsValue(z + s) == DigitsValue(s)
  {
    assert AllDigits(z + s) by {
      forall i | 0 <= i < |z + s|
        ensures IsDigit((z + s)[i])
      {
        if i >= |z| {
          assert (z + s)[i] == s[i - |z|];
        }
      }
    }
    if |s| == 0 {
      assert z + s == z;
      ZerosValue(z);
    } else {
      var init := s[..|s| - 1];
      assert (z + s)[..|z + s| - 1] == z + init;
      LeadingZeros(z, init);
    }
  }

  /** A string of zeros spells 0. */
  lemma {:induction false} ZerosValue(z: string)
    requires forall i :: 0 <= i < |z| ==> z[i] == '0'
    ensures AllDigits(z) && DigitsValue(z) == 0
  {
    if |z| > 0 {
      ZerosValue(z[..|z| - 1]);
    }
  }

  /** JavaScript's `%`: the remainder takes the sign of the dividend. */
  function JsRem(a: int, b: int): (r: int)
    requires b > 0
    ensures a >= 0 ==> 0 <= r < b
    ensures a < 0 ==> -b < r <= 0
  {
    if a >= 0 then a % b else -((-a) % b)
  }

  /** Unlike Dafny's `%`, JavaScript's is odd in the dividend, and agrees
      with it on non-negative dividends. */
  lemma JsRemOdd(a: int, b: int)
    requires b > 0
    ensures JsRem(-a, b) == -JsRem(a, b)
    ensures a >= 0 ==> JsRem(a, b) == a % b
  {
  }

  /** The timer's text: `Math.floor(timeElapsed / 60)` and
      `timeElapsed % 60`, each padded to two characters, joined by ':'. */
  function FormatTime(timeElapsed: int): string
  {
    PadStart2(JsString(timeElapsed / 60)) + ":" + PadStart2(JsString(JsRem(timeElapsed, 60)))
  }

  /** A padded decimal spells the number it was made from. */
  lemma PaddedValue(n: nat)
    ensures AllDigits(PadStart2(Decimal(n))) && DigitsValue(PadStart2(Decimal(n))) == n
  {
    var d := Decimal(n);
    var p := PadStart2(d);
    DecimalRoundTrip(n);
    assert p == p[..|p| - |d|] + d;
    LeadingZeros(p[..|p| - |d|], d);
  }

  /** A number below 100 pads to exactly two characters. */
  lemma PaddedWidth(n: nat)
    requires n < 100
    ensures |PadStart2(Decimal(n))| == 2
  {
    if n >= 10 {
      var high := n / 10;
      assert high < 10;
      assert |Decimal(high)| == 1;
      assert |Decimal(n)| == 2;
    }
  }

  /** For a non-negative count, the display is `mm:ss`: digits, a colon,
      exactly two digits of seconds below 60, and the minutes and seconds
      give back the count. */
  lemma FormatTimeReadsBack(timeElapsed: nat)
    ensures var r := FormatTime(timeElapsed);
      && |r| >= 5 && r[|r| - 3] == ':'
      && AllDigits(r[..|r| - 3]) && AllDigits(r[|r| - 2..])
      && DigitsValue(r[|r| - 2..]) < 60
      && 60 * DigitsValue(r[..|r| - 3]) + DigitsValue(r[|r| - 2..]) == timeElapsed
  {
    var minutes := timeElapsed / 60;
    var seconds := timeElapsed % 60;
    JsRemOdd(timeElapsed, 60);
    var mm := PadStart2(Decimal(minutes));
    var ss := PadStart2(Decimal(seconds));
    PaddedWidth(seconds);
    PaddedValue(minutes);
    PaddedValue(seconds);
    Joined(mm, ss);
    var r := FormatTime(timeElapsed);
    assert r == mm + ":" + ss;
    assert DigitsValue(r[..|r| - 3]) == minutes;
    assert DigitsValue(r[|r| - 2..]) == seconds;
    assert 60 * minutes + seconds == timeElapsed;
  }

  /** The parts of `mm + ":" + ss` when `ss` has two characters. */
  lemma Joined(mm: string, ss: string)
    requires |ss| == 2
    ensures var r := mm + ":" + ss;
      |r| == |mm| + 3 && r[..|r| - 3] == mm && r[|r| - 3] == ':' && r[|r| - 2..] == ss
  {
  }

  /** Under 100 minutes the display is exactly five characters. */
  lemma FormatTimeWidth(timeElapsed: nat)
    requires timeElapsed < 6000
    ensures |FormatTime(timeElapsed)| == 5
  {
    JsRemOdd(timeElapsed, 60);
    PaddedWidth(timeElapsed / 60);
    PaddedWidth(timeElapsed % 60);
  }

  // ---------------------------------------------------------------------
  // Colour and pulse
  // ---------------------------------------------------------------------

  /** The three text colours of the display. */
  datatype Tone = Destructive | Warning | Foreground

  /** The class name each colour is rendered with. */
  function ClassName(t: Tone): string
  {
    match t
    case Destructive => "text-destructive"
    case Warning => "text-[hsl(38,95%,50%)]"
    case Foreground => "text-foreground"
  }

  /** `duration * 60 - timeElapsed`: seconds left, negative once over. */
  function TimeRemaining(duration: int, timeElapsed: int): int
  {
    duration * 60 - timeElapsed
  }

  /** `getColorClass`: red from two minutes left, yellow from five. */
  function ColorFor(timeRemaining: int): Tone
  {
    if timeRemaining <= 120 then Destructive
    else if timeRemaining <= 300 then Warning
    else Foreground
  }

  /** How alarming a colour is. */
  function Urgency(t: Tone): (u: nat)
    ensures u <= 2
  {
    match t
    case Foreground => 0
    case Warning => 1
    case Destructive => 2
  }

  /** Plain is calmer than yellow, which is calmer than red, and no two
      colours are equally alarming. */
  lemma UrgencyOrder()
    ensures Urgency(Foreground) < Urgency(Warning) < Urgency(Destructive)
    ensures forall t1: Tone, t2: Tone :: Urgency(t1) == Urgency(t2) ==> t1 == t2
  {
  }

  /** Each colour covers exactly its band of remaining time, the red test
      taking precedence. */
  lemma ColorBands(timeRemaining: int)
    ensures ColorFor(timeRemaining) == Destructive <==> timeRemaining <= 120
    ensures ColorFor(timeRemaining) == Warning <==> 120 < timeRemaining <= 300
    ensures ColorFor(timeRemaining) == Foreground <==> 300 < timeRemaining
  {
  }

  /** As time passes the colour never becomes less alarming. */
  lemma ColorNeverCalms(duration: int, earlier: int, later: int)
    requires earlier <= later
    ensures Urgency(ColorFor(TimeRemaining(duration, earlier))) <= Urgency(ColorFor(TimeRemaining(duration, later)))
  {
  }

  /** `shouldPulse`. */
  predicate ShouldPulse(timeRemaining: int)
  {
    timeRemaining <= 120
  }

  /** The display pulses exactly when it is red. */
  lemma PulseIffRed(timeRemaining: int)
    ensures ShouldPulse(timeRemaining) <==> ColorFor(timeRemaining) == Destructive
  {
  }

  // ---------------------------------------------------------------------
  // The interval
  // ---------------------------------------------------------------------

  /** One mounted timer. `intervalSet` says whether the effect's interval
      is running; `timeUpCalls` counts the `onTimeUp` calls made by the
      current effect. Clock readings are passed in as `now`. */
  class ExamTimer {
    var startTime: Timestamp
    var duration: int
    var isPaused: bool
    var timeElapsed: int
    var intervalSet: bool
    var timeUpCalls: nat

    /** The interval fires `onTimeUp` at most once and stops when it does,
        and a paused timer runs no interval. */
    ghost predicate Valid()
      reads this
    {
      && timeUpCalls <= 1
      && (timeUpCalls == 1 ==> !intervalSet && timeElapsed >= duration * 60)
      && (isPaused ==> !intervalSet && timeUpCalls == 0)
    }

    /** Mounting: the state starts at the whole seconds since the start,
        and the effect sets the interval unless paused. */
    constructor(startTime: Timestamp, duration: int, isPaused: bool, now: Timestamp)
      ensures Valid()
      ensures this.startTime == startTime && this.duration == duration && this.isPaused == isPaused
      ensures timeElapsed == FloorSeconds(now - startTime)
      ensures intervalSet == !isPaused && timeUpCalls == 0
    {
      this.startTime := startTime;
      this.duration := duration;
      this.isPaused := isPaused;
      timeElapsed := FloorSeconds(now - startTime);
      intervalSet := !isPaused;
      timeUpCalls := 0;
    }

    /** The time is up at this reading. */
    predicate TimeIsUp(now: Timestamp)
      reads this
    {
      FloorSeconds(now - startTime) >= duration * 60
    }

    /** One interval callback. A cleared interval delivers none. */
    method Tick(now: Timestamp)
      requires Valid()
      modifies this`timeElapsed, this`intervalSet, this`timeUpCalls
      ensures Valid()
      ensures !old(intervalSet) ==>
        timeElapsed == old(timeElapsed) && !intervalSet && timeUpCalls == old(timeUpCalls)
      ensures old(intervalSet) ==> timeElapsed == FloorSeconds(now - startTime)
      ensures old(intervalSet) ==>
        intervalSet == !TimeIsUp(now) && timeUpCalls == (if TimeIsUp(now) then 1 else 0)
    {
      if !intervalSet {
        return;
      }
      var elapsed := FloorSeconds(now - startTime);
      var total := duration * 60;
      timeElapsed := elapsed;
      if elapsed >= total {
        intervalSet := false;
        timeUpCalls := timeUpCalls + 1;
      }
    }

    /** A run of interval callbacks at the given clock readings. */
    method TickAll(nows: seq<Timestamp>)
      requires Valid()
      modifies this`timeElapsed, this`intervalSet, this`timeUpCalls
      ensures Valid()
      ensures timeUpCalls == 1 <==>
        old(timeUpCalls) == 1 || (old(intervalSet) && exists i :: 0 <= i < |nows| && TimeIsUp(nows[i]))
      ensures isPaused ==> timeUpCalls == 0
    {
      ghost var wasSet := intervalSet;
      for j := 0 to |nows|
        invariant Valid()
        invariant timeUpCalls == 1 <==>
          old(timeUpCalls) == 1 || (wasSet && exists i :: 0 <= i < j && TimeIsUp(nows[i]))
        invariant wasSet ==> (intervalSet <==> timeUpCalls == 0)
        invariant !wasSet ==> !intervalSet && timeUpCalls == old(timeUpCalls)
      {
        Tick(nows[j]);
        assert TimeIsUp(nows[j]) ==> exists i :: 0 <= i < j + 1 && TimeIsUp(nows[i]);
      }
    }

    /** A change of start time, duration or pause: the old interval is
        cleared and the effect runs again. The elapsed state is kept until
        the next callback. */
    method Rerun(startTime: Timestamp, duration: int, isPaused: bool)
      modifies this
      ensures Valid()
      ensures this.startTime == startTime && this.duration == duration && this.isPaused == isPaused
      ensures timeElapsed == old(timeElapsed)
      ensures intervalSet == !isPaused && timeUpCalls == 0
    {
      this.startTime := startTime;
      this.duration := duration;
      this.isPaused := isPaused;
      intervalSet := !isPaused;
      timeUpCalls := 0;
    }
  }
}
