/** The meditation timer: a countdown from a preset duration, started, paused
    and reset by its buttons, that logs the session's duration when it reaches
    zero; and the `m:ss` display of the time left. The one-second interval is a
    `Tick` call; the POST that logs a session is an entry appended to `logged`. */
module MeditationTimer {
  import opened Wrappers

  /** The preset durations in seconds, for the buttons 5m, 10m and 15m. */
  const PresetSeconds: seq<int> := [300, 600, 900]

  /** The component's state: the chosen duration and the seconds left (both in
      seconds), whether the interval runs, whether the session completed, and
      the durations sent to the session log so far, in order. */
  datatype Timer = Timer(duration: int, timeLeft: int, isActive: bool, isFinished: bool, logged: seq<int>)

  /** The first render: five minutes, not running, not finished, nothing logged. */
  const Initial: Timer := Timer(300, 300, false, false, [])

  /** What holds in every state the buttons and the interval can reach. */
  predicate Consistent(t: Timer)
  {
    && t.duration in PresetSeconds
    && 0 <= t.timeLeft <= t.duration
    && (t.isFinished ==> t.timeLeft == 0)
    && !(t.isActive && t.isFinished)
    && forall i :: 0 <= i < |t.logged| ==> t.logged[i] in PresetSeconds
  }

  /** `startTimer`: does nothing while running; otherwise starts the interval
      and clears the finished flag. */
  function Start(t: Timer): (u: Timer)
    ensures t.isActive ==> u == t
    ensures !t.isActive ==> u.isActive && !u.isFinished
    ensures u.duration == t.duration && u.timeLeft == t.timeLeft && u.logged == t.logged
  {
    if t.isActive then t else t.(isActive := true, isFinished := false)
  }

  /** One second of the interval. Nothing happens unless it runs. With one
      second or less left it finishes the session: the time left becomes 0,
      the interval stops, the session is marked finished and its duration
      logged; otherwise one second is taken off. */
  function Tick(t: Timer): Timer
  {
    if !t.isActive then t
    else if t.timeLeft <= 1 then t.(timeLeft := 0, isActive := false, isFinished := true, logged := t.logged + [t.duration])
    else t.(timeLeft := t.timeLeft - 1)
  }

  /** `pauseTimer`: stops the interval and nothing else. */
  function Pause(t: Timer): (u: Timer)
    ensures !u.isActive && u.(isActive := t.isActive) == t
  {
    t.(isActive := false)
  }

  /** `resetTimer`: stops, refills the time left to the duration and clears
      the finished flag. */
  function Reset(t: Timer): (u: Timer)
    ensures !u.isActive && !u.isFinished && u.timeLeft == u.duration
    ensures u.duration == t.duration && u.logged == t.logged
  {
    Pause(t).(timeLeft := t.duration, isFinished := false)
  }

  /** `setPreset(sec)`: stops, and makes `sec` both the duration and the time
      left, clearing the finished flag. */
  function SetPreset(t: Timer, sec: int): (u: Timer)
    ensures !u.isActive && !u.isFinished && u.duration == sec && u.timeLeft == sec
    ensures u.logged == t.logged
  {
    Pause(t).(duration := sec, timeLeft := sec, isFinished := false)
  }

  /** The reset button is shown once the countdown has moved or completed. */
  predicate ShowReset(t: Timer)
  {
    t.timeLeft != t.duration || t.isFinished
  }

  /** The label under the time: 'Focus' while running, 'Completed' after a
      finished session, 'Ready' otherwise. */
  function StatusLabel(t: Timer): (s: string)
    ensures s == "Focus" <==> t.isActive
    ensures s == "Completed" <==> !t.isActive && t.isFinished
    ensures s == "Ready" <==> !t.isActive && !t.isFinished
  {
    if t.isActive then "Focus" else if t.isFinished then "Completed" else "Ready"
  }

  lemma InitialConsistent()
    ensures Consistent(Initial) && !ShowReset(Initial)
  {
  }

  /** Every button and every tick keeps the state consistent, as long as the
      preset chosen is one of the three. */
  lemma StepsKeepConsistent(t: Timer, sec: int)
    requires Consistent(t)
    ensures Consistent(Start(t)) && Consistent(Tick(t)) && Consistent(Pause(t)) && Consistent(Reset(t))
    ensures sec in PresetSeconds ==> Consistent(SetPreset(t, sec))
  {
    var u := Tick(t);
    if t.isActive && t.timeLeft <= 1 {
      assert u.logged == t.logged + [t.duration];
      forall i | 0 <= i < |u.logged|
        ensures u.logged[i] in PresetSeconds
      {
        if i < |t.logged| {
          assert u.logged[i] == t.logged[i];
        }
      }
    }
  }

  /** Starting an already running timer changes nothing. */
  lemma StartIdempotent(t: Timer)
    ensures Start(Start(t)) == Start(t)
  {
  }

  /** After a reset or a preset the reset button is hidden; once a running,
      consistent timer has ticked it is shown. */
  lemma ResetButtonVisibility(t: Timer, sec: int)
    ensures !ShowReset(Reset(t)) && !ShowReset(SetPreset(t, sec))
    ensures Consistent(t) && t.isActive ==> ShowReset(Tick(t))
  {
  }

  /** The state after k ticks. */
  function Ticks(t: Timer, k: nat): Timer
    decreases k
  {
    if k == 0 then t else Ticks(Tick(t), k - 1)
  }

  /** While fewer ticks than seconds left have passed, each tick takes exactly
      one second off and the timer keeps running. */
  lemma {:induction false} CountsDown(t: Timer, k: nat)
    requires t.isActive && k < t.timeLeft
    ensures Ticks(t, k) == t.(timeLeft := t.timeLeft - k)
    decreases k
  {
    if k > 0 {
      CountsDown(Tick(t), k - 1);
    }
  }

  /** A started session of n seconds completes after exactly n ticks: the
      timer stops at zero, marked finished, and the duration is logged once. */
  lemma {:induction false} SessionCompletes(t: Timer)
    requires t.isActive && t.timeLeft >= 1
    ensures Ticks(t, t.timeLeft) == Timer(t.duration, 0, false, true, t.logged + [t.duration])
  {
    var n := t.timeLeft;
    CountsDown(t, n - 1);
    var last := Ticks(t, n - 1);
    assert last.timeLeft == 1 && last.isActive;
    TicksSplit(t, n - 1);
  }

  /** n ticks are n - 1 ticks followed by one more. */
  lemma {:induction false} TicksSplit(t: Timer, k: nat)
    ensures Ticks(t, k + 1) == Tick(Ticks(t, k))
    decreases k
  {
    if k > 0 {
      TicksSplit(Tick(t), k - 1);
    }
  }

  /** Pressing start on a completed session without resetting it logs the full
      duration once more on the next tick, with no time counted down. */
  lemma RestartAfterFinishLogsAgain(t: Timer)
    requires Consistent(t) && t.isFinished
    ensures Tick(Start(t)).logged == t.logged + [t.duration]
    ensures Tick(Start(t)).isFinished && Tick(Start(t)).timeLeft == 0
  {
  }

  // The `m:ss` display.

  predicate IsDigit(c: char)
  {
    '0' <= c <= '9'
  }

  predicate AllDigits(s: string)
  {
    forall i :: 0 <= i < |s| ==> IsDigit(s[i])
  }

  function DigitChar(d: int): (c: char)
    requires 0 <= d < 10
    ensures IsDigit(c) && c as int - '0' as int == d
  {
    ('0' as int + d) as char
  }

  /** `n.toString()` for a non-negative integer: its decimal digits, with no
      leading zero. */
  function Decimal(n: nat): (r: string)
    ensures 1 <= |r| && AllDigits(r)
    ensures (|r| == 1) <==> n < 10
    ensures n >= 10 ==> r[0] != '0'
    ensures n < 100 ==> |r| <= 2
  {
    if n < 10 then [DigitChar(n)] else Decimal(n / 10) + [DigitChar(n % 10)]
  }

  /** The number a string of decimal digits denotes. */
  function DigitsValue(s: string): nat
    requires AllDigits(s)
  {
    if s == [] then 0 else DigitsValue(s[..|s| - 1]) * 10 + (s[|s| - 1] as int - '0' as int)
  }

  /** Reading back a printed number gives the number. */
  lemma {:induction false} DecimalRoundTrip(n: nat)
    ensures DigitsValue(Decimal(n)) == n
  {
    if n >= 10 {
      var r := Decimal(n);
      assert r[..|r| - 1] == Decimal(n / 10);
      DecimalRoundTrip(n / 10);
    }
  }

  /** `str.padStart(2, '0')`. */
  function PadStart2(str: string): (r: string)
    ensures |str| >= 2 ==> r == str
    ensures |str| < 2 ==> |r| == 2 && r[2 - |str|..] == str
    ensures forall i :: 0 <= i < 2 - |str| ==> r[i] == '0'
    decreases 2 - |str|
  {
    if |str| >= 2 then str else PadStart2("0" + str)
  }

  /** `formatTime(sec)`: whole minutes, a colon, and the remaining seconds in
      two digits. */
  function FormatTime(sec: nat): (r: string)
    ensures ':' in r
  {
    Decimal(sec / 60) + ":" + PadStart2(Decimal(sec % 60))
  }

  /** The position of the first colon, or |s| when there is none. */
  function ColonIndex(s: string): (k: nat)
    ensures k <= |s|
    ensures k < |s| ==> s[k] == ':'
    ensures forall i :: 0 <= i < k ==> s[i] != ':'
  {
    if s == [] then 0 else if s[0] == ':' then 0 else 1 + ColonIndex(s[1..])
  }

  /** Reads an `m:ss` display back into seconds: digits, a colon, and exactly
      two digits below 60; anything else does not parse. */
  function ParseClock(s: string): (r: Option<nat>)
    ensures r.Some? ==> ':' in s
  {
    var k := ColonIndex(s);
    if k == 0 || k == |s| then None
    else
      var minutes, seconds := s[..k], s[k + 1..];
      if !AllDigits(minutes) || |seconds| != 2 || !AllDigits(seconds) then None
      else if DigitsValue(seconds) >= 60 then None
      else Some(DigitsValue(minutes) * 60 + DigitsValue(seconds))
  }

  /** The two-digit seconds field reads back as the seconds. */
  lemma {:induction false} SecondsRoundTrip(s: nat)
    requires s < 60
    ensures |PadStart2(Decimal(s))| == 2 && AllDigits(PadStart2(Decimal(s)))
    ensures DigitsValue(PadStart2(Decimal(s))) == s
  {
    var d := Decimal(s);
    DecimalRoundTrip(s);
    if s < 10 {
      var p := PadStart2(d);
      assert p == "0" + d;
      assert p[..1] == "0";
      assert DigitsValue(p[..1]) == 0 by {
        assert p[..1][..0] == [];
      }
    }
  }

  /** The display can be read back: it shows exactly the seconds left, so two
      different times never look the same. */
  lemma FormatTimeRoundTrip(sec: nat)
    ensures ParseClock(FormatTime(sec)) == Some(sec)
  {
    var mins, secs := Decimal(sec / 60), PadStart2(Decimal(sec % 60));
    var s := FormatTime(sec);
    assert s == mins + ":" + secs;
    SecondsRoundTrip(sec % 60);
    DecimalRoundTrip(sec / 60);
    assert forall i :: 0 <= i < |mins| ==> s[i] == mins[i] && s[i] != ':';
    assert s[|mins|] == ':';
    assert ColonIndex(s) == |mins|;
    assert s[..|mins|] == mins;
    assert s[|mins| + 1..] == secs;
  }

  lemma FormatTimeInjective(a: nat, b: nat)
    requires FormatTime(a) == FormatTime(b)
    ensures a == b
  {
    FormatTimeRoundTrip(a);
    FormatTimeRoundTrip(b);
  }

  /** The component's state as the fields React keeps, updated in place by the
      handlers and the interval. */
  class MeditationTimerState {
    var duration: int
    var timeLeft: int
    var isActive: bool
    var isFinished: bool
    var logged: seq<int>

    function State(): Timer
      reads this
    {
      Timer(duration, timeLeft, isActive, isFinished, logged)
    }

    constructor ()
      ensures State() == Initial
    {
      duration := 300;
      timeLeft := 300;
      isActive := false;
      isFinished := false;
      logged := [];
    }

    method StartTimer()
      modifies this
      ensures State() == Start(old(State()))
    {
      if isActive {
        return;
      }
      isActive := true;
      isFinished := false;
    }

    /** The interval's callback, including `finishSession` when the time is up. */
    method OnTick()
      modifies this
      ensures State() == Tick(old(State()))
    {
      if !isActive {
        return;
      }
      if timeLeft <= 1 {
        isActive := false;
        isFinished := true;
        logged := logged + [duration];
        timeLeft := 0;
      } else {
        timeLeft := timeLeft - 1;
      }
    }

    method PauseTimer()
      modifies this
      ensures State() == Pause(old(State()))
    {
      isActive := false;
    }

    method ResetTimer()
      modifies this
      ensures State() == Reset(old(State()))
    {
      PauseTimer();
      timeLeft := duration;
      isFinished := false;
    }

    method ChoosePreset(sec: int)
      modifies this
      ensures State() == SetPreset(old(State()), sec)
    {
      PauseTimer();
      duration := sec;
      timeLeft := sec;
      isFinished := false;
    }
  }
}
