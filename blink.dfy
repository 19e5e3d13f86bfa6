/**
 * The button-and-LED demo: a button task polls the pin, detects edges,
 * debounces them against the time of the last release and advances the LED
 * mode on a short press; an LED task blinks according to the mode.  Time is
 * integer milliseconds.
 */
module Blink {

  datatype LedMode = Slow | Medium | Fast | Off

  /** `LedMode::next` */
  function Next(m: LedMode): LedMode
  {
    match m
    case Slow => Medium
    case Medium => Fast
    case Fast => Off
    case Off => Slow
  }

  /** `LedMode::duration`, in milliseconds. */
  function Duration(m: LedMode): nat
  {
    match m
    case Slow => 1000
    case Medium => 500
    case Fast => 200
    case Off => 100
  }

  /** The mode the shared `MODE` starts in. */
  const InitialMode: LedMode := Slow

  /** `Next` applied `k` times. */
  function NextN(m: LedMode, k: nat): LedMode
    decreases k
  {
    if k == 0 then m else NextN(Next(m), k - 1)
  }

  /** The modes form one cycle of length four, visited in the order
      Slow, Medium, Fast, Off, and no mode is its own successor. */
  lemma NextCycle(m: LedMode)
    ensures NextN(m, 4) == m
    ensures Next(m) != m && Next(Next(m)) != m && Next(Next(Next(m))) != m
    ensures NextN(InitialMode, 1) == Medium && NextN(InitialMode, 2) == Fast && NextN(InitialMode, 3) == Off
  {
  }

  /** Only the number of presses modulo four matters. */
  lemma {:induction false} NextNPeriodic(m: LedMode, k: nat)
    ensures NextN(m, k) == NextN(m, k % 4)
    decreases k
  {
    if k >= 4 {
      NextNSplit(m, 4, k - 4);
      NextCycle(m);
      NextNPeriodic(m, k - 4);
      assert (k - 4) % 4 == k % 4;
    }
  }

  lemma {:induction false} NextNSplit(m: LedMode, j: nat, k: nat)
    ensures NextN(m, j + k) == NextN(NextN(m, j), k)
    decreases j
  {
    if j > 0 {
      NextNSplit(Next(m), j - 1, k);
    }
  }

  /** Each mode's duration as `LedMode::duration` gives it, so the blinking
      modes get strictly faster from Slow to Fast. */
  lemma DurationsDecrease()
    ensures Duration(Slow) == 1000 && Duration(Medium) == 500
    ensures Duration(Fast) == 200 && Duration(Off) == 100
    ensures Duration(Slow) > Duration(Medium) > Duration(Fast) > 0
  {
  }

  /** Debounce interval and short-press window, in milliseconds. */
  const DebounceMs: int := 50
  const ShortPressMs: int := 1000

  /** The button task's variables, the shared mode, and how many times the
      LED task has been signalled. */
  datatype ButtonState = ButtonState(
    lastState: bool, lastPress: int, longPressTimer: int, mode: LedMode, signals: nat)

  /** One poll of the pin: level `current` read at time `now`. */
  datatype Sample = Sample(current: bool, now: int)

  /** The state right after start-up at time `start` with the pin at `level`. */
  function Start(start: int, level: bool): ButtonState
  {
    ButtonState(level, start, start, InitialMode, 0)
  }

  /** The timestamps the state holds are not in the future of `now`. */
  predicate NotAfter(st: ButtonState, now: int)
  {
    st.lastPress <= now && st.longPressTimer <= now
  }

  /** A rising edge counts as a short press: it is more than the debounce
      interval after the previous release, and less than the short-press
      window after the press began. */
  predicate ShortPress(st: ButtonState, now: int)
  {
    now - st.lastPress > DebounceMs && now - st.longPressTimer < ShortPressMs
  }

  /** One iteration of the button task's loop. */
  function ButtonStep(st: ButtonState, s: Sample): (r: ButtonState)
  {
    var falling := st.lastState && !s.current;
    var rising := !st.lastState && s.current;
    var timer := if falling then s.now else st.longPressTimer;
    if rising then
      var press := ShortPress(st, s.now);
      ButtonState(s.current, s.now, timer,
                  if press then Next(st.mode) else st.mode,
                  if press then st.signals + 1 else st.signals)
    else
      ButtonState(s.current, st.lastPress, timer, st.mode, st.signals)
  }

  /** How one poll changes the state, edge by edge. */
  lemma ButtonStepCases(st: ButtonState, s: Sample)
    ensures var r := ButtonStep(st, s);
            // every poll remembers the level
            r.lastState == s.current
            // a press (high to low) starts the press timer and never changes the mode
            && (st.lastState && !s.current ==>
                  r.longPressTimer == s.now && r.mode == st.mode && r.signals == st.signals
                  && r.lastPress == st.lastPress)
            // a release (low to high) always records the release time, and
            // advances the mode by one and signals exactly on a short press
            && (!st.lastState && s.current ==>
                  r.lastPress == s.now && r.longPressTimer == st.longPressTimer
                  && (r.signals == st.signals + 1 <==> ShortPress(st, s.now))
                  && r.mode == (if ShortPress(st, s.now) then Next(st.mode) else st.mode))
            // no edge: only the level is recorded
            && (st.lastState == s.current ==> r == st.(lastState := s.current))
  {
  }

  /** Polls at non-decreasing times, none before `start`. */
  predicate Monotone(start: int, samples: seq<Sample>)
  {
    (forall i :: 0 <= i < |samples| ==> start <= samples[i].now)
    && (forall i, j :: 0 <= i < j < |samples| ==> samples[i].now <= samples[j].now)
  }

  /** The state after a series of polls. */
  function RunButton(st: ButtonState, samples: seq<Sample>): (r: ButtonState)
    decreases |samples|
  {
    if samples == [] then st
    else RunButton(ButtonStep(st, samples[0]), samples[1..])
  }

  /** The mode is always the initial one advanced once per signal. */
  lemma {:induction false} ModeFollowsSignals(st: ButtonState, samples: seq<Sample>)
    ensures var r := RunButton(st, samples);
            r.signals >= st.signals && r.mode == NextN(st.mode, r.signals - st.signals)
    decreases |samples|
  {
    if samples != [] {
      var st' := ButtonStep(st, samples[0]);
      ModeFollowsSignals(st', samples[1..]);
      var r := RunButton(st', samples[1..]);
      if st'.signals == st.signals + 1 {
        NextNSplit(st.mode, 1, r.signals - st'.signals);
      }
    }
  }

  /** The button task's loop over a series of polls; `mode` is the shared
      mode at the end and `signalTimes` the times the LED task was signalled. */
  method ButtonTask(start: int, level: bool, samples: seq<Sample>)
    returns (mode: LedMode, signalTimes: seq<int>)
    requires Monotone(start, samples)
    ensures mode == RunButton(Start(start, level), samples).mode
    ensures |signalTimes| == RunButton(Start(start, level), samples).signals
    ensures mode == NextN(InitialMode, |signalTimes|)
    // signals are debounced: any two are more than the debounce interval apart
    ensures forall k :: 0 < k < |signalTimes| ==> signalTimes[k] - signalTimes[k - 1] > DebounceMs
  {
    var lastState := level;
    var lastPress := start;
    var longPressTimer := start;
    mode := InitialMode;
    signalTimes := [];
    var i := 0;
    while i < |samples|
      invariant i <= |samples|
      invariant var st := RunButton(Start(start, level), samples[..i]);
                st == ButtonState(lastState, lastPress, longPressTimer, mode, |signalTimes|)
      // the clock never runs backwards, so `duration_since` never underflows
      invariant NotAfter(ButtonState(lastState, lastPress, longPressTimer, mode, 0),
                         if i == 0 then start else samples[i - 1].now)
      invariant |signalTimes| > 0 ==> signalTimes[|signalTimes| - 1] <= lastPress
      invariant forall k :: 0 < k < |signalTimes| ==> signalTimes[k] - signalTimes[k - 1] > DebounceMs
    {
      var current := samples[i].current;
      var now := samples[i].now;
      if lastState && !current {
        longPressTimer := now;
      }
      if !lastState && current {
        if now - lastPress > DebounceMs {
          if now - longPressTimer < ShortPressMs {
            mode := Next(mode);
            signalTimes := signalTimes + [now];
          }
        }
        lastPress := now;
      }
      lastState := current;
      RunButtonSnoc(Start(start, level), samples[..i], samples[i]);
      assert samples[..i + 1] == samples[..i] + [samples[i]];
      i := i + 1;
    }
    assert samples[..i] == samples;
    ModeFollowsSignals(Start(start, level), samples);
  }

  lemma {:induction false} RunButtonSnoc(st: ButtonState, samples: seq<Sample>, s: Sample)
    ensures RunButton(st, samples + [s]) == ButtonStep(RunButton(st, samples), s)
    decreases |samples|
  {
    if samples == [] {
      assert samples + [s] == [s];
    } else {
      assert (samples + [s])[1..] == samples[1..] + [s];
      RunButtonSnoc(ButtonStep(st, samples[0]), samples[1..], s);
    }
  }

  /** How long the LED task waits in a phase before looking at the mode again. */
  datatype Wait = For(ms: nat) | UntilSignal

  /** What the LED task does in one phase: the level it drives, then the wait. */
  datatype Phase = Phase(high: bool, wait: Wait)

  /** `led_task`: Off drives the LED low and waits for a signal; every other
      mode drives it high, then low, each for the mode's duration, a signal
      cutting either wait short. */
  function LedPlan(m: LedMode): (p: seq<Phase>)
  {
    if m == Off then [Phase(false, UntilSignal)]
    else [Phase(true, For(Duration(m))), Phase(false, For(Duration(m)))]
  }

  /** Off keeps the LED dark until signalled; a blinking mode is on and then
      off, each for exactly the mode's duration, so its period is twice the
      duration and never waits for a signal alone. */
  lemma LedPlanShape(m: LedMode)
    ensures m == Off ==> LedPlan(m) == [Phase(false, UntilSignal)]
    ensures m != Off ==> LedPlan(m) == [Phase(true, For(Duration(m))), Phase(false, For(Duration(m)))]
    ensures m == Off <==> forall k :: 0 <= k < |LedPlan(m)| ==> !LedPlan(m)[k].high
    ensures m != Off ==> LedPlan(m)[0].wait.ms + LedPlan(m)[1].wait.ms == 2 * Duration(m)
  {
    if m != Off {
      assert LedPlan(m)[0].high;
    }
  }
}
