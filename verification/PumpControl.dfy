/** The pump controller as a state machine: button, errors, hysteresis and schedule, and what holds
    over its runs. Times are in milliseconds, temperatures in hundredths of a degree. */
module PumpControl {
  import opened Arithmetic

  /** on is the pump register, driven the state of the output pin, latch the button's hold on the
      pump, lastClick the time of the last accepted press. */
  datatype Pump = Pump(on: bool, driven: bool, latch: bool, lastClick: nat)

  datatype Inputs = Inputs(
    errors: int, temp: int, ref: int, hysteresis: int, timeLimit: int, scheduled: bool, now: nat)

  const DEBOUNCE := 100

  function TurnOn(p: Pump): Pump { p.(on := true, driven := true) }

  function TurnOff(p: Pump): Pump { p.(on := false, driven := false) }

  predicate Hot(i: Inputs) { i.temp > i.ref + i.hysteresis }

  /** What it takes to switch the pump on. */
  predicate Cold(i: Inputs) { i.errors == 0 && i.scheduled && i.temp < i.ref - i.hysteresis }

  /** The time limit is compared as an unsigned 64-bit number: a negative one never runs out. */
  predicate Late(i: Inputs, click: nat) { i.now >= click && i.now - click > Unsigned64(i.timeLimit) }

  /** The button's hold, dropped when its time is over. */
  function Expired(p: Pump, i: Inputs): Pump {
    if p.latch && Late(i, p.lastClick) then TurnOff(p).(latch := false) else p
  }

  /** One control step. */
  function Control(p: Pump, i: Inputs): Pump {
    if i.errors != 0 then TurnOff(p)
    else if Hot(i) then TurnOff(p).(latch := false)
    else if Cold(i) then TurnOn(Expired(p, i))
    else Expired(p, i)
  }

  /** A falling edge of the button; the level is read again to reject noise. */
  function Pressed(p: Pump, now: nat, pinHigh: bool): Pump {
    if p.lastClick + DEBOUNCE > now || pinHigh then p
    else if p.latch then TurnOff(p).(latch := false, lastClick := now)
    else TurnOn(p).(latch := true, lastClick := now)
  }

  predicate Accepted(p: Pump, now: nat, pinHigh: bool) {
    p.lastClick + DEBOUNCE <= now && !pinHigh
  }

  datatype Event = Press(now: nat, pinHigh: bool) | Step(inputs: Inputs) | Write(value: bool)

  function Next(p: Pump, e: Event): Pump {
    match e
    case Press(now, pinHigh) => Pressed(p, now, pinHigh)
    case Step(i) => Control(p, i)
    case Write(v) => p.(on := v)
  }

  function RunEvents(p: Pump, events: seq<Event>): Pump {
    if |events| == 0 then p else Next(RunEvents(p, events[..|events| - 1]), events[|events| - 1])
  }

  function RunSteps(p: Pump, steps: seq<Inputs>): Pump {
    if |steps| == 0 then p else Control(RunSteps(p, steps[..|steps| - 1]), steps[|steps| - 1])
  }

  // ---- Button ----

  lemma {:induction false} ClicksGrow(p: Pump, events: seq<Event>, k: nat)
    requires k <= |events|
    ensures RunEvents(p, events[..k]).lastClick <= RunEvents(p, events).lastClick
    decreases |events|
  {
    if k == |events| {
      assert events[..k] == events;
    } else {
      var front := events[..|events| - 1];
      assert front[..k] == events[..k];
      ClicksGrow(p, front, k);
    }
  }

  /** In every run, whatever steps, writes and bounces lie between them, two accepted presses are at
      least 100 ms apart. */
  lemma PressesApart(p: Pump, events: seq<Event>, i: nat, j: nat)
    requires i < j < |events| && events[i].Press? && events[j].Press?
    requires Accepted(RunEvents(p, events[..i]), events[i].now, events[i].pinHigh)
    requires Accepted(RunEvents(p, events[..j]), events[j].now, events[j].pinHigh)
    ensures events[j].now >= events[i].now + 100
  {
    assert events[..i + 1][..i] == events[..i];
    assert events[..j][..i + 1] == events[..i + 1];
    ClicksGrow(p, events[..j], i + 1);
  }

  /** An accepted press turns the pump over, hold and all: on if the hold was off, off if it was on. */
  lemma PressTurnsOver(p: Pump, now: nat, pinHigh: bool)
    ensures var q := Pressed(p, now, pinHigh);
            if p.lastClick + 100 <= now && !pinHigh
            then q.on == q.driven == q.latch == !p.latch && q.lastClick == now
            else q == p
  {}

  function AcceptedPresses(p: Pump, events: seq<Event>): nat {
    if |events| == 0 then 0
    else
      var front, e := events[..|events| - 1], events[|events| - 1];
      AcceptedPresses(p, front)
        + if e.Press? && RunEvents(p, front).lastClick + 100 <= e.now && !e.pinHigh then 1 else 0
  }

  /** From rest, presses alone have the pump on exactly after an odd number of accepted ones. */
  lemma {:induction false} PressesAlternate(p: Pump, events: seq<Event>)
    requires !p.on && !p.driven && !p.latch
    requires forall k :: 0 <= k < |events| ==> events[k].Press?
    ensures var q := RunEvents(p, events);
            q.on == q.driven == q.latch == (AcceptedPresses(p, events) % 2 == 1)
    decreases |events|
  {
    if |events| > 0 {
      var front, e := events[..|events| - 1], events[|events| - 1];
      PressesAlternate(p, front);
      PressTurnsOver(RunEvents(p, front), e.now, e.pinHigh);
      hide Pressed;
    }
  }

  /** Without writes from outside, the output pin follows the register. */
  lemma {:induction false} PinFollowsRegister(p: Pump, events: seq<Event>)
    requires p.on == p.driven && forall k :: 0 <= k < |events| ==> !events[k].Write?
    ensures RunEvents(p, events).on == RunEvents(p, events).driven
    decreases |events|
  {
    if |events| > 0 {
      PinFollowsRegister(p, events[..|events| - 1]);
    }
  }

  /** What a step drives the pin for: the controller's own reasons. */
  predicate Acts(p: Pump, i: Inputs) {
    i.errors != 0 || Hot(i) || Cold(i) || (p.latch && Late(i, p.lastClick))
  }

  predicate Drives(p: Pump, e: Event) {
    match e
    case Press(now, pinHigh) => Accepted(p, now, pinHigh)
    case Step(i) => Acts(p, i)
    case Write(_) => false
  }

  lemma DriveOrNothing(p: Pump, e: Event)
    requires !e.Write?
    ensures if Drives(p, e) then Next(p, e).on == Next(p, e).driven else Next(p, e) == p
  {}

  /** Without further writes, register and pin agree after a run exactly when they agreed before it or
      something in the run drives the pin; a run that does not leaves everything as it was. */
  lemma {:induction false} AgreeIffDriven(p: Pump, events: seq<Event>)
    requires forall k :: 0 <= k < |events| ==> !events[k].Write?
    ensures var q := RunEvents(p, events);
            var driven := exists k :: 0 <= k < |events| && Drives(p, events[k]);
            && (q.on == q.driven <==> p.on == p.driven || driven)
            && (!driven ==> q == p)
    decreases |events|
  {
    if |events| > 0 {
      var n := |events| - 1;
      var front := events[..n];
      AgreeIffDriven(p, front);
      hide Drives, Next;
      DriveOrNothing(RunEvents(p, front), events[n]);
      if k :| 0 <= k < n && Drives(p, front[k]) {
        assert Drives(p, events[k]);
      } else {
        assert forall k :: 0 <= k < n ==> front[k] == events[k];
      }
    }
  }

  /** A pump register set from outside is not carried to the pin. After any run of steps and presses
      the two agree exactly when the value written was the pin's own, or some event of the run drove
      the pin for a reason of its own: an accepted press, an error, a hot pipe, a cold one in
      schedule, or the end of the button's time. Until then the pin keeps its level. */
  lemma OutsideWriteReachesPinIff(p: Pump, v: bool, events: seq<Event>)
    requires forall k :: 0 <= k < |events| ==> !events[k].Write?
    ensures var q := RunEvents(Next(p, Write(v)), events);
            var driven := exists k :: 0 <= k < |events| && Drives(p, events[k]);
            && (q.on == q.driven <==> v == p.driven || driven)
            && (!driven ==> q.driven == p.driven && q.on == v)
  {
    AgreeIffDriven(p.(on := v), events);
    assert forall k :: 0 <= k < |events| ==> (Drives(p.(on := v), events[k]) <==> Drives(p, events[k]));
  }

  /** What a step must be for the button's hold to outlast it. An error stops the pump before the
      hold is looked at. */
  predicate KeepsHold(i: Inputs, click: nat) {
    i.errors != 0 || (!Hot(i) && !Late(i, click))
  }

  /** The hold outlasts exactly the runs of such steps. */
  lemma {:induction false} HoldOutlasts(p: Pump, steps: seq<Inputs>)
    ensures var q := RunSteps(p, steps);
            && q.lastClick == p.lastClick
            && (q.latch <==> p.latch && forall k :: 0 <= k < |steps| ==> KeepsHold(steps[k], p.lastClick))
    decreases |steps|
  {
    if |steps| > 0 {
      var n := |steps| - 1;
      HoldOutlasts(p, steps[..n]);
      assert forall k :: 0 <= k < n ==> steps[..n][k] == steps[k];
      HoldStep(RunSteps(p, steps[..n]), steps[n]);
      hide Control, KeepsHold;
    }
  }

  lemma HoldStep(p: Pump, i: Inputs)
    ensures Control(p, i).lastClick == p.lastClick
    ensures Control(p, i).latch <==> p.latch && KeepsHold(i, p.lastClick)
  {}

  /** In error-free steps that are not hot, with a time limit that is not negative, the hold lasts as
      long as no step comes more than that limit after the press. */
  lemma HoldLasts(p: Pump, steps: seq<Inputs>, limit: nat)
    requires p.latch && limit < 0x8000_0000
    requires forall k :: 0 <= k < |steps| ==>
               && steps[k].errors == 0 && steps[k].temp <= steps[k].ref + steps[k].hysteresis
               && steps[k].timeLimit == limit
    ensures RunSteps(p, steps).latch <==> forall k :: 0 <= k < |steps| ==> steps[k].now <= p.lastClick + limit
  {
    HoldOutlasts(p, steps);
    assert forall k :: 0 <= k < |steps| ==>
      (KeepsHold(steps[k], p.lastClick) <==> steps[k].now <= p.lastClick + limit);
    hide RunSteps;
  }

  /** A negative limit, read as an unsigned 64-bit number, is never reached. */
  lemma NegativeLimitHolds(p: Pump, steps: seq<Inputs>)
    requires p.latch
    requires forall k :: 0 <= k < |steps| ==>
               && steps[k].errors == 0 && steps[k].temp <= steps[k].ref + steps[k].hysteresis
               && -0x8000_0000 <= steps[k].timeLimit < 0 && steps[k].now < 0x8000_0000_0000_0000
    ensures RunSteps(p, steps).latch
  {
    HoldOutlasts(p, steps);
    assert forall k :: 0 <= k < |steps| ==> KeepsHold(steps[k], p.lastClick);
    hide RunSteps;
  }

  /** As long as the hold lasts and no step finds an error, it keeps the pump on. */
  lemma {:induction false} HoldKeepsPumpOn(p: Pump, steps: seq<Inputs>)
    requires p.latch && p.on && forall k :: 0 <= k < |steps| ==> steps[k].errors == 0
    ensures RunSteps(p, steps).latch ==> RunSteps(p, steps).on
    decreases |steps|
  {
    if |steps| > 0 {
      var n := |steps| - 1;
      assert forall k :: 0 <= k < n ==> steps[..n][k] == steps[k];
      HoldKeepsPumpOn(p, steps[..n]);
    }
  }

  // ---- Hysteresis ----

  /** Errors and heat stop the pump, */
  predicate Stops(i: Inputs) { i.errors != 0 || i.temp > i.ref + i.hysteresis }

  /** and a cold pipe within the schedule starts it. */
  predicate Starts(i: Inputs) { !Stops(i) && i.scheduled && i.temp < i.ref - i.hysteresis }

  lemma StepDecides(p: Pump, i: Inputs)
    requires !p.latch
    ensures !Control(p, i).latch
    ensures Control(p, i).on <==> Starts(i) || (p.on && !Stops(i))
  {}

  /** Some step started the pump and none after it stopped it. */
  predicate Started(steps: seq<Inputs>) {
    exists k :: 0 <= k < |steps| && Starts(steps[k]) && forall j :: k < j < |steps| ==> !Stops(steps[j])
  }

  lemma LastOfMore(front: seq<Inputs>, i: Inputs)
    requires Starts(i) ==> !Stops(i)
    ensures Started(front + [i]) <==> Starts(i) || (Started(front) && !Stops(i))
  {
    var steps := front + [i];
    var n := |front|;
    hide Starts, Stops;
    assert forall j :: 0 <= j < n ==> front[j] == steps[j];
    if Starts(i) {
      assert Starts(steps[n]);
    } else if Started(front) && !Stops(i) {
      var k :| 0 <= k < n && Starts(front[k]) && forall j :: k < j < n ==> !Stops(front[j]);
      assert Starts(steps[k]) && forall j :: k < j < |steps| ==> !Stops(steps[j]);
    } else if Started(steps) {
      StartedBefore(front, i);
    }
  }

  lemma StartedBefore(front: seq<Inputs>, i: Inputs)
    requires Started(front + [i]) && !Starts(i)
    ensures Started(front) && !Stops(i)
  {
    hide Starts, Stops;
    var steps, n := front + [i], |front|;
    var k :| 0 <= k <= n && Starts(steps[k]) && forall j :: k < j <= n ==> !Stops(steps[j]);
    assert k < n && !Stops(steps[n]) && Starts(front[k]);
    assert forall j :: k < j < n ==> front[j] == steps[j];
  }

  /** Without the hold, the pump is on after a run exactly when the last step that started or stopped
      it started it, or there was none and it was on before. */
  lemma {:induction false} LastDecides(p: Pump, steps: seq<Inputs>)
    requires !p.latch
    ensures !RunSteps(p, steps).latch
    ensures RunSteps(p, steps).on <==>
              || (p.on && forall j :: 0 <= j < |steps| ==> !Stops(steps[j]))
              || Started(steps)
    decreases |steps|
  {
    if |steps| > 0 {
      var n := |steps| - 1;
      var front := steps[..n];
      LastDecides(p, front);
      StepDecides(RunSteps(p, front), steps[n]);
      assert Starts(steps[n]) ==> !Stops(steps[n]);
      assert forall j :: 0 <= j < n ==> front[j] == steps[j];
      hide RunSteps, Control, Stops, Starts, Started;
      LastOfMore(front, steps[n]);
      assert steps == front + [steps[n]];
    }
  }

  /** The button's hold survives only with the pump on, or some step found it cold. */
  lemma {:induction false} HoldOrCold(p: Pump, steps: seq<Inputs>)
    requires p.latch
    ensures var q := RunSteps(p, steps);
            && q.lastClick == p.lastClick
            && (q.latch || !q.on || exists k :: 0 <= k < |steps| && Cold(steps[k]))
    decreases |steps|
  {
    if |steps| > 0 {
      var n := |steps| - 1;
      HoldOrCold(p, steps[..n]);
      var q := RunSteps(p, steps[..n]);
      if k :| 0 <= k < n && Cold(steps[..n][k]) {
        assert Cold(steps[k]);
      }
    }
  }

  /** After a press that turned the pump on, and no other press or outside write: once a step comes
      later than the time limit, the pump is on only if the schedule has asked for it, that is, some
      step since found no error, an active schedule and a cold pipe. The step ends the button's hold
      unless it finds an error, which stops the pump but keeps the hold; the hold is still there
      exactly when every step since was an error or neither hot nor late. */
  lemma ButtonRunEnds(p: Pump, now: nat, steps: seq<Inputs>)
    requires Accepted(p, now, false) && !p.latch && |steps| > 0
    requires Late(steps[|steps| - 1], now)
    ensures var q := RunSteps(Pressed(p, now, false), steps);
            && (q.on ==> !q.latch && exists k :: 0 <= k < |steps| && Cold(steps[k]))
            && (q.latch ==> steps[|steps| - 1].errors != 0)
            && (q.latch <==> forall k :: 0 <= k < |steps| ==> KeepsHold(steps[k], now))
  {
    var start := Pressed(p, now, false);
    var n := |steps| - 1;
    HoldOrCold(start, steps[..n]);
    HoldOutlasts(start, steps);
    var q := RunSteps(start, steps[..n]);
    if k :| 0 <= k < n && Cold(steps[..n][k]) {
      assert Cold(steps[k]);
    }
  }

  // ---- Chatter ----

  function Changes(p: Pump, steps: seq<Inputs>): nat {
    if |steps| == 0 then 0
    else
      var n := |steps| - 1;
      Changes(p, steps[..n]) + if RunSteps(p, steps).on != RunSteps(p, steps[..n]).on then 1 else 0
  }

  function Distance(a: int, b: int): nat { if a < b then b - a else a - b }

  /** How far the temperature travels, up and down, from the first step to the last. */
  function Variation(steps: seq<Inputs>): nat {
    if |steps| <= 1 then 0
    else
      var n := |steps| - 1;
      Variation(steps[..n]) + Distance(steps[n - 1].temp, steps[n].temp)
  }

  /** No errors, and one reference and hysteresis throughout. */
  predicate Steady(steps: seq<Inputs>, ref: int, h: nat) {
    forall k :: 0 <= k < |steps| ==> steps[k].errors == 0 && steps[k].ref == ref && steps[k].hysteresis == h
  }

  /** Changes that the temperature need not pay for: the first one, and with the button's hold still
      on, its end and what comes before it. */
  function Free(p: Pump): nat {
    if !p.latch then 1 else if p.on then 2 else 3
  }

  /** How far the temperature has already come since the last change, towards the next. */
  function Headway(on: bool, temp: int, ref: int, h: nat): nat {
    if on then Gap(temp, ref - h - 1) else Gap(ref + h + 1, temp)
  }

  function Gap(a: int, b: int): nat { if a > b then a - b else 0 }

  /** What every prefix of a run satisfies. */
  predicate Paid(p: Pump, steps: seq<Inputs>, ref: int, h: nat) {
    var q, n := RunSteps(p, steps), Changes(p, steps);
    && (q.latch ==> n + Free(q) <= Free(p))
    && (n >= Free(p) ==>
          && |steps| > 0
          && Variation(steps) >= (n - Free(p)) * (2 * h + 2) + Headway(q.on, steps[|steps| - 1].temp, ref, h))
  }

  lemma OneStep(q: Pump, i: Inputs)
    requires i.errors == 0 && i.hysteresis >= 0
    ensures var r := Control(q, i);
            && (!q.latch ==> !r.latch && (r.on && !q.on ==> i.temp <= i.ref - i.hysteresis - 1)
                                      && (!r.on && q.on ==> i.temp >= i.ref + i.hysteresis + 1))
            && (q.latch && r.latch ==> (q.on ==> r.on))
  {}

  lemma HeadwayMoves(on: bool, a: int, b: int, ref: int, h: nat)
    ensures Headway(on, b, ref, h) <= Headway(on, a, ref, h) + Distance(a, b)
  {}

  /** A change without the button costs at least the whole dead band. */
  lemma ChangeCosts(on: bool, b: int, ref: int, h: nat)
    requires if on then b >= ref + h + 1 else b <= ref - h - 1
    ensures Headway(on, b, ref, h) >= 2 * h + 2 && Headway(!on, b, ref, h) == 0
  {}

  lemma {:induction false} EveryPrefixPaid(p: Pump, steps: seq<Inputs>, ref: int, h: nat)
    requires Steady(steps, ref, h)
    ensures Paid(p, steps, ref, h)
    decreases |steps|
  {
    if |steps| > 0 {
      var n := |steps| - 1;
      EveryPrefixPaid(p, steps[..n], ref, h);
      PaidStep(p, steps, ref, h);
    }
  }

  /** One more step after the free changes are used up: the step's travel pays for its change. */
  lemma PayForStep(on: bool, on': bool, a: int, b: int, ref: int, h: nat, paid: nat, k: int)
    requires paid >= k * (2 * h + 2) + Headway(on, a, ref, h)
    requires on' != on ==> if on then b >= ref + h + 1 else b <= ref - h - 1
    ensures var k' := if on' != on then k + 1 else k;
            paid + Distance(a, b) >= k' * (2 * h + 2) + Headway(on', b, ref, h)
  {
    HeadwayMoves(on, a, b, ref, h);
    TimesSum(k, 1, 2 * h + 2);
    if on' != on {
      ChangeCosts(on, b, ref, h);
    }
  }

  lemma PaidStep(p: Pump, steps: seq<Inputs>, ref: int, h: nat)
    requires |steps| > 0 && Steady(steps, ref, h) && Paid(p, steps[..|steps| - 1], ref, h)
    ensures Paid(p, steps, ref, h)
  {
    var n := |steps| - 1;
    var q, r := RunSteps(p, steps[..n]), RunSteps(p, steps);
    var c, d := Changes(p, steps[..n]), Changes(p, steps);
    OneStep(q, steps[n]);
    assert r == Control(q, steps[n]);
    hide Control, RunSteps, Headway;
    if c >= Free(p) {
      assert Variation(steps) == Variation(steps[..n]) + Distance(steps[n - 1].temp, steps[n].temp);
      PayForStep(q.on, r.on, steps[n - 1].temp, steps[n].temp, ref, h, Variation(steps[..n]), c - Free(p));
    } else if d >= Free(p) {
      ChangeCosts(q.on, steps[n].temp, ref, h);
      assert (d - Free(p)) * (2 * h + 2) == 0;
    }
  }

  /** No chatter: over any run of control steps without errors, with a fixed reference and hysteresis
      h and any schedule, every change of the pump but the free ones takes 2h + 2 of temperature
      variation. Without the button's hold only the first change is free. */
  lemma NoChatter(p: Pump, steps: seq<Inputs>, ref: int, h: nat)
    requires Steady(steps, ref, h)
    ensures (Changes(p, steps) - Free(p)) * (2 * h + 2) <= Variation(steps)
  {
    EveryPrefixPaid(p, steps, ref, h);
    if Changes(p, steps) < Free(p) {
      NegativeProduct(Changes(p, steps) - Free(p), 2 * h + 2);
    }
  }

  lemma NegativeProduct(a: int, b: nat)
    requires a <= 0
    ensures a * b <= 0
  {}

  // ---- The bound is exact ----

  /** Time does not run backwards, and no step comes before the last press. */
  predicate Ordered(click: nat, steps: seq<Inputs>) {
    && (forall k :: 0 <= k < |steps| ==> click <= steps[k].now)
    && forall j, k :: 0 <= j < k < |steps| ==> steps[j].now <= steps[k].now
  }

  lemma OrderedOn(click: nat, steps: seq<Inputs>, i: Inputs)
    requires Ordered(click, steps)
    requires if |steps| > 0 then steps[|steps| - 1].now <= i.now else click <= i.now
    ensures Ordered(click, steps + [i])
  {
    forall k | 0 <= k < |steps|
      ensures steps[k].now <= i.now
    {
      if k < |steps| - 1 {
        assert steps[k].now <= steps[|steps| - 1].now;
      }
    }
  }

  /** A run can be continued so that the next change costs exactly the dead band: without the hold,
      and at the threshold the pump was switched at. */
  predicate AtThreshold(p: Pump, steps: seq<Inputs>, ref: int, h: nat) {
    var q := RunSteps(p, steps);
    && Steady(steps, ref, h) && Ordered(p.lastClick, steps) && |steps| > 0 && !q.latch
    && steps[|steps| - 1].temp == if q.on then ref - h - 1 else ref + h + 1
  }

  lemma OneMore(p: Pump, steps: seq<Inputs>, i: Inputs)
    ensures RunSteps(p, steps + [i]) == Control(RunSteps(p, steps), i)
    ensures Changes(p, steps + [i])
         == Changes(p, steps) + if Control(RunSteps(p, steps), i).on != RunSteps(p, steps).on then 1 else 0
    ensures Variation(steps + [i])
         == Variation(steps) + if |steps| > 0 then Distance(steps[|steps| - 1].temp, i.temp) else 0
  {
    assert (steps + [i])[..|steps|] == steps;
  }

  lemma NoSteps(p: Pump)
    ensures RunSteps(p, []) == p && Changes(p, []) == 0 && Variation([]) == 0
  {}

  function ColdStep(ref: int, h: nat, now: nat): Inputs { Inputs(0, ref - h - 1, ref, h, 0, true, now) }

  /** A step after the button's time, when nothing is scheduled. */
  function EndStep(ref: int, h: nat, click: nat): Inputs { ColdStep(ref, h, click + 1).(scheduled := false) }

  lemma ColdAndEnd(q: Pump, ref: int, h: nat, now: nat)
    ensures now <= q.lastClick ==> Control(q, ColdStep(ref, h, now)) == TurnOn(q)
    ensures !q.latch ==> Control(q, ColdStep(ref, h, now)) == TurnOn(q)
    ensures q.latch ==> Control(q, EndStep(ref, h, q.lastClick)) == TurnOff(q).(latch := false)
  {}

  /** With the hold on and the pump on, the hold's end stops it, and the schedule starts it again; */
  lemma HeldOn(p: Pump, ref: int, h: nat) returns (steps: seq<Inputs>)
    requires p.latch && p.on
    ensures AtThreshold(p, steps, ref, h)
    ensures Changes(p, steps) == 2 && Variation(steps) == 0
  {
    hide RunSteps, Changes, Variation, Control;
    var cold, end := ColdStep(ref, h, p.lastClick + 1), EndStep(ref, h, p.lastClick);
    NoSteps(p);
    ColdAndEnd(p, ref, h, p.lastClick);
    ColdAndEnd(TurnOff(p).(latch := false), ref, h, p.lastClick + 1);
    OneMore(p, [], end);
    OneMore(p, [] + [end], cold);
    steps := [] + [end] + [cold];
  }

  /** with the pump off, as an error leaves it, the schedule starts it before that. */
  lemma HeldOff(p: Pump, ref: int, h: nat) returns (steps: seq<Inputs>)
    requires p.latch && !p.on
    ensures AtThreshold(p, steps, ref, h)
    ensures Changes(p, steps) == 3 && Variation(steps) == 0
  {
    hide RunSteps, Changes, Variation, Control;
    var cold, end := ColdStep(ref, h, p.lastClick), EndStep(ref, h, p.lastClick);
    NoSteps(p);
    ColdAndEnd(p, ref, h, p.lastClick);
    ColdAndEnd(TurnOn(p), ref, h, p.lastClick);
    ColdAndEnd(TurnOff(p).(latch := false), ref, h, p.lastClick + 1);
    var again := ColdStep(ref, h, p.lastClick + 1);
    OneMore(p, [], cold);
    OneMore(p, [] + [cold], end);
    OneMore(p, [] + [cold] + [end], again);
    steps := [] + [cold] + [end] + [again];
  }

  /** From every state the free changes can all happen, at one temperature. */
  lemma FreeAttained(p: Pump, ref: int, h: nat) returns (steps: seq<Inputs>)
    ensures AtThreshold(p, steps, ref, h)
    ensures Changes(p, steps) == Free(p) && Variation(steps) == 0
  {
    hide RunSteps, Changes, Variation;
    if !p.latch {
      var temp := if p.on then ref + h + 1 else ref - h - 1;
      var next := ColdStep(ref, h, p.lastClick).(temp := temp);
      NoSteps(p);
      OneMore(p, [], next);
      steps := [] + [next];
    } else if p.on {
      steps := HeldOn(p, ref, h);
    } else {
      steps := HeldOff(p, ref, h);
    }
  }

  /** Every number of further changes can happen for exactly the price of the bound. */
  lemma {:induction false} BandAttained(p: Pump, ref: int, h: nat, n: nat) returns (steps: seq<Inputs>)
    ensures AtThreshold(p, steps, ref, h)
    ensures Changes(p, steps) == Free(p) + n && Variation(steps) == n * (2 * h + 2)
    decreases n
  {
    hide RunSteps, Changes, Variation, Ordered;
    if n == 0 {
      steps := FreeAttained(p, ref, h);
    } else {
      var front := BandAttained(p, ref, h, n - 1);
      var temp := if RunSteps(p, front).on then ref + h + 1 else ref - h - 1;
      var next := ColdStep(ref, h, front[|front| - 1].now).(temp := temp);
      OneMore(p, front, next);
      OrderedOn(p.lastClick, front, next);
      TimesSum(n - 1, 1, 2 * h + 2);
      steps := front + [next];
    }
  }

  /** c changes are free in every run from p in which time runs forward. */
  ghost predicate AtMostFree(p: Pump, c: int) {
    forall steps: seq<Inputs>, ref: int, h: nat :: Steady(steps, ref, h) && Ordered(p.lastClick, steps) ==>
      (Changes(p, steps) - c) * (2 * h + 2) <= Variation(steps)
  }

  /** NoChatter has the least number of free changes for every state; in particular, one free change
      is enough exactly when the button's hold is off. */
  lemma FreeIsLeast(p: Pump, c: int)
    ensures AtMostFree(p, c) <==> c >= Free(p)
    ensures AtMostFree(p, 1) <==> !p.latch
  {
    if c >= Free(p) {
      FreeEnough(p, c);
    }
    if !p.latch {
      FreeEnough(p, 1);
    }
    var steps := FreeAttained(p, 0, 0);
    hide Changes, Variation;
    assert AtMostFree(p, c) ==> (Changes(p, steps) - c) * 2 <= Variation(steps);
    assert AtMostFree(p, 1) ==> (Changes(p, steps) - 1) * 2 <= Variation(steps);
  }

  lemma FreeEnough(p: Pump, c: int)
    requires c >= Free(p)
    ensures AtMostFree(p, c)
  {
    hide Changes, Variation;
    forall steps: seq<Inputs>, ref: int, h: nat | Steady(steps, ref, h) && Ordered(p.lastClick, steps)
      ensures (Changes(p, steps) - c) * (2 * h + 2) <= Variation(steps)
    {
      NoChatter(p, steps, ref, h);
      TimesOrdered(Changes(p, steps) - c, Changes(p, steps) - Free(p), 2 * h + 2);
    }
  }

}
