/**
  What the indicator shows: the colour the last driver command left lit.
  The intended display is off while idle, red while holding, and while
  blinking lit in the current colour exactly when the phase bit is 1.

  The tick handler as written issues no command when the hold period ends,
  so the red of the hold stays lit through the first, dark, half-period of
  blinking: red is visible for 6000 ms after a press instead of 5000 ms.
  `TickFixed` is the step that also switches the light off at that instant,
  and with it the intended display holds in every reachable state.
 */
module Display {
  import opened LedSequencer
  import opened BlinkSchedule
  import opened EventRun

  /** The indicator: dark or lit in one colour. */
  datatype Light = Dark | Red | Yellow | Blue

  /**
    The indicator after a handler's command: a colour command lights that
    colour, all-off darkens, no command leaves the indicator as it was.
   */
  function Shown(light: Light, cmd: Option<Command>): (r: Light)
    ensures cmd == None ==> r == light
    ensures cmd.Some? ==> (r == Dark <==> cmd.value == AllOff)
  {
    match cmd
    case None => light
    case Some(RedOn) => Red
    case Some(YellowOn) => Yellow
    case Some(BlueOn) => Blue
    case Some(AllOff) => Dark
  }

  /** The colour a colour index lights. */
  function ColorLight(color: nat): (r: Light)
    ensures r != Dark
    ensures r == Red <==> color == 0
  {
    Shown(Dark, Some(ColorCommand(color)))
  }

  /** The intended display for a sequencer state. */
  function Intended(s: State): Light
  {
    match s.mode
    case Off => Dark
    case OnWait => Red
    case Blink => if s.flag == 1 then ColorLight(s.color) else Dark
  }

  /** The sequencer together with what the indicator shows. */
  datatype Device = Device(state: State, light: Light)

  /** Reset: sequencer globals zero and the indicator dark. */
  const PowerOn: Device := Device(Init, Dark)

  /** One event handled by the code as written, and its effect on the indicator. */
  function Handle(d: Device, e: Event): Device
  {
    var r := Apply(d.state, e);
    Device(r.next, Shown(d.light, r.cmd))
  }

  /** A sequence of events handled by the code as written. */
  function RunShown(d: Device, es: seq<Event>): Device
    decreases |es|
  {
    if es == [] then d else RunShown(Handle(d, es[0]), es[1..])
  }

  /**
    The display of the code as written: the intended one, except that in the
    first half-period of blinking the hold period's red is still lit.
   */
  predicate ShowsAsWritten(d: Device)
  {
    && FieldsInRange(d.state)
    && (d.light == Intended(d.state)
        || (d.state.mode == Blink && d.state.timer < 500 && d.light == Red))
  }

  /** Every handler of the code as written keeps `ShowsAsWritten`. */
  lemma HandleShowsAsWritten(d: Device, e: Event)
    requires ShowsAsWritten(d)
    ensures ShowsAsWritten(Handle(d, e))
  {
  }

  /**
    Every state reachable from reset under the code as written shows the
    intended display, save for red left lit in the first 500 ms of blinking.
   */
  lemma {:induction false} RunShowsAsWritten(d: Device, es: seq<Event>)
    requires ShowsAsWritten(d)
    ensures ShowsAsWritten(RunShown(d, es))
    decreases |es|
  {
    if es != [] {
      HandleShowsAsWritten(d, es[0]);
      RunShowsAsWritten(Handle(d, es[0]), es[1..]);
    }
  }

  /** The light after `n` consecutive ticks of the code as written. */
  function LightAfterTicks(s: State, light: Light, n: nat): Light
  {
    if n == 0 then light else Shown(LightAfterTicks(s, light, n - 1), CommandAt(s, n))
  }

  /** Within the first 1000 ms of blinking the only scheduled command is red at 500 ms. */
  lemma FirstPairSchedule(m: nat)
    requires 1 <= m < 1000
    ensures ScheduleCommand(m) == (if m == 500 then Some(RedOn) else None)
  {
  }

  /** Up to tick 5999 after a press, a tick issues red or nothing. */
  lemma RedOrNothing(s: State, n: nat)
    requires s.mode == Off && 1 <= n < 6000
    ensures CommandAt(Edge(s).next, n) == Some(RedOn) || CommandAt(Edge(s).next, n) == None
  {
    if n < 5000 {
      HoldShowsRed(s.color, s.flag, n);
    } else if n == 5000 {
      HoldEnds(s.color, s.flag);
    } else {
      PressThenBlink(s, n - 5001);
      BlinkTick(n - 5001);
      FirstPairSchedule(n - 5000);
    }
  }

  /** Tick 6000 after a press is the first to switch the light off. */
  lemma SixThousandthTickDarkens(s: State)
    requires s.mode == Off
    ensures CommandAt(Edge(s).next, 6000) == Some(AllOff)
  {
    PressThenBlink(s, 999);
    BlinkTick(999);
    assert ScheduleCommand(1000) == Some(AllOff);
  }

  /** Red stays lit for the first `n` ticks after a press, for every `n < 6000`. */
  lemma {:induction false} RedHeld(s: State, n: nat)
    requires s.mode == Off && n < 6000
    ensures LightAfterTicks(Edge(s).next, Red, n) == Red
  {
    if n > 0 {
      RedHeld(s, n - 1);
      RedOrNothing(s, n);
    }
  }

  /**
    The code as written keeps red lit for 6000 ms after a press: past the
    5000 ms hold, through the dark first half-period of blinking, where the
    intended display is off, until the all-off of tick 6000.
   */
  lemma RedLastsSixSeconds(s: State)
    requires s.mode == Off
    ensures Shown(Dark, Edge(s).cmd) == Red
    ensures forall n :: 0 <= n < 6000 ==> LightAfterTicks(Edge(s).next, Red, n) == Red
    ensures forall n :: 5000 < n < 5500 ==> Intended(Ticks(Edge(s).next, n)) == Dark
    ensures LightAfterTicks(Edge(s).next, Red, 6000) == Dark
  {
    forall n | 0 <= n < 6000
      ensures LightAfterTicks(Edge(s).next, Red, n) == Red
    {
      RedHeld(s, n);
    }
    forall n | 5000 < n < 5500
      ensures Intended(Ticks(Edge(s).next, n)) == Dark
    {
      PressThenBlink(s, n - 5000);
    }
    SixThousandthTickDarkens(s);
  }

  /**
    The corrected tick: the code as written, except that the switch from the
    hold period to blinking also switches the light off.
   */
  function TickFixed(s: State): (r: Step)
    ensures r.next == Tick(s).next
    ensures s.mode == OnWait && s.timer + 1 >= 5000 ==> r.cmd == Some(AllOff) && Tick(s).cmd == None
    ensures !(s.mode == OnWait && s.timer + 1 >= 5000) ==> r.cmd == Tick(s).cmd
  {
    var t := s.timer + 1;
    match s.mode
    case Off => Step(s.(timer := t), None)
    case OnWait =>
      if t < 5000 then Step(s.(timer := t), Some(RedOn))
      else Step(BlinkStart, Some(AllOff))
    case Blink =>
      if t % 500 == 0 then
        var flag := 1 - s.flag;
        if flag != 0 then Step(s.(timer := t, flag := flag), Some(ColorCommand(s.color)))
        else Step(s.(timer := t, flag := flag, color := NextColor(s.color)), Some(AllOff))
      else Step(s.(timer := t), None)
  }

  /** One event handled by the corrected code. */
  function HandleFixed(d: Device, e: Event): Device
  {
    var r := match e
      case TickEvent => TickFixed(d.state)
      case EdgeEvent => Edge(d.state);
    Device(r.next, Shown(d.light, r.cmd))
  }

  /** A sequence of events handled by the corrected code. */
  function RunShownFixed(d: Device, es: seq<Event>): Device
    decreases |es|
  {
    if es == [] then d else RunShownFixed(HandleFixed(d, es[0]), es[1..])
  }

  /** The display promise without exception. */
  predicate ShowsIntended(d: Device)
  {
    FieldsInRange(d.state) && d.light == Intended(d.state)
  }

  /** Every handler of the corrected code keeps the intended display. */
  lemma HandleFixedShowsIntended(d: Device, e: Event)
    requires ShowsIntended(d)
    ensures ShowsIntended(HandleFixed(d, e))
  {
  }

  /**
    Under the corrected code every reachable state shows the intended
    display: off while idle, red while holding, and while blinking lit in
    the current colour exactly when the phase bit is 1.
   */
  lemma {:induction false} FixedRunShowsIntended(d: Device, es: seq<Event>)
    requires ShowsIntended(d)
    ensures ShowsIntended(RunShownFixed(d, es))
    ensures RunShownFixed(d, es).state.mode == Off ==> RunShownFixed(d, es).light == Dark
    ensures RunShownFixed(d, es).state.mode == OnWait ==> RunShownFixed(d, es).light == Red
    ensures RunShownFixed(d, es).state.mode == Blink ==>
              (RunShownFixed(d, es).light != Dark <==> RunShownFixed(d, es).state.flag == 1)
    decreases |es|
  {
    if es != [] {
      HandleFixedShowsIntended(d, es[0]);
      FixedRunShowsIntended(HandleFixed(d, es[0]), es[1..]);
    }
  }

  /** From reset, both versions keep their display property forever. */
  lemma ReachableDisplay(es: seq<Event>)
    ensures ShowsAsWritten(RunShown(PowerOn, es))
    ensures ShowsIntended(RunShownFixed(PowerOn, es))
  {
    RunShowsAsWritten(PowerOn, es);
    FixedRunShowsIntended(PowerOn, es);
  }
}
