/**
  The LED sequencer of the firmware: a three-state machine driven by two
  interrupt handlers, a button edge and a 1 ms timer tick. Each handler is
  modelled as one atomic, pure step from the old state to the new state plus
  the indicator command it issues.
 */
module LedSequencer {

  /** The three values of `led_state`. */
  datatype Mode = Off | OnWait | Blink

  /** The indicator driver calls the handlers make (`LED_Red_On`, ...). */
  datatype Command = RedOn | YellowOn | BlueOn | AllOff

  datatype Option<+T> = None | Some(value: T)

  /**
    The sequencer's globals: `led_state`, the millisecond counter `led_timer`,
    the colour index `blink_color` and the phase bit `blink_flag`. Their
    declared widths are not visible, so the counter and the colour index are
    unbounded naturals and the flag is a (signed) integer.
   */
  datatype State = State(mode: Mode, timer: nat, color: nat, flag: int)

  /** What one handler invocation produces: the new state and at most one command. */
  datatype Step = Step(next: State, cmd: Option<Command>)

  /** Globals as zero-initialised at reset. */
  const Init: State := State(Off, 0, 0, 0)

  /** The state the tick handler establishes when the hold period ends. */
  const BlinkStart: State := State(Blink, 0, 0, 0)

  /** The colour shown for a colour index: 0 red, 1 yellow, anything else blue. */
  function ColorCommand(color: nat): (c: Command)
    ensures c != AllOff
    ensures c == RedOn <==> color == 0
    ensures c == YellowOn <==> color == 1
  {
    if color == 0 then RedOn
    else if color == 1 then YellowOn
    else BlueOn
  }

  /** Advance the colour index, wrapping past 2 back to 0. */
  function NextColor(color: nat): (c: nat)
    ensures c < 3
    ensures color < 3 ==> c == (color + 1) % 3
  {
    if color + 1 > 2 then 0 else color + 1
  }

  /** The field ranges the handlers keep: colour index in {0,1,2}, flag in {0,1}. */
  predicate FieldsInRange(s: State) {
    s.color < 3 && (s.flag == 0 || s.flag == 1)
  }

  /**
    One 1 ms timer tick. The counter is incremented first, in every mode, and
    every decision below looks at the incremented value.
   */
  function Tick(s: State): (r: Step)
    // the counter advances by one in every mode (before a hold-to-blink reset)
    ensures r.next.mode == s.mode ==> r.next.timer == s.timer + 1
    // Off: nothing is issued and only the counter changes
    ensures s.mode == Off ==> r.cmd == None && r.next == s.(timer := s.timer + 1)
    // OnWait before the hold period ends: red is re-asserted, nothing else changes
    ensures s.mode == OnWait && s.timer + 1 < 5000 ==>
              r.cmd == Some(RedOn) && r.next == s.(timer := s.timer + 1)
    // OnWait when the hold period ends: silent switch to the start of blinking
    ensures s.mode == OnWait && s.timer + 1 >= 5000 ==>
              r.cmd == None && r.next == BlinkStart
    // Blink between toggles: nothing is issued and only the counter changes
    ensures s.mode == Blink && (s.timer + 1) % 500 != 0 ==>
              r.cmd == None && r.next == s.(timer := s.timer + 1)
    // Blink on a toggle: the flag flips; lighting shows the current colour,
    // darkening issues all-off and advances the colour
    ensures s.mode == Blink && (s.timer + 1) % 500 == 0 ==>
              r.next.mode == Blink && r.next.flag == 1 - s.flag &&
              (r.next.flag != 0 ==> r.cmd == Some(ColorCommand(s.color)) && r.next.color == s.color) &&
              (r.next.flag == 0 ==> r.cmd == Some(AllOff) && r.next.color == NextColor(s.color))
    // the ranges of the colour index and the flag are kept
    ensures FieldsInRange(s) ==> FieldsInRange(r.next)
  {
    var t := s.timer + 1;
    match s.mode
    case Off => Step(s.(timer := t), None)
    case OnWait =>
      if t < 5000 then Step(s.(timer := t), Some(RedOn))
      else Step(BlinkStart, None)
    case Blink =>
      if t % 500 == 0 then
        var flag := 1 - s.flag;
        if flag != 0 then Step(s.(timer := t, flag := flag), Some(ColorCommand(s.color)))
        else Step(s.(timer := t, flag := flag, color := NextColor(s.color)), Some(AllOff))
      else Step(s.(timer := t), None)
  }

  /**
    One button edge. Only the reset branch of the handler is visible; the
    entering branch (taken from Off) is assumed to start the hold period with
    a cleared counter and red on, leaving colour and flag alone.
   */
  function Edge(s: State): (r: Step)
    // from Off: the hold period starts, red is shown
    ensures s.mode == Off ==>
              r == Step(s.(mode := OnWait, timer := 0), Some(RedOn))
    // from any active mode: everything is reset except the colour index
    ensures s.mode != Off ==>
              r == Step(State(Off, 0, s.color, 0), Some(AllOff))
    // every edge toggles between inactive and active and issues a command
    ensures (r.next.mode == Off) <==> (s.mode != Off)
    ensures r.next.timer == 0 && r.cmd.Some?
    ensures FieldsInRange(s) ==> FieldsInRange(r.next)
  {
    if s.mode == Off then
      Step(s.(mode := OnWait, timer := 0), Some(RedOn))
    else
      Step(s.(mode := Off, timer := 0, flag := 0), Some(AllOff))
  }
}
