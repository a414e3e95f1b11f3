/**
  Arbitrary interleavings of the two interrupt sources, each handler taken as
  one atomic step, and the invariant every reachable state keeps.
 */
module EventRun {
  import opened LedSequencer
  import opened BlinkSchedule

  /** One interrupt: a 1 ms timer tick or a button edge. */
  datatype Event = TickEvent | EdgeEvent

  /** The handler an event invokes. */
  function Apply(s: State, e: Event): Step
  {
    match e
    case TickEvent => Tick(s)
    case EdgeEvent => Edge(s)
  }

  /** The state after handling `es` in order, starting from `s`. */
  function Run(s: State, es: seq<Event>): State
    decreases |es|
  {
    if es == [] then s else Run(Apply(s, es[0]).next, es[1..])
  }

  /**
    What holds of every state the handlers can reach from reset: colour index
    and flag in range, the hold period not yet over while waiting, and a
    blinking state determined by its counter alone.
   */
  predicate Inv(s: State)
  {
    && FieldsInRange(s)
    && (s.mode == OnWait ==> s.timer < 5000)
    && (s.mode == Blink ==> s == BlinkAt(s.timer))
  }

  /** A tick keeps the invariant. */
  lemma TickKeepsInv(s: State)
    requires Inv(s)
    ensures Inv(Tick(s).next)
  {
    if s.mode == Blink {
      BlinkTick(s.timer);
    }
  }

  /** A button edge keeps the invariant. */
  lemma EdgeKeepsInv(s: State)
    requires Inv(s)
    ensures Inv(Edge(s).next)
  {
  }

  /** Any sequence of events keeps the invariant. */
  lemma {:induction false} RunKeepsInv(s: State, es: seq<Event>)
    requires Inv(s)
    ensures Inv(Run(s, es))
    decreases |es|
  {
    if es != [] {
      match es[0] {
        case TickEvent => TickKeepsInv(s);
        case EdgeEvent => EdgeKeepsInv(s);
      }
      RunKeepsInv(Apply(s, es[0]).next, es[1..]);
    }
  }

  /** Every state reachable from reset satisfies the invariant. */
  lemma ReachableInv(es: seq<Event>)
    ensures Inv(Run(Init, es))
    ensures Run(Init, es).color < 3
    ensures Run(Init, es).flag == 0 || Run(Init, es).flag == 1
  {
    RunKeepsInv(Init, es);
  }

  /**
    What a tick issues in any reachable state: nothing in Off, red while
    holding except on the 5000th tick, and while blinking exactly the
    scheduled command for the incremented counter.
   */
  lemma ReachableTickCommand(es: seq<Event>)
    ensures var s := Run(Init, es);
      && (s.mode == Off ==> Tick(s).cmd == None)
      && (s.mode == OnWait ==> (Tick(s).cmd == None <==> s.timer + 1 == 5000))
      && (s.mode == OnWait && Tick(s).cmd != None ==> Tick(s).cmd == Some(RedOn))
      && (s.mode == Blink ==> Tick(s).cmd == ScheduleCommand(s.timer + 1))
  {
    var s := Run(Init, es);
    ReachableInv(es);
    if s.mode == Blink {
      BlinkTick(s.timer);
    }
  }

  /**
    A reset edge forgets everything but the colour index: two active states
    with the same colour index reset to the same state, whatever their mode,
    counter and flag.
   */
  lemma ResetForgetsHistory(s: State, s': State)
    requires s.mode != Off && s'.mode != Off && s.color == s'.color
    ensures Edge(s) == Edge(s')
    ensures Edge(s).next.mode == Off && Edge(s).next.timer == 0 && Edge(s).next.flag == 0
    ensures Edge(s).cmd == Some(AllOff)
  {
  }

  /**
    No debounce: two edges with no tick between restore the activity of the
    state. From Off they show red and then switch off; from an active state
    they switch off and restart the hold period with red.
   */
  lemma DoubleEdgeToggles(s: State)
    ensures var s2 := Run(s, [EdgeEvent, EdgeEvent]);
      (s2.mode == Off) == (s.mode == Off) && s2.timer == 0 && s2.color == s.color
    ensures s.mode == Off ==>
      Edge(s).cmd == Some(RedOn) && Edge(Edge(s).next).cmd == Some(AllOff)
    ensures s.mode != Off ==>
      Edge(s).cmd == Some(AllOff) && Edge(Edge(s).next).cmd == Some(RedOn) &&
      Run(s, [EdgeEvent, EdgeEvent]).mode == OnWait
  {
    assert [EdgeEvent, EdgeEvent][1..] == [EdgeEvent];
    assert [EdgeEvent][1..] == [];
  }
}
