/**
  Timing of the sequencer under consecutive ticks: the 5000 ms red hold and
  the 3000 ms red/yellow/blue blink cycle, stated against an independent,
  table-shaped description of the blink schedule.
 */
module BlinkSchedule {
  import opened LedSequencer

  /** The state after `n` consecutive ticks with no button edge. */
  function Ticks(s: State, n: nat): State
  {
    if n == 0 then s else Tick(Ticks(s, n - 1)).next
  }

  /** The command issued by the `n`-th of a run of consecutive ticks (n >= 1). */
  function CommandAt(s: State, n: nat): Option<Command>
    requires n >= 1
  {
    Tick(Ticks(s, n - 1)).cmd
  }

  /**
    The intended blink schedule (the comment at 123.c:352: switch every
    500 ms), `n` ms after blinking starts: a command
    only on multiples of 500 ms, following the six-slot table
      500 red, 1000 off, 1500 yellow, 2000 off, 2500 blue, 3000 off
    which then repeats.
   */
  function ScheduleCommand(n: nat): Option<Command>
  {
    if n % 500 != 0 then None
    else
      var slot := (n % 3000) / 500;
      if slot == 1 then Some(RedOn)
      else if slot == 3 then Some(YellowOn)
      else if slot == 5 then Some(BlueOn)
      else Some(AllOff)
  }

  /**
    The blink state `t` ms after blinking starts: the flag is lit in odd
    half-periods and the colour index counts completed 1000 ms on/off pairs.
   */
  function BlinkAt(t: nat): (s: State)
    ensures s.mode == Blink && s.timer == t && FieldsInRange(s)
  {
    State(Blink, t, (t / 1000) % 3, (t / 500) % 2)
  }

  /** The instants of a 3000 ms cycle just before a toggle. */
  lemma ToggleSlots(t: nat)
    requires (t + 1) % 500 == 0
    ensures var r := t % 3000; r == 499 || r == 999 || r == 1499 || r == 1999 || r == 2499 || r == 2999
  {
    var r := t % 3000;
    assert t == 3000 * (t / 3000) + r;
    var m := (r + 1) / 500;
    assert r + 1 == 500 * m + (r + 1) % 500;
    assert 1 <= m <= 6;
  }

  /** Between toggles neither the half-period nor the 1000 ms pair count changes. */
  lemma QuietArithmetic(t: nat)
    requires (t + 1) % 500 != 0
    ensures (t + 1) / 500 == t / 500
    ensures (t + 1) / 1000 == t / 1000
  {
    var k := t / 500;
    assert t == 500 * k + t % 500;
    assert t % 500 < 499;
    var j := t / 1000;
    assert t == 1000 * j + t % 1000;
    assert t % 1000 != 499 && t % 1000 != 999;
  }

  /**
    One tick of a blink state in its closed form moves to the closed form one
    millisecond later and issues exactly what the schedule lists for that
    millisecond.
   */
  lemma BlinkTick(t: nat)
    ensures Tick(BlinkAt(t)).next == BlinkAt(t + 1)
    ensures Tick(BlinkAt(t)).cmd == ScheduleCommand(t + 1)
  {
    if (t + 1) % 500 != 0 {
      QuietArithmetic(t);
    } else {
      ToggleSlots(t);
      var q := t / 3000;
      var r := t % 3000;
      assert t == 3000 * q + r;
      if r % 1000 == 499 {
        LightAt(t, q, r / 1000);
      } else {
        DarkAt(t, q, r / 1000);
      }
    }
  }

  /** Where the toggle instant that lights colour `c` falls in the counters. */
  lemma LightArithmetic(t: nat, q: nat, c: nat)
    requires c < 3 && t == 3000 * q + 1000 * c + 499
    ensures t / 1000 == 3 * q + c && t / 500 == 6 * q + 2 * c
    ensures (t + 1) / 1000 == 3 * q + c && (t + 1) / 500 == 6 * q + 2 * c + 1
    ensures (t + 1) % 500 == 0 && (t + 1) % 3000 == 1000 * c + 500
  {
  }

  /** Where the toggle instant that darkens colour `c` falls in the counters. */
  lemma DarkArithmetic(t: nat, q: nat, c: nat)
    requires c < 3 && t == 3000 * q + 1000 * c + 999
    ensures t / 1000 == 3 * q + c && t / 500 == 6 * q + 2 * c + 1
    ensures (t + 1) / 1000 == 3 * q + c + 1 && (t + 1) / 500 == 6 * q + 2 * c + 2
    ensures (t + 1) % 500 == 0 && (t + 1) % 3000 == (if c == 2 then 0 else 1000 * c + 1000)
  {
  }

  /** The toggle at `t + 1 = 500 (2 (3 q + c) + 1)` lights colour `c`. */
  lemma LightAt(t: nat, q: nat, c: nat)
    requires c < 3 && t == 3000 * q + 1000 * c + 499
    ensures Tick(BlinkAt(t)) == Step(BlinkAt(t + 1), ScheduleCommand(t + 1))
  {
    LightArithmetic(t, q, c);
    assert (6 * q + 2 * c) % 2 == 0 && (6 * q + 2 * c + 1) % 2 == 1 && (3 * q + c) % 3 == c;
    assert BlinkAt(t) == State(Blink, t, c, 0);
    assert BlinkAt(t + 1) == State(Blink, t + 1, c, 1);
    assert ScheduleCommand(t + 1) == Some(ColorCommand(c));
  }

  /** The toggle at `t + 1 = 1000 (3 q + c + 1)` darkens and advances past colour `c`. */
  lemma DarkAt(t: nat, q: nat, c: nat)
    requires c < 3 && t == 3000 * q + 1000 * c + 999
    ensures Tick(BlinkAt(t)) == Step(BlinkAt(t + 1), ScheduleCommand(t + 1))
  {
    DarkArithmetic(t, q, c);
    assert (6 * q + 2 * c + 1) % 2 == 1 && (6 * q + 2 * c + 2) % 2 == 0;
    assert (3 * q + c) % 3 == c && (3 * q + c + 1) % 3 == NextColor(c);
    assert BlinkAt(t) == State(Blink, t, c, 1);
    assert BlinkAt(t + 1) == State(Blink, t + 1, NextColor(c), 0);
    assert ScheduleCommand(t + 1) == Some(AllOff);
  }

  /** Blinking, run for `n` ms from its start, is in the closed form `BlinkAt(n)`. */
  lemma {:induction false} BlinkClosedForm(n: nat)
    ensures Ticks(BlinkStart, n) == BlinkAt(n)
  {
    if n > 0 {
      BlinkClosedForm(n - 1);
      BlinkTick(n - 1);
    }
  }

  /** The `n`-th tick after blinking starts issues exactly the scheduled command. */
  lemma BlinkFollowsSchedule(n: nat)
    requires n >= 1
    ensures CommandAt(BlinkStart, n) == ScheduleCommand(n)
  {
    BlinkClosedForm(n - 1);
    BlinkTick(n - 1);
  }

  /**
    The six scheduled commands of every 3000 ms cycle: at 500, 1000, 1500,
    2000, 2500 and 3000 ms into a cycle the ticks issue red, off, yellow,
    off, blue, off.
   */
  lemma BlinkCycleTable(n: nat)
    requires n >= 1
    ensures n % 3000 == 500 ==> CommandAt(BlinkStart, n) == Some(RedOn)
    ensures n % 3000 == 1000 ==> CommandAt(BlinkStart, n) == Some(AllOff)
    ensures n % 3000 == 1500 ==> CommandAt(BlinkStart, n) == Some(YellowOn)
    ensures n % 3000 == 2000 ==> CommandAt(BlinkStart, n) == Some(AllOff)
    ensures n % 3000 == 2500 ==> CommandAt(BlinkStart, n) == Some(BlueOn)
    ensures n % 3000 == 0 ==> CommandAt(BlinkStart, n) == Some(AllOff)
  {
    ScheduleSlots(n);
    BlinkFollowsSchedule(n);
  }

  /** The reference schedule at the six toggle instants of a cycle. */
  lemma ScheduleSlots(n: nat)
    ensures n % 3000 == 500 ==> ScheduleCommand(n) == Some(RedOn)
    ensures n % 3000 == 1000 ==> ScheduleCommand(n) == Some(AllOff)
    ensures n % 3000 == 1500 ==> ScheduleCommand(n) == Some(YellowOn)
    ensures n % 3000 == 2000 ==> ScheduleCommand(n) == Some(AllOff)
    ensures n % 3000 == 2500 ==> ScheduleCommand(n) == Some(BlueOn)
    ensures n % 3000 == 0 ==> ScheduleCommand(n) == Some(AllOff)
  {
    assert n == 3000 * (n / 3000) + n % 3000;
    assert n % 3000 % 500 == 0 ==> n % 500 == 0;
  }

  /**
    The colour index during blinking: 0 in the first 1000 ms of every 3000 ms
    cycle, 1 in the second and 2 in the third.
   */
  lemma BlinkCycleColors(n: nat)
    ensures Ticks(BlinkStart, n).color == (n % 3000) / 1000
  {
    ColorArithmetic(n);
    BlinkClosedForm(n);
  }

  /** Counting 1000 ms pairs modulo 3 is locating the millisecond within its 3000 ms cycle. */
  lemma ColorArithmetic(n: nat)
    ensures (n / 1000) % 3 == (n % 3000) / 1000
  {
    var q := n / 3000;
    var r := n % 3000;
    assert n == 3000 * q + r;
    if r < 1000 {
      assert n / 1000 == 3 * q;
    } else if r < 2000 {
      assert n / 1000 == 3 * q + 1;
    } else {
      assert n / 1000 == 3 * q + 2;
    }
  }

  /** Off every multiple of 500 ms after blinking starts, no tick issues a command. */
  lemma BlinkSilentBetweenToggles(n: nat)
    requires n >= 1 && n % 500 != 0
    ensures CommandAt(BlinkStart, n) == None
  {
    BlinkFollowsSchedule(n);
  }

  /** Adding one 3000 ms cycle changes no slot of the schedule and no colour or flag of the closed form. */
  lemma CycleArithmetic(n: nat)
    ensures (n + 3000) % 500 == n % 500
    ensures (n + 3000) % 3000 == n % 3000
    ensures (n + 3000) / 1000 == n / 1000 + 3
    ensures (n + 3000) / 500 == n / 500 + 6
  {
    assert n == 3000 * (n / 3000) + n % 3000;
    assert n + 3000 == 3000 * (n / 3000 + 1) + n % 3000;
    assert n == 1000 * (n / 1000) + n % 1000;
    assert n + 3000 == 1000 * (n / 1000 + 3) + n % 1000;
    assert n == 500 * (n / 500) + n % 500;
    assert n + 3000 == 500 * (n / 500 + 6) + n % 500;
  }

  /** The blink pattern repeats every 3000 ticks: same command, same colour and flag. */
  lemma BlinkPeriodic(n: nat)
    requires n >= 1
    ensures CommandAt(BlinkStart, n + 3000) == CommandAt(BlinkStart, n)
    ensures Ticks(BlinkStart, n + 3000).color == Ticks(BlinkStart, n).color
    ensures Ticks(BlinkStart, n + 3000).flag == Ticks(BlinkStart, n).flag
  {
    ReferencePeriodic(n);
    BlinkFollowsSchedule(n);
    BlinkFollowsSchedule(n + 3000);
    BlinkClosedForm(n);
    BlinkClosedForm(n + 3000);
  }

  /** The reference schedule and the blink closed form both have period 3000. */
  lemma ReferencePeriodic(n: nat)
    ensures ScheduleCommand(n + 3000) == ScheduleCommand(n)
    ensures BlinkAt(n + 3000).color == BlinkAt(n).color
    ensures BlinkAt(n + 3000).flag == BlinkAt(n).flag
  {
    CycleArithmetic(n);
    var a := n / 1000;
    var h := n / 500;
    assert (a + 3) % 3 == a % 3;
    assert (h + 6) % 2 == h % 2;
    assert (n + 3000) % 3000 / 500 == n % 3000 / 500;
  }

  /**
    The hold period: from a freshly entered OnWait, each of the first 4999
    ticks leaves the sequencer in OnWait with the counter at the tick count
    and colour and flag untouched.
   */
  lemma {:induction false} HoldKeepsWaiting(color: nat, flag: int, k: nat)
    requires k < 5000
    ensures Ticks(State(OnWait, 0, color, flag), k) == State(OnWait, k, color, flag)
  {
    if k > 0 {
      HoldKeepsWaiting(color, flag, k - 1);
    }
  }

  /** Every tick of the hold period before the last re-asserts red. */
  lemma HoldShowsRed(color: nat, flag: int, k: nat)
    requires 1 <= k < 5000
    ensures CommandAt(State(OnWait, 0, color, flag), k) == Some(RedOn)
  {
    HoldKeepsWaiting(color, flag, k - 1);
  }

  /** The 5000th tick of the hold period switches silently to the start of blinking. */
  lemma HoldEnds(color: nat, flag: int)
    ensures Ticks(State(OnWait, 0, color, flag), 5000) == BlinkStart
    ensures CommandAt(State(OnWait, 0, color, flag), 5000) == None
  {
    HoldKeepsWaiting(color, flag, 5000 - 1);
  }

  /**
    From a button press in Off, the sequencer blinks after exactly 5000 ticks
    and `n` ms later is in the blink closed form.
   */
  lemma PressThenBlink(s: State, n: nat)
    requires s.mode == Off
    ensures forall k :: 0 <= k < 5000 ==> Ticks(Edge(s).next, k).mode == OnWait
    ensures Ticks(Edge(s).next, 5000 + n) == BlinkAt(n)
  {
    forall k | 0 <= k < 5000
      ensures Ticks(Edge(s).next, k).mode == OnWait
    {
      HoldKeepsWaiting(s.color, s.flag, k);
    }
    HoldEnds(s.color, s.flag);
    TicksAdd(Edge(s).next, 5000, n);
    BlinkClosedForm(n);
  }

  /** Running `a` ticks then `b` ticks is running `a + b` ticks. */
  lemma {:induction false} TicksAdd(s: State, a: nat, b: nat)
    ensures Ticks(Ticks(s, a), b) == Ticks(s, a + b)
  {
    if b > 0 {
      TicksAdd(s, a, b - 1);
    }
  }
}
