# LED sequencer model

A Dafny model of the indicator-light sequencer in the firmware file `123.c`.
The sequencer is a three-state machine over the globals `led_state`
(`LED_OFF`, `LED_ON_WAIT`, `LED_BLINK`), the millisecond counter `led_timer`,
the colour index `blink_color` and the phase bit `blink_flag`. Two interrupt
handlers drive it:

- the button-edge handler (EXTI line 3), which starts the sequence from
  `LED_OFF` and otherwise resets mode, counter and phase bit to `LED_OFF`/0,
  keeps the colour index, and switches all lights off;
- `SysTick_Handler`, called every millisecond, which increments `led_timer`
  and then holds red for 5000 ms in `LED_ON_WAIT` before switching to
  `LED_BLINK`, where every 500 ms the phase bit flips and the light cycles
  red, off, yellow, off, blue, off.

Each handler is modelled as a pure step `State -> Step(next, cmd)`, where
`cmd` is the optional driver call (`LED_Red_On`, `LED_Yellow_On`,
`LED_Blue_On`, `LED_All_Off`) the handler makes.

Files:

- `led_sequencer.dfy` (module `LedSequencer`): the state, the commands,
  `Tick` (the timer handler) and `Edge` (the button handler).
- `blink_schedule.dfy` (module `BlinkSchedule`): iterated ticks, the closed
  form of the blink phase, a table-shaped reference schedule of the blink
  commands and the timing lemmas for the hold and blink phases.
- `event_run.dfy` (module `EventRun`): arbitrary sequences of ticks and edges
  from reset and the invariant every reachable state keeps.
- `display.dfy` (module `Display`): what the indicator shows, the display
  invariant of the code as written, and the corrected tick step.

Assumptions, because the file does not show them:

- The opening of the button handler (its condition and the assignments of
  its entering branch) is cut off before 123.c:312. The model assumes the
  entering branch is taken in `LED_OFF` and sets `led_state = LED_ON_WAIT`,
  `led_timer = 0`, then calls `LED_Red_On` (the visible 123.c:312), leaving
  `blink_color` and `blink_flag` alone. This is an assumption, not a
  transcription.
- The globals' declarations are not visible. The model takes them as
  zero-initialised (`Init`: `LED_OFF`, counter 0, colour 0, flag 0), the
  counter and colour index as unbounded naturals and the flag as a signed
  integer (`blink_flag = 1 - blink_flag`, tested for non-zero).

`SysTick_Handler` increments `led_timer` before any state test (123.c:331),
so in `LED_OFF` every tick advances the counter and issues nothing; the next
edge resets it.

What the indicator shows is modelled in `display.dfy` (module `Display`) as
the colour the last driver command left lit, starting dark at reset (the
pin initialisation is not part of this model). The intended display is: off
in `LED_OFF`, red in `LED_ON_WAIT`, and in `LED_BLINK` lit in the current
colour exactly when `blink_flag` is 1. The code as written meets it except
in the first 500 ms of blinking (see Findings).

## Model

| member | source | states |
|---|---|---|
| LedSequencer.Tick | 123.c:329-379 | the counter goes up by one in every mode before any test; in Off nothing is issued and only the counter changes; in OnWait red is re-issued while the incremented counter is below 5000 and otherwise the state becomes the blink start (counter, colour, flag 0) with no command; in Blink off the 500 ms marks nothing but the counter changes, on a mark the flag flips and lighting shows the current colour while darkening issues all-off and advances the colour; colour in {0,1,2} and flag in {0,1} are preserved |
| LedSequencer.Edge | 123.c:312-320 | from Off (assumed entering branch) the hold period starts at counter 0 with red on; from any active mode the state becomes Off with counter and flag 0 and all-off issued, colour untouched; every edge flips between Off and active |
| LedSequencer.ColorCommand | 123.c:357-365 | index 0 shows red, 1 yellow, any other blue, never all-off |
| LedSequencer.NextColor | 123.c:373-375 | the advanced colour index is always in {0,1,2} and is the successor modulo 3 for an index already in range |
| BlinkSchedule.BlinkAt | 123.c:350-376 | the blink closed form is a blinking state with the given counter and colour and flag in range |
| BlinkSchedule.BlinkTick | 123.c:350-376 | one tick of a blink state in closed form gives the closed form one millisecond later and issues exactly the reference schedule's command for that millisecond |
| BlinkSchedule.BlinkClosedForm | 123.c:344-376 | n ticks after blinking starts the colour index is the number of completed 1000 ms pairs modulo 3 and the flag is the parity of the number of completed 500 ms halves |
| BlinkSchedule.BlinkFollowsSchedule | 123.c:350-376 | the n-th tick after blinking starts issues exactly the reference schedule's command for n |
| BlinkSchedule.BlinkCycleTable | 123.c:353-376 | a blinking tick 500, 1000, 1500, 2000, 2500 or 3000 ms into any 3000 ms cycle issues red, off, yellow, off, blue, off respectively |
| BlinkSchedule.BlinkCycleColors | 123.c:372-375 | the colour index is 0 during the first 1000 ms of every 3000 ms blink cycle, 1 during the second and 2 during the third, so it wraps to 0 every 3000 ms |
| BlinkSchedule.BlinkSilentBetweenToggles | 123.c:350-353 | a blinking tick whose incremented counter is not a multiple of 500 issues nothing |
| BlinkSchedule.BlinkPeriodic | 123.c:353-376 | the blink commands, colour and flag repeat with period 3000 ticks |
| BlinkSchedule.HoldKeepsWaiting | 123.c:331-340 | from OnWait at counter 0, each of the first 4999 ticks leaves OnWait with the counter at the tick count and colour and flag unchanged |
| BlinkSchedule.HoldShowsRed | 123.c:336-340 | ticks 1 to 4999 of the hold period each issue red |
| BlinkSchedule.HoldEnds | 123.c:341-348 | the 5000th tick of the hold period yields Blink with counter, colour and flag 0 and issues no command |
| BlinkSchedule.PressThenBlink | 123.c:312-348 | after a press in Off the sequencer stays in OnWait for 5000 ticks and n ticks later is in the blink closed form for n |
| EventRun.TickKeepsInv | 123.c:329-379 | a tick keeps the reachable-state invariant (ranges, hold not yet over, blink state given by its counter) |
| EventRun.EdgeKeepsInv | 123.c:312-320 | a button edge keeps the reachable-state invariant |
| EventRun.RunKeepsInv | 123.c:312-379 | any interleaving of ticks and edges keeps the invariant |
| EventRun.ReachableInv | 123.c:355-375 | every state reachable from reset has colour index in {0,1,2} and flag in {0,1} |
| EventRun.ReachableTickCommand | 123.c:329-379 | in any reachable state a tick issues nothing in Off, red in OnWait except on the 5000th tick which issues nothing, and in Blink exactly the reference schedule's command for the incremented counter |
| EventRun.ResetForgetsHistory | 123.c:314-320 | two active states with the same colour index reset to the same state, Off with counter and flag 0, issuing all-off |
| EventRun.DoubleEdgeToggles | 123.c:312-320 | two edges with no tick between restore whether the sequencer is active, with counter 0 and the colour index kept; from an active state they end in OnWait (no debounce) |
| Display.Shown | 123.c:357-370 | no command leaves the indicator unchanged; a command darkens it exactly when it is all-off |
| Display.ColorLight | 123.c:357-365 | the colour a colour index lights is never dark and is red exactly for index 0 |
| Display.HandleShowsAsWritten | 123.c:312-379 | each handler of the code as written keeps the display intended for the state, except that red may stay lit while blinking with counter below 500 |
| Display.RunShowsAsWritten | 123.c:312-379 | any sequence of ticks and edges of the code as written keeps that display property |
| Display.RedLastsSixSeconds | 123.c:336-376 | after a press from Off red is lit on every tick up to 5999, during ticks 5001-5499 the intended display is dark, and tick 6000 darkens the light |
| Display.TickFixed | 123.c:341-348 | the corrected tick reaches the same next state as the code on every input, issues all-off where the code issues nothing at the hold-to-blink switch, and issues the code's command everywhere else |
| Display.HandleFixedShowsIntended | 123.c:312-379 | each handler of the corrected code keeps the intended display without exception |
| Display.FixedRunShowsIntended | 123.c:312-379 | under the corrected code any sequence of events keeps the intended display: dark in Off, red in OnWait, and in Blink lit exactly when the phase bit is 1 |
| Display.ReachableDisplay | 123.c:312-379 | from reset, the code as written keeps its display property and the corrected code the intended one, for every sequence of events |

## Left out

- USB/HID scaffolding (descriptor tables, the stub ADC and button readers, the report update and the empty request handler): constant data and stubs with no logic. The HID report descriptor is declared with 50 bytes but initialised with more; that is a constant-data defect outside the sequencer.
- Busy-wait delay loops in both `main` functions: calibrated CPU spinning, not logic.
- Peripheral and register calls (`RCC_*`, `GPIO_Init`, `EXTI_ClearITPendingBit`, `EXTI_Config`, `SysTick_Init`, `__enable_irq`) and the `LED_*` pin drivers: the drivers appear only as the abstract `Command` values.
- Preemption of one handler by the other in the middle of a multi-field update: each handler is one atomic step; the interleaving question is a concurrency concern.
- Overflow of `led_timer` and the widths of `blink_color` and `blink_flag`: the declarations are not visible, so the counter and colour are unbounded and the flag is a mathematical integer. `led_timer` is never reset while blinking, so with a 32-bit counter it would wrap to 0 after 2^32 ms (about 49.7 days); because 0 % 500 == 0, a toggle would then fire off schedule (2^32 mod 500 = 296). `BlinkSchedule.BlinkFollowsSchedule`, `BlinkSchedule.BlinkPeriodic` and the other blink lemmas describe the program only up to such a wrap.
- The condition and entering branch of the button handler before 123.c:312: not visible; `LedSequencer.Edge` models only the assumed effect described above.
- The timer period: a tick is taken to be one millisecond; how accurately the hardware timer delivers that is outside the model.

## Findings

| source | as written | input that shows it | evidently intended | confidence | as-written member | corrected member |
|---|---|---|---|---|---|---|
| 123.c:341-348 | when the 5000 ms hold ends the tick switches to `LED_BLINK` with `blink_flag = 0` but calls no driver function, so the red of the hold stays lit through the first, dark, half-period of blinking | a press from `LED_OFF`, then 6000 ticks: red is lit after every tick up to 5999 (6000 ms, where the comment at 123.c:335 says 5 s) and tick 6000 is the first to switch it off | the switch also calls `LED_All_Off`, so red lasts 5000 ms and blinking starts dark | medium; not executed | Display.RedLastsSixSeconds | Display.FixedRunShowsIntended |

`Display.TickFixed` differs from `LedSequencer.Tick` only in the command of the
hold-to-blink switch and reaches the same next state on every input (both
stated in its contract). So every timing lemma about sequencer states holds
unchanged for the corrected code. The blink schedule is also unchanged,
because it issues no command at the switch instant.
