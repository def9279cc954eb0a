# Stepper motor driver — a verified model

This project models the Arduino `Stepper` library's four-wire driver
(`src/Stepper.cpp`) in Dafny:

- the constructor, which stores the step count and the four control pins and
  configures the pins as outputs;
- `setSpeed`, which turns revolutions per minute into microseconds between steps
  with `60000000 / number_of_steps / whatSpeed`;
- `step`, the busy-wait move loop. It takes the direction from the sign of the
  request. It lengthens the required delay over the last nine steps. It commits a
  step only once enough time has passed since the last one, then computes the
  phase index with a double remainder and writes that phase. It ends with a reset;
- `stepMotor`, which writes the 4-bit window of `0xCC` at the phase index to the
  four pins;
- `resetMotor`, which drives all four pins low.

Layout:

- `stepper_math.dfy` (module `StepperMath`) holds the integer logic.
  - C++ truncating `/` and `%` (Dafny's own are Euclidean).
  - The speed formula, the direction, the phase index and the taper.
  - The bits of `0xCC` and the phase a move uses at each commit.
- `stepper_timing.dfy` (module `StepperTiming`) holds `Commits`. Given the
  `micros()` readings the loop sees, it returns the positions of the readings at
  which a step is committed.
- `stepper_output.dfy` (module `StepperOutput`) describes what the driver does
  to the outside world as a trace of events: `pinMode`, `digitalWrite` and each
  `micros()` reading. It defines the writes of one phase, of a reset and of the
  first k commits of a move. `MoveTrace` gives the events of the move loop reading
  by reading, each reading followed by the writes of its phase when it commits.
  `Outputs` keeps the pin events only, and `MoveTraceWrites` proves that these
  are the writes of the commits `Commits` finds, in order.
- `stepper_driver.dfy` (module `StepperDriver`) holds the class `Stepper`:
  - The fields and the methods of the library. The loops of `step`, `stepMotor`
    and the constructor are kept as loops.
  - The loop invariant of `step`, with one lemma per kind of iteration.
  - The 200-step scenario.

Three choices in the model:

- **The clock.** `micros()` is a parameter: a finite sequence of readings, one per
  loop iteration. `Step` returns whether the move completed before the readings ran
  out. The library's loop would keep polling, so only a completed move ends with
  `resetMotor()`.
- **The phase table.** The model follows the code, not the header comment. The
  4-wire table in the comment (src/Stepper.cpp:56-62) lists the rows 1010, 0110,
  0101, 1001. `bitRead(0xCC, thisStep + i)` gives 0011, 0110, 1100, 1001 for
  phases 0..3, pin 0 first. `CodeSwapsOuterWiresOfDocumentedTable` proves that the
  code emits the documented table with columns C0 and C3 exchanged.
- **The taper.** The taper follows the code. `esti += steps_left * 100` makes the
  required delay shrink by 100 microseconds per step toward the end of the move,
  from `step_delay + 900` down to `step_delay + 100`. It is always longer than the
  untapered delay, but it does not grow as the move nears its end.

## Model

| member | source | states |
|---|---|---|
| StepperMath.TruncDivMod | src/Stepper.cpp:148 | `TruncDiv` and `TruncMod`, the C++ `/` and `%`, satisfy `(a/b)*b + a%b == a`, with the remainder smaller than the divisor and of the dividend's sign |
| StepperMath.TruncAgreesOnNonNegatives | src/Stepper.cpp:108 | on a non-negative dividend and positive divisor the C++ and Euclidean operators agree |
| StepperMath.StepDelay | src/Stepper.cpp:106-109 | the step delay for positive step count and speed lies between 0 and one minute in microseconds |
| StepperMath.StepDelayIsTimePerStep | src/Stepper.cpp:108 | dividing twice in turn is dividing by `number_of_steps * whatSpeed`: the delay is the largest whole number of microseconds such that that many steps fit in a minute |
| StepperMath.Abs | src/Stepper.cpp:122 | the magnitude of the request: a natural number equal to x or -x |
| StepperMath.Direction | src/Stepper.cpp:122-124 | `steps_left / -steps_to_move` is -1 for a positive request and +1 for a negative one |
| StepperMath.PhaseIndex | src/Stepper.cpp:148 | the double remainder always gives a phase index in 0..3 |
| StepperMath.PhaseIndexIsResidue | src/Stepper.cpp:148 | the phase index equals the Euclidean residue of `steps_left * direction` modulo 4, whatever its sign |
| StepperMath.TaperBounds | src/Stepper.cpp:131-137 | `RequiredDelay`, the delay the loop waits for: with 10 or more steps left the required delay is the step delay; with 1..9 left it is `step_delay + 100*steps_left`, strictly longer and at most 900 longer |
| StepperMath.TaperShrinks | src/Stepper.cpp:131-137 | inside the taper the required delay falls by 100 with each step toward the end; it only rises at the step where the taper starts |
| StepperMath.PhaseLevelIsBitRead | src/Stepper.cpp:165 | the level given to pin i in phase p is bit `p + i` of 0xCC as `bitRead` reads it |
| StepperMath.PhaseRows | src/Stepper.cpp:162-166 | phases 0..3 write the rows 0011, 0110, 1100, 1001, pin 0 first |
| StepperMath.TwoPinsHighTwoPinsSwitch | src/Stepper.cpp:162-166 | every phase drives exactly two pins high, and consecutive phases (3 back to 0 included) differ in exactly two pins |
| StepperMath.CodeSwapsOuterWiresOfDocumentedTable | src/Stepper.cpp:56-62 | the written rows are not the documented 4-wire table; they are that table with columns C0 and C3 exchanged |
| StepperMath.MovePhase | src/Stepper.cpp:146-148 | the phase index of the j-th commit of a move is in 0..3 |
| StepperMath.PhaseAdvances | src/Stepper.cpp:146-151 | between consecutive commits the phase index moves +1 mod 4 for a positive request and -1 mod 4 for a negative one |
| StepperMath.LastPhaseIsZero | src/Stepper.cpp:146-151 | the last commit of every move writes phase 0 |
| StepperMath.OppositeDirectionsMirror | src/Stepper.cpp:122-148 | moving the same distance the other way visits the mirror image `(4 - p) % 4` of each phase |
| StepperTiming.Commits | src/Stepper.cpp:127-153 | never more commits than steps left, and every commit is at one of the readings supplied |
| StepperTiming.CommitTiming | src/Stepper.cpp:129-152 | the j-th commit happens at the first reading after the previous commit at which the delay required with `steps_left - j` steps left has passed; every reading in between saw less |
| StepperTiming.CommitsStopOnlyWhenDone | src/Stepper.cpp:127-153 | if the readings run out before the move completes, none of the readings after the last commit saw the required delay pass |
| StepperTiming.EveryReadingCommits | src/Stepper.cpp:127-153 | when the first reading and each later one come at least `step_delay + 900` microseconds apart, the move commits on each of `abs(n)` consecutive readings |
| StepperOutput.MoveWritesLength | src/Stepper.cpp:151 | every commit writes four pin levels |
| StepperOutput.CompleteMoveEndsInPhaseZero | src/Stepper.cpp:146-166 | the last four writes of a complete move, of any length and direction, are pins 0 and 1 low and pins 2 and 3 high |
| StepperOutput.MoveTraceWrites | src/Stepper.cpp:127-153 | leaving out the clock readings, the events of the move loop are the phase writes of the commits `Commits` finds, in the order of the move |
| StepperOutput.ResetLeavesPinsLow | src/Stepper.cpp:170-174 | whatever came before, after `resetMotor()` the last level written to each motor pin is low |
| StepperDriver.MoveStarts | src/Stepper.cpp:120-124 | the loop invariant `MoveProgress` holds in the loop's initial state: `abs(n)` steps left, last step time 0, nothing recorded |
| StepperDriver.CommitKeepsProgress | src/Stepper.cpp:129-152 | the loop invariant holds again after a reading that sees the required delay pass, when the reading is recorded, `steps_left` is decremented, the last step time becomes that reading and the writes of the phase computed from the decremented count are appended |
| StepperDriver.WaitKeepsProgress | src/Stepper.cpp:129-140 | the loop invariant holds again after a reading that sees less than the required delay, when only the reading is recorded and the step count and last step time stay as they were |
| StepperDriver.MoveEnds | src/Stepper.cpp:127-153 | when the loop invariant holds and the loop condition fails, the commits made are all the commits of the move and the trace holds the whole move, reading by reading |
| StepperDriver.Stepper.constructor | src/Stepper.cpp:85-101 | stores the step count and the pins in the order given, sets the step delay by the speed formula, and configures the four pins as outputs, pin 0 first |
| StepperDriver.Stepper.SetSpeed | src/Stepper.cpp:106-109 | sets the step delay to the speed formula and changes nothing else |
| StepperDriver.Stepper.Step | src/Stepper.cpp:115-157 | `step(0)` does nothing. Otherwise the move completes exactly when the readings contain `abs(n)` commits. The trace gains the events of `MoveTrace`: every reading taken, each committing one followed by the writes of the phase computed from the decremented count. A completed move then resets and leaves every pin low. The step count, pins and step delay do not change |
| StepperDriver.Stepper.StepMotor | src/Stepper.cpp:162-166 | writes pins 0..3 in order, pin i getting bit `thisStep + i` of 0xCC |
| StepperDriver.Stepper.ResetMotor | src/Stepper.cpp:170-174 | writes pins 0..3 low, in order |
| StepperDriver.FullRevolution | src/Stepper.cpp:85-157 | a 200-step motor at 60 rpm on pins 2..5 waits 5000 microseconds per step; with a reading every 6000 microseconds `step(200)` completes: the pins see their configuration, the 200 phases of the move and the reset, and end low |
| StepperDriver.MoveWithResetOutputs | src/Stepper.cpp:85-157 | leaving out the readings, a configured motor that completes a move and resets sees its configuration, the phase writes of all `abs(n)` commits and the reset |

## Left out

- `pinMode` and `digitalWrite` are not real I/O. They are events appended to a ghost trace (`ConfigureOutput`, `Write`).
- `micros()` is not a hardware clock. It is a finite sequence of readings passed to `Step`, and each reading taken is recorded in the trace (`ReadClock`).
- StepperDriver.Stepper.Step: when the readings run out before `steps_left` reaches 0, the model returns `done == false` without the reset; the library's loop would go on polling. Real-time termination, which depends on the clock advancing, is not modelled. `EveryReadingCommits` and `FullRevolution` give clock conditions under which a move completes.
- The model uses unbounded integers throughout. It does not capture:
  - `unsigned long` wrap-around of `micros()` and of `now - last_step_time`;
  - the narrowing of that difference and of `step_delay` to `int`;
  - the overflow of `abs(INT_MIN)`.
- StepperDriver.Stepper.constructor and StepperDriver.Stepper.SetSpeed require a positive step count and speed. The library divides by both values, so zero would divide by zero. Negative values are excluded too.
- StepperDriver.Stepper.StepMotor requires `thisStep < 4`. Its only caller passes a phase index in 0..3, and `bitRead` past bit 7 of 0xCC is not modelled.
- The 5-phase and 2-wire sequences exist only as comment tables (src/Stepper.cpp:42-71), and no code implements them.
- `version()` returns the constant 5 and is not modelled.
- `Stepper.h` is not part of this model. The field types follow their use in `src/Stepper.cpp`.
