/**
  The `Stepper` class of src/Stepper.cpp: a four-pin motor driver whose `step`
  busy-waits on the microsecond clock and commits one step at a time. The clock
  is a finite sequence of readings, one per loop iteration, and the hardware
  output is the ghost trace of pin events.
*/
module StepperDriver {
  import opened StepperMath
  import opened StepperTiming
  import opened StepperOutput

  /** What the move loop of `step` has done after reading the clock `i` times, with
      `stepsLeft` steps left and the last commit at time `last`: the commits so far
      are the first of the commits the whole move makes, and the trace so far,
      followed by the rest of the move from reading `i` on, is the whole move. */
  ghost predicate MoveProgress(pins: seq<int>, stepsToMove: int, stepDelay: int, clock: seq<nat>, start: seq<Event>,
                               i: nat, stepsLeft: nat, last: int, trace: seq<Event>)
  {
    && |pins| == 4 && stepsToMove != 0 && i <= |clock| && stepsLeft <= Abs(stepsToMove)
    && |Commits(stepDelay, clock, 0, Abs(stepsToMove), 0)| == (Abs(stepsToMove) - stepsLeft) + |Commits(stepDelay, clock, i, stepsLeft, last)|
    && start + MoveTrace(pins, stepsToMove, stepDelay, clock, 0, Abs(stepsToMove), 0)
       == trace + MoveTrace(pins, stepsToMove, stepDelay, clock, i, stepsLeft, last)
  }

  /** Before the first reading nothing is committed and nothing recorded. */
  lemma MoveStarts(pins: seq<int>, stepsToMove: int, stepDelay: int, clock: seq<nat>, start: seq<Event>)
    requires |pins| == 4 && stepsToMove != 0
    ensures MoveProgress(pins, stepsToMove, stepDelay, clock, start, 0, Abs(stepsToMove), 0, start)
  {
  }

  /** A reading that sees the required delay pass commits the next step: the reading
      and then the writes of that step's phase are appended, and the step count goes
      down by one. */
  lemma CommitKeepsProgress(pins: seq<int>, stepsToMove: int, stepDelay: int, clock: seq<nat>, start: seq<Event>,
                            i: nat, stepsLeft: nat, last: int, trace: seq<Event>, after: seq<Event>)
    requires MoveProgress(pins, stepsToMove, stepDelay, clock, start, i, stepsLeft, last, trace)
    requires i < |clock| && stepsLeft > 0 && clock[i] - last >= RequiredDelay(stepDelay, stepsLeft)
    requires after == trace + [ReadClock(clock[i])] + PhaseWrites(pins, PhaseIndex(stepsLeft - 1, Direction(stepsToMove)))
    ensures MoveProgress(pins, stepsToMove, stepDelay, clock, start, i + 1, stepsLeft - 1, clock[i], after)
  {
    var step := [ReadClock(clock[i])] + PhaseWrites(pins, PhaseIndex(stepsLeft - 1, Direction(stepsToMove)));
    var rest := MoveTrace(pins, stepsToMove, stepDelay, clock, i + 1, stepsLeft - 1, clock[i]);
    assert MoveTrace(pins, stepsToMove, stepDelay, clock, i, stepsLeft, last) == step + rest;
    AppendAssociates(trace, step, rest);
    AppendAssociates(trace, [ReadClock(clock[i])], PhaseWrites(pins, PhaseIndex(stepsLeft - 1, Direction(stepsToMove))));
    CommitsOneReading(stepDelay, clock, i, stepsLeft, last);
  }

  /** A reading that sees too little time pass is recorded and changes nothing else. */
  lemma WaitKeepsProgress(pins: seq<int>, stepsToMove: int, stepDelay: int, clock: seq<nat>, start: seq<Event>,
                          i: nat, stepsLeft: nat, last: int, trace: seq<Event>, after: seq<Event>)
    requires MoveProgress(pins, stepsToMove, stepDelay, clock, start, i, stepsLeft, last, trace)
    requires i < |clock| && stepsLeft > 0 && clock[i] - last < RequiredDelay(stepDelay, stepsLeft)
    requires after == trace + [ReadClock(clock[i])]
    ensures MoveProgress(pins, stepsToMove, stepDelay, clock, start, i + 1, stepsLeft, last, after)
  {
    var rest := MoveTrace(pins, stepsToMove, stepDelay, clock, i + 1, stepsLeft, last);
    assert MoveTrace(pins, stepsToMove, stepDelay, clock, i, stepsLeft, last) == [ReadClock(clock[i])] + rest;
    AppendAssociates(trace, [ReadClock(clock[i])], rest);
    assert |Commits(stepDelay, clock, i, stepsLeft, last)| == |Commits(stepDelay, clock, i + 1, stepsLeft, last)|;
  }

  /** When the loop stops, all the commits of the move have been made and the trace
      holds the whole move. */
  lemma MoveEnds(pins: seq<int>, stepsToMove: int, stepDelay: int, clock: seq<nat>, start: seq<Event>,
                 i: nat, stepsLeft: nat, last: int, trace: seq<Event>)
    requires MoveProgress(pins, stepsToMove, stepDelay, clock, start, i, stepsLeft, last, trace)
    requires stepsLeft == 0 || i == |clock|
    ensures |Commits(stepDelay, clock, 0, Abs(stepsToMove), 0)| == Abs(stepsToMove) - stepsLeft
    ensures trace == start + MoveTrace(pins, stepsToMove, stepDelay, clock, 0, Abs(stepsToMove), 0)
  {
    assert Commits(stepDelay, clock, i, stepsLeft, last) == [];
    assert MoveTrace(pins, stepsToMove, stepDelay, clock, i, stepsLeft, last) == [];
    assert trace + [] == trace;
  }

  class Stepper {
    /** Steps per revolution of the motor. */
    const numberOfSteps: int
    /** Microseconds between steps at the current speed. */
    var stepDelay: int
    /** The four control pins, in the order given to the constructor. */
    const pins: seq<int>
    /** Every pin configuration and pin write so far, oldest first. */
    ghost var trace: seq<Event>

    ghost predicate Valid()
    {
      numberOfSteps > 0 && |pins| == 4
    }

    /** Stores the step count, sets the speed, stores the pins in the order given
        and configures each of them as an output. */
    constructor (numberOfSteps: int, whatSpeed: int, pin1: int, pin2: int, pin3: int, pin4: int)
      requires numberOfSteps > 0 && whatSpeed > 0
      ensures Valid()
      ensures this.numberOfSteps == numberOfSteps && pins == [pin1, pin2, pin3, pin4]
      ensures stepDelay == StepDelay(numberOfSteps, whatSpeed)
      ensures trace == ConfigureWrites([pin1, pin2, pin3, pin4])
    {
      this.numberOfSteps := numberOfSteps;
      pins := [pin1, pin2, pin3, pin4];
      trace := [];
      new;
      SetSpeed(whatSpeed);
      for i := 0 to 4
        invariant trace == ConfigureWrites(pins)[..i]
      {
        trace := trace + [ConfigureOutput(pins[i])];
      }
    }

    /** Sets the speed in revolutions per minute; only the step delay changes. */
    method SetSpeed(whatSpeed: int)
      requires Valid() && whatSpeed > 0
      modifies this`stepDelay
      ensures stepDelay == StepDelay(numberOfSteps, whatSpeed)
    {
      stepDelay := TruncDiv(TruncDiv(MicrosPerMinute, numberOfSteps), whatSpeed);
    }

    /** Moves the motor `stepsToMove` steps, backwards when negative, reading the
        clock once per loop iteration from `clock` and recording each reading. `done` says whether the move
        was completed before the readings ran out; only a completed move ends with
        the reset. No timing state carries over: the move starts from time 0. */
    method Step(stepsToMove: int, clock: seq<nat>) returns (done: bool)
      requires Valid()
      modifies this`trace
      ensures stepsToMove == 0 ==> done && trace == old(trace)
      ensures stepsToMove != 0 ==> done == (|Commits(stepDelay, clock, 0, Abs(stepsToMove), 0)| == Abs(stepsToMove))
      ensures stepsToMove != 0 && done ==>
                trace == old(trace) + MoveTrace(pins, stepsToMove, stepDelay, clock, 0, Abs(stepsToMove), 0) + ResetWrites(pins)
      ensures stepsToMove != 0 && done ==> forall p :: p in pins ==> LastLevel(trace, p) == Some(false)
      ensures stepsToMove != 0 && !done ==> trace == old(trace) + MoveTrace(pins, stepsToMove, stepDelay, clock, 0, Abs(stepsToMove), 0)
    {
      done := true;
      if stepsToMove != 0 {
        var lastStepTime: nat := 0;
        var stepsLeft: nat := Abs(stepsToMove);
        var direction := Direction(stepsToMove);
        var delay := stepDelay;
        ghost var trace0 := trace;
        var i := 0;
        MoveStarts(pins, stepsToMove, delay, clock, trace0);
        while stepsLeft > 0 && i < |clock|
          invariant MoveProgress(pins, stepsToMove, delay, clock, trace0, i, stepsLeft, lastStepTime, trace)
          decreases |clock| - i
        {
          ghost var before := trace;
          var now := clock[i];
          trace := trace + [ReadClock(now)];
          var left: int := now - lastStepTime;
          var esti := delay;
          if stepsLeft < TaperStart {
            esti := esti + stepsLeft * TaperMicrosPerStep;
          }
          assert esti == RequiredDelay(delay, stepsLeft);
          if left >= esti {
            ghost var last, waiting := lastStepTime, stepsLeft;
            lastStepTime := now;
            stepsLeft := stepsLeft - 1;
            var steps := PhaseIndex(stepsLeft, direction);
            StepMotor(steps);
            CommitKeepsProgress(pins, stepsToMove, delay, clock, trace0, i, waiting, last, before, trace);
          } else {
            WaitKeepsProgress(pins, stepsToMove, delay, clock, trace0, i, stepsLeft, lastStepTime, before, trace);
          }
          i := i + 1;
        }
        MoveEnds(pins, stepsToMove, delay, clock, trace0, i, stepsLeft, lastStepTime, trace);
        done := stepsLeft == 0;
        if done {
          ghost var moved := trace;
          ResetMotor();
          forall p | p in pins
            ensures LastLevel(trace, p) == Some(false)
          {
            ResetLeavesPinsLow(moved, pins, p);
          }
        }
      }
    }

    /** Drives the four pins, pin 0 first, with the 4-bit window of 0xCC at `thisStep`. */
    method StepMotor(thisStep: nat)
      requires Valid() && thisStep < 4
      modifies this`trace
      ensures trace == old(trace) + PhaseWrites(pins, thisStep)
    {
      for i := 0 to 4
        invariant trace == old(trace) + PhaseWrites(pins, thisStep)[..i]
      {
        PhaseLevelIsBitRead(thisStep, i);
        trace := trace + [Write(pins[i], BitRead(PhasePattern, thisStep + i))];
      }
    }

    /** Drives the four pins low, pin 0 first. */
    method ResetMotor()
      requires Valid()
      modifies this`trace
      ensures trace == old(trace) + ResetWrites(pins)
    {
      for i := 0 to 4
        invariant trace == old(trace) + ResetWrites(pins)[..i]
      {
        trace := trace + [Write(pins[i], false)];
      }
    }
  }

  /** A 200-step motor at 60 revolutions per minute on pins 2..5 waits 5000 microseconds
      per step. Given a clock reading every 6000 microseconds, which covers even the
      longest delay of the taper, `step(200)` commits on every reading: leaving out
      the readings, the pins see their configuration, the 200 phases of the move and
      the reset, which leaves every pin low. */
  method FullRevolution() returns (motor: Stepper, done: bool)
    ensures motor.stepDelay == 5000 && motor.pins == [2, 3, 4, 5]
    ensures done
    ensures Outputs(motor.trace) == ConfigureWrites([2, 3, 4, 5]) + MoveWrites([2, 3, 4, 5], 200, 200) + ResetWrites([2, 3, 4, 5])
    ensures forall p :: p in [2, 3, 4, 5] ==> LastLevel(motor.trace, p) == Some(false)
  {
    motor := new Stepper(200, 60, 2, 3, 4, 5);
    var clock := seq(200, k => 6000 * (k + 1));
    EveryReadingCommits(motor.stepDelay, clock, 0, 200, 0, 6000);
    done := motor.Step(200, clock);
    MoveWithResetOutputs(motor.pins, 200, motor.stepDelay, clock);
  }

  /** The pin events of a configured motor that completes a move and resets. */
  lemma MoveWithResetOutputs(pins: seq<int>, stepsToMove: int, stepDelay: int, clock: seq<nat>)
    requires |pins| == 4 && stepsToMove != 0
    requires |Commits(stepDelay, clock, 0, Abs(stepsToMove), 0)| == Abs(stepsToMove)
    ensures Outputs(ConfigureWrites(pins) + MoveTrace(pins, stepsToMove, stepDelay, clock, 0, Abs(stepsToMove), 0) + ResetWrites(pins))
            == ConfigureWrites(pins) + MoveWrites(pins, stepsToMove, Abs(stepsToMove)) + ResetWrites(pins)
  {
    var configure, move, reset := ConfigureWrites(pins), MoveTrace(pins, stepsToMove, stepDelay, clock, 0, Abs(stepsToMove), 0), ResetWrites(pins);
    OutputsAppend(configure + move, reset);
    OutputsAppend(configure, move);
    OutputsWithoutReadings(configure);
    OutputsWithoutReadings(reset);
    MoveTraceWrites(pins, stepsToMove, stepDelay, clock);
  }
}
