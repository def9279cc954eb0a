/**
  What the driver does to the hardware, as a trace of events: configuring a pin
  as an output (`pinMode`), writing a level to a pin (`digitalWrite`) and reading
  the microsecond clock (`micros`).
*/
module StepperOutput {
  import opened StepperMath
  import opened StepperTiming

  datatype Option<T> = None | Some(value: T)

  datatype Event =
    | ConfigureOutput(pin: int)
    | Write(pin: int, high: bool)
    | ReadClock(time: nat)

  /** The four `pinMode(pin, OUTPUT)` calls of the constructor, pin 0 first. */
  function ConfigureWrites(pins: seq<int>): seq<Event>
    requires |pins| == 4
  {
    [ConfigureOutput(pins[0]), ConfigureOutput(pins[1]), ConfigureOutput(pins[2]), ConfigureOutput(pins[3])]
  }

  /** The four writes of `stepMotor(phase)`: pin i gets bit `phase + i` of 0xCC, pin 0 first. */
  function PhaseWrites(pins: seq<int>, phase: nat): seq<Event>
    requires |pins| == 4 && phase < 4
  {
    [Write(pins[0], PhaseLevel(phase, 0)), Write(pins[1], PhaseLevel(phase, 1)),
     Write(pins[2], PhaseLevel(phase, 2)), Write(pins[3], PhaseLevel(phase, 3))]
  }

  /** The four writes of `resetMotor()`: every pin low, pin 0 first. */
  function ResetWrites(pins: seq<int>): seq<Event>
    requires |pins| == 4
  {
    [Write(pins[0], false), Write(pins[1], false), Write(pins[2], false), Write(pins[3], false)]
  }

  /** The writes of the first k commits of `step(stepsToMove)`, in order. */
  function MoveWrites(pins: seq<int>, stepsToMove: int, k: nat): seq<Event>
    requires |pins| == 4 && stepsToMove != 0
  {
    if k == 0 then [] else MoveWrites(pins, stepsToMove, k - 1) + PhaseWrites(pins, MovePhase(stepsToMove, k - 1))
  }

  /** Each commit writes four events. */
  lemma {:induction false} MoveWritesLength(pins: seq<int>, stepsToMove: int, k: nat)
    requires |pins| == 4 && stepsToMove != 0
    ensures |MoveWrites(pins, stepsToMove, k)| == 4 * k
  {
    if k > 0 {
      MoveWritesLength(pins, stepsToMove, k - 1);
    }
  }

  /** The last four writes of a complete move are those of `stepMotor(0)`: pins 0 and 1
      low, pins 2 and 3 high, whatever the length and direction of the move. */
  lemma CompleteMoveEndsInPhaseZero(pins: seq<int>, stepsToMove: int)
    requires |pins| == 4 && stepsToMove != 0
    ensures var w := MoveWrites(pins, stepsToMove, Abs(stepsToMove));
            |w| >= 4 && w[|w| - 4..] == [Write(pins[0], false), Write(pins[1], false), Write(pins[2], true), Write(pins[3], true)]
  {
    var n := Abs(stepsToMove);
    assert n > 0;
    var prev := MoveWrites(pins, stepsToMove, n - 1);
    var final := PhaseWrites(pins, MovePhase(stepsToMove, n - 1));
    var w := MoveWrites(pins, stepsToMove, n);
    assert w == prev + final;
    MoveWritesLength(pins, stepsToMove, n - 1);
    assert w[|w| - 4..] == final;
    LastPhaseIsZero(stepsToMove);
    assert final == PhaseWrites(pins, 0);
    assert !PhaseLevel(0, 0) && !PhaseLevel(0, 1) && PhaseLevel(0, 2) && PhaseLevel(0, 3);
  }

  /** The events of the move loop of `step(stepsToMove)` from reading `i` on, with
      `stepsLeft` steps left and the last commit at time `last`. Each iteration reads
      the clock; a reading at which the required delay has passed is followed by the
      writes of the phase computed from the decremented step count, any other
      reading by nothing. */
  function MoveTrace(pins: seq<int>, stepsToMove: int, stepDelay: int, clock: seq<nat>,
                     i: nat, stepsLeft: nat, last: int): seq<Event>
    requires |pins| == 4 && stepsToMove != 0 && i <= |clock|
    decreases |clock| - i
  {
    if stepsLeft == 0 || i == |clock| then []
    else if clock[i] - last >= RequiredDelay(stepDelay, stepsLeft) then
      [ReadClock(clock[i])] + PhaseWrites(pins, PhaseIndex(stepsLeft - 1, Direction(stepsToMove)))
        + MoveTrace(pins, stepsToMove, stepDelay, clock, i + 1, stepsLeft - 1, clock[i])
    else
      [ReadClock(clock[i])] + MoveTrace(pins, stepsToMove, stepDelay, clock, i + 1, stepsLeft, last)
  }

  /** The events of a trace that act on pins: everything but the clock readings. */
  function Outputs(trace: seq<Event>): seq<Event>
  {
    if trace == [] then []
    else (if trace[0].ReadClock? then [] else [trace[0]]) + Outputs(trace[1..])
  }

  /** Taking the pin events of two traces in turn is taking those of their concatenation. */
  lemma {:induction false} OutputsAppend(a: seq<Event>, b: seq<Event>)
    ensures Outputs(a + b) == Outputs(a) + Outputs(b)
  {
    if a == [] {
      assert a + b == b;
    } else {
      assert (a + b)[0] == a[0] && (a + b)[1..] == a[1..] + b;
      OutputsAppend(a[1..], b);
    }
  }

  /** A trace without clock readings is its own pin events. */
  lemma {:induction false} OutputsWithoutReadings(trace: seq<Event>)
    requires forall k :: 0 <= k < |trace| ==> !trace[k].ReadClock?
    ensures Outputs(trace) == trace
  {
    if trace != [] {
      OutputsWithoutReadings(trace[1..]);
    }
  }

  /** After `k` commits, with `stepsLeft == abs(n) - k`, the writes of those commits
      followed by the pin events of the rest of the move from reading `i` on are the
      writes of all the commits made: the `k` already made and those `Commits` finds
      in the rest of the readings. */
  ghost predicate OutputsMatch(pins: seq<int>, stepsToMove: int, stepDelay: int, clock: seq<nat>,
                               i: nat, k: nat, stepsLeft: nat, last: int)
    requires |pins| == 4 && stepsToMove != 0 && i <= |clock|
  {
    MoveWrites(pins, stepsToMove, k)
      + Outputs(MoveTrace(pins, stepsToMove, stepDelay, clock, i, stepsLeft, last))
    == MoveWrites(pins, stepsToMove, k + |Commits(stepDelay, clock, i, stepsLeft, last)|)
  }

  /** Leaving out the clock readings, the rest of a move after `k` commits, with
      `stepsLeft == abs(n) - k`, writes exactly the phases of the commits `Commits`
      finds in the rest of the readings, in the order of the whole move. */
  lemma {:induction false} MoveTraceOutputs(pins: seq<int>, stepsToMove: int, stepDelay: int, clock: seq<nat>,
                                            i: nat, k: nat, stepsLeft: nat, last: int)
    requires |pins| == 4 && stepsToMove != 0 && i <= |clock| && k + stepsLeft == Abs(stepsToMove)
    ensures OutputsMatch(pins, stepsToMove, stepDelay, clock, i, k, stepsLeft, last)
    decreases |clock| - i
  {
    if stepsLeft == 0 || i == |clock| {
      EndStep(pins, stepsToMove, stepDelay, clock, i, k, stepsLeft, last);
    } else if clock[i] - last >= RequiredDelay(stepDelay, stepsLeft) {
      MoveTraceOutputs(pins, stepsToMove, stepDelay, clock, i + 1, k + 1, stepsLeft - 1, clock[i]);
      CommitStep(pins, stepsToMove, stepDelay, clock, i, k, stepsLeft, last);
    } else {
      MoveTraceOutputs(pins, stepsToMove, stepDelay, clock, i + 1, k, stepsLeft, last);
      WaitStep(pins, stepsToMove, stepDelay, clock, i, k, stepsLeft, last);
    }
  }

  /** The base case of `MoveTraceOutputs`: no step left or no reading left. */
  lemma EndStep(pins: seq<int>, stepsToMove: int, stepDelay: int, clock: seq<nat>,
                i: nat, k: nat, stepsLeft: nat, last: int)
    requires |pins| == 4 && stepsToMove != 0 && i <= |clock| && k + stepsLeft == Abs(stepsToMove)
    requires stepsLeft == 0 || i == |clock|
    ensures OutputsMatch(pins, stepsToMove, stepDelay, clock, i, k, stepsLeft, last)
  {
    var done := MoveWrites(pins, stepsToMove, k);
    assert MoveTrace(pins, stepsToMove, stepDelay, clock, i, stepsLeft, last) == [];
    assert Commits(stepDelay, clock, i, stepsLeft, last) == [];
    assert done + [] == done;
  }

  /** The induction step of `MoveTraceOutputs` at a reading that commits. */
  lemma CommitStep(pins: seq<int>, stepsToMove: int, stepDelay: int, clock: seq<nat>,
                   i: nat, k: nat, stepsLeft: nat, last: int)
    requires |pins| == 4 && stepsToMove != 0 && i < |clock| && k + stepsLeft == Abs(stepsToMove)
    requires stepsLeft > 0 && clock[i] - last >= RequiredDelay(stepDelay, stepsLeft)
    requires OutputsMatch(pins, stepsToMove, stepDelay, clock, i + 1, k + 1, stepsLeft - 1, clock[i])
    ensures OutputsMatch(pins, stepsToMove, stepDelay, clock, i, k, stepsLeft, last)
  {
    var done := MoveWrites(pins, stepsToMove, k);
    var w := PhaseWrites(pins, MovePhase(stepsToMove, k));
    var rest := MoveTrace(pins, stepsToMove, stepDelay, clock, i + 1, stepsLeft - 1, clock[i]);
    calc {
      done + Outputs(MoveTrace(pins, stepsToMove, stepDelay, clock, i, stepsLeft, last));
      { CommitOutputs(pins, stepsToMove, stepDelay, clock, i, k, stepsLeft, last); }
      done + (w + Outputs(rest));
      { AppendAssociates(done, w, Outputs(rest)); }
      (done + w) + Outputs(rest);
      { assert MoveWrites(pins, stepsToMove, k + 1) == done + w; }
      MoveWrites(pins, stepsToMove, k + 1) + Outputs(rest);
      MoveWrites(pins, stepsToMove, k + 1 + |Commits(stepDelay, clock, i + 1, stepsLeft - 1, clock[i])|);
      { CommitsOneReading(stepDelay, clock, i, stepsLeft, last); }
      MoveWrites(pins, stepsToMove, k + |Commits(stepDelay, clock, i, stepsLeft, last)|);
    }
  }

  /** The induction step of `MoveTraceOutputs` at a reading that does not commit. */
  lemma WaitStep(pins: seq<int>, stepsToMove: int, stepDelay: int, clock: seq<nat>,
                 i: nat, k: nat, stepsLeft: nat, last: int)
    requires |pins| == 4 && stepsToMove != 0 && i < |clock| && k + stepsLeft == Abs(stepsToMove)
    requires stepsLeft > 0 && clock[i] - last < RequiredDelay(stepDelay, stepsLeft)
    requires OutputsMatch(pins, stepsToMove, stepDelay, clock, i + 1, k, stepsLeft, last)
    ensures OutputsMatch(pins, stepsToMove, stepDelay, clock, i, k, stepsLeft, last)
  {
    var here := Outputs(MoveTrace(pins, stepsToMove, stepDelay, clock, i, stepsLeft, last));
    var next := Outputs(MoveTrace(pins, stepsToMove, stepDelay, clock, i + 1, stepsLeft, last));
    var done := MoveWrites(pins, stepsToMove, k);
    calc {
      done + here;
      { WaitOutputs(pins, stepsToMove, stepDelay, clock, i, stepsLeft, last); }
      done + next;
      MoveWrites(pins, stepsToMove, k + |Commits(stepDelay, clock, i + 1, stepsLeft, last)|);
      { CommitsOneReading(stepDelay, clock, i, stepsLeft, last); }
      MoveWrites(pins, stepsToMove, k + |Commits(stepDelay, clock, i, stepsLeft, last)|);
    }
  }

  /** A reading that commits contributes, besides itself, the writes of commit `k`. */
  lemma CommitOutputs(pins: seq<int>, stepsToMove: int, stepDelay: int, clock: seq<nat>,
                      i: nat, k: nat, stepsLeft: nat, last: int)
    requires |pins| == 4 && stepsToMove != 0 && i < |clock| && k + stepsLeft == Abs(stepsToMove)
    requires stepsLeft > 0 && clock[i] - last >= RequiredDelay(stepDelay, stepsLeft)
    ensures Outputs(MoveTrace(pins, stepsToMove, stepDelay, clock, i, stepsLeft, last))
            == PhaseWrites(pins, MovePhase(stepsToMove, k))
               + Outputs(MoveTrace(pins, stepsToMove, stepDelay, clock, i + 1, stepsLeft - 1, clock[i]))
  {
    var w := PhaseWrites(pins, MovePhase(stepsToMove, k));
    var rest := MoveTrace(pins, stepsToMove, stepDelay, clock, i + 1, stepsLeft - 1, clock[i]);
    assert PhaseIndex(stepsLeft - 1, Direction(stepsToMove)) == MovePhase(stepsToMove, k);
    assert MoveTrace(pins, stepsToMove, stepDelay, clock, i, stepsLeft, last) == [ReadClock(clock[i])] + (w + rest);
    OutputsAppend([ReadClock(clock[i])], w + rest);
    OutputsAppend(w, rest);
    OutputsWithoutReadings(w);
    assert Outputs([ReadClock(clock[i])]) == [];
  }

  /** A reading that does not commit contributes no pin events. */
  lemma WaitOutputs(pins: seq<int>, stepsToMove: int, stepDelay: int, clock: seq<nat>,
                    i: nat, stepsLeft: nat, last: int)
    requires |pins| == 4 && stepsToMove != 0 && i < |clock|
    requires stepsLeft > 0 && clock[i] - last < RequiredDelay(stepDelay, stepsLeft)
    ensures Outputs(MoveTrace(pins, stepsToMove, stepDelay, clock, i, stepsLeft, last))
            == Outputs(MoveTrace(pins, stepsToMove, stepDelay, clock, i + 1, stepsLeft, last))
  {
    var rest := MoveTrace(pins, stepsToMove, stepDelay, clock, i + 1, stepsLeft, last);
    assert MoveTrace(pins, stepsToMove, stepDelay, clock, i, stepsLeft, last) == [ReadClock(clock[i])] + rest;
    OutputsAppend([ReadClock(clock[i])], rest);
    assert Outputs([ReadClock(clock[i])]) == [];
  }

  /** Concatenation regroups; stated once so the solver need not rediscover it. */
  lemma AppendAssociates(a: seq<Event>, b: seq<Event>, c: seq<Event>)
    ensures a + (b + c) == (a + b) + c
  {
  }

  /** The pin events of a whole move are the phase writes of its commits, in order. */
  lemma MoveTraceWrites(pins: seq<int>, stepsToMove: int, stepDelay: int, clock: seq<nat>)
    requires |pins| == 4 && stepsToMove != 0
    ensures Outputs(MoveTrace(pins, stepsToMove, stepDelay, clock, 0, Abs(stepsToMove), 0))
            == MoveWrites(pins, stepsToMove, |Commits(stepDelay, clock, 0, Abs(stepsToMove), 0)|)
  {
    var outputs := Outputs(MoveTrace(pins, stepsToMove, stepDelay, clock, 0, Abs(stepsToMove), 0));
    MoveTraceOutputs(pins, stepsToMove, stepDelay, clock, 0, 0, Abs(stepsToMove), 0);
    assert MoveWrites(pins, stepsToMove, 0) + outputs == outputs;
  }

  /** The level last written to `pin`, if any. */
  function LastLevel(trace: seq<Event>, pin: int): Option<bool>
  {
    if trace == [] then None
    else
      match trace[|trace| - 1]
      case Write(p, high) =>
        if p == pin then Some(high) else LastLevel(trace[..|trace| - 1], pin)
      case ConfigureOutput(_) => LastLevel(trace[..|trace| - 1], pin)
      case ReadClock(_) => LastLevel(trace[..|trace| - 1], pin)
  }

  /** Whatever was written before, after `resetMotor()` every pin of the motor is low. */
  lemma ResetLeavesPinsLow(before: seq<Event>, pins: seq<int>, pin: int)
    requires |pins| == 4 && pin in pins
    ensures LastLevel(before + ResetWrites(pins), pin) == Some(false)
  {
    var t := before + ResetWrites(pins);
    var t3, t2, t1 := before + ResetWrites(pins)[..3], before + ResetWrites(pins)[..2], before + ResetWrites(pins)[..1];
    assert t[..|t| - 1] == t3 && t3[..|t3| - 1] == t2 && t2[..|t2| - 1] == t1;
    assert t[|t| - 1] == Write(pins[3], false) && t3[|t3| - 1] == Write(pins[2], false);
    assert t2[|t2| - 1] == Write(pins[1], false) && t1[|t1| - 1] == Write(pins[0], false);
    if pin != pins[3] {
      assert LastLevel(t, pin) == LastLevel(t3, pin);
      if pin != pins[2] {
        assert LastLevel(t3, pin) == LastLevel(t2, pin);
        if pin != pins[1] {
          assert LastLevel(t2, pin) == LastLevel(t1, pin);
        }
      }
    }
  }
}
