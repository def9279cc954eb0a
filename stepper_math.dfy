/**
  The integer arithmetic of the stepper driver: the speed formula, the direction
  and phase index of a move, the end-of-move taper and the 0xCC phase pattern.
  C++ integer division and remainder truncate toward zero; they are written out
  here as TruncDiv and TruncMod, since Dafny's own `/` and `%` are Euclidean.
*/
module StepperMath {

  /** Microseconds in one minute, the numerator of the speed formula. */
  const MicrosPerMinute: int := 60 * 1000 * 1000

  /** A move slows down once fewer than this many steps are left. */
  const TaperStart: int := 10

  /** Extra microseconds of delay per remaining step inside the taper. */
  const TaperMicrosPerStep: int := 100

  /** The bit pattern 11001100 whose 4-bit windows are the coil phases. */
  const PhasePattern: nat := 0xCC

  function Abs(x: int): (r: nat)
    ensures r == x || r == -x
  {
    if x < 0 then -x else x
  }

  /** C++ `a / b`: the quotient truncated toward zero. */
  function TruncDiv(a: int, b: int): int
    requires b != 0
  {
    var q := Abs(a) / Abs(b);
    if (a < 0) == (b < 0) then q else -q
  }

  /** C++ `a % b`: the remainder that goes with TruncDiv; it takes the sign of `a`. */
  function TruncMod(a: int, b: int): int
    requires b != 0
  {
    var r := Abs(a) % Abs(b);
    if a < 0 then -r else r
  }

  /** The two C++ operators satisfy the identity the language guarantees,
      `(a / b) * b + a % b == a`, with a remainder smaller than the divisor
      that is never of the opposite sign to the dividend. */
  lemma TruncDivMod(a: int, b: int)
    requires b != 0
    ensures TruncDiv(a, b) * b + TruncMod(a, b) == a
    ensures Abs(TruncMod(a, b)) < Abs(b)
    ensures a >= 0 ==> TruncMod(a, b) >= 0
    ensures a <= 0 ==> TruncMod(a, b) <= 0
  {
    var q, r := Abs(a) / Abs(b), Abs(a) % Abs(b);
    assert Abs(a) == Abs(b) * q + r;
    if b < 0 {
      Negate(q, b);
      assert q * b == -(Abs(b) * q);
    } else {
      assert q * b == Abs(b) * q;
    }
    Negate(q, b);
  }

  lemma Negate(x: int, y: int)
    ensures (-x) * y == -(x * y) && x * (-y) == -(x * y)
  {
  }

  /** On a non-negative dividend and a positive divisor, C++ and Dafny agree. */
  lemma TruncAgreesOnNonNegatives(a: int, b: int)
    requires a >= 0 && b > 0
    ensures TruncDiv(a, b) == a / b && TruncMod(a, b) == a % b
  {
  }

  /** `60L * 1000L * 1000L / number_of_steps / whatSpeed`: the microseconds to wait
      between steps so that the motor turns at `whatSpeed` revolutions per minute. */
  function StepDelay(numberOfSteps: int, whatSpeed: int): (delay: int)
    requires numberOfSteps > 0 && whatSpeed > 0
    ensures 0 <= delay <= MicrosPerMinute
  {
    TruncDiv(TruncDiv(MicrosPerMinute, numberOfSteps), whatSpeed)
  }

  /** Dividing twice in turn is dividing once by the product: the step delay is the
      largest whole number of microseconds such that numberOfSteps * whatSpeed steps,
      one revolution's worth every minute at this speed, fit in one minute. */
  lemma StepDelayIsTimePerStep(numberOfSteps: int, whatSpeed: int)
    requires numberOfSteps > 0 && whatSpeed > 0
    ensures var delay := StepDelay(numberOfSteps, whatSpeed);
            delay * (numberOfSteps * whatSpeed) <= MicrosPerMinute < (delay + 1) * (numberOfSteps * whatSpeed)
  {
    TruncAgreesOnNonNegatives(MicrosPerMinute, numberOfSteps);
    TruncAgreesOnNonNegatives(MicrosPerMinute / numberOfSteps, whatSpeed);
    DivideTwice(MicrosPerMinute, numberOfSteps, whatSpeed);
  }

  /** `(a / b) / c` is the largest q with `q * (b * c) <= a`. */
  lemma DivideTwice(a: nat, b: nat, c: nat)
    requires b > 0 && c > 0
    ensures (a / b / c) * (b * c) <= a < (a / b / c + 1) * (b * c)
  {
    var q1, r1 := a / b, a % b;
    var q2, r2 := q1 / c, q1 % c;
    var bc := b * c;
    assert a == b * q1 + r1;
    assert q1 == c * q2 + r2;
    Distribute(b, c * q2, r2);
    Regroup(b, c, q2);
    assert a == q2 * bc + (b * r2 + r1);
    MultiplyMonotone(b, r2, c - 1);
    Distribute(b, c, -1);
    assert b * r2 + r1 < bc;
    Distribute(bc, q2, 1);
    assert (q2 + 1) * bc == q2 * bc + bc;
  }

  lemma Distribute(x: int, y: int, z: int)
    ensures x * (y + z) == x * y + x * z
  {
  }

  lemma Regroup(b: int, c: int, q: int)
    ensures b * (c * q) == q * (b * c)
  {
  }

  lemma MultiplyMonotone(b: nat, x: int, y: int)
    requires x <= y
    ensures b * x <= b * y
  {
  }

  /** `steps_left / -steps_to_move` with `steps_left == abs(steps_to_move)`. */
  function Direction(stepsToMove: int): (direction: int)
    requires stepsToMove != 0
    ensures direction == (if stepsToMove > 0 then -1 else 1)
  {
    TruncDiv(Abs(stepsToMove), -stepsToMove)
  }

  /** `(4 + (steps_left * direction) % 4) % 4`: the double remainder turns the C++
      remainder, which can be negative, into the mathematical residue modulo 4. */
  function PhaseIndex(stepsLeft: int, direction: int): (phase: int)
    ensures 0 <= phase < 4
  {
    var x := stepsLeft * direction;
    TruncDivMod(x, 4);
    TruncDivMod(4 + TruncMod(x, 4), 4);
    TruncMod(4 + TruncMod(x, 4), 4)
  }

  /** The phase index is the residue of `steps_left * direction` modulo 4, whatever
      the sign of the product. */
  lemma PhaseIndexIsResidue(stepsLeft: int, direction: int)
    ensures PhaseIndex(stepsLeft, direction) == (stepsLeft * direction) % 4
  {
    var x := stepsLeft * direction;
    TruncDivMod(x, 4);
    TruncDivMod(4 + TruncMod(x, 4), 4);
  }

  /** The delay the move loop waits for before committing the step it takes while
      `stepsLeft` steps remain: the step delay, lengthened over the last nine steps. */
  function RequiredDelay(stepDelay: int, stepsLeft: int): int
  {
    if stepsLeft < TaperStart then stepDelay + stepsLeft * TaperMicrosPerStep else stepDelay
  }

  /** Outside the last nine steps a move waits exactly the step delay; inside them it
      waits 100 microseconds more per remaining step, so always longer than the step
      delay and never more than 900 microseconds longer. */
  lemma TaperBounds(stepDelay: int, stepsLeft: int)
    requires stepsLeft > 0
    ensures stepsLeft >= TaperStart ==> RequiredDelay(stepDelay, stepsLeft) == stepDelay
    ensures stepsLeft < TaperStart ==> stepDelay < RequiredDelay(stepDelay, stepsLeft) <= stepDelay + (TaperStart - 1) * TaperMicrosPerStep
    ensures stepsLeft < TaperStart ==> RequiredDelay(stepDelay, stepsLeft) == stepDelay + TaperMicrosPerStep * stepsLeft
  {
  }

  /** Within the taper the required delay shrinks by 100 microseconds with each step
      toward the end of the move: it never grows as the move nears its end. */
  lemma TaperShrinks(stepDelay: int, stepsLeft: int)
    requires 1 < stepsLeft
    ensures stepsLeft < TaperStart ==> RequiredDelay(stepDelay, stepsLeft - 1) == RequiredDelay(stepDelay, stepsLeft) - TaperMicrosPerStep
    ensures RequiredDelay(stepDelay, stepsLeft - 1) <= RequiredDelay(stepDelay, stepsLeft) || stepsLeft == TaperStart
  {
  }

  /** Arduino's `bitRead(value, bit)`, `(value >> bit) & 1`: whether bit number `bit`
      of `value` is set. */
  function BitRead(value: nat, bit: nat): bool
  {
    if bit == 0 then value % 2 == 1 else BitRead(value / 2, bit - 1)
  }

  /** The level `stepMotor(phase)` gives the pin at position `pin`: bit `phase + pin`
      of 0xCC, which is set exactly at bits 2, 3, 6 and 7. */
  function PhaseLevel(phase: nat, pin: nat): bool
    requires phase + pin < 8
  {
    var bit := phase + pin;
    bit == 2 || bit == 3 || bit == 6 || bit == 7
  }

  /** PhaseLevel reads the same bit of 0xCC that `bitRead` does. */
  lemma PhaseLevelIsBitRead(phase: nat, pin: nat)
    requires phase + pin < 8
    ensures PhaseLevel(phase, pin) == BitRead(PhasePattern, phase + pin)
  {
    assert BitRead(PhasePattern, 0) == false;
    assert BitRead(PhasePattern, 1) == BitRead(0x66, 0) == false;
    assert BitRead(PhasePattern, 2) == BitRead(0x33, 0) == true;
    assert BitRead(PhasePattern, 3) == BitRead(0x19, 0) == true;
    assert BitRead(PhasePattern, 4) == BitRead(0x0C, 0) == false;
    assert BitRead(PhasePattern, 5) == BitRead(0x06, 0) == false;
    assert BitRead(PhasePattern, 6) == BitRead(0x03, 0) == true;
    assert BitRead(PhasePattern, 7) == BitRead(0x01, 0) == true;
  }

  /** The four levels `stepMotor(phase)` writes, pin 0 first. */
  function PhaseRow(phase: nat): seq<bool>
    requires phase < 4
  {
    [PhaseLevel(phase, 0), PhaseLevel(phase, 1), PhaseLevel(phase, 2), PhaseLevel(phase, 3)]
  }

  /** The four rows the 4-bit window of 0xCC yields for the phase indices 0..3. */
  lemma PhaseRows()
    ensures PhaseRow(0) == [false, false, true, true]
    ensures PhaseRow(1) == [false, true, true, false]
    ensures PhaseRow(2) == [true, true, false, false]
    ensures PhaseRow(3) == [true, false, false, true]
  {
  }

  function CountHigh(row: seq<bool>): nat
  {
    if row == [] then 0 else (if row[0] then 1 else 0) + CountHigh(row[1..])
  }

  function CountDiffering(r1: seq<bool>, r2: seq<bool>): nat
    requires |r1| == |r2|
  {
    if r1 == [] then 0 else (if r1[0] != r2[0] then 1 else 0) + CountDiffering(r1[1..], r2[1..])
  }

  /** Every phase energises exactly two of the four pins, and moving to the next
      phase (cyclically, 3 back to 0) switches exactly two pins: one off, one on. */
  lemma TwoPinsHighTwoPinsSwitch(phase: nat)
    requires phase < 4
    ensures CountHigh(PhaseRow(phase)) == 2
    ensures CountDiffering(PhaseRow(phase), PhaseRow((phase + 1) % 4)) == 2
  {
    PhaseRows();
    var a, b, c, d := PhaseRow(0), PhaseRow(1), PhaseRow(2), PhaseRow(3);
    assert CountHigh(a) == 2 && CountHigh(b) == 2 && CountHigh(c) == 2 && CountHigh(d) == 2;
    assert CountDiffering(a, b) == 2 && CountDiffering(b, c) == 2;
    assert CountDiffering(c, d) == 2 && CountDiffering(d, a) == 2;
  }

  /** The 4-wire table of the source's header comment, columns C0..C3, step 1 first. */
  const DocumentedFourWireTable: seq<seq<bool>> :=
    [[true, false, true, false],
     [false, true, true, false],
     [false, true, false, true],
     [true, false, false, true]]

  /** The code does not emit the documented table row for row: phase 0 differs from
      its first row. It emits that table with the outer wires exchanged: pin i gets
      column C3, C1, C2, C0 for i = 0, 1, 2, 3. */
  lemma CodeSwapsOuterWiresOfDocumentedTable(phase: nat, pin: nat)
    requires phase < 4 && pin < 4
    ensures PhaseRow(0) != DocumentedFourWireTable[0]
    ensures PhaseLevel(phase, pin) == DocumentedFourWireTable[phase][if pin == 0 then 3 else if pin == 3 then 0 else pin]
  {
    PhaseRows();
    assert PhaseLevel(phase, pin) == PhaseRow(phase)[pin];
  }

  /** The phase index of the j-th commit (j = 0 first) of `step(stepsToMove)`:
      after that commit `abs(stepsToMove) - 1 - j` steps are left. */
  function MovePhase(stepsToMove: int, j: int): (phase: nat)
    requires stepsToMove != 0
    ensures phase < 4
  {
    PhaseIndex(Abs(stepsToMove) - 1 - j, Direction(stepsToMove))
  }

  /** From one commit to the next the phase index moves one place forward (mod 4)
      for a positive request and one place back for a negative one. */
  lemma PhaseAdvances(stepsToMove: int, j: int)
    requires stepsToMove != 0 && 0 <= j && j + 1 < Abs(stepsToMove)
    ensures stepsToMove > 0 ==> MovePhase(stepsToMove, j + 1) == (MovePhase(stepsToMove, j) + 1) % 4
    ensures stepsToMove < 0 ==> MovePhase(stepsToMove, j + 1) == (MovePhase(stepsToMove, j) + 3) % 4
  {
    var s := Abs(stepsToMove) - 1 - j;
    var d := Direction(stepsToMove);
    PhaseIndexIsResidue(s, d);
    PhaseIndexIsResidue(s - 1, d);
    assert MovePhase(stepsToMove, j) == (s * d) % 4;
    assert MovePhase(stepsToMove, j + 1) == ((s - 1) * d) % 4;
    if stepsToMove > 0 {
      assert (s - 1) * d == s * d + 1;
      ModShift(s * d, 1);
    } else {
      assert (s - 1) * d == s * d - 1;
      ModShift(s * d, -1);
      assert (s * d - 1) % 4 == (s * d + 3) % 4 by { ModShift(s * d - 1, 4); }
      ModShift(s * d, 3);
    }
  }

  /** Adding a multiple of 4 does not change the residue modulo 4. */
  lemma ModMultiple(x: int, q: int)
    ensures (x + 4 * q) % 4 == x % 4
  {
    var p := x / 4;
    assert x == 4 * p + x % 4;
    assert x + 4 * q == 4 * (p + q) + x % 4;
  }

  /** Adding k before or after reducing modulo 4 gives the same residue. */
  lemma ModShift(x: int, k: int)
    ensures (x + k) % 4 == (x % 4 + k) % 4
  {
    var q := x / 4;
    assert x == 4 * q + x % 4;
    assert x + k == 4 * q + (x % 4 + k);
    var m := x % 4 + k;
    assert (4 * q + m) % 4 == m % 4 by {
      var q' := m / 4;
      assert m == 4 * q' + m % 4;
      assert 4 * q + m == 4 * (q + q') + m % 4;
    }
  }

  /** The last commit of every move, whatever its length and direction, uses phase 0. */
  lemma LastPhaseIsZero(stepsToMove: int)
    requires stepsToMove != 0
    ensures MovePhase(stepsToMove, Abs(stepsToMove) - 1) == 0
  {
    PhaseIndexIsResidue(0, Direction(stepsToMove));
  }

  /** Moving the same distance the other way visits the mirror image of each phase:
      the two phase sequences run through the cycle in opposite orders. */
  lemma OppositeDirectionsMirror(stepsToMove: int, j: int)
    requires stepsToMove != 0
    ensures MovePhase(-stepsToMove, j) == (4 - MovePhase(stepsToMove, j)) % 4
  {
    var s := Abs(stepsToMove) - 1 - j;
    var x := s * Direction(stepsToMove);
    PhaseIndexIsResidue(s, Direction(stepsToMove));
    PhaseIndexIsResidue(s, Direction(-stepsToMove));
    assert Abs(-stepsToMove) == Abs(stepsToMove);
    Negate(s, Direction(stepsToMove));
    assert s * Direction(-stepsToMove) == -x;
    var q, r := x / 4, x % 4;
    assert x == 4 * q + r;
    ModMultiple(-r, -q);
    assert -x == -r + 4 * -q;
    ModMultiple(-r, 1);
  }
}
