/**
  When the move loop of `Stepper::step` commits a step. The loop reads the
  microsecond clock once per iteration; here the readings are a finite sequence,
  and Commits lists the positions of the readings at which a step is committed.
*/
module StepperTiming {
  import opened StepperMath

  /** The positions, from `i` on, of the clock readings at which the move loop
      commits a step, when `stepsLeft` steps remain and the last commit was at
      time `last`. A reading commits when at least the required delay has passed
      since `last`; otherwise the iteration changes nothing. The list stops once no
      step is left or the readings run out. */
  function Commits(stepDelay: int, clock: seq<nat>, i: nat, stepsLeft: nat, last: int): (c: seq<nat>)
    requires i <= |clock|
    ensures |c| <= stepsLeft
    ensures forall j :: 0 <= j < |c| ==> i <= c[j] < |clock|
    decreases |clock| - i
  {
    if stepsLeft == 0 || i == |clock| then []
    else if clock[i] - last >= RequiredDelay(stepDelay, stepsLeft) then
      [i] + Commits(stepDelay, clock, i + 1, stepsLeft - 1, clock[i])
    else
      Commits(stepDelay, clock, i + 1, stepsLeft, last)
  }

  /** One iteration of the move loop: a reading that sees the required delay pass
      commits one step, any other reading leaves the count of commits to come unchanged. */
  lemma CommitsOneReading(stepDelay: int, clock: seq<nat>, i: nat, stepsLeft: nat, last: int)
    requires i < |clock| && stepsLeft > 0
    ensures |Commits(stepDelay, clock, i, stepsLeft, last)| ==
      if clock[i] - last >= RequiredDelay(stepDelay, stepsLeft)
      then 1 + |Commits(stepDelay, clock, i + 1, stepsLeft - 1, clock[i])|
      else |Commits(stepDelay, clock, i + 1, stepsLeft, last)|
  {
  }

  /** The j-th commit happens at the first reading, after the previous commit, at
      which the delay required with `stepsLeft - j` steps left has passed since the
      previous commit (or since `last` for the first one): every reading in between
      saw too little time pass, and the one that commits saw enough. */
  lemma {:induction false} CommitTiming(stepDelay: int, clock: seq<nat>, i: nat, stepsLeft: nat, last: int, j: nat)
    requires i <= |clock|
    requires j < |Commits(stepDelay, clock, i, stepsLeft, last)|
    ensures var c := Commits(stepDelay, clock, i, stepsLeft, last);
            var prev := if j == 0 then last else clock[c[j - 1]];
            var from := if j == 0 then i else c[j - 1] + 1;
            && from <= c[j]
            && clock[c[j]] - prev >= RequiredDelay(stepDelay, stepsLeft - j)
            && forall k :: from <= k < c[j] ==> clock[k] - prev < RequiredDelay(stepDelay, stepsLeft - j)
    decreases |clock| - i
  {
    var c := Commits(stepDelay, clock, i, stepsLeft, last);
    if clock[i] - last >= RequiredDelay(stepDelay, stepsLeft) {
      var rest := Commits(stepDelay, clock, i + 1, stepsLeft - 1, clock[i]);
      assert c == [i] + rest;
      if j > 0 {
        CommitTiming(stepDelay, clock, i + 1, stepsLeft - 1, clock[i], j - 1);
        if j == 1 {
          assert c[j - 1] == i;
          assert rest[0] == c[1];
        } else {
          assert c[j - 1] == rest[j - 2] && c[j] == rest[j - 1];
        }
      }
    } else {
      var rest := Commits(stepDelay, clock, i + 1, stepsLeft, last);
      assert c == rest;
      CommitTiming(stepDelay, clock, i + 1, stepsLeft, last, j);
    }
  }

  /** When the readings run out before the move is complete, none of the readings
      after the last commit saw the required delay pass: reading `k` is any of them. */
  lemma {:induction false} CommitsStopOnlyWhenDone(stepDelay: int, clock: seq<nat>, i: nat, stepsLeft: nat, last: int, k: nat)
    requires i <= |clock|
    requires var c := Commits(stepDelay, clock, i, stepsLeft, last);
             |c| < stepsLeft && (if c == [] then i else c[|c| - 1] + 1) <= k < |clock|
    ensures var c := Commits(stepDelay, clock, i, stepsLeft, last);
            clock[k] - (if c == [] then last else clock[c[|c| - 1]]) < RequiredDelay(stepDelay, stepsLeft - |c|)
    decreases |clock| - i
  {
    var c := Commits(stepDelay, clock, i, stepsLeft, last);
    if clock[i] - last >= RequiredDelay(stepDelay, stepsLeft) {
      var rest := Commits(stepDelay, clock, i + 1, stepsLeft - 1, clock[i]);
      assert c == [i] + rest;
      assert c[|c| - 1] == if rest == [] then i else rest[|rest| - 1];
      CommitsStopOnlyWhenDone(stepDelay, clock, i + 1, stepsLeft - 1, clock[i], k);
    } else {
      assert c == Commits(stepDelay, clock, i + 1, stepsLeft, last);
      if k > i {
        CommitsStopOnlyWhenDone(stepDelay, clock, i + 1, stepsLeft, last, k);
      }
    }
  }

  /** When the first reading comes at least `gap` after `last`, each later reading at
      least `gap` after the one before it, `gap` covers the longest required delay,
      and there are enough readings, every reading commits: the move takes exactly
      `stepsLeft` readings, one step per reading. */
  lemma {:induction false} EveryReadingCommits(stepDelay: int, clock: seq<nat>, i: nat, stepsLeft: nat, last: int, gap: int)
    requires i + stepsLeft <= |clock|
    requires gap >= stepDelay + (TaperStart - 1) * TaperMicrosPerStep
    requires i < |clock| ==> clock[i] - last >= gap
    requires forall k :: i < k < |clock| ==> clock[k] - clock[k - 1] >= gap
    ensures Commits(stepDelay, clock, i, stepsLeft, last) == seq(stepsLeft, j => i + j)
    decreases stepsLeft
  {
    if stepsLeft > 0 {
      assert clock[i] - last >= RequiredDelay(stepDelay, stepsLeft);
      EveryReadingCommits(stepDelay, clock, i + 1, stepsLeft - 1, clock[i], gap);
      var rest := seq(stepsLeft - 1, j => i + 1 + j);
      assert [i] + rest == seq(stepsLeft, j => i + j);
    }
  }
}
