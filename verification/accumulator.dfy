/** The arithmetic of the fixed-timestep accumulator in `World.Update`
    (Assets/Scripts/Engine/World.cs): each host frame adds its delta to a
    time surplus, which is then drained in whole steps of `1 / fixedFPS`.

    Time is exact (`real`). The time taken by `n` steps is written
    `Elapsed(n, h)`, a sum of `n` copies of `h`; `ElapsedIsProduct` shows it
    is `n * h`. Keeping it a sum keeps the proofs in linear arithmetic. */
module Accumulator {
  import RealSeq

  /** `fixedDeltaTime`: the length of one fixed sub-step for a rate in Hz. */
  function StepLength(rate: real): (h: real)
    requires rate > 0.0
    ensures h > 0.0
    ensures h * rate == 1.0
  {
    1.0 / rate
  }

  /** The time covered by `n` sub-steps of length `h`. */
  function Elapsed(n: nat, h: real): real
  {
    if n == 0 then 0.0 else Elapsed(n - 1, h) + h
  }

  lemma {:induction false} ElapsedIsProduct(n: nat, h: real)
    ensures Elapsed(n, h) == n as real * h
  {
    if n > 0 {
      ElapsedIsProduct(n - 1, h);
      assert (n - 1) as real * h + h == n as real * h;
    }
  }

  /** With a positive step, more steps always cover at least one more step
      of time. */
  lemma {:induction false} ElapsedGrows(a: nat, b: nat, h: real)
    requires h > 0.0 && a < b
    ensures Elapsed(b, h) >= Elapsed(a, h) + h
    decreases b
  {
    if a + 1 < b {
      ElapsedGrows(a, b - 1, h);
    }
  }

  /** The number of times `while (acc >= h) acc = acc - h;` runs when
      `acc` starts at `total`. */
  function SubSteps(total: real, h: real): (n: nat)
    requires h > 0.0
    ensures n > 0 <==> total >= h
    decreases (total / h).Floor
  {
    if total < h then 0
    else
      ShiftQuotient(total, h);
      1 + SubSteps(total - h, h)
  }

  /** Draining `SubSteps(total, h)` whole steps leaves less than one step,
      and never a negative surplus once a step has run. */
  lemma {:induction false} SubStepsBounds(total: real, h: real)
    requires h > 0.0
    ensures total - Elapsed(SubSteps(total, h), h) < h
    ensures SubSteps(total, h) > 0 ==> total - Elapsed(SubSteps(total, h), h) >= 0.0
    decreases (total / h).Floor
  {
    if total >= h {
      ShiftQuotient(total, h);
      SubStepsBounds(total - h, h);
      var m := SubSteps(total - h, h);
      assert SubSteps(total, h) == m + 1;
      assert Elapsed(m + 1, h) == Elapsed(m, h) + h;
    } else {
      assert SubSteps(total, h) == 0;
    }
  }

  /** The two bounds on the surplus pin the sub-step count down: any count
      meeting them is the one the loop produces. */
  lemma SubStepsUnique(total: real, h: real, n: nat)
    requires h > 0.0
    requires total - Elapsed(n, h) < h
    requires n > 0 ==> total - Elapsed(n, h) >= 0.0
    ensures SubSteps(total, h) == n
  {
    var m := SubSteps(total, h);
    SubStepsBounds(total, h);
    CountOrder(total, h, m, n);
    CountOrder(total, h, n, m);
  }

  /** A count leaving a surplus below `h` is at least any count leaving a
      non-negative surplus. */
  lemma CountOrder(total: real, h: real, a: nat, b: nat)
    requires h > 0.0
    requires total - Elapsed(a, h) < h
    requires b > 0 ==> total - Elapsed(b, h) >= 0.0
    ensures b <= a
  {
    if a < b {
      ElapsedGrows(a, b, h);
    }
  }

  /** For a non-negative surplus the count is floor(total / h). */
  lemma SubStepsIsFloor(total: real, h: real)
    requires h > 0.0 && total >= 0.0
    ensures SubSteps(total, h) == (total / h).Floor
  {
    var n := (total / h).Floor;
    FloorScale(total, h);
    ElapsedIsProduct(n, h);
    SubStepsUnique(total, h, n);
  }

  /** At a rate of `rate` Hz a non-negative surplus runs floor(total * rate)
      sub-steps. */
  lemma StepsAtRate(total: real, rate: real)
    requires rate > 0.0
    ensures total >= 0.0 ==> SubSteps(total, StepLength(rate)) == (total * rate).Floor
  {
    if total >= 0.0 {
      var h := StepLength(rate);
      SubStepsIsFloor(total, h);
      assert (total * rate) * h == total * (rate * h);
      assert (total / h) * h == total;
      ZeroFactor(total / h - total * rate, h);
    }
  }

  /** Scaling the floor of `total / h` back by `h` lands in the last whole
      step at or below `total`. */
  lemma FloorScale(total: real, h: real)
    requires h > 0.0 && total >= 0.0
    ensures (total / h).Floor >= 0
    ensures (total / h).Floor as real * h <= total
    ensures total < ((total / h).Floor + 1) as real * h
  {
    var q := total / h;
    var n := q.Floor;
    assert q * h == total;
    assert n as real * h <= q * h;
    assert q < (n + 1) as real;
    StrictScale(q, (n + 1) as real, h);
    assert total < (n + 1) as real * h;
    assert (n + 1) as real * h == n as real * h + h;
  }

  lemma StrictScale(x: real, y: real, h: real)
    requires x < y && h > 0.0
    ensures x * h < y * h
  {
  }

  /** Removing one step from the surplus lowers the quotient by exactly one. */
  lemma ShiftQuotient(total: real, h: real)
    requires h > 0.0
    ensures (total - h) / h == total / h - 1.0
  {
    var a, b := (total - h) / h, total / h - 1.0;
    assert a * h == total - h;
    assert b * h == total - h;
    assert (a - b) * h == 0.0;
    ZeroFactor(a - b, h);
  }

  lemma ZeroFactor(x: real, h: real)
    requires h > 0.0 && x * h == 0.0
    ensures x == 0.0
  {
  }

  /** The surplus carried to the next host frame: always less than one
      step, and never negative when the frame began with a non-negative
      surplus plus delta. */
  function Carry(acc: real, delta: real, h: real): (c: real)
    requires h > 0.0
    ensures c < h
    ensures acc + delta >= 0.0 ==> c >= 0.0
  {
    SubStepsBounds(acc + delta, h);
    acc + delta - Elapsed(SubSteps(acc + delta, h), h)
  }

  /** A surplus in [0, h) stays in [0, h) across a frame with a
      non-negative delta. */
  lemma CarryInWindow(acc: real, delta: real, h: real)
    requires h > 0.0
    requires 0.0 <= acc < h && delta >= 0.0
    ensures 0.0 <= Carry(acc, delta, h) < h
  {
    SubStepsBounds(acc + delta, h);
  }

  /** At 60 Hz a 1/30 s frame runs two sub-steps; a 1/600 s frame runs
      none and carries the whole delta. */
  lemma SixtyHertz()
    ensures SubSteps(0.0 + 1.0 / 30.0, StepLength(60.0)) == 2
    ensures SubSteps(0.0 + 1.0 / 600.0, StepLength(60.0)) == 0
    ensures Carry(0.0, 1.0 / 600.0, StepLength(60.0)) == 1.0 / 600.0
  {
    var h := StepLength(60.0);
    assert Elapsed(2, h) == 1.0 / 30.0;
    SubStepsUnique(1.0 / 30.0, h, 2);
    SubStepsUnique(1.0 / 600.0, h, 0);
  }

  /** What a run of host frames leaves behind. */
  datatype Drained = Drained(steps: nat, carry: real)

  /** Sub-steps run and surplus left after a run of host frames, the
      frames taken in order. */
  function Frames(acc: real, deltas: seq<real>, h: real): (r: Drained)
    requires h > 0.0
    ensures deltas == [] ==> r.steps == 0
    ensures deltas != [] ==> r.carry < h
    decreases |deltas|
  {
    if deltas == [] then Drained(0, acc)
    else
      var before := Frames(acc, deltas[..|deltas| - 1], h);
      var d := deltas[|deltas| - 1];
      Drained(before.steps + SubSteps(before.carry + d, h), Carry(before.carry, d, h))
  }

  /** Over a run of host frames with non-negative deltas no time is lost
      or invented: the surplus plus the time of the steps run is the time
      supplied, and the surplus stays in [0, h). */
  lemma {:induction false} FramesConserveTime(acc: real, deltas: seq<real>, h: real)
    requires h > 0.0 && 0.0 <= acc < h
    requires RealSeq.AllNonNegative(deltas)
    ensures Frames(acc, deltas, h).carry + Elapsed(Frames(acc, deltas, h).steps, h)
            == acc + RealSeq.Sum(deltas)
    ensures 0.0 <= Frames(acc, deltas, h).carry < h
    decreases |deltas|
  {
    if deltas != [] {
      var init, d := LastFrame(deltas);
      FramesConserveTime(acc, init, h);
      var before := Frames(acc, init, h);
      OneMoreFrame(acc + RealSeq.Sum(init), before.carry, before.steps, d, h);
    }
  }

  /** Cutting the same stretch of time into different host frames never
      changes how many fixed steps run: the count over a run of frames is
      the count for the summed time. */
  lemma FramesMatchTotal(acc: real, deltas: seq<real>, h: real)
    requires h > 0.0 && 0.0 <= acc < h
    requires RealSeq.AllNonNegative(deltas)
    ensures Frames(acc, deltas, h).steps == SubSteps(acc + RealSeq.Sum(deltas), h)
  {
    if deltas != [] {
      var init, d := LastFrame(deltas);
      FramesConserveTime(acc, init, h);
      var before := Frames(acc, init, h);
      OneMoreFrame(acc + RealSeq.Sum(init), before.carry, before.steps, d, h);
    }
  }

  /** Splits off the last frame of a non-empty run. */
  lemma LastFrame(deltas: seq<real>) returns (init: seq<real>, d: real)
    requires deltas != [] && RealSeq.AllNonNegative(deltas)
    ensures init == deltas[..|deltas| - 1] && d == deltas[|deltas| - 1]
    ensures RealSeq.AllNonNegative(init) && d >= 0.0
    ensures RealSeq.Sum(deltas) == RealSeq.Sum(init) + d
  {
    init, d := deltas[..|deltas| - 1], deltas[|deltas| - 1];
    forall i | 0 <= i < |init|
      ensures init[i] >= 0.0
    {
      assert init[i] == deltas[i];
    }
  }

  /** The inductive step of the two lemmas above: a surplus `carried`
      left after `n1` steps of `total` goes on as if the frames had been
      one. */
  lemma OneMoreFrame(total: real, carried: real, n1: nat, d: real, h: real)
    requires h > 0.0 && d >= 0.0
    requires 0.0 <= carried < h
    requires carried + Elapsed(n1, h) == total
    ensures n1 + SubSteps(carried + d, h) == SubSteps(total + d, h)
    ensures Carry(carried, d, h) + Elapsed(n1 + SubSteps(carried + d, h), h) == total + d
    ensures 0.0 <= Carry(carried, d, h) < h
  {
    var n2 := SubSteps(carried + d, h);
    SubStepsBounds(carried + d, h);
    ElapsedAdds(n1, n2, h);
    SubStepsUnique(total + d, h, n1 + n2);
  }

  lemma {:induction false} ElapsedAdds(a: nat, b: nat, h: real)
    ensures Elapsed(a + b, h) == Elapsed(a, h) + Elapsed(b, h)
    decreases b
  {
    if b > 0 {
      ElapsedAdds(a, b - 1, h);
    }
  }
}
