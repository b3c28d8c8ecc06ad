/** The static frame timer (Assets/Scripts/Common/Timer.cs): every host
    frame records its delta and counts frames; every `frameMax` frames it
    recomputes `fps` as the number of frames over the time they took, and
    starts a new window. The static fields are one immutable `State`;
    `Time.deltaTime` is the `delta` argument. */
module Timer {
  import RealSeq

  const Int32Min: int := -0x8000_0000
  const Int32Max: int := 0x7fff_ffff

  predicate IsInt32(x: int) {
    Int32Min <= x <= Int32Max
  }

  /** `x++` on a C# `int`, which wraps from the largest value to the
      smallest: the result is the 32-bit value congruent to `x + 1`. */
  function Increment(x: int): (r: int)
    requires IsInt32(x)
    ensures IsInt32(r)
    ensures (r - x - 1) % 0x1_0000_0000 == 0
  {
    if x == Int32Max then Int32Min else x + 1
  }

  /** The outcome of a `float` division, exact apart from rounding. */
  datatype Quotient = Finite(value: real) | PositiveInfinity | NegativeInfinity | NotANumber

  /** `n / d` with an `int` numerator and a `float` divisor under IEEE 754:
      a zero divisor gives an infinity of the numerator's sign, or NaN for
      a zero numerator. The divisor here is never a negative zero, since
      `fpsTime` starts at +0 and a sum of floats is -0 only when both
      addends are. */
  function Divide(n: int, d: real): (q: Quotient)
    ensures q.Finite? <==> d != 0.0
    ensures q.Finite? ==> q.value * d == n as real
    ensures d == 0.0 ==> (q.PositiveInfinity? <==> n > 0) && (q.NegativeInfinity? <==> n < 0)
  {
    if d != 0.0 then Finite(n as real / d)
    else if n > 0 then PositiveInfinity
    else if n < 0 then NegativeInfinity
    else NotANumber
  }

  datatype State = State(dt: real, fps: Quotient, frame: int, frameMax: int, fpsTime: real)

  /** The fields' initial values; `fps` is a static float, so it starts at 0. */
  const Initial: State := State(0.0, Finite(0.0), 0, 100, 0.0)

  /** Both counters are C# `int`s. */
  predicate Valid(s: State) {
    IsInt32(s.frame) && IsInt32(s.frameMax)
  }

  /** The counter is inside a window of positive length. */
  predicate InWindow(s: State) {
    Valid(s) && 0 < s.frameMax && 0 <= s.frame < s.frameMax
  }

  /** The next `Update` is the one that closes the window. */
  predicate Completes(s: State)
    requires Valid(s)
  {
    Increment(s.frame) == s.frameMax
  }

  /** `Timer.Update()`. */
  function Update(s: State, delta: real): (r: State)
    requires Valid(s)
    ensures Valid(r)
    ensures r.dt == delta && r.frameMax == s.frameMax
    ensures InWindow(s) ==> InWindow(r)
    ensures r.fps != s.fps ==> Completes(s)
    ensures Completes(s) ==> r.frame == 0 && r.fpsTime == 0.0
  {
    var frame := Increment(s.frame);
    var fpsTime := s.fpsTime + delta;
    if frame == s.frameMax then
      s.(dt := delta, fps := Divide(s.frameMax, fpsTime), frame := 0, fpsTime := 0.0)
    else
      s.(dt := delta, frame := frame, fpsTime := fpsTime)
  }

  /** With positive deltas `fpsTime` is back at zero exactly on the update
      that closes the window. */
  lemma FpsTimeResetsOnCompletion(s: State, delta: real)
    requires Valid(s) && s.fpsTime >= 0.0 && delta > 0.0
    ensures Update(s, delta).fpsTime == 0.0 <==> Completes(s)
    ensures Update(s, delta).fpsTime >= 0.0
  {
  }

  /** `s` has seen exactly the deltas `window` since its window opened. */
  predicate Tracks(s: State, window: seq<real>) {
    s.frame == |window| && s.fpsTime == RealSeq.Sum(window)
  }

  /** One update either extends the open window by its delta, or closes
      it and sets `fps` to the frame count over the window's total time. */
  lemma UpdateExtendsWindow(s: State, window: seq<real>, delta: real)
    requires InWindow(s) && Tracks(s, window)
    ensures |window| + 1 == s.frameMax ==>
              Update(s, delta).fps == Divide(s.frameMax, RealSeq.Sum(window + [delta]))
              && Tracks(Update(s, delta), [])
    ensures |window| + 1 < s.frameMax ==>
              Update(s, delta).fps == s.fps && Tracks(Update(s, delta), window + [delta])
  {
    RealSeq.SumSnoc(window, delta);
  }

  /** With non-negative deltas `fpsTime` never goes negative over a run,
      so the divisor of `fps` is never negative. */
  lemma {:induction false} FpsTimeNonNegative(s: State, deltas: seq<real>)
    requires Valid(s) && s.fpsTime >= 0.0
    requires RealSeq.AllNonNegative(deltas)
    ensures Run(s, deltas).fpsTime >= 0.0
    decreases |deltas|
  {
    if deltas != [] {
      var init := deltas[..|deltas| - 1];
      assert forall i :: 0 <= i < |init| ==> init[i] == deltas[i];
      FpsTimeNonNegative(s, init);
      assert deltas[|deltas| - 1] >= 0.0;
    }
  }

  /** `Update` applied once per delta, in order. */
  function Run(s: State, deltas: seq<real>): (r: State)
    requires Valid(s)
    ensures Valid(r) && r.frameMax == s.frameMax
    ensures InWindow(s) ==> InWindow(r)
    decreases |deltas|
  {
    if deltas == [] then s
    else Update(Run(s, deltas[..|deltas| - 1]), deltas[|deltas| - 1])
  }

  /** How many updates of a run recompute `fps`. */
  function Recomputations(s: State, deltas: seq<real>): nat
    requires Valid(s)
    decreases |deltas|
  {
    if deltas == [] then 0
    else
      var before := Run(s, deltas[..|deltas| - 1]);
      Recomputations(s, deltas[..|deltas| - 1]) + if Completes(before) then 1 else 0
  }

  /** `q` windows of `m` frames: `q * m`, written as a sum so that the
      proofs below stay in linear arithmetic (`SpanIsProduct`). */
  function Span(q: nat, m: nat): nat
  {
    if q == 0 then 0 else Span(q - 1, m) + m
  }

  lemma {:induction false} SpanIsProduct(q: nat, m: nat)
    ensures Span(q, m) == q * m
  {
    if q > 0 {
      SpanIsProduct(q - 1, m);
      assert (q - 1) * m + m == q * m;
    }
  }

  /** Counting on from frame `s.frame`, a run whose end falls `k` frames
      into window number `q` (so `s.frame + |deltas| == q * frameMax + k`)
      leaves the counter at `k` and recomputes `fps` exactly `q` times. */
  lemma {:induction false} RunCounts(s: State, deltas: seq<real>, q: nat, k: nat)
    requires InWindow(s)
    requires s.frame + |deltas| == Span(q, s.frameMax) + k && k < s.frameMax
    ensures Run(s, deltas).frame == k
    ensures Recomputations(s, deltas) == q
    decreases |deltas|
  {
    if deltas != [] {
      var init := deltas[..|deltas| - 1];
      if k > 0 {
        RunCounts(s, init, q, k - 1);
      } else {
        RunCounts(s, init, q - 1, s.frameMax - 1);
      }
    } else {
      SpanFloor(q, s.frameMax, k, s.frame);
    }
  }

  /** A count below one window is in window number 0. */
  lemma SpanFloor(q: nat, m: nat, k: nat, n: nat)
    requires n == Span(q, m) + k && n < m
    ensures q == 0 && k == n
  {
    if q > 0 {
      SpanAtLeast(q, m);
    }
  }

  lemma {:induction false} SpanAtLeast(q: nat, m: nat)
    requires q > 0
    ensures Span(q, m) >= m
  {
    if q > 1 {
      SpanAtLeast(q - 1, m);
    }
  }

  /** Any `frameMax` consecutive updates recompute `fps` exactly once, and
      leave the counter where it started. */
  lemma OneRecomputationPerWindow(s: State, deltas: seq<real>)
    requires InWindow(s) && |deltas| == s.frameMax
    ensures Recomputations(s, deltas) == 1
    ensures Run(s, deltas).frame == s.frame
  {
    RunCounts(s, deltas, 1, s.frame);
  }

  /** After a run, `fpsTime` is the sum of the deltas in the open window
      and `fps`, once a window has closed, is `frameMax` over the sum of
      the `frameMax` deltas of the last closed window. `history` is what
      the open window had seen when the run started, and the run ends `k`
      frames into window number `q`. */
  lemma {:induction false} RunWindows(s: State, history: seq<real>, deltas: seq<real>, q: nat, k: nat)
    requires InWindow(s) && Tracks(s, history)
    requires |history| + |deltas| == Span(q, s.frameMax) + k && k < s.frameMax
    ensures var all := history + deltas;
            Tracks(Run(s, deltas), all[Span(q, s.frameMax)..])
            && Run(s, deltas).fps
               == if q == 0 then s.fps
                  else Divide(s.frameMax, RealSeq.Sum(all[Span(q - 1, s.frameMax)..Span(q, s.frameMax)]))
    decreases |deltas|
  {
    var m := s.frameMax;
    if deltas == [] {
      SpanFloor(q, m, k, |history|);
      assert history + deltas == history;
    } else {
      var init, d := deltas[..|deltas| - 1], deltas[|deltas| - 1];
      var before, after := history + init, history + deltas;
      assert after == before + [d];
      var prev := Run(s, init);
      assert Run(s, deltas) == Update(prev, d);
      var q0, k0 := if k > 0 then q else q - 1, if k > 0 then k - 1 else m - 1;
      RunWindows(s, history, init, q0, k0);
      var window := before[Span(q0, m)..];
      UpdateExtendsWindow(prev, window, d);
      if k == 0 {
        assert after[Span(q - 1, m)..Span(q, m)] == window + [d];
        assert after[Span(q, m)..] == [];
      } else {
        assert after[Span(q, m)..] == window + [d];
        if q > 0 {
          assert after[Span(q - 1, m)..Span(q, m)] == before[Span(q - 1, m)..Span(q, m)];
        }
      }
    }
  }

  /** From the fields' initial values, after any whole number of windows
      the counter and `fpsTime` are back at 0, and `fps` is 100 over the
      time the last 100 frames took. */
  lemma RateFromStart(deltas: seq<real>, windows: nat)
    requires windows > 0 && |deltas| == Span(windows, 100)
    ensures Run(Initial, deltas).frame == 0 && Run(Initial, deltas).fpsTime == 0.0
    ensures Run(Initial, deltas).fps == Divide(100, RealSeq.Sum(deltas[|deltas| - 100..]))
  {
    RunWindows(Initial, [], deltas, windows, 0);
    assert [] + deltas == deltas;
    assert Span(windows - 1, 100) == |deltas| - 100;
    assert deltas[|deltas| - 100..|deltas|] == deltas[|deltas| - 100..];
  }

  /** When every delta is positive the recomputed rate is finite and
      positive. */
  lemma PositiveDeltasGiveFiniteRate(window: seq<real>, m: int)
    requires m > 0 && |window| > 0
    requires forall i :: 0 <= i < |window| ==> window[i] > 0.0
    ensures Divide(m, RealSeq.Sum(window)).Finite?
    ensures Divide(m, RealSeq.Sum(window)).value > 0.0
  {
    PositiveSum(window);
  }

  lemma {:induction false} PositiveSum(xs: seq<real>)
    requires |xs| > 0
    requires forall i :: 0 <= i < |xs| ==> xs[i] > 0.0
    ensures RealSeq.Sum(xs) > 0.0
    decreases |xs|
  {
    if |xs| > 1 {
      PositiveSum(xs[..|xs| - 1]);
    }
  }
}
