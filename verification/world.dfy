/** The per-frame driver `World.Update` (Assets/Scripts/Engine/World.cs).

    Each host frame it updates the frame timer, selects the broad phase,
    and, when simulation is on, samples forces once, adds the frame delta
    to the time accumulator, runs whole fixed sub-steps while the
    accumulator holds at least one step, wraps positions if asked to, and
    clears every body's force and acceleration.

    The physics pipeline (body step, integrator, broad and narrow phase,
    contact solver, force generators, wrap) is not modelled: each call is
    an opaque function in `Physics`, and each call site appends an `Event`
    to the frame's trace, so the order of calls is observable. */
module World {
  import Timer
  import Accumulator

  datatype Option<T> = None | Some(value: T)

  datatype Vec = Vec(x: real, y: real)

  const Zero: Vec := Vec(0.0, 0.0)

  /** What a body carries besides its motion: mass, inverse mass (0 for a
      static body), restitution, friction and a handle to its shape. The
      frame never changes these; the physics functions may read them. */
  datatype Material = Material(mass: real, inverseMass: real, restitution: real, friction: real, shape: nat)

  /** The fields `World.Update` touches itself, and the body's material. */
  datatype Body = Body(position: Vec, velocity: Vec, force: Vec, acceleration: Vec, material: Material)

  datatype BroadPhaseKind = NullBroadPhase | Quadtree | Bvh

  /** The `broadPhases` array, in declaration order. */
  const BroadPhases: seq<BroadPhaseKind> := [NullBroadPhase, Quadtree, Bvh]

  /** `broadPhases[index]`: C# throws for an index outside the array. */
  function SelectBroadPhase(index: int): (r: Option<BroadPhaseKind>)
    ensures r.Some? <==> 0 <= index < 3
  {
    if 0 <= index < |BroadPhases| then Some(BroadPhases[index]) else None
  }

  /** The position of a strategy in `broadPhases`. */
  function IndexOf(kind: BroadPhaseKind): nat
  {
    match kind
    case NullBroadPhase => 0
    case Quadtree => 1
    case Bvh => 2
  }

  /** Selection by index and `IndexOf` are inverse: every strategy has
      exactly one index that selects it. */
  lemma SelectionIsIndexOf(index: int, kind: BroadPhaseKind)
    ensures SelectBroadPhase(IndexOf(kind)) == Some(kind)
    ensures SelectBroadPhase(index) == Some(kind) <==> index == IndexOf(kind)
  {
  }

  /** One call site of `World.Update`, in the order they run. */
  datatype Event =
    | GravitationalForces
    | ForceGenerators
    | SpringForces
    | VectorFieldForces
    | BodyStep(h: real)
    | Integrate(h: real)
    | BuildBroadPhase(kind: BroadPhaseKind)
    | BroadPhaseContacts(kind: BroadPhaseKind)
    | NarrowPhaseContacts
    | UpdateContactInfo
    | ResolveContacts
    | WrapPositions
    | ClearForces

  /** The opaque physics calls. Each works in place on the world's body
      list, so a call that sees the whole list is a function giving the new
      state of body `i` from the list: the force sources (gravitation
      couples bodies, springs join pairs) and the collision pipeline
      (build, contacts, resolve) with the selected strategy. The vector
      field, step and integrator act on one body at a time, and wrap maps
      a position to a position. */
  datatype Physics = Physics(
    gravitation: (seq<Body>, nat) -> Body,
    forceGenerators: (seq<Body>, nat) -> Body,
    springs: (seq<Body>, nat) -> Body,
    vectorField: Body -> Body,
    step: (Body, real) -> Body,
    integrate: (Body, real) -> Body,
    collide: (BroadPhaseKind, seq<Body>, nat) -> Body,
    wrap: Vec -> Vec)

  /** The `BoolData`/`FloatData` settings the frame reads. */
  datatype Config = Config(simulate: bool, collision: bool, wrap: bool, fixedFPS: real, broadPhaseIndex: int)

  /** The world's fields that persist between frames, with the static
      timer. */
  datatype State = State(timer: Timer.State, accumulator: real, broadPhase: Option<BroadPhaseKind>, bodies: seq<Body>)

  /** A frame either completes with its trace of calls, or throws on the
      broad-phase index after the timer has already been updated. */
  datatype Outcome = Completed(state: State, trace: seq<Event>) | IndexOutOfRange(state: State)

  /** `bodies.ForEach(...)` with a per-body function. */
  function Each(f: Body -> Body, bodies: seq<Body>): (r: seq<Body>)
    ensures |r| == |bodies|
    ensures forall i :: 0 <= i < |r| ==> r[i] == f(bodies[i])
  {
    seq(|bodies|, i requires 0 <= i < |bodies| => f(bodies[i]))
  }

  /** One in-place pass over the whole list: body `i` becomes `f(bodies, i)`. */
  function Pass(f: (seq<Body>, nat) -> Body, bodies: seq<Body>): (r: seq<Body>)
    ensures |r| == |bodies|
    ensures forall i :: 0 <= i < |r| ==> r[i] == f(bodies, i)
  {
    seq(|bodies|, i requires 0 <= i < |bodies| => f(bodies, i))
  }

  const ForceEvents: seq<Event> := [GravitationalForces, ForceGenerators, SpringForces, VectorFieldForces]

  /** The force sample taken once per simulated frame: it works on the
      world's list in place, so it keeps every body and adds none, and the
      vector field, applied last, acts on each body by itself. */
  function SampleForces(p: Physics, bodies: seq<Body>): (r: seq<Body>)
    ensures |r| == |bodies|
    ensures var coupled := Pass(p.springs, Pass(p.forceGenerators, Pass(p.gravitation, bodies)));
            forall i :: 0 <= i < |r| ==> r[i] == p.vectorField(coupled[i])
  {
    Each(p.vectorField, Pass(p.springs, Pass(p.forceGenerators, Pass(p.gravitation, bodies))))
  }

  const CollisionEvents: seq<Event> := [NarrowPhaseContacts, UpdateContactInfo, ResolveContacts]

  /** The calls of one fixed sub-step of length `h`. */
  function SubStepEvents(collision: bool, kind: BroadPhaseKind, h: real): (r: seq<Event>)
    ensures |r| == if collision then 7 else 2
    ensures forall i :: 0 <= i < |r| ==> IsSubStepCall(r[i])
  {
    [BodyStep(h), Integrate(h)]
      + if collision then [BuildBroadPhase(kind), BroadPhaseContacts(kind)] + CollisionEvents else []
  }

  /** The bodies after one fixed sub-step of length `h`: the list keeps
      its length, and with collision off every body advances on its own,
      stepped and then integrated, without seeing the others. */
  function SubStep(p: Physics, collision: bool, kind: BroadPhaseKind, h: real, bodies: seq<Body>): (r: seq<Body>)
    ensures |r| == |bodies|
    ensures !collision ==> forall i :: 0 <= i < |r| ==> r[i] == p.integrate(p.step(bodies[i], h), h)
  {
    var stepped := Each(b => p.integrate(b, h), Each(b => p.step(b, h), bodies));
    if collision then Pass((bs: seq<Body>, i: nat) => p.collide(kind, bs, i), stepped) else stepped
  }

  /** `n` sub-steps in a row; they too keep every body. */
  function SubStepsOf(p: Physics, collision: bool, kind: BroadPhaseKind, h: real, bodies: seq<Body>, n: nat): (r: seq<Body>)
    ensures |r| == |bodies|
  {
    if n == 0 then bodies else SubStep(p, collision, kind, h, SubStepsOf(p, collision, kind, h, bodies, n - 1))
  }

  /** `n` copies of `block`, one after the other. */
  function Repeat(block: seq<Event>, n: nat): seq<Event>
  {
    if n == 0 then [] else Repeat(block, n - 1) + block
  }

  /** The accumulator loop, lines 64-87: runs sub-steps while at least one
      whole step is left. The loop stops after exactly the number of steps
      `Accumulator.SubSteps` gives, the surplus plus the steps' time is the
      starting surplus, and the calls are `n` copies of one sub-step's. */
  method RunSubSteps(p: Physics, collision: bool, kind: BroadPhaseKind, h: real, acc0: real, bodies0: seq<Body>)
    returns (acc: real, bodies: seq<Body>, trace: seq<Event>, n: nat)
    requires h > 0.0
    ensures n == Accumulator.SubSteps(acc0, h)
    ensures acc + Accumulator.Elapsed(n, h) == acc0
    ensures acc < h && (n > 0 ==> acc >= 0.0)
    ensures trace == Repeat(SubStepEvents(collision, kind, h), n)
    ensures bodies == SubStepsOf(p, collision, kind, h, bodies0, n)
  {
    acc, bodies, trace, n := acc0, bodies0, [], 0;
    while acc >= h
      invariant acc + Accumulator.Elapsed(n, h) == acc0
      invariant n > 0 ==> acc >= 0.0
      invariant trace == Repeat(SubStepEvents(collision, kind, h), n)
      invariant bodies == SubStepsOf(p, collision, kind, h, bodies0, n)
      decreases (acc / h).Floor
    {
      bodies := SubStep(p, collision, kind, h, bodies);
      trace := trace + SubStepEvents(collision, kind, h);
      Accumulator.ShiftQuotient(acc, h);
      acc := acc - h;
      n := n + 1;
    }
    Accumulator.SubStepsUnique(acc0, h, n);
  }

  /** Line 97: wrap assigns each body's position from its position and
      leaves every other field alone. */
  function WrapAll(wrap: Vec -> Vec, bodies: seq<Body>): (r: seq<Body>)
    ensures |r| == |bodies|
    ensures forall i :: 0 <= i < |r| ==>
              r[i].position == wrap(bodies[i].position) && r[i].velocity == bodies[i].velocity
              && r[i].force == bodies[i].force && r[i].acceleration == bodies[i].acceleration
              && r[i].material == bodies[i].material
  {
    Each((b: Body) => b.(position := wrap(b.position)), bodies)
  }

  /** Line 99: every body's force and acceleration set to zero, and nothing
      else about it changed. */
  function ClearAll(bodies: seq<Body>): (r: seq<Body>)
    ensures |r| == |bodies|
    ensures forall i :: 0 <= i < |r| ==>
              r[i].force == Zero && r[i].acceleration == Zero
              && r[i].position == bodies[i].position && r[i].velocity == bodies[i].velocity
              && r[i].material == bodies[i].material
  {
    Each((b: Body) => b.(force := Zero, acceleration := Zero), bodies)
  }

  /** The number of sub-steps a frame runs: floor(total * fixedFPS) for a
      positive rate and a non-negative total; with `fixedFPS == 0` the float
      step `1 / fixedFPS` is +Infinity and the loop never runs. */
  function StepsFor(fixedFPS: real, total: real): (n: nat)
    requires fixedFPS >= 0.0
    ensures fixedFPS == 0.0 ==> n == 0
    ensures fixedFPS > 0.0 && total >= 0.0 ==> n == (total * fixedFPS).Floor
  {
    if fixedFPS > 0.0 then
      Accumulator.StepsAtRate(total, fixedFPS);
      Accumulator.SubSteps(total, Accumulator.StepLength(fixedFPS))
    else 0
  }

  /** The calls of one simulated frame that runs `n` sub-steps. */
  function FrameTrace(collision: bool, wrap: bool, kind: BroadPhaseKind, h: real, n: nat): (r: seq<Event>)
    ensures |r| >= 5 && r[..4] == ForceEvents && r[|r| - 1] == ClearForces
    ensures n == 0 ==> |r| == if wrap then 6 else 5
  {
    ForceEvents + Repeat(SubStepEvents(collision, kind, h), n)
      + (if wrap then [WrapPositions] else []) + [ClearForces]
  }

  /** `World.Update()` for one host frame with delta `delta`. */
  method Update(s: State, cfg: Config, p: Physics, delta: real) returns (o: Outcome)
    requires Timer.Valid(s.timer)
    requires cfg.simulate && 0 <= cfg.broadPhaseIndex < 3 ==> cfg.fixedFPS >= 0.0
    ensures o.state.timer == Timer.Update(s.timer, delta)
    ensures o.IndexOutOfRange? <==> !(0 <= cfg.broadPhaseIndex < 3)
    ensures o.IndexOutOfRange? ==> o.state == s.(timer := Timer.Update(s.timer, delta))
    ensures o.Completed? ==> o.state.broadPhase == SelectBroadPhase(cfg.broadPhaseIndex)
    ensures o.Completed? && !cfg.simulate ==>
              o.trace == [] && o.state.accumulator == s.accumulator && o.state.bodies == s.bodies
    ensures o.Completed? && cfg.simulate ==>
              var n := StepsFor(cfg.fixedFPS, s.accumulator + delta);
              var h := if cfg.fixedFPS > 0.0 then Accumulator.StepLength(cfg.fixedFPS) else 0.0;
              var kind := SelectBroadPhase(cfg.broadPhaseIndex).value;
              var stepped := SubStepsOf(p, cfg.collision, kind, h, SampleForces(p, s.bodies), n);
              && o.trace == FrameTrace(cfg.collision, cfg.wrap, kind, h, n)
              && (cfg.fixedFPS > 0.0 ==> o.state.accumulator + Accumulator.Elapsed(n, h) == s.accumulator + delta)
              && (cfg.fixedFPS == 0.0 ==> o.state.accumulator == s.accumulator + delta)
              && (cfg.fixedFPS > 0.0 ==> o.state.accumulator == Accumulator.Carry(s.accumulator, delta, h))
              && o.state.bodies == ClearAll(if cfg.wrap then WrapAll(p.wrap, stepped) else stepped)
              && (forall i :: 0 <= i < |o.state.bodies| ==>
                    o.state.bodies[i].velocity == stepped[i].velocity
                    && o.state.bodies[i].material == stepped[i].material
                    && (!cfg.wrap ==> o.state.bodies[i].position == stepped[i].position))
    ensures |o.state.bodies| == |s.bodies|
    ensures o.Completed? && cfg.simulate && cfg.fixedFPS > 0.0 ==>
              var h := Accumulator.StepLength(cfg.fixedFPS);
              o.state.accumulator < h && (s.accumulator + delta >= 0.0 ==> o.state.accumulator >= 0.0)
    ensures o.Completed? && cfg.simulate ==>
              forall i :: 0 <= i < |o.state.bodies| ==>
                o.state.bodies[i].force == Zero && o.state.bodies[i].acceleration == Zero
  {
    var timer := Timer.Update(s.timer, delta);
    var selected := SelectBroadPhase(cfg.broadPhaseIndex);
    if selected.None? {
      return IndexOutOfRange(s.(timer := timer));
    }
    var kind := selected.value;
    if !cfg.simulate {
      return Completed(s.(timer := timer, broadPhase := selected), []);
    }
    var bodies := SampleForces(p, s.bodies);
    var trace := ForceEvents;
    var acc := s.accumulator + delta;
    if cfg.fixedFPS > 0.0 {
      var h := Accumulator.StepLength(cfg.fixedFPS);
      var steps, n;
      acc, bodies, steps, n := RunSubSteps(p, cfg.collision, kind, h, acc, bodies);
      trace := trace + steps;
    }
    if cfg.wrap {
      bodies := WrapAll(p.wrap, bodies);
      trace := trace + [WrapPositions];
    }
    bodies := ClearAll(bodies);
    trace := trace + [ClearForces];
    o := Completed(State(timer, acc, selected, bodies), trace);
  }

  /** The force-sampling calls. */
  predicate IsForceSample(e: Event) {
    e in ForceEvents
  }

  /** The calls made inside the accumulator loop. */
  predicate IsSubStepCall(e: Event) {
    e.BodyStep? || e.Integrate? || e.BuildBroadPhase? || e.BroadPhaseContacts? || e in CollisionEvents
  }

  /** How many times `e` occurs in `t`. */
  function Count(t: seq<Event>, e: Event): nat
    decreases |t|
  {
    if t == [] then 0 else Count(t[..|t| - 1], e) + if t[|t| - 1] == e then 1 else 0
  }

  /** Counting distributes over concatenation. */
  lemma {:induction false} CountAppend(a: seq<Event>, b: seq<Event>, e: Event)
    ensures Count(a + b, e) == Count(a, e) + Count(b, e)
    decreases |b|
  {
    if b == [] {
      assert a + b == a;
    } else {
      var init := b[..|b| - 1];
      CountAppend(a, init, e);
      assert (a + b)[..|a + b| - 1] == a + init;
      assert (a + b)[|a + b| - 1] == b[|b| - 1];
    }
  }

  lemma CountSnoc(a: seq<Event>, x: Event, e: Event)
    ensures Count(a + [x], e) == Count(a, e) + if x == e then 1 else 0
  {
    assert (a + [x])[..|a|] == a;
  }

  /** `n` copies of a block hold `n` times its occurrences. */
  lemma {:induction false} CountRepeat(block: seq<Event>, n: nat, e: Event)
    ensures Count(Repeat(block, n), e) == n * Count(block, e)
  {
    if n > 0 {
      CountRepeat(block, n - 1, e);
      CountAppend(Repeat(block, n - 1), block, e);
    }
  }

  /** Copies of a block hold only the block's calls. */
  lemma {:induction false} RepeatElements(block: seq<Event>, n: nat)
    ensures forall i :: 0 <= i < |Repeat(block, n)| ==> Repeat(block, n)[i] in block
  {
    if n > 0 {
      RepeatElements(block, n - 1);
      var r := Repeat(block, n - 1);
      forall i | 0 <= i < |Repeat(block, n)|
        ensures Repeat(block, n)[i] in block
      {
        if i >= |r| {
          assert Repeat(block, n)[i] == block[i - |r|];
        } else {
          assert Repeat(block, n)[i] == r[i];
        }
      }
    }
  }

  /** Within a simulated frame each force source is sampled exactly once;
      body step and integration run once per sub-step; the collision
      phases run once per sub-step with collision on and never with it
      off; wrap runs once exactly when enabled; forces are cleared once. */
  lemma FrameTraceCounts(collision: bool, wrap: bool, kind: BroadPhaseKind, h: real, n: nat)
    ensures var t := FrameTrace(collision, wrap, kind, h, n);
            && Count(t, GravitationalForces) == 1 && Count(t, ForceGenerators) == 1
            && Count(t, SpringForces) == 1 && Count(t, VectorFieldForces) == 1
            && Count(t, BodyStep(h)) == n && Count(t, Integrate(h)) == n
            && Count(t, BuildBroadPhase(kind)) == (if collision then n else 0)
            && Count(t, BroadPhaseContacts(kind)) == (if collision then n else 0)
            && Count(t, NarrowPhaseContacts) == (if collision then n else 0)
            && Count(t, UpdateContactInfo) == (if collision then n else 0)
            && Count(t, ResolveContacts) == (if collision then n else 0)
            && Count(t, WrapPositions) == (if wrap then 1 else 0)
            && Count(t, ClearForces) == 1
  {
    ForceSampleCounts(collision, wrap, kind, h, n);
    SubStepCallCounts(collision, wrap, kind, h, n);
    TailCounts(collision, wrap, kind, h, n);
  }

  /** Forces are sampled once per frame, whatever the number of sub-steps. */
  lemma ForceSampleCounts(collision: bool, wrap: bool, kind: BroadPhaseKind, h: real, n: nat)
    ensures var t := FrameTrace(collision, wrap, kind, h, n);
            && Count(t, GravitationalForces) == 1 && Count(t, ForceGenerators) == 1
            && Count(t, SpringForces) == 1 && Count(t, VectorFieldForces) == 1
  {
    NotASubStepCall(collision, kind, h, GravitationalForces);
    CountInFrame(collision, wrap, kind, h, n, GravitationalForces);
    NotASubStepCall(collision, kind, h, ForceGenerators);
    CountInFrame(collision, wrap, kind, h, n, ForceGenerators);
    NotASubStepCall(collision, kind, h, SpringForces);
    CountInFrame(collision, wrap, kind, h, n, SpringForces);
    NotASubStepCall(collision, kind, h, VectorFieldForces);
    CountInFrame(collision, wrap, kind, h, n, VectorFieldForces);
  }

  /** The calls of the loop body, once per sub-step. */
  lemma SubStepCallCounts(collision: bool, wrap: bool, kind: BroadPhaseKind, h: real, n: nat)
    ensures var t := FrameTrace(collision, wrap, kind, h, n);
            && Count(t, BodyStep(h)) == n && Count(t, Integrate(h)) == n
            && Count(t, BuildBroadPhase(kind)) == (if collision then n else 0)
            && Count(t, BroadPhaseContacts(kind)) == (if collision then n else 0)
            && Count(t, NarrowPhaseContacts) == (if collision then n else 0)
            && Count(t, UpdateContactInfo) == (if collision then n else 0)
            && Count(t, ResolveContacts) == (if collision then n else 0)
  {
    var block := SubStepEvents(collision, kind, h);
    assert block[0] == BodyStep(h) && block[1] == Integrate(h);
    CountSubStepCall(collision, wrap, kind, h, n, BodyStep(h));
    CountSubStepCall(collision, wrap, kind, h, n, Integrate(h));
    if collision {
      assert block[2] == BuildBroadPhase(kind) && block[3] == BroadPhaseContacts(kind);
      assert block[4] == NarrowPhaseContacts && block[5] == UpdateContactInfo && block[6] == ResolveContacts;
      CountSubStepCall(collision, wrap, kind, h, n, BuildBroadPhase(kind));
      CountSubStepCall(collision, wrap, kind, h, n, BroadPhaseContacts(kind));
      CountSubStepCall(collision, wrap, kind, h, n, NarrowPhaseContacts);
      CountSubStepCall(collision, wrap, kind, h, n, UpdateContactInfo);
      CountSubStepCall(collision, wrap, kind, h, n, ResolveContacts);
    } else {
      assert block == [BodyStep(h), Integrate(h)];
      CountAbsentCall(collision, wrap, kind, h, n, BuildBroadPhase(kind));
      CountAbsentCall(collision, wrap, kind, h, n, BroadPhaseContacts(kind));
      CountAbsentCall(collision, wrap, kind, h, n, NarrowPhaseContacts);
      CountAbsentCall(collision, wrap, kind, h, n, UpdateContactInfo);
      CountAbsentCall(collision, wrap, kind, h, n, ResolveContacts);
    }
  }

  /** A call of the sub-step block occurs once per sub-step. */
  lemma CountSubStepCall(collision: bool, wrap: bool, kind: BroadPhaseKind, h: real, n: nat, e: Event)
    requires e in SubStepEvents(collision, kind, h)
    ensures Count(FrameTrace(collision, wrap, kind, h, n), e) == n
  {
    CountInFrame(collision, wrap, kind, h, n, e);
    assert IsSubStepCall(e);
  }

  /** A sub-step call missing from the block never occurs. */
  lemma CountAbsentCall(collision: bool, wrap: bool, kind: BroadPhaseKind, h: real, n: nat, e: Event)
    requires IsSubStepCall(e) && e !in SubStepEvents(collision, kind, h)
    ensures Count(FrameTrace(collision, wrap, kind, h, n), e) == 0
  {
    CountInFrame(collision, wrap, kind, h, n, e);
  }

  /** The calls after the loop. */
  lemma TailCounts(collision: bool, wrap: bool, kind: BroadPhaseKind, h: real, n: nat)
    ensures var t := FrameTrace(collision, wrap, kind, h, n);
            && Count(t, WrapPositions) == (if wrap then 1 else 0)
            && Count(t, ClearForces) == 1
  {
    NotASubStepCall(collision, kind, h, WrapPositions);
    CountInFrame(collision, wrap, kind, h, n, WrapPositions);
    NotASubStepCall(collision, kind, h, ClearForces);
    CountInFrame(collision, wrap, kind, h, n, ClearForces);
  }

  /** The calls outside the loop are never part of a sub-step. */
  lemma NotASubStepCall(collision: bool, kind: BroadPhaseKind, h: real, e: Event)
    requires e == WrapPositions || e == ClearForces || IsForceSample(e)
    ensures e !in SubStepEvents(collision, kind, h)
  {
    var block := SubStepEvents(collision, kind, h);
    forall i | 0 <= i < |block|
      ensures block[i] != e
    {
      assert IsSubStepCall(block[i]);
    }
  }

  /** How often a simulated frame running `n` sub-steps makes call `e`,
      read off the frame's structure: each force source once, each call of
      a sub-step once per sub-step, wrap once when enabled, and the force
      clear once. */
  function FrameCount(collision: bool, wrap: bool, kind: BroadPhaseKind, h: real, n: nat, e: Event): nat
  {
    (if IsForceSample(e) then 1 else 0)
    + (if e in SubStepEvents(collision, kind, h) then n else 0)
    + (if wrap && e == WrapPositions then 1 else 0)
    + (if e == ClearForces then 1 else 0)
  }

  /** Every call of a frame occurs as often as `FrameCount` says. */
  lemma CountInFrame(collision: bool, wrap: bool, kind: BroadPhaseKind, h: real, n: nat, e: Event)
    ensures Count(FrameTrace(collision, wrap, kind, h, n), e) == FrameCount(collision, wrap, kind, h, n, e)
  {
    var block := SubStepEvents(collision, kind, h);
    var wrapped: seq<Event> := if wrap then [WrapPositions] else [];
    var t := FrameTrace(collision, wrap, kind, h, n);
    assert t == ForceEvents + Repeat(block, n) + wrapped + [ClearForces];
    CountAppend(ForceEvents + Repeat(block, n) + wrapped, [ClearForces], e);
    CountAppend(ForceEvents + Repeat(block, n), wrapped, e);
    CountAppend(ForceEvents, Repeat(block, n), e);
    CountForces(e);
    CountBlock(collision, kind, h, e);
    CountRepeat(block, n, e);
    CountSnoc([], ClearForces, e);
    assert [] + [ClearForces] == [ClearForces];
    if wrap {
      CountSnoc([], WrapPositions, e);
      assert [] + [WrapPositions] == [WrapPositions];
    }
  }

  /** The force sample makes each force call once. */
  lemma CountForces(e: Event)
    ensures Count(ForceEvents, e) == if IsForceSample(e) then 1 else 0
  {
    var a: seq<Event> := [GravitationalForces];
    var b := a + [ForceGenerators];
    var c := b + [SpringForces];
    assert ForceEvents == c + [VectorFieldForces];
    CountSnoc([], GravitationalForces, e);
    assert [] + [GravitationalForces] == a;
    CountSnoc(a, ForceGenerators, e);
    CountSnoc(b, SpringForces, e);
    CountSnoc(c, VectorFieldForces, e);
  }

  /** One sub-step makes each of its calls once. */
  lemma CountBlock(collision: bool, kind: BroadPhaseKind, h: real, e: Event)
    ensures Count(SubStepEvents(collision, kind, h), e) == if e in SubStepEvents(collision, kind, h) then 1 else 0
  {
    if collision {
      CountCollisionBlock(kind, h, e);
    } else {
      CountStepIntegrate(h, e);
      assert SubStepEvents(collision, kind, h) == [BodyStep(h), Integrate(h)];
    }
  }

  lemma CountStepIntegrate(h: real, e: Event)
    ensures Count([BodyStep(h), Integrate(h)], e) == if e in [BodyStep(h), Integrate(h)] then 1 else 0
  {
    CountSnoc([], BodyStep(h), e);
    CountSnoc([BodyStep(h)], Integrate(h), e);
    assert [] + [BodyStep(h)] == [BodyStep(h)];
    assert [BodyStep(h)] + [Integrate(h)] == [BodyStep(h), Integrate(h)];
  }

  lemma CountCollisionBlock(kind: BroadPhaseKind, h: real, e: Event)
    ensures Count(SubStepEvents(true, kind, h), e) == if e in SubStepEvents(true, kind, h) then 1 else 0
  {
    var a := [BodyStep(h), Integrate(h)];
    CountStepIntegrate(h, e);
    var b := a + [BuildBroadPhase(kind)];
    var c := b + [BroadPhaseContacts(kind)];
    var d := c + [NarrowPhaseContacts];
    var f := d + [UpdateContactInfo];
    assert SubStepEvents(true, kind, h) == f + [ResolveContacts];
    CountSnoc(a, BuildBroadPhase(kind), e);
    CountSnoc(b, BroadPhaseContacts(kind), e);
    CountSnoc(c, NarrowPhaseContacts, e);
    CountSnoc(d, UpdateContactInfo, e);
    CountSnoc(f, ResolveContacts, e);
    assert e in SubStepEvents(true, kind, h)
       <==> e in a || e == BuildBroadPhase(kind) || e == BroadPhaseContacts(kind)
            || e == NarrowPhaseContacts || e == UpdateContactInfo || e == ResolveContacts;
  }

  /** The order of a simulated frame: every force sample comes before
      every sub-step call, every sub-step call before the wrap, and forces
      are cleared only by the frame's last call, so all sub-steps of a
      frame see the same force sample. */
  lemma FrameTraceOrder(collision: bool, wrap: bool, kind: BroadPhaseKind, h: real, n: nat)
    ensures var t := FrameTrace(collision, wrap, kind, h, n);
            && (forall i, j :: 0 <= i < |t| && 0 <= j < |t| && IsForceSample(t[i]) && IsSubStepCall(t[j]) ==> i < j)
            && (forall i, j :: 0 <= i < |t| && 0 <= j < |t| && IsSubStepCall(t[i]) && t[j] == WrapPositions ==> i < j)
            && t[|t| - 1] == ClearForces
            && (forall i :: 0 <= i < |t| - 1 ==> t[i] != ClearForces)
  {
    var block := SubStepEvents(collision, kind, h);
    var r := Repeat(block, n);
    var t := FrameTrace(collision, wrap, kind, h, n);
    RepeatElements(block, n);
    var tail := (if wrap then [WrapPositions] else []) + [ClearForces];
    assert t == ForceEvents + r + tail;
    forall i | 0 <= i < |t|
      ensures i < 4 ==> IsForceSample(t[i]) && !IsSubStepCall(t[i]) && t[i] != ClearForces && t[i] != WrapPositions
      ensures 4 <= i < 4 + |r| ==> IsSubStepCall(t[i]) && !IsForceSample(t[i]) && t[i] != ClearForces && t[i] != WrapPositions
      ensures 4 + |r| <= i ==> !IsSubStepCall(t[i]) && !IsForceSample(t[i])
      ensures 4 + |r| <= i < |t| - 1 ==> t[i] == WrapPositions
    {
      if 4 <= i < 4 + |r| {
        assert t[i] == r[i - 4];
      } else if 4 + |r| <= i {
        assert t[i] == tail[i - 4 - |r|];
      }
    }
  }

  /** Every sub-step's calls are one whole block, in the order body step,
      integrate, then with collision on: build, broad-phase contacts,
      narrow phase, contact info, resolve. */
  lemma {:induction false} EverySubStepInOrder(block: seq<Event>, n: nat, k: nat)
    requires k < n
    ensures Repeat(block, n) == Repeat(block, k) + block + Repeat(block, n - k - 1)
  {
    if k < n - 1 {
      EverySubStepInOrder(block, n - 1, k);
      assert Repeat(block, n - k - 1) == Repeat(block, n - k - 2) + block;
    } else {
      assert Repeat(block, n - k - 1) == [];
    }
  }
}
