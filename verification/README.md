# Fixed-timestep world update and frame timer

A Dafny model of the per-frame driver of a 2D rigid-body physics
simulator written for Unity in C#. It covers two parts:

- `World.Update`. Each host frame it advances the static frame timer and picks the broad-phase strategy by index. When simulation is on, it also:
  - samples forces once;
  - adds the frame's delta to a time accumulator;
  - runs whole fixed sub-steps of `1 / fixedFPS` while the accumulator holds at least one step (body step, integrate, then the optional collision pipeline);
  - wraps positions if asked to;
  - clears every body's force and acceleration.
- `Timer.Update`. It records the frame delta and counts frames. Every `frameMax` frames it sets `fps` to `frameMax` divided by the time those frames took, then starts a new window.

Files:

- `real_seq.dfy` (module `RealSeq`): sums of frame deltas.
- `accumulator.dfy` (module `Accumulator`): the arithmetic of the accumulator loop. This covers the sub-step count, the carried surplus, and conservation of time over one frame and over runs of frames.
- `timer.dfy` (module `Timer`): the frame timer as an immutable state and a pure update function, with lemmas over runs of updates.
- `world.dfy` (module `World`): the frame itself. The accumulator loop is a `while` method. Every physics call site appends an `Event` to the frame's trace, so the counts and order of calls can be stated.

Modelling choices:

- Time is exact (`real`).
- The physics routines are opaque functions supplied in a `Physics` record. These are body step, integrator, force sources, the collision pipeline and wrap. Their code is not part of this model.
- The C# code mutates one body list in place. A routine that sees the whole list (a force source, the collision pipeline) is therefore a function giving body `i`'s new state from the list, and the frame never adds or drops a body.
- `Utilities.Wrap` maps a position to a position, and the frame assigns only `position` from it (World.cs:97).
- Each `Body` carries its `Material` (mass, inverse mass, restitution, friction, shape handle), which the opaque routines may read and the frame never changes.
- C# `int` increments wrap around at 32 bits (`Timer.Increment`).
- The `float` division `frameMax / fpsTime` has IEEE outcomes for a zero divisor: +Infinity, -Infinity or NaN (`Timer.Divide`).
- `fixedFPS == 0` makes the step `1 / 0 = +Infinity`, so the loop never runs. The model keeps this case: no sub-steps run and the whole delta stays in the accumulator.
- An index outside `broadPhases` throws in C#. By then `Timer.Update` has already run. The model returns `IndexOutOfRange` with only the timer advanced.
- There is no cap on sub-steps per frame: a long frame runs as many sub-steps as its time holds.
- Each sub-step calls `body.Step` before `Integrator.SemiImplicitEuler`, and only then the collision pipeline.
- The configuration is never validated. A bad broad-phase index throws in every frame, a zero rate runs no sub-steps, and a negative rate never leaves the loop.

## Model

| member | source | states |
|---|---|---|
| `Accumulator.SubSteps` | Assets/Scripts/Engine/World.cs:64-87 | the loop body runs at least once exactly when the accumulator holds at least one step |
| `Accumulator.StepsAtRate` | Assets/Scripts/Engine/World.cs:37-87 | at a positive rate, a non-negative accumulator runs floor(acc × fixedFPS) sub-steps |
| `Accumulator.Carry` | Assets/Scripts/Engine/World.cs:63-87 | the accumulator left after a frame is always less than one step, and non-negative when the frame's starting accumulator plus delta was |
| `Accumulator.StepLength` | Assets/Scripts/Engine/World.cs:37-37 | `fixedDeltaTime` is positive and is the reciprocal of the rate: step × rate = 1 |
| `Accumulator.ElapsedIsProduct` | Assets/Scripts/Engine/World.cs:86-86 | subtracting the step n times removes exactly n × step from the accumulator |
| `Accumulator.SubStepsBounds` | Assets/Scripts/Engine/World.cs:64-87 | after the loop less than one step is left, and the surplus is non-negative once any step has run |
| `Accumulator.SubStepsUnique` | Assets/Scripts/Engine/World.cs:64-87 | the loop's exit condition alone fixes the number of sub-steps: any count that leaves less than one step, and leaves a non-negative surplus when positive, is the loop's count |
| `Accumulator.SubStepsIsFloor` | Assets/Scripts/Engine/World.cs:63-87 | for a non-negative accumulator plus delta, the number of sub-steps is floor((acc + delta) / fixedDeltaTime) |
| `Accumulator.CarryInWindow` | Assets/Scripts/Engine/World.cs:63-87 | an accumulator in [0, step) stays in [0, step) across a frame with non-negative delta |
| `Accumulator.SixtyHertz` | Assets/Scripts/Engine/World.cs:63-87 | at 60 Hz a 1/30 s frame from an empty accumulator runs 2 sub-steps; a 1/600 s frame runs none and carries 1/600 s |
| `Accumulator.FramesConserveTime` | Assets/Scripts/Engine/World.cs:63-86 | over any run of frames with non-negative deltas: the final accumulator plus the time of all sub-steps run equals the initial accumulator plus the sum of the deltas, and the accumulator stays in [0, step) |
| `Accumulator.FramesMatchTotal` | Assets/Scripts/Engine/World.cs:63-87 | splitting the same time into different host frames runs the same total number of sub-steps as one frame carrying the whole time |
| `Accumulator.Frames` | Assets/Scripts/Engine/World.cs:63-87 | a run of no frames runs no sub-step, and after at least one frame less than one step is carried |
| `Accumulator.OneMoreFrame` | Assets/Scripts/Engine/World.cs:63-87 | one more frame after a surplus left by earlier frames runs the sub-steps a single combined frame would add, and keeps the surplus in [0, step) |
| `Timer.Increment` | Assets/Scripts/Common/Timer.cs:27-27 | `frame++` on a C# `int` yields a 32-bit value congruent to frame + 1 modulo 2^32 |
| `Timer.Divide` | Assets/Scripts/Common/Timer.cs:31-31 | `frameMax / fpsTime` is finite exactly when the divisor is non-zero, and then times the divisor gives `frameMax`; a zero divisor gives an infinity of the numerator's sign, or NaN for 0 |
| `Timer.Update` | Assets/Scripts/Common/Timer.cs:18-35 | `dt` is the frame delta; `frameMax` is unchanged; a frame counter in [0, frameMax) stays there; `fps` changes only on the update that closes the window, and that update resets `frame` and `fpsTime` to 0 |
| `Timer.FpsTimeResetsOnCompletion` | Assets/Scripts/Common/Timer.cs:28-33 | with positive deltas, `fpsTime` is 0 after an update exactly when that update closes the window |
| `Timer.UpdateExtendsWindow` | Assets/Scripts/Common/Timer.cs:27-34 | an update either appends its delta to the open window's count and sum, leaving `fps` alone, or closes the window with `fps = frameMax / (sum of the window's deltas)` |
| `Timer.FpsTimeNonNegative` | Assets/Scripts/Common/Timer.cs:28-33 | with non-negative deltas `fpsTime` stays non-negative over any run, so the divisor of `fps` is never negative |
| `Timer.Run` | Assets/Scripts/Common/Timer.cs:18-35 | any sequence of updates keeps the counters valid 32-bit values, keeps `frameMax`, and keeps `frame` in [0, frameMax) |
| `Timer.RunCounts` | Assets/Scripts/Common/Timer.cs:27-34 | a run ending k frames into window q, counted from the starting frame, leaves `frame = k` and has recomputed `fps` exactly q times |
| `Timer.OneRecomputationPerWindow` | Assets/Scripts/Common/Timer.cs:27-34 | any `frameMax` consecutive updates recompute `fps` exactly once and return `frame` to its starting value |
| `Timer.RunWindows` | Assets/Scripts/Common/Timer.cs:27-34 | after any run, `frame` and `fpsTime` are the count and sum of the deltas in the open window, and `fps` is `frameMax` over the sum of the last closed window's deltas (or unchanged if none closed) |
| `Timer.RateFromStart` | Assets/Scripts/Common/Timer.cs:11-34 | from the initial field values, after a whole number of 100-frame windows, `frame` and `fpsTime` are 0 and `fps` is 100 over the sum of the last 100 deltas |
| `Timer.PositiveDeltasGiveFiniteRate` | Assets/Scripts/Common/Timer.cs:28-31 | when the window's deltas are all positive, the recomputed `fps` is finite and positive |
| `World.SelectBroadPhase` | Assets/Scripts/Engine/World.cs:52-52 | `broadPhases[index]` succeeds exactly for index in [0, 3) |
| `World.SelectionIsIndexOf` | Assets/Scripts/Engine/World.cs:33-33 | each of the three strategies is selected by exactly one index, its position in `broadPhases` |
| `World.SampleForces` | Assets/Scripts/Engine/World.cs:57-61 | the force passes keep every body of the list, and the vector-field pass, applied last, acts on each body by itself |
| `World.SubStep` | Assets/Scripts/Engine/World.cs:66-84 | one sub-step keeps every body; with collision off each body is stepped and then integrated on its own, independent of the others |
| `World.SubStepsOf` | Assets/Scripts/Engine/World.cs:64-87 | any number of sub-steps keeps every body of the list |
| `World.WrapAll` | Assets/Scripts/Engine/World.cs:95-98 | wrap sets each position to the wrapped position and leaves velocity, force, acceleration and material unchanged |
| `World.ClearAll` | Assets/Scripts/Engine/World.cs:99-99 | every body's force and acceleration become zero, and its position, velocity and material are unchanged |
| `World.StepsFor` | Assets/Scripts/Engine/World.cs:37-64 | a frame runs floor(total × fixedFPS) sub-steps at a positive rate and a non-negative total, and none at rate 0 (step +Infinity) |
| `World.SubStepEvents` | Assets/Scripts/Engine/World.cs:66-84 | one sub-step makes 7 passes with collision on and 2 with it off, and every one of them is a sub-step call (step, integrate or a collision pass) |
| `World.FrameTrace` | Assets/Scripts/Engine/World.cs:57-99 | a simulated frame's passes begin with the four force passes and end with the force clear; a frame running no sub-step makes 5 passes, or 6 with wrap |
| `World.RunSubSteps` | Assets/Scripts/Engine/World.cs:63-87 | the loop runs exactly `SubSteps(acc, step)` sub-steps; the final accumulator plus their time is the starting accumulator; less than one step is left; the calls are that many copies of one sub-step's calls and the bodies are that many sub-steps applied |
| `World.Update` | Assets/Scripts/Engine/World.cs:47-100 | the timer always advances; a bad index throws with nothing else changed; with `simulate` off, bodies and the accumulator are unchanged and no physics call is made; with it on, the calls are force sampling, then floor-many sub-steps, then wrap if enabled, then force clearing; time is conserved and the new accumulator is `Accumulator.Carry` of the old one and the delta, so the results over runs of frames apply to it; no body is added or dropped; wrap and the force clear leave velocity and material as the sub-steps left them, and without wrap the position too; every body ends with zero force and acceleration |
| `World.FrameTraceCounts` | Assets/Scripts/Engine/World.cs:57-99 | in a simulated frame with n sub-steps, each of the four force passes runs once, the body-step pass and the integrate pass run n times each, the five collision passes run n times with collision on and never with it off, the wrap pass runs once exactly when enabled, and the force-clear pass runs once (an event is one pass of a call site over the list, not one call per body) |
| `World.ForceSampleCounts` | Assets/Scripts/Engine/World.cs:57-61 | each of the four force passes (gravitation, the force list, springs, vector field) runs exactly once per simulated frame |
| `World.SubStepCallCounts` | Assets/Scripts/Engine/World.cs:64-84 | the body-step and integrate passes run once per sub-step; the build, broad-phase-contacts, narrow-phase, contact-info and resolve passes run once per sub-step with collision on and not at all with it off |
| `World.TailCounts` | Assets/Scripts/Engine/World.cs:95-99 | the wrap pass runs once when enabled and never otherwise; the force-clear pass runs exactly once |
| `World.CountInFrame` | Assets/Scripts/Engine/World.cs:57-99 | every call's number of occurrences in a frame equals the count read off the frame's structure |
| `World.CountSubStepCall` | Assets/Scripts/Engine/World.cs:64-84 | every pass made inside a sub-step occurs exactly once per sub-step |
| `World.CountAbsentCall` | Assets/Scripts/Engine/World.cs:69-84 | a collision pass never occurs when the sub-step does not include it |
| `World.FrameTraceOrder` | Assets/Scripts/Engine/World.cs:57-99 | every force sample precedes every sub-step call, every sub-step call precedes the wrap, and the force clear is the frame's last call and occurs nowhere before it, so all sub-steps see the same force sample |
| `World.EverySubStepInOrder` | Assets/Scripts/Engine/World.cs:64-87 | the loop's calls split into whole sub-step blocks: the k-th sub-step's calls are one complete block in the order step, integrate, then the collision calls |

## Left out

- Unity plumbing (`MonoBehaviour`, `Awake`, the `instance` singleton, `Camera.main`): the frame delta `Time.deltaTime` and the `BoolData`/`FloatData` settings are parameters instead.
- The physics routines `Body.Step`, `Integrator.SemiImplicitEuler`, `GravitationalForce`, `Force`, `Spring`, `VectorField`, `BroadPhase.Build`, `Collision.*`, `ContactSolver.Resolve` and `Utilities.Wrap` are not part of this model. Their code is not available, so each is an opaque function and a trace event.
- The collision pipeline is one opaque function of the bodies. Its five calls appear as five events, but the contact list passed between them is not modelled.
- Presentation is not modelled: the `fpsText` and `collisionText` strings (lines 50 and 93), the spring and broad-phase `Draw` calls (lines 54 and 91), and the debug colouring (lines 71 and 80-83).
- Floating-point rounding: time is exact. The rounding of `1 / fixedFPS` and of the repeated subtraction is not modelled. The only IEEE behaviours kept are the infinite step for `fixedFPS == 0` and the outcomes of `frameMax / fpsTime` for a zero divisor.
- Timer.Divide: does not model overflow. A non-zero `fpsTime` below `frameMax / float.MaxValue` in magnitude (about 2.9e-37 for `frameMax = 100`) gives ±Infinity in C#, but `Finite` here, because reals do not overflow.
- World.Update: requires `fixedFPS >= 0` for a simulated frame whose broad-phase index is in range. With a negative rate the step is negative, the loop condition stays true and the C# loop never ends, and a non-terminating frame is not represented. With an index out of range the frame throws at line 52 before the loop whatever the rate, and the model covers that frame (`IndexOutOfRange`).
- Timer.Divide: does not distinguish +0 from -0 in the divisor. None is needed: under round-to-nearest `fpsTime + dt` is -0 only when both operands are -0, and `fpsTime` starts at +0 and is reset to +0, so it is never -0 whatever the deltas.
- The unused smoothing fields `fpsAverage` and `smoothing` of the timer, whose formula is commented out.
- `WorldSize` and the `size` field, which a local in `Awake` shadows. The AABB passed to build and wrap is part of the opaque physics functions.
- Reading `BroadPhaseTypeData.index`, `fixedFPS` and the flags more than once per frame: the model reads each setting once, as the single-threaded frame does.
