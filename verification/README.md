# Water-evaporation animation: verified model of its state machine

The evaporation page (`script.js`) keeps a small amount of module-level state:
- the running flag `isAnimating`;
- the evaporation interval handle `moleculeInterval`;
- the pool `molecules` of 20 molecule records, each with an `evaporated` flag;
- the counter `moleculeIndex`, which each new interval captures and starts at 0.

Three buttons drive it: start, pause and reset. While it runs, the 800 ms interval walks the pool cyclically. It hands each not-yet-evaporated molecule to `evaporateMolecule` and marks it. When the index runs off the end, it returns to 0 and every flag is cleared.

The project has two modules:

- `EvaporationModel` (`evaporation_model.dfy`) describes the whole state as one value, `Snapshot`. Each handler is a function from one snapshot to the next: `AfterInit`, `AfterTick`, `AfterStart`, `AfterPause`, `AfterReset`, `AfterSpawnVapor` and `AfterRemoveVapor`. `Ticks` applies `AfterTick` k times. The lemmas prove these properties about those functions:
  - the guards make the handlers idempotent;
  - the shared invariant holds: running ⇔ interval installed, the pool size, and the bounds on the index;
  - the flags stay in their lockstep shape: every state that keeps the invariant has evaporated exactly a prefix of the pool;
  - a full cycle evaporates every molecule exactly once, in order, and clears the pool again;
  - after pause and resume, the interval restarts at 0 and first passes silently over the molecules that are already marked.
- `Animation` (`animation.dfy`) is the same state as the class `Evaporator`. Its fields are updated in place: the flags are an `array<bool>`, and the tick and `initMolecules` loops are `while` loops with invariants. Each method's postcondition states `Model() == AfterX(old(Model()))`. Every method except `InitMolecules` keeps `Valid()`; `InitMolecules` keeps it when no interval is installed (see "Left out"). As a result, every lemma about the functions carries over to the object.

How the timers are modelled:
- The interval timer is not modelled as time. One firing is one call of `Tick`.
- `Tick` carries the callback's own guard (`moleculeIndex < molecules.length && isAnimating`). So a firing while paused is a modelled no-op, not an excluded case.
- The ghost field `log` records the pool positions passed to `evaporateMolecule`, in order. That call's visual effects and its delayed callbacks are not modelled.

## Model

| member | source | states |
|---|---|---|
| EvaporationModel.AllClear | script.js:35-40 | a pool of n records, none of them evaporated |
| EvaporationModel.AfterInit | script.js:18-41 | `initMolecules` leaves exactly 20 records, all unevaporated, and changes nothing else; it keeps the invariant when no interval is installed |
| Animation.Evaporator.InitMolecules | script.js:18-41 | the loop builds a freshly allocated pool equal to `AfterInit` of the old state |
| EvaporationModel.AfterTick | script.js:74-92 | a firing changes neither the running flag, the interval, the vapor nor the pool size; it emits nothing or exactly the current, previously unevaporated molecule; it keeps the index bounds |
| Animation.Evaporator.Tick | script.js:74-92 | the in-place tick, including the clearing loop on wrap-around, equals `AfterTick` and keeps `Valid()` |
| EvaporationModel.TickWhilePaused | script.js:75 | a firing while not animating leaves the index, every flag and the log untouched |
| EvaporationModel.TickPastPool | script.js:75 | a firing while the index does not address a molecule (the empty pool before page-load initialisation) changes nothing |
| EvaporationModel.TickWhileRunning | script.js:75-90 | while running, the index becomes (index+1) mod pool size; `evaporateMolecule` gets the current molecule exactly when it was unevaporated; only its flag changes, except on wrap-around, where every flag is cleared |
| EvaporationModel.TickKeepsInvariant | script.js:74-92 | a firing keeps running ⇔ interval, the index bounds and the lockstep shape of the flags |
| EvaporationModel.Ticks | script.js:74-92 | repeated firings keep the running flag, the interval, the vapor and the pool size; they only extend the log and keep the invariant |
| EvaporationModel.TicksAdd | script.js:74-92 | a ticks then b ticks is a+b ticks |
| EvaporationModel.SkipMarked | script.js:78-83 | firings over already-evaporated molecules emit nothing and only advance the index |
| EvaporationModel.FinishCycle | script.js:75-90 | from the edge of an evaporated prefix i, the remaining n-i firings evaporate i..n-1 in order, clear every flag and return the index to 0 |
| EvaporationModel.FullCycle | script.js:71-92 | from a clear pool at index 0, n firings evaporate molecules 0..n-1 in order and return to the starting state |
| EvaporationModel.CycleEvaporatesEachOnce | script.js:74-92 | over a full cycle from a clear pool, `evaporateMolecule` receives every molecule of the pool exactly once and nothing else |
| EvaporationModel.ResumeCycle | script.js:72-90 | for every paused state that keeps the invariant, with its first m molecules marked: restarting puts the index at 0, and the next n firings skip molecules 0..m-1, evaporate m..n-1 and clear the pool |
| EvaporationModel.LockstepIsMarked | script.js:74-92 | every state that keeps the invariant has evaporated exactly a prefix of the pool, shorter than the pool, and a running interval's index has not passed that prefix |
| EvaporationModel.AfterStart | script.js:154-167 | start is a no-op while animating; otherwise it sets the running flag, installs an interval and restarts the index at 0, keeping the flags, vapor and log |
| Animation.Evaporator.Start | script.js:154-167 | the in-place start equals `AfterStart` and keeps `Valid()` |
| EvaporationModel.StartKeepsInvariant | script.js:154-167 | start keeps running ⇔ interval and the lockstep shape |
| EvaporationModel.StartIdempotent | script.js:155 | starting twice is starting once |
| EvaporationModel.AfterPause | script.js:170-186 | pause is a no-op while not animating; otherwise it clears the running flag and the interval and changes nothing else |
| Animation.Evaporator.Pause | script.js:170-186 | the in-place pause equals `AfterPause` and keeps `Valid()` |
| EvaporationModel.PauseKeepsInvariant | script.js:170-186 | pause keeps running ⇔ interval and the lockstep shape |
| EvaporationModel.PauseIdempotent | script.js:171 | pausing twice is pausing once |
| EvaporationModel.StartThenPause | script.js:154-186 | pausing right after starting from a paused state gives back that state, with the index at 0 |
| EvaporationModel.AfterReset | script.js:189-201 | reset ends paused with no interval, an empty vapor container and a clear 20-molecule pool; the log is kept |
| Animation.Evaporator.Reset | script.js:189-201 | the in-place reset equals `AfterReset`, allocates a new pool and keeps `Valid()` |
| EvaporationModel.ResetKeepsInvariant | script.js:189-201 | reset keeps running ⇔ interval and the lockstep shape |
| EvaporationModel.ResetIdempotent | script.js:189-201 | resetting twice gives the same state as resetting once |
| EvaporationModel.AfterSpawnVapor | script.js:129-141 | a newly created vapor element, never seen before, joins the container; nothing else changes |
| Animation.Evaporator.SpawnVapor | script.js:129-141 | the in-place append of a new element equals `AfterSpawnVapor` and keeps `Valid()` |
| EvaporationModel.AfterRemoveVapor | script.js:144-150 | a vapor element removes only itself from the container; if a reset already removed it, nothing changes |
| Animation.Evaporator.RemoveVapor | script.js:144-150 | the in-place removal equals `AfterRemoveVapor` and keeps `Valid()` |
| EvaporationModel.VaporKeepsInvariant | script.js:129-150 | spawning a new vapor element and removing one keep the invariant, including that every vapor element on the page was created by a spawn |
| EvaporationModel.SpawnThenRemove | script.js:129-150 | a vapor element that is spawned and later removes itself leaves the container as it was |
| EvaporationModel.LoadedIsValid | script.js:2-5 | the script-load state (not animating, no interval, empty pool) satisfies the invariant, and so does the state after the page-load `initMolecules` |
| Animation.Evaporator.constructor | script.js:2-5 | the object starts in the script-load state |

## Left out

- DOM work is not modelled: element creation, class toggling, CSS properties, the injected `moleculeFloat` keyframes, the sun and heat-wave classes, and button enabling. It is presentation only.
- Random values are not modelled: molecule origins (`originalX`, `originalY`), float delays, evaporation path offsets and vapor positions. They are random floating-point numbers with nothing to state. A molecule record is modelled by its `evaporated` flag alone. The fresh allocation on reset is kept, as `fresh(molecules)`.
- Real time is not modelled: the 800 ms period, the 2500 ms vapor spawn, the 3000 ms molecule cleanup, and the 5000 ms + 1000 ms vapor fade and removal. A firing is a call of `Tick`. A vapor spawn or removal is a call of `SpawnVapor` or `RemoveVapor` with the element's identity as a token parameter. The ghost set `issued` records every token created so far, so a spawn always brings a new element, as `document.createElement` does. The delayed callbacks that `evaporateMolecule` schedules are not cancelled by pause or reset. They appear only as the `log` entry of the molecule that scheduled them.
- The five staggered initial vapor molecules at page load are not modelled as a handler of their own. Each is one `SpawnVapor` call.
- Event-listener registration and the unused `animationInterval` variable are not modelled. They are plumbing.
- Animation.Evaporator.InitMolecules: it keeps `Valid()` only when no interval is installed. If the pool is rebuilt while an interval runs, the index no longer has every earlier molecule marked. The handlers only call it on page load and inside reset, after the pause.
- The second animation of the page (the buoyancy step animation, with keyframe interpolation and eased transitions) is not part of this model. Its source file is not among the files modelled.
