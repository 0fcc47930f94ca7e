/**
 * Value-level model of the water-evaporation animation's state machine:
 * the running flag, the evaporation interval, the cyclic molecule index of
 * that interval, the pool of `evaporated` flags, the vapor container and
 * the sequence of molecules handed to `evaporateMolecule`.
 *
 * Each handler of the page is a function from one Snapshot to the next;
 * the class in module Animation performs the same steps in place and is
 * proved equal to these functions.
 */
module EvaporationModel {

  /** Number of molecules `initMolecules` puts in the water. */
  const PoolSize: nat := 20

  /** Everything the handlers read or write, as one value. */
  datatype Snapshot = Snapshot(
    animating: bool,      // isAnimating
    intervalSet: bool,    // moleculeInterval is not null
    index: nat,           // moleculeIndex captured by the installed interval
    evaporated: seq<bool>,// the `evaporated` field of each molecule record, in pool order
    vapor: set<nat>,      // vapor tokens currently attached to the vapor container
    issued: set<nat>,     // every vapor token ever created (each element is new)
    log: seq<nat>)        // pool positions passed to evaporateMolecule, oldest first

  /** The state at script load: not animating, no interval, empty pool. */
  const Loaded: Snapshot := Snapshot(false, false, 0, [], {}, {}, [])

  /** A pool of `n` molecules none of which has evaporated. */
  function AllClear(n: nat): (r: seq<bool>)
    ensures |r| == n
    ensures forall j :: 0 <= j < n ==> !r[j]
  {
    seq(n, _ => false)
  }

  /** A pool of `n` molecules whose first `m` have evaporated. */
  function Marked(n: nat, m: nat): (r: seq<bool>)
    ensures |r| == n
    ensures forall j :: 0 <= j < n ==> (r[j] <==> j < m)
  {
    seq(n, j => j < m)
  }

  /** The first molecule at or after `i` that has not evaporated, or `|e|` if none. */
  function FirstClear(e: seq<bool>, i: nat): (r: nat)
    requires i <= |e|
    ensures i <= r <= |e|
    ensures forall j :: i <= j < r ==> e[j]
    ensures r < |e| ==> !e[r]
    decreases |e| - i
  {
    if i == |e| || !e[i] then i else FirstClear(e, i + 1)
  }

  /** The positions lo, lo+1, ..., hi-1 in increasing order. */
  function Range(lo: nat, hi: nat): (r: seq<nat>)
    requires lo <= hi
    ensures |r| == hi - lo
    ensures forall k :: 0 <= k < |r| ==> r[k] == lo + k
    decreases hi - lo
  {
    if lo == hi then [] else [lo] + Range(lo + 1, hi)
  }

  /**
   * Structural facts every handler keeps: the running flag and the
   * interval handle agree, the pool is either not yet built or holds
   * PoolSize molecules, the index addresses a molecule (or is 0), and
   * every vapor token on the page was created by a spawn.
   */
  predicate Consistent(s: Snapshot)
  {
    s.animating == s.intervalSet &&
    s.vapor <= s.issued &&
    (|s.evaporated| == 0 || |s.evaporated| == PoolSize) &&
    (s.index == 0 || s.index < |s.evaporated|)
  }

  /**
   * The lockstep shape of the flags: evaporated molecules form a prefix of
   * the pool, the last molecule is never left marked (reaching it clears the
   * pool), and while an interval is installed every molecule before its
   * index has evaporated.
   */
  predicate Lockstep(s: Snapshot)
  {
    var e := s.evaporated;
    (forall j, k :: 0 <= j < k < |e| && e[k] ==> e[j]) &&
    (|e| > 0 ==> !e[|e| - 1]) &&
    (s.intervalSet ==> forall j :: 0 <= j < s.index && j < |e| ==> e[j])
  }

  predicate Invariant(s: Snapshot)
  {
    Consistent(s) && Lockstep(s)
  }

  /** `initMolecules`: the pool is rebuilt with PoolSize unevaporated molecules. */
  function AfterInit(s: Snapshot): (r: Snapshot)
    ensures |r.evaporated| == PoolSize
    ensures forall j :: 0 <= j < PoolSize ==> !r.evaporated[j]
    ensures r.(evaporated := s.evaporated) == s
    ensures Invariant(s) && !s.intervalSet ==> Invariant(r)
  {
    s.(evaporated := AllClear(PoolSize))
  }

  /**
   * One firing of the 800 ms evaporation interval. Only while animating and
   * while the index addresses a molecule: an unevaporated molecule is handed
   * to evaporateMolecule and marked, the index advances, and on reaching the
   * end of the pool the index returns to 0 and every flag is cleared.
   */
  function AfterTick(s: Snapshot): (r: Snapshot)
    ensures r.animating == s.animating && r.intervalSet == s.intervalSet
    ensures r.vapor == s.vapor
    ensures |r.evaporated| == |s.evaporated|
    ensures r.log == s.log ||
            (r.log == s.log + [s.index] && s.animating &&
             s.index < |s.evaporated| && !s.evaporated[s.index])
    ensures Consistent(s) ==> Consistent(r)
  {
    if s.index < |s.evaporated| && s.animating then
      var emitted := if s.evaporated[s.index] then [] else [s.index];
      var marked := s.evaporated[s.index := true];
      var next := s.index + 1;
      if next >= |s.evaporated| then
        s.(index := 0, evaporated := AllClear(|s.evaporated|), log := s.log + emitted)
      else
        s.(index := next, evaporated := marked, log := s.log + emitted)
    else
      s
  }

  /**
   * `startAnimation`: a no-op while animating; otherwise sets the running
   * flag and installs a fresh interval whose index starts at 0, keeping the
   * flags as they are.
   */
  function AfterStart(s: Snapshot): (r: Snapshot)
    ensures r.animating
    ensures Consistent(s) ==> r.intervalSet
    ensures s.animating ==> r == s
    ensures !s.animating ==> r.index == 0
    ensures r.evaporated == s.evaporated && r.vapor == s.vapor && r.log == s.log
  {
    if s.animating then s
    else s.(animating := true, intervalSet := true, index := 0)
  }

  /**
   * `pauseAnimation`: a no-op while not animating; otherwise clears the
   * running flag and, if an interval is installed, clears it.
   */
  function AfterPause(s: Snapshot): (r: Snapshot)
    ensures !r.animating
    ensures Consistent(s) ==> !r.intervalSet
    ensures !s.animating ==> r == s
    ensures r.index == s.index && r.evaporated == s.evaporated
    ensures r.vapor == s.vapor && r.log == s.log
  {
    if !s.animating then s
    else
      var t := s.(animating := false);
      if t.intervalSet then t.(intervalSet := false) else t
  }

  /**
   * `resetAnimation`: pause, empty the vapor container, rebuild the pool.
   */
  function AfterReset(s: Snapshot): (r: Snapshot)
    ensures !r.animating
    ensures Consistent(s) ==> !r.intervalSet
    ensures r.vapor == {}
    ensures r.evaporated == AllClear(PoolSize)
    ensures r.log == s.log && r.index == s.index
  {
    AfterInit(AfterPause(s).(vapor := {}))
  }

  /**
   * A newly created vapor element attached to the vapor container. The
   * element is new, so its token has never been issued before.
   */
  function AfterSpawnVapor(s: Snapshot, token: nat): (r: Snapshot)
    requires token !in s.issued
    ensures Consistent(s) ==> token !in s.vapor
    ensures r.vapor == s.vapor + {token} && r.issued == s.issued + {token}
    ensures r.(vapor := s.vapor, issued := s.issued) == s
    ensures Consistent(s) ==> Consistent(r)
  {
    s.(vapor := s.vapor + {token}, issued := s.issued + {token})
  }

  /**
   * A vapor element removing itself: only that element leaves the
   * container, and nothing happens if a reset already removed it.
   */
  function AfterRemoveVapor(s: Snapshot, token: nat): (r: Snapshot)
    ensures token !in r.vapor
    ensures forall t :: t != token ==> (t in r.vapor <==> t in s.vapor)
    ensures token !in s.vapor ==> r == s
    ensures r.(vapor := s.vapor) == s
    ensures Consistent(s) ==> Consistent(r)
  {
    s.(vapor := s.vapor - {token})
  }

  /** `k` consecutive firings of the interval. */
  function Ticks(s: Snapshot, k: nat): (r: Snapshot)
    ensures r.animating == s.animating && r.intervalSet == s.intervalSet
    ensures r.vapor == s.vapor
    ensures |r.evaporated| == |s.evaporated|
    ensures s.log <= r.log
    ensures Invariant(s) ==> Invariant(r)
    decreases k
  {
    if k == 0 then s
    else
      TickKeepsInvariant(s);
      Ticks(AfterTick(s), k - 1)
  }

  // ---------------------------------------------------------------------
  // Single-step properties

  /** A firing while not animating changes nothing at all. */
  lemma TickWhilePaused(s: Snapshot)
    requires !s.animating
    ensures AfterTick(s) == s
  {
  }

  /**
   * A firing while animating on a built pool: the index moves to its
   * successor modulo the pool length, evaporateMolecule receives the current
   * molecule exactly when it had not yet evaporated, and the flags are those
   * of the pool with the current molecule marked -- or all clear on wrap.
   */
  lemma TickWhileRunning(s: Snapshot)
    requires s.animating && s.index < |s.evaporated|
    ensures AfterTick(s).index == (s.index + 1) % |s.evaporated|
    ensures AfterTick(s).index < |s.evaporated|
    ensures AfterTick(s).log ==
            s.log + (if s.evaporated[s.index] then [] else [s.index])
    ensures s.index + 1 < |s.evaporated| ==>
            AfterTick(s).evaporated == s.evaporated[s.index := true]
    ensures s.index + 1 == |s.evaporated| ==>
            AfterTick(s).evaporated == AllClear(|s.evaporated|)
  {
  }

  /**
   * The remaining case of the guard: while the index does not address a
   * molecule (the pool is still empty before the page-load initMolecules),
   * a firing changes nothing.
   */
  lemma TickPastPool(s: Snapshot)
    requires s.index >= |s.evaporated|
    ensures AfterTick(s) == s
  {
  }

  /** Every handler keeps the invariant. */
  lemma TickKeepsInvariant(s: Snapshot)
    ensures Invariant(s) ==> Invariant(AfterTick(s))
  {
  }

  lemma StartKeepsInvariant(s: Snapshot)
    ensures Invariant(s) ==> Invariant(AfterStart(s))
  {
  }

  lemma PauseKeepsInvariant(s: Snapshot)
    ensures Invariant(s) ==> Invariant(AfterPause(s))
  {
  }

  lemma ResetKeepsInvariant(s: Snapshot)
    ensures Invariant(s) ==> Invariant(AfterReset(s))
  {
  }

  lemma VaporKeepsInvariant(s: Snapshot, token: nat)
    ensures Invariant(s) && token !in s.issued ==> Invariant(AfterSpawnVapor(s, token))
    ensures Invariant(s) ==> Invariant(AfterRemoveVapor(s, token))
  {
  }

  /** A vapor element that spawns and later removes itself leaves the container as it was. */
  lemma SpawnThenRemove(s: Snapshot, token: nat)
    requires Consistent(s) && token !in s.issued
    ensures AfterRemoveVapor(AfterSpawnVapor(s, token), token).vapor == s.vapor
  {
  }

  /**
   * Every state that keeps the invariant has the lockstep shape: the
   * evaporated molecules are exactly the first m = FirstClear(e, 0) of the
   * pool, m is below the pool size, and a running interval's index has not
   * passed m.
   */
  lemma LockstepIsMarked(s: Snapshot)
    requires Invariant(s) && |s.evaporated| > 0
    ensures FirstClear(s.evaporated, 0) < |s.evaporated|
    ensures s.evaporated == Marked(|s.evaporated|, FirstClear(s.evaporated, 0))
    ensures s.intervalSet ==> s.index <= FirstClear(s.evaporated, 0)
  {
    var e, n := s.evaporated, |s.evaporated|;
    var m := FirstClear(e, 0);
    forall j | 0 <= j < n ensures e[j] == Marked(n, m)[j] {
    }
  }

  /** The script starts in a state satisfying the invariant, with the page-load pool too. */
  lemma LoadedIsValid()
    ensures Invariant(Loaded)
    ensures Invariant(AfterInit(Loaded))
    ensures AfterInit(Loaded).evaporated == AllClear(PoolSize)
  {
  }

  // ---------------------------------------------------------------------
  // Guards: starting, pausing and resetting are idempotent

  lemma StartIdempotent(s: Snapshot)
    ensures AfterStart(AfterStart(s)) == AfterStart(s)
  {
  }

  lemma PauseIdempotent(s: Snapshot)
    ensures AfterPause(AfterPause(s)) == AfterPause(s)
  {
  }

  lemma ResetIdempotent(s: Snapshot)
    ensures AfterReset(AfterReset(s)) == AfterReset(s)
  {
  }

  /** Pausing a freshly started animation gives back the paused state with index 0. */
  lemma StartThenPause(s: Snapshot)
    requires Consistent(s) && !s.animating
    ensures AfterPause(AfterStart(s)) == s.(index := 0)
  {
  }

  // ---------------------------------------------------------------------
  // Whole cycles of the interval

  /** Ticking a then b times is ticking a + b times. */
  lemma {:induction false} TicksAdd(s: Snapshot, a: nat, b: nat)
    ensures Ticks(s, a + b) == Ticks(Ticks(s, a), b)
    decreases a
  {
    if a > 0 {
      TicksAdd(AfterTick(s), a - 1, b);
    }
  }

  /**
   * While the index is behind the evaporated prefix, each firing only moves
   * the index on: nothing is evaporated and no flag changes.
   */
  lemma {:induction false} SkipMarked(s: Snapshot, m: nat)
    requires s.animating
    requires s.index <= m < |s.evaporated|
    requires s.evaporated == Marked(|s.evaporated|, m)
    ensures Ticks(s, m - s.index) == s.(index := m)
    decreases m - s.index
  {
    if s.index < m {
      var t := AfterTick(s);
      assert s.evaporated[s.index := true] == s.evaporated;
      assert t == s.(index := s.index + 1);
      SkipMarked(t, m);
    }
  }

  /**
   * From the index i at the edge of an evaporated prefix of length i, the
   * remaining firings of the cycle evaporate molecules i, ..., n-1 in order,
   * each once, and leave the pool all clear with the index back at 0.
   */
  lemma {:induction false} FinishCycle(s: Snapshot, i: nat)
    requires s.animating
    requires s.index == i < |s.evaporated|
    requires s.evaporated == Marked(|s.evaporated|, i)
    ensures Ticks(s, |s.evaporated| - i) ==
            s.(index := 0, evaporated := AllClear(|s.evaporated|),
               log := s.log + Range(i, |s.evaporated|))
    decreases |s.evaporated| - i
  {
    var n := |s.evaporated|;
    var t := AfterTick(s);
    assert !s.evaporated[i];
    assert t.log == s.log + [i];
    if i + 1 == n {
      assert Range(i, n) == [i];
      assert Ticks(s, 1) == Ticks(t, 0);
    } else {
      assert s.evaporated[i := true] == Marked(n, i + 1);
      assert t == s.(index := i + 1, evaporated := Marked(n, i + 1), log := s.log + [i]);
      FinishCycle(t, i + 1);
      assert Range(i, n) == [i] + Range(i + 1, n);
      assert s.log + [i] + Range(i + 1, n) == s.log + Range(i, n);
    }
  }

  /**
   * A full cycle from a clear pool: PoolSize firings hand molecules
   * 0, 1, ..., n-1 to evaporateMolecule in order and leave every flag
   * cleared and the index at 0, i.e. the state it started from.
   */
  lemma FullCycle(s: Snapshot)
    requires s.animating && s.index == 0 && |s.evaporated| > 0
    requires s.evaporated == AllClear(|s.evaporated|)
    ensures Ticks(s, |s.evaporated|) == s.(log := s.log + Range(0, |s.evaporated|))
  {
    var n := |s.evaporated|;
    assert AllClear(n) == Marked(n, 0);
    FinishCycle(s, 0);
  }

  /** Each position of a range appears in it exactly once. */
  lemma {:induction false} RangeOnce(lo: nat, hi: nat, x: nat)
    requires lo <= hi
    ensures multiset(Range(lo, hi))[x] == if lo <= x < hi then 1 else 0
    decreases hi - lo
  {
    if lo < hi {
      var rest := Range(lo + 1, hi);
      assert Range(lo, hi) == [lo] + rest;
      RangeOnce(lo + 1, hi, x);
      assert multiset([lo] + rest) == multiset([lo]) + multiset(rest);
      assert multiset([lo])[x] == if x == lo then 1 else 0;
    }
  }

  /**
   * Over a full cycle from a clear pool, evaporateMolecule receives every
   * molecule of the pool exactly once and nothing else.
   */
  lemma CycleEvaporatesEachOnce(s: Snapshot, x: nat)
    requires s.animating && s.index == 0 && |s.evaporated| > 0
    requires s.evaporated == AllClear(|s.evaporated|)
    ensures multiset(Ticks(s, |s.evaporated|).log)[x] ==
            multiset(s.log)[x] + (if x < |s.evaporated| then 1 else 0)
  {
    FullCycle(s);
    RangeOnce(0, |s.evaporated|, x);
  }

  /** ResumeCycle for a pool whose first m molecules are marked. */
  lemma ResumeFromMarked(s: Snapshot, m: nat)
    requires !s.animating
    requires m < |s.evaporated|
    requires s.evaporated == Marked(|s.evaporated|, m)
    ensures Ticks(AfterStart(s), |s.evaporated|) ==
            AfterStart(s).(evaporated := AllClear(|s.evaporated|),
                           log := s.log + Range(m, |s.evaporated|))
  {
    var n, t := |s.evaporated|, AfterStart(s);
    SkipMarked(t, m);
    TicksAdd(t, m, n - m);
    FinishCycle(t.(index := m), m);
  }

  /**
   * Resuming after a pause, from any state that keeps the invariant: the
   * new interval restarts its index at 0 while the first m molecules are
   * still marked. The next n firings first pass silently over those m
   * molecules, then evaporate m, ..., n-1 and clear the pool; molecules
   * 0..m-1 are not evaporated again in that cycle.
   */
  lemma ResumeCycle(s: Snapshot)
    requires Invariant(s) && !s.animating && |s.evaporated| > 0
    ensures Ticks(AfterStart(s), |s.evaporated|) ==
            AfterStart(s).(evaporated := AllClear(|s.evaporated|),
                           log := s.log + Range(FirstClear(s.evaporated, 0), |s.evaporated|))
  {
    LockstepIsMarked(s);
    ResumeFromMarked(s, FirstClear(s.evaporated, 0));
  }
}
