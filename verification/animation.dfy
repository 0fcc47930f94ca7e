/**
 * The evaporation animation's module-level state as an object whose
 * handlers update it in place. Every handler is proved to move the
 * abstract Snapshot exactly as the corresponding function of
 * EvaporationModel does, and to keep that module's Invariant.
 */
module Animation {
  import opened EvaporationModel

  class Evaporator {
    var isAnimating: bool
    var intervalSet: bool       // moleculeInterval is not null
    var moleculeIndex: nat      // counter captured by the installed interval
    var molecules: array<bool>  // the `evaporated` field of each molecule record
    var vapor: set<nat>         // vapor tokens attached to the vapor container
    ghost var issued: set<nat>  // every vapor token created so far
    ghost var log: seq<nat>     // pool positions passed to evaporateMolecule

    ghost function Model(): Snapshot
      reads this, molecules
    {
      Snapshot(isAnimating, intervalSet, moleculeIndex, molecules[..], vapor, issued, log)
    }

    ghost predicate Valid()
      reads this, molecules
    {
      Invariant(Model())
    }

    /** Script load: not animating, no interval, `molecules = []`. */
    constructor ()
      ensures Model() == Loaded && Valid()
    {
      isAnimating, intervalSet, moleculeIndex := false, false, 0;
      molecules := new bool[0];
      vapor, issued, log := {}, {}, [];
      LoadedIsValid();
    }

    /** `initMolecules`: a new pool of PoolSize records, none evaporated. */
    method InitMolecules()
      modifies this`molecules
      ensures fresh(molecules)
      ensures Model() == AfterInit(old(Model()))
      ensures old(Valid()) && !old(intervalSet) ==> Valid()
    {
      var pool := new bool[PoolSize];
      var i := 0;
      while i < PoolSize
        invariant i <= PoolSize
        invariant forall j :: 0 <= j < i ==> !pool[j]
      {
        pool[i] := false;
        i := i + 1;
      }
      molecules := pool;
      assert molecules[..] == AllClear(PoolSize);
    }

    /** The body of the evaporation interval. */
    method Tick()
      modifies this`moleculeIndex, this`log, molecules
      ensures Model() == AfterTick(old(Model()))
      ensures old(Valid()) ==> Valid()
    {
      ghost var before := Model();
      if moleculeIndex < molecules.Length && isAnimating {
        if !molecules[moleculeIndex] {
          log := log + [moleculeIndex];
          molecules[moleculeIndex] := true;
        }
        assert molecules[..] == before.evaporated[before.index := true];
        moleculeIndex := moleculeIndex + 1;
        if moleculeIndex >= molecules.Length {
          moleculeIndex := 0;
          var j := 0;
          while j < molecules.Length
            invariant j <= molecules.Length
            invariant forall k :: 0 <= k < j ==> !molecules[k]
            modifies molecules
          {
            molecules[j] := false;
            j := j + 1;
          }
          assert molecules[..] == AllClear(molecules.Length);
        }
      }
      TickKeepsInvariant(before);
    }

    /**
     * `startAnimation`: ignored while animating; otherwise sets the running
     * flag and runs `startEvaporation`, which installs a new interval whose
     * counter starts at 0.
     */
    method Start()
      modifies this`isAnimating, this`intervalSet, this`moleculeIndex
      ensures Model() == AfterStart(old(Model()))
      ensures old(Valid()) ==> Valid()
    {
      StartKeepsInvariant(Model());
      if isAnimating {
        return;
      }
      isAnimating := true;
      moleculeIndex := 0;
      intervalSet := true;
    }

    /**
     * `pauseAnimation`: ignored while not animating; otherwise clears the
     * running flag and the installed interval.
     */
    method Pause()
      modifies this`isAnimating, this`intervalSet
      ensures Model() == AfterPause(old(Model()))
      ensures old(Valid()) ==> Valid()
    {
      PauseKeepsInvariant(Model());
      if !isAnimating {
        return;
      }
      isAnimating := false;
      if intervalSet {
        intervalSet := false;
      }
    }

    /**
     * `resetAnimation`: pause, empty the vapor container and rebuild the
     * pool as new records.
     */
    method Reset()
      modifies this`isAnimating, this`intervalSet, this`vapor, this`molecules
      ensures fresh(molecules)
      ensures Model() == AfterReset(old(Model()))
      ensures old(Valid()) ==> Valid()
    {
      ResetKeepsInvariant(Model());
      Pause();
      vapor := {};
      InitMolecules();
    }

    /** A newly created vapor molecule appended to the vapor container. */
    method SpawnVapor(token: nat)
      requires token !in issued
      modifies this`vapor, this`issued
      ensures Model() == AfterSpawnVapor(old(Model()), token)
      ensures old(Valid()) ==> Valid()
    {
      VaporKeepsInvariant(Model(), token);
      vapor := vapor + {token};
      issued := issued + {token};
    }

    /** A vapor molecule removing itself from the page. */
    method RemoveVapor(token: nat)
      modifies this`vapor
      ensures Model() == AfterRemoveVapor(old(Model()), token)
      ensures old(Valid()) ==> Valid()
    {
      VaporKeepsInvariant(Model(), token);
      vapor := vapor - {token};
    }
  }
}
