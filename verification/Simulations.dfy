/** What a simulated operation leaves in the cache, whatever was simulated before. */
module Simulations {
  import opened Wrappers
  import opened PackageDb
  import opened Planner
  import opened RemovalProofs
  import opened SoftProofs
  import opened BlameProofs
  import opened InstallProofs
  import opened InstallComplete
  import opened UpgradeProofs
  import opened Memo

  /** The requested package is deleted for good if it is installed, and all else that is
      deleted was dragged along by it; dragged packages are kept only if a broken package
      named them; nothing is selected, and no deleted package would help a broken one. */
  ghost predicate RemovalDone(db: Db, autoinst: set<Pkg>, p: Pkg, s: Plan) {
    && s.ins == {} && s.related == {} && Settled(db, s)
    && (if db.Installed(p) then p in s.del && p !in s.soft else s.del == {})
    && (forall q :: q in s.del && q != p ==> q in s.soft && Dragged(db, autoinst, p, q))
    && (forall q :: db.Installed(p) && Dragged(db, autoinst, p, q) && q !in s.del ==> WasNamed(db, autoinst, p, s, q))
  }

  /** In some state on the way to `s`, with only `p` and dragged packages deleted, a broken
      package named the softly deleted `q`. */
  ghost predicate WasNamed(db: Db, autoinst: set<Pkg>, p: Pkg, s: Plan, q: Pkg) {
    exists x ::
      && Restores(x, s, autoinst) && SoftlyDeleted(x, q) && NamedByBroken(db, x, q)
      && forall r :: r in x.del ==> r == p || Dragged(db, autoinst, p, r)
  }

  /** The status reported about a removal. */
  ghost predicate RemovalReported(db: Db, autoinst: set<Pkg>, p: Pkg, s: Plan, system: set<Pkg>) {
    RemovableStatus(db, autoinst, s, system) ==
      if s.del * system != {} then SystemUpdate
      else if exists q :: q !in s.del && !ResetPlan(autoinst).InstBroken(db, q)
                          && OnlyGone(autoinst, {p} + LostProviders(db, s, q)).InstBroken(db, q)
      then NeededByOthers else Able
  }

  /** What an installation of `p` leaves if its needs are no trouble. */
  ghost predicate InstallationDone(db: Db, p: Pkg, s: Plan) {
    && s.del == {} && s.ins <= Needs(db, p) && s.InstVer(db, p) == Preferred(db, p)
    && CompletePackage(db, s, p) && (forall q :: q in s.ins ==> CompletePackage(db, s, q))
    && OnlyChosen(db, s, p) && (p in s.ins ==> p !in s.auto)
  }

  ghost predicate BenignNeeds(db: Db, p: Pkg) {
    p in db.packages && Benign(db, Needs(db, p)) && |Selectable(db, Needs(db, p))| <= 100
  }

  ghost predicate UpgradeDone(db: Db, s: Plan) {
    && s.del == {} && s.ins <= SystemNeeds(db)
    && (forall p :: p in db.packages && SystemPackage(db, p) ==> Upgraded(db, s, p))
    && (forall q :: q in s.ins ==> CompletePackage(db, s, q) && SystemReason(db, s, q))
  }

  // ---- What planning does

  lemma RemovalIsDone(db: Db, autoinst: set<Pkg>, p: Pkg)
    requires db.Valid() && p in db.packages
    ensures RemovalDone(db, autoinst, p, PlanRemove(db, autoinst, ResetPlan(autoinst), p))
  {
    hide PlanRemove, Settled, WasNamed;
    var s := PlanRemove(db, autoinst, ResetPlan(autoinst), p);
    OnlyDeletions(db, autoinst, p);
    RemovalSettles(db, autoinst, p);
    if db.Installed(p) {
      RemovalShape(db, autoinst, p);
      forall q | Dragged(db, autoinst, p, q) && q !in s.del
        ensures WasNamed(db, autoinst, p, s, q)
      {
        KeptWasNamed(db, autoinst, p, q);
      }
    }
  }

  lemma RemovalSettles(db: Db, autoinst: set<Pkg>, p: Pkg)
    requires db.Valid() && p in db.packages
    ensures Settled(db, PlanRemove(db, autoinst, ResetPlan(autoinst), p))
  {
    hide Settled;
    FixSoftSettles(db, Remove1(db, ResetPlan(autoinst), p, false), autoinst);
  }

  lemma KeptWasNamed(db: Db, autoinst: set<Pkg>, p: Pkg, q: Pkg)
    requires db.Valid() && p in db.packages && db.Installed(p) && Dragged(db, autoinst, p, q)
    requires q !in PlanRemove(db, autoinst, ResetPlan(autoinst), p).del
    ensures WasNamed(db, autoinst, p, PlanRemove(db, autoinst, ResetPlan(autoinst), p), q)
  {
    hide GroupTargets, FixSoft, Remove1, NamedByBroken;
    var s0 := ResetPlan(autoinst);
    var s1 := Remove1(db, s0, p, false);
    RemoveEffect(db, s0, p, false);
    RemoveIsReachability(db, s0, p, false, q);
    var x := PutBackIsNamed(db, s1, autoinst, q);
    forall r | r in x.del
      ensures r == p || Dragged(db, autoinst, p, r)
    {
      RemoveReaches(db, s0, p, false, r);
    }
  }

  // ---- What a simulation leaves

  lemma SimulatedAlone(db: Db, autoinst: set<Pkg>, m: State, op: Operation)
    requires db.Valid() && autoinst <= db.All() && Agrees(db, autoinst, m)
    ensures Simulate(db, autoinst, m, op).plan == Alone(db, autoinst, Some(op))
  {
    hide Alone;
    StepAgrees(db, autoinst, m, Simulated(op));
  }

  /** Whatever the cache represented before, simulating the removal of a package does remove
      it, and reports what the removal breaks. */
  lemma SimulatedRemoval(db: Db, autoinst: set<Pkg>, m: State, p: Pkg, system: set<Pkg>)
    requires db.Valid() && autoinst <= db.All() && Agrees(db, autoinst, m) && p in db.packages
    ensures var s := Simulate(db, autoinst, m, Operation(db.name[p], false)).plan;
      RemovalDone(db, autoinst, p, s) && RemovalReported(db, autoinst, p, s, system)
  {
    hide RemovalDone, RemovalReported, PlanRemove, Simulate, Agrees;
    SimulatedAlone(db, autoinst, m, Operation(db.name[p], false));
    RemovalIsDone(db, autoinst, p);
    RemovalIsReported(db, autoinst, p, system);
  }

  lemma RemovalIsReported(db: Db, autoinst: set<Pkg>, p: Pkg, system: set<Pkg>)
    requires db.Valid() && p in db.packages
    ensures RemovalReported(db, autoinst, p, PlanRemove(db, autoinst, ResetPlan(autoinst), p), system)
  {
    hide PlanRemove, LostProviders, RemovableStatus;
    NeededByProviders(db, autoinst, p, system);
  }

  /** The same for an installation by name, if the needs of the package are no trouble. */
  lemma SimulatedInstallation(db: Db, autoinst: set<Pkg>, m: State, name: string)
    requires db.Valid() && autoinst <= db.All() && Agrees(db, autoinst, m)
    requires name in db.byName && name != MAGIC_SYS && BenignNeeds(db, db.byName[name])
    ensures InstallationDone(db, db.byName[name], Simulate(db, autoinst, m, Operation(name, true)).plan)
  {
    hide PlanInstall, Simulate, Agrees, Needs, Benign, CompletePackage, OnlyChosen;
    SimulatedAlone(db, autoinst, m, Operation(name, true));
    InstallSelects(db, autoinst, db.byName[name]);
  }

  /** And for all system upgrades. */
  lemma SimulatedUpgrade(db: Db, autoinst: set<Pkg>, m: State)
    requires db.Valid() && autoinst <= db.All() && Agrees(db, autoinst, m) && BenignSystem(db)
    ensures UpgradeDone(db, Simulate(db, autoinst, m, Operation(MAGIC_SYS, true)).plan)
  {
    hide PlanUpgrade, Simulate, Agrees, SystemNeeds, BenignSystem, Upgraded, CompletePackage, SystemReason;
    SimulatedAlone(db, autoinst, m, Operation(MAGIC_SYS, true));
    UpgradeSelectsSystem(db, autoinst);
  }

  /** In any case an installation deletes nothing by surprise. */
  lemma SimulatedNoSurprise(db: Db, autoinst: set<Pkg>, m: State, name: string)
    requires db.Valid() && autoinst <= db.All() && Agrees(db, autoinst, m)
    ensures var s := Simulate(db, autoinst, m, Operation(name, true)).plan; NoSurprise(db, s) && NamesNothingDeleted(db, s)
    ensures name != MAGIC_SYS && name !in db.byName ==>
              Simulate(db, autoinst, m, Operation(name, true)).plan == ResetPlan(autoinst)
  {
    hide Simulate, Agrees, NoSurprise, NamesNothingDeleted;
    SimulatedAlone(db, autoinst, m, Operation(name, true));
    NoSurpriseInstall(db, autoinst, Operation(name, true));
  }

  // ---- Put together

  lemma SimulatedRemovals(db: Db, autoinst: set<Pkg>, m: State, p: Pkg)
    requires db.Valid() && autoinst <= db.All() && Agrees(db, autoinst, m) && p in db.packages
    ensures var m' := Simulate(db, autoinst, m, Operation(db.name[p], false));
      && Agrees(db, autoinst, m') && RemovalDone(db, autoinst, p, m'.plan)
      && forall system :: RemovalReported(db, autoinst, p, m'.plan, system)
  {
    hide RemovalDone, RemovalReported, Simulate, Agrees;
    StepAgrees(db, autoinst, m, Simulated(Operation(db.name[p], false)));
    SimulatedRemoval(db, autoinst, m, p, {});
    forall system
      ensures RemovalReported(db, autoinst, p, Simulate(db, autoinst, m, Operation(db.name[p], false)).plan, system)
    {
      SimulatedRemoval(db, autoinst, m, p, system);
    }
  }

  lemma SimulatedByName(db: Db, autoinst: set<Pkg>, m: State, name: string)
    requires db.Valid() && autoinst <= db.All() && Agrees(db, autoinst, m)
    ensures var m' := Simulate(db, autoinst, m, Operation(name, true));
      && Agrees(db, autoinst, m')
      && (name != MAGIC_SYS && name in db.byName && BenignNeeds(db, db.byName[name]) ==>
            InstallationDone(db, db.byName[name], m'.plan))
      && (name == MAGIC_SYS && BenignSystem(db) ==> UpgradeDone(db, m'.plan))
      && (name != MAGIC_SYS && name !in db.byName ==> m'.plan == ResetPlan(autoinst))
  {
    hide InstallationDone, UpgradeDone, BenignNeeds, BenignSystem, Simulate, Agrees;
    StepAgrees(db, autoinst, m, Simulated(Operation(name, true)));
    SimulatedNoSurprise(db, autoinst, m, name);
    if name == MAGIC_SYS {
      if BenignSystem(db) {
        SimulatedUpgrade(db, autoinst, m);
      }
    } else if name in db.byName && BenignNeeds(db, db.byName[name]) {
      SimulatedInstallation(db, autoinst, m, name);
    }
  }

  /** Whatever the dependencies are like: the installation is found to break something exactly
      if it newly breaks a package or leaves a related one broken; if not, all that it selects
      is whole. */
  lemma SimulatedInstallationBreaks(db: Db, autoinst: set<Pkg>, m: State, name: string)
    requires db.Valid() && autoinst <= db.All() && Agrees(db, autoinst, m)
    ensures var s := Simulate(db, autoinst, m, Operation(name, true)).plan;
      && (!AnyNewlyOrRelatedBroken(db, autoinst, s) <==>
            forall q :: q in db.packages && s.InstBroken(db, q) ==>
              ResetPlan(autoinst).InstBroken(db, q) && q !in s.related)
      && (!AnyNewlyOrRelatedBroken(db, autoinst, s) ==> forall q :: q in s.ins ==> !s.InstBroken(db, q))
  {
    hide Simulate, Agrees, Expected, Plan.InstBroken;
    SimulatedNoSurprise(db, autoinst, m, name);
  }
}
