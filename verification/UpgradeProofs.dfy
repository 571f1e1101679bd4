/** Planning all system upgrades: which packages change their version, and which do not. */
module UpgradeProofs {
  import opened Wrappers
  import opened PackageDb
  import opened Planner
  import opened InstallComplete

  /** An installed package outside the user sections. */
  predicate SystemPackage(db: Db, p: Pkg) {
    p in db.current && !db.current[p].user
  }

  /** The system packages and all that these need. */
  ghost function SystemNeeds(db: Db): set<Pkg> {
    set q | q in db.packages && exists p :: p in db.packages && SystemPackage(db, p) && q in Needs(db, p)
  }

  /** What system packages need is no trouble, and for each of them within the recursion
      limit. */
  ghost predicate BenignSystem(db: Db) {
    && Benign(db, SystemNeeds(db))
    && forall p :: p in db.packages && SystemPackage(db, p) ==> |Selectable(db, Needs(db, p))| <= 100
  }

  /** What has been selected is a system package that is no automatic one, or has been chosen
      by a system package or by a selected one. */
  ghost predicate SystemReason(db: Db, s: Plan, q: Pkg) {
    || (SystemPackage(db, q) && q !in s.auto)
    || exists r :: (SystemPackage(db, r) || r in s.ins) && ChosenBy(db, r, q, q in s.auto)
  }

  /** What holds while the packages are walked. */
  ghost predicate Upgrading(db: Db, s: Plan) {
    && s.Valid(db) && s.del == {} && s.ins <= SystemNeeds(db)
    && (forall q :: q in s.ins ==> CompletePackage(db, s, q) && SystemReason(db, s, q))
  }

  /** The package ends with its candidate, and all its groups that are looked at are satisfied
      if candidates can do that. */
  ghost predicate Upgraded(db: Db, s: Plan, p: Pkg) {
    s.InstVer(db, p) == Preferred(db, p) && CompletePackage(db, s, p)
  }

  lemma NeedsInSystem(db: Db, p: Pkg)
    requires p in db.packages && SystemPackage(db, p)
    ensures Needs(db, p) <= SystemNeeds(db) && p in SystemNeeds(db)
  {
    NeedsItself(db, p);
    hide Needs;
    assert forall q :: q in Needs(db, p) ==> q in db.packages by {
      NeedsKnown(db, p);
    }
  }

  lemma NeedsKnown(db: Db, p: Pkg)
    ensures forall q :: q in Needs(db, p) ==> q in db.packages
  {
  }

  lemma UpgradeOne(db: Db, s: Plan, p: Pkg)
    requires BenignSystem(db) && Upgrading(db, s) && p in db.packages && SystemPackage(db, p) && p !in s.ins
    ensures var s' := Install1(db, s, p, 0);
      Upgrading(db, s') && Grows(s, s') && Upgraded(db, s', p)
  {
    var N, s' := Needs(db, p), Install1(db, s, p, 0);
    BenignIsValid(db, SystemNeeds(db));
    NeedsItself(db, p);
    NeedsBounded(db, p);
    NeedsInSystem(db, p);
    hide Needs, Benign, Bounded, CompletePackage, Install1, SystemReason, SystemNeeds;
    InstallCompletes(db, SystemNeeds(db), N, s.ins, s, p, 0);
    InstallHasReasons(db, SystemNeeds(db), N, s.ins, s, p, 0);
    forall q | q in s'.ins
      ensures CompletePackage(db, s', q) && SystemReason(db, s', q)
    {
      if q in s.ins {
        CompletePackageStays(db, SystemNeeds(db), s, s', q);
        OldReason(db, s, s', p, q);
      } else {
        NewReason(db, s, s', p, q);
      }
    }
  }

  lemma OldReason(db: Db, s: Plan, s': Plan, p: Pkg, q: Pkg)
    requires Grows(s, s') && q in s.ins && p !in s.ins && SystemReason(db, s, q) && InstallReasons(db, s, s', p)
    ensures SystemReason(db, s', q)
  {
    hide ChosenBy, HasReason;
    assert q !in New(s, s') && (q in s'.auto <==> q in s.auto);
  }

  lemma NewReason(db: Db, s: Plan, s': Plan, p: Pkg, q: Pkg)
    requires SystemPackage(db, p) && q in New(s, s') && InstallReasons(db, s, s', p)
    ensures SystemReason(db, s', q)
  {
    hide ChosenBy;
    if q != p {
      assert HasReason(db, s, s', p, q);
    }
  }

  lemma SelectedIsUpgraded(db: Db, s: Plan, q: Pkg)
    requires Upgrading(db, s) && q in s.ins
    ensures Upgraded(db, s, q)
  {
    hide CompletePackage;
  }

  lemma UpgradedStays(db: Db, s: Plan, s': Plan, p: Pkg)
    requires BenignSystem(db) && Upgrading(db, s) && Upgrading(db, s') && Grows(s, s') && p in SystemNeeds(db)
    requires Upgraded(db, s, p)
    ensures Upgraded(db, s', p)
  {
    hide Benign, CompletePackage, SystemReason, SystemNeeds;
    CompletePackageStays(db, SystemNeeds(db), s, s', p);
  }

  lemma {:induction false} UpgradesSelect(db: Db, s: Plan, ps: seq<Pkg>)
    requires BenignSystem(db) && Upgrading(db, s) && s.del == {} && db.Valid() && forall p :: p in ps ==> p in db.packages
    ensures var s' := InstallUpgrades(db, s, ps);
      && Upgrading(db, s') && Grows(s, s')
      && forall p :: p in ps && SystemPackage(db, p) ==> Upgraded(db, s', p)
    decreases |ps|
  {
    hide BenignSystem, Upgrading, Upgraded, Install1;
    if ps != [] {
      var p := ps[0];
      var s' := InstallUpgrades(db, s, ps);
      var s1 := if SystemPackage(db, p) && p !in s.ins then Install1(db, s, p, 0) else s;
      if SystemPackage(db, p) {
        NeedsInSystem(db, p);
        if p in s.ins {
          SelectedIsUpgraded(db, s, p);
        } else {
          UpgradeOne(db, s, p);
        }
      }
      UpgradesSelect(db, s1, ps[1..]);
      if SystemPackage(db, p) {
        UpgradedStays(db, s1, s', p);
      }
    }
  }

  /** Planning all system upgrades deletes nothing.  Every system package ends with its
      candidate if it has one, and only the needs of system packages are selected, each for
      a reason. */
  lemma UpgradeSelectsSystem(db: Db, autoinst: set<Pkg>)
    requires BenignSystem(db) && db.Valid()
    ensures var s := PlanUpgrade(db, autoinst, ResetPlan(autoinst));
      && s.del == {} && s.ins <= SystemNeeds(db)
      && (forall p :: p in db.packages && SystemPackage(db, p) ==> Upgraded(db, s, p))
      && (forall q :: q in s.ins ==> CompletePackage(db, s, q) && SystemReason(db, s, q))
  {
    hide BenignSystem, Upgraded, CompletePackage, SystemReason, SystemNeeds;
    UpgradesSelect(db, ResetPlan(autoinst), db.packages);
    NothingToFix(db, InstallUpgrades(db, ResetPlan(autoinst), db.packages), autoinst);
  }

  /** So a package that no system package needs keeps its version. */
  lemma OthersKeepTheirVersion(db: Db, autoinst: set<Pkg>, q: Pkg)
    requires BenignSystem(db) && db.Valid() && q !in SystemNeeds(db)
    ensures PlanUpgrade(db, autoinst, ResetPlan(autoinst)).InstVer(db, q) == db.Current(q)
  {
    hide BenignSystem, SystemNeeds, PlanUpgrade, Upgraded, CompletePackage, SystemReason;
    UpgradeSelectsSystem(db, autoinst);
  }
}
