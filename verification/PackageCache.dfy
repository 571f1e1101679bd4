/** The planner as it runs: one cache whose modes and flags are updated in place. */
module PackageCache {
  import opened Wrappers
  import opened PackageDb
  import P = Planner
  import M = Memo
  import S = Simulations
  import U = UpgradeProofs

  class Cache {
    const db: Db
    const autoinst: set<Pkg>
    var deleting: set<Pkg>
    var installing: set<Pkg>
    var auto: set<Pkg>
    var related: set<Pkg>
    var soft: set<Pkg>
    var reinstall: set<Pkg>
    var currentOperation: Option<P.Operation>

    constructor (db: Db, autoinst: set<Pkg>)
      ensures this.db == db && this.autoinst == autoinst
      ensures Memo() == M.State(ResetPlan(autoinst), None)
    {
      this.db, this.autoinst := db, autoinst;
      deleting, installing, auto, related, soft, reinstall := {}, {}, autoinst, {}, {}, {};
      currentOperation := None;
    }

    /** The desired state that the fields describe. */
    function View(): Plan
      reads this
    {
      Plan(deleting, installing, auto, related, soft)
    }

    ghost function Memo(): M.State
      reads this
    {
      M.State(View(), currentOperation)
    }

    // ---- The cache interface

    method MarkDelete(p: Pkg)
      modifies this`deleting, this`installing
      ensures View() == P.MarkDelete(db, old(View()), p)
    {
      if View().InstVer(db, p).Some? {
        installing := installing - {p};
        if p in db.current {
          deleting := deleting + {p};
        }
      }
    }

    method MarkKeep(p: Pkg)
      modifies this`deleting, this`installing
      ensures View() == P.MarkKeep(old(View()), p)
    {
      deleting, installing := deleting - {p}, installing - {p};
    }

    method MarkInstall(p: Pkg)
      modifies this`deleting, this`installing, this`auto
      ensures View() == P.MarkInstall(db, old(View()), p)
    {
      if p !in db.candidate {
        return;
      }
      var fine := !View().InstBroken(db, p) && !View().PolicyBroken(db, p);
      if db.Candidate(p) == db.Current(p) {
        MarkKeep(p);
        if !fine {
          auto := auto - {p};
        }
      } else if !(p in installing && fine) {
        deleting, installing, auto := deleting - {p}, installing + {p}, auto - {p};
      }
    }

    // ---- Resetting

    method CacheResetPackage(p: Pkg)
      modifies this`deleting, this`installing, this`auto, this`related, this`soft
      ensures View() == P.ResetPackage(old(View()), autoinst, p)
    {
      MarkKeep(p);
      if p in autoinst {
        auto := auto + {p};
      } else {
        auto := auto - {p};
      }
      related := related - {p};
      soft := soft - {p};
    }

    /** The reinstall flags are not reset. */
    method CacheReset()
      modifies this
      ensures Memo() == M.Forget(db, autoinst, old(Memo()))
      ensures reinstall == old(reinstall)
    {
      var i := 0;
      while i < |db.packages|
        invariant 0 <= i <= |db.packages|
        invariant M.ResetAll(View(), autoinst, db.packages[i..]) == M.ResetAll(old(View()), autoinst, db.packages)
        invariant reinstall == old(reinstall)
      {
        CacheResetPackage(db.packages[i]);
        i := i + 1;
      }
      currentOperation := None;
    }

    /** Whether the cache already represents `op`; if not it is made ready for it. */
    method CheckCacheState(op: P.Operation) returns (same: bool)
      modifies this
      ensures same == (old(currentOperation) == Some(op))
      ensures currentOperation == Some(op) && reinstall == old(reinstall)
      ensures View() == if same || old(currentOperation).None? then old(View())
                        else M.ResetAll(old(View()), autoinst, db.packages)
    {
      if currentOperation == Some(op) {
        return true;
      }
      if currentOperation.Some? {
        CacheReset();
      }
      currentOperation := Some(op);
      return false;
    }

    // ---- Related packages

    /** Newly related packages that still have to be unpacked get their reinstall flag. */
    method MarkRelated(v: Ver)
      requires db.Valid() && v.package in db.packages
      modifies this`related, this`reinstall
      ensures View() == P.MarkRelated(db, old(View()), v)
      ensures reinstall == old(reinstall) + (related - old(related)) * db.needsUnpack
      decreases db.All() - related
    {
      var p := v.package;
      if p in related {
        return;
      }
      related := related + {p};
      if p in db.needsUnpack {
        reinstall := reinstall + {p};
      }
      ghost var s1 := View();
      assert p in db.All() - old(related) && p !in db.All() - related;
      if db.unsettled != {} {
        var ts := GroupTargets(db.Groups(v), false);
        var i := 0;
        while i < |ts|
          invariant 0 <= i <= |ts|
          invariant P.RelateTargets(db, View(), ts[i..]) == P.RelateTargets(db, s1, ts)
          invariant s1.related <= related
          invariant reinstall == old(reinstall) + (related - old(related)) * db.needsUnpack
        {
          match db.Current(ts[i]) {
            case Some(w) => MarkRelated(w);
            case None =>
          }
          i := i + 1;
        }
      }
    }

    // ---- Removal

    method MarkForRemove1(p: Pkg, softly: bool)
      requires db.Valid() && p in db.packages
      modifies this`deleting, this`installing, this`auto, this`soft
      ensures View() == P.Remove1(db, old(View()), p, softly)
      decreases db.All() - deleting
    {
      hide GroupTargets;
      if p in deleting {
        return;
      }
      MarkDelete(p);
      auto := auto - {p};
      soft := if softly then soft + {p} else soft - {p};
      if p !in deleting {
        return;
      }
      ghost var s1 := View();
      assert p in db.All() - old(deleting) && p !in db.All() - deleting;
      TargetsKnown(db, db.current[p], true);
      var ts := P.HardTargets(db, p);
      var i := 0;
      while i < |ts|
        invariant 0 <= i <= |ts|
        invariant P.RemoveTargets(db, View(), ts[i..]) == P.RemoveTargets(db, s1, ts)
        invariant s1.del <= deleting
      {
        if P.Removable(db, View(), ts[i]) {
          MarkForRemove1(ts[i], true);
        }
        i := i + 1;
      }
    }

    // ---- Undoing soft removals

    /** Puts back the first softly deleted target of an unsatisfied group. */
    method FixGroup(g: Group) returns (changed: bool)
      modifies this`deleting, this`installing, this`auto, this`related, this`soft
      ensures View() == P.FixGroup(db, old(View()), autoinst, g)
      ensures changed <==> View() != old(View())
    {
      if View().GroupSat(db, g) {
        return false;
      }
      var i := 0;
      while i < |g.alts|
        invariant 0 <= i <= |g.alts|
        invariant View() == old(View())
        invariant P.FirstSoft(db, View(), g.kind, g.alts[i..]) == P.FirstSoft(db, View(), g.kind, g.alts)
      {
        if !View().AltSat(db, g.kind, g.alts[i]) && P.SoftlyDeleted(View(), g.alts[i].target) {
          CacheResetPackage(g.alts[i].target);
          return true;
        }
        i := i + 1;
      }
      return false;
    }

    method FixPackage(p: Pkg) returns (changed: bool)
      modifies this`deleting, this`installing, this`auto, this`related, this`soft
      ensures View() == P.FixPackage(db, old(View()), autoinst, p)
      ensures changed <==> View() != old(View())
    {
      changed := false;
      if View().InstBroken(db, p) {
        var gs := db.Groups(View().InstVer(db, p).value);
        var i := 0;
        while i < |gs|
          invariant 0 <= i <= |gs|
          invariant P.FixGroups(db, View(), autoinst, gs[i..]) == P.FixGroups(db, old(View()), autoinst, gs)
          invariant if changed then P.SoftDel(View()) < P.SoftDel(old(View())) else View() == old(View())
        {
          var c := FixGroup(gs[i]);
          changed := changed || c;
          i := i + 1;
        }
      }
    }

    method FixSoftPackages()
      modifies this`deleting, this`installing, this`auto, this`related, this`soft
      ensures View() == P.FixSoft(db, old(View()), autoinst)
    {
      var somethingChanged := true;
      while somethingChanged
        invariant if somethingChanged then P.FixSoft(db, View(), autoinst) == P.FixSoft(db, old(View()), autoinst)
                  else View() == P.FixSoft(db, old(View()), autoinst)
        decreases P.SoftDel(View()), somethingChanged
      {
        ghost var start := View();
        somethingChanged := false;
        var i := 0;
        while i < |db.packages|
          invariant 0 <= i <= |db.packages|
          invariant P.FixPass(db, View(), autoinst, db.packages[i..]) == P.FixPass(db, start, autoinst, db.packages)
          invariant if somethingChanged then P.SoftDel(View()) < P.SoftDel(start) else View() == start
        {
          var c := FixPackage(db.packages[i]);
          somethingChanged := somethingChanged || c;
          i := i + 1;
        }
      }
    }

    // ---- Installation

    method RemoveConflicting(p: Pkg, vs: seq<Ver>)
      requires db.Valid() && forall v :: v in vs ==> v.package in db.packages
      modifies this`deleting, this`installing, this`auto, this`soft
      ensures View() == P.RemoveConflicting(db, old(View()), p, vs)
    {
      var i := 0;
      while i < |vs|
        invariant 0 <= i <= |vs|
        invariant P.RemoveConflicting(db, View(), p, vs[i..]) == P.RemoveConflicting(db, old(View()), p, vs)
      {
        var target := vs[i].package;
        if !vs[i].user && P.PackageReplaces(db, View(), p, target) {
          MarkForRemove1(target, true);
        }
        i := i + 1;
      }
    }

    method MarkForInstall1(p: Pkg, level: nat)
      requires db.Valid()
      modifies this
      ensures View() == P.Install1(db, old(View()), p, level) && currentOperation == old(currentOperation)
      decreases P.MAX_LEVEL + 1 - level, 0
    {
      hide Plan.InstBroken, P.MarkInstall, P.MarkRelated, P.InstallGroup;
      if level > P.MAX_LEVEL {
        return;
      }
      if p in db.candidate {
        MarkRelated(db.candidate[p]);
      }
      if p in installing && !View().InstBroken(db, p) {
        return;
      }
      MarkInstall(p);
      if p in deleting {
        return;
      }
      var v := View().InstVer(db, p);
      if v.None? {
        return;
      }
      var gs := db.Groups(v.value);
      ghost var s2 := View();
      var i := 0;
      while i < |gs|
        invariant 0 <= i <= |gs|
        invariant P.InstallGroups(db, View(), p, gs[i..], level) == P.InstallGroups(db, s2, p, gs, level)
        invariant currentOperation == old(currentOperation)
      {
        assert gs[i] in gs;
        InstallGroup(p, gs[i], level);
        i := i + 1;
      }
    }

    method InstallGroup(p: Pkg, g: Group, level: nat)
      requires db.Valid() && level <= P.MAX_LEVEL && db.ValidGroup(g)
      modifies this
      ensures View() == P.InstallGroup(db, old(View()), p, g, level) && currentOperation == old(currentOperation)
      decreases P.MAX_LEVEL - level, 1
    {
      hide Plan.GroupSat, P.PickPackage, P.Install1, P.RemoveConflicting;
      if View().GroupSat(db, g) || !db.Important(g.kind) || (p in db.current && !Critical(g.kind)) {
        return;
      }
      var a := P.ChooseAlt(db, g.kind, g.alts);
      assert db.ValidAlt(a);
      if CandidateSat(db, g.kind, a) {
        match P.PickPackage(db, a) {
          case None =>
          case Some(q) =>
            MarkForInstall1(q, level + 1);
            if a.target !in db.current {
              auto := auto + {q};
            }
        }
      } else if g.kind.Conflicts? || g.kind.Obsoletes? {
        RemoveConflicting(p, a.Versions());
      }
    }

    method MarkSysUpgrades()
      requires db.Valid()
      modifies this
      ensures View() == P.PlanUpgrade(db, autoinst, old(View())) && currentOperation == old(currentOperation)
    {
      var i := 0;
      while i < |db.packages|
        invariant 0 <= i <= |db.packages|
        invariant P.InstallUpgrades(db, View(), db.packages[i..]) == P.InstallUpgrades(db, old(View()), db.packages)
        invariant currentOperation == old(currentOperation)
      {
        var p := db.packages[i];
        if p in db.current && !db.current[p].user && p !in deleting && p !in installing {
          MarkForInstall1(p, 0);
        }
        i := i + 1;
      }
      FixSoftPackages();
    }

    // ---- Operations

    /** Whether the fields hold what the recorded operation alone makes of a reset cache. */
    ghost predicate Agrees()
      requires db.Valid()
      reads this
    {
      autoinst <= db.All() && M.Agrees(db, autoinst, Memo())
    }

    /** The answer tells whether the package was found, except that a repeated request
        is always answered yes. */
    method MarkNamedPackageForInstall(name: string) returns (found: bool)
      requires db.Valid()
      modifies this
      ensures Memo() == M.Simulate(db, autoinst, old(Memo()), P.Operation(name, true))
      ensures found == (old(currentOperation) == Some(P.Operation(name, true)) || name == P.MAGIC_SYS || name in db.byName)
      ensures old(Agrees()) ==> Agrees() && currentOperation == Some(P.Operation(name, true))
      ensures old(Agrees()) && name != P.MAGIC_SYS && name in db.byName && S.BenignNeeds(db, db.byName[name]) ==>
                S.InstallationDone(db, db.byName[name], View())
      ensures old(Agrees()) && name == P.MAGIC_SYS && U.BenignSystem(db) ==> S.UpgradeDone(db, View())
      ensures old(Agrees()) && name != P.MAGIC_SYS && name !in db.byName ==> View() == ResetPlan(autoinst)
    {
      hide P.Install1, P.FixSoft, P.InstallUpgrades, M.ResetAll, S.InstallationDone, S.UpgradeDone;
      if old(Agrees()) {
        S.SimulatedByName(db, autoinst, old(Memo()), name);
      }
      var same := CheckCacheState(P.Operation(name, true));
      if same {
        return true;
      }
      if name == P.MAGIC_SYS {
        MarkSysUpgrades();
        return true;
      } else if name in db.byName {
        MarkForInstall1(db.byName[name], 0);
        FixSoftPackages();
        return true;
      }
      return false;
    }

    method MarkForRemove(p: Pkg)
      requires db.Valid() && p in db.packages
      modifies this
      ensures Memo() == M.Simulate(db, autoinst, old(Memo()), P.Operation(db.name[p], false))
      ensures old(Agrees()) ==> Agrees() && S.RemovalDone(db, autoinst, p, View())
      ensures old(Agrees()) ==> forall system :: S.RemovalReported(db, autoinst, p, View(), system)
    {
      hide P.Remove1, P.FixSoft, M.ResetAll, S.RemovalDone, S.RemovalReported;
      if old(Agrees()) {
        S.SimulatedRemovals(db, autoinst, old(Memo()), p);
      }
      var same := CheckCacheState(P.Operation(db.name[p], false));
      if !same {
        MarkForRemove1(p, false);
        FixSoftPackages();
      }
    }
  }
}
