/** Planning an installation: nothing is removed by surprise. */
module InstallProofs {
  import opened Wrappers
  import opened PackageDb
  import opened Planner
  import opened RemovalProofs
  import opened SoftProofs

  ghost predicate InBounds(db: Db, s: Plan) {
    s.ins <= db.All() && s.auto <= db.All() && s.related <= db.All() && s.soft <= db.All()
  }

  // ---- Why a package may go

  /** The version `u` conflicts, through a version outside the user sections, with the
      package `t`, and it replaces `t`. */
  ghost predicate Displaces(db: Db, u: Ver, t: Pkg) {
    && (exists g, a, w ::
          g in db.Groups(u) && (g.kind.Conflicts? || g.kind.Obsoletes?)
          && a in g.alts && w in a.Versions() && w.package == t && !w.user)
    && (exists g, a, w :: g in db.Groups(u) && g.kind.Replaces? && a in g.alts && w in a.Versions() && w.package == t)
  }

  /** An installed package that the version some package ends up with displaces. */
  ghost predicate Displaced(db: Db, t: Pkg) {
    db.Installed(t) && exists p :: Preferred(db, p).Some? && Displaces(db, Preferred(db, p).value, t)
  }

  ghost predicate Drags(db: Db, a: Pkg, b: Pkg) {
    b in HardTargets(db, a) && db.Installed(b) && !db.UserPackage(b)
  }

  /** `b` is reached from `a` in `n` hard dependencies on installed packages outside the
      user sections. */
  ghost predicate DraggedBy(db: Db, a: Pkg, b: Pkg, n: nat)
    decreases n
  {
    if n == 0 then a == b
    else exists m {:trigger Drags(db, a, m)} :: Drags(db, a, m) && DraggedBy(db, m, b, n - 1)
  }

  /** The only reasons for deleting a package: it is displaced, or it is dragged along by
      a package that is. */
  ghost predicate Expected(db: Db, p: Pkg) {
    exists t, n: nat :: Displaced(db, t) && DraggedBy(db, t, p, n)
  }

  /** What holds of every state while an installation is planned. */
  ghost predicate NoSurprise(db: Db, s: Plan) {
    s.Valid(db) && InBounds(db, s) && s.del <= s.soft && s.ins <= s.related && forall p :: p in s.del ==> Expected(db, p)
  }

  lemma {:induction false} ReachDrags(db: Db, s: Plan, a: Pkg, b: Pkg, n: nat)
    requires Reach(db, s, a, b, n)
    ensures DraggedBy(db, a, b, n)
    decreases n
  {
    if n > 0 {
      var m :| Edge(db, s, a, m) && Reach(db, s, m, b, n - 1);
      ReachDrags(db, s, m, b, n - 1);
      assert Drags(db, a, m);
    }
  }

  /** What is dragged along is outside the user sections. */
  lemma {:induction false} DraggedIsNoUserPackage(db: Db, a: Pkg, b: Pkg, n: nat)
    requires DraggedBy(db, a, b, n) && a != b
    ensures !db.UserPackage(b)
    decreases n
  {
    hide HardTargets;
    var m :| Drags(db, a, m) && DraggedBy(db, m, b, n - 1);
    if m != b {
      DraggedIsNoUserPackage(db, m, b, n - 1);
    }
  }

  // ---- A version once chosen stays

  /** A package that could change its version has been selected or deleted. */
  ghost predicate Decided(db: Db, s: Plan, p: Pkg) {
    p in db.current && p in db.candidate && db.Candidate(p) != db.Current(p) ==> p in s.ins || p in s.del
  }

  ghost predicate Onward(db: Db, s: Plan, s': Plan) {
    forall p {:trigger Decided(db, s', p)} :: Decided(db, s, p) ==> Decided(db, s', p)
  }

  lemma DecidedVersion(db: Db, s: Plan, p: Pkg)
    requires s.Valid(db) && Decided(db, s, p) && s.InstVer(db, p).Some?
    ensures s.InstVer(db, p) == Preferred(db, p)
  {
  }

  lemma RemoveNoSurprise(db: Db, s: Plan, p: Pkg)
    requires db.Valid() && NoSurprise(db, s) && p in db.packages
    requires db.Installed(p) ==> Displaced(db, p)
    ensures NoSurprise(db, Remove1(db, s, p, true)) && Onward(db, s, Remove1(db, s, p, true))
  {
    hide GroupTargets, Expected, Displaced;
    var s' := Remove1(db, s, p, true);
    if p !in s.del && db.Installed(p) {
      RemoveEffect(db, s, p, true);
      forall q | q in Gone(s, s')
        ensures Expected(db, q)
      {
        RemoveReaches(db, s, p, true, q);
        var n: nat :| Reach(db, s, p, q, n);
        ReachedExpected(db, s, p, q, n);
      }
    } else if p !in s.del {
      RemoveNotInstalled(db, s, p, true);
    }
  }

  lemma ReachedExpected(db: Db, s: Plan, p: Pkg, q: Pkg, n: nat)
    requires Displaced(db, p) && Reach(db, s, p, q, n)
    ensures Expected(db, q)
  {
    ReachDrags(db, s, p, q, n);
  }

  lemma ReplacedTarget(db: Db, s: Plan, p: Pkg, w: Ver, g: Group, a: Alt)
    requires s.Valid(db) && Decided(db, s, p) && PackageReplaces(db, s, p, w.package)
    requires Preferred(db, p).Some? && g in db.Groups(Preferred(db, p).value)
    requires (g.kind.Conflicts? || g.kind.Obsoletes?) && a in g.alts && w in a.Versions() && !w.user
    ensures db.Installed(w.package) ==> Displaced(db, w.package)
  {
    DecidedVersion(db, s, p);
    var u := Preferred(db, p).value;
    var h, b, x :| h in db.Groups(u) && h.kind.Replaces? && b in h.alts && x in b.Versions() && x.package == w.package;
    assert Displaces(db, u, w.package);
  }

  lemma {:induction false} RemoveConflictingNoSurprise(db: Db, s: Plan, p: Pkg, vs: seq<Ver>, g: Group, a: Alt)
    requires db.Valid() && NoSurprise(db, s) && Decided(db, s, p)
    requires Preferred(db, p).Some? && g in db.Groups(Preferred(db, p).value)
    requires (g.kind.Conflicts? || g.kind.Obsoletes?) && a in g.alts
    requires forall w :: w in vs ==> w in a.Versions() && w.package in db.packages
    ensures NoSurprise(db, RemoveConflicting(db, s, p, vs)) && Onward(db, s, RemoveConflicting(db, s, p, vs))
    decreases |vs|
  {
    hide Expected, Displaced, PackageReplaces, Decided, Preferred;
    if vs != [] {
      var w := vs[0];
      assert w in vs;
      var s1 := if !w.user && PackageReplaces(db, s, p, w.package) then Remove1(db, s, w.package, true) else s;
      if !w.user && PackageReplaces(db, s, p, w.package) {
        ReplacedTarget(db, s, p, w, g, a);
        RemoveNoSurprise(db, s, w.package);
      }
      assert Decided(db, s1, p);
      RemoveConflictingNoSurprise(db, s1, p, vs[1..], g, a);
    }
  }

  lemma MarkInstallNoSurprise(db: Db, s: Plan, p: Pkg)
    requires db.Valid() && NoSurprise(db, s) && (p in db.candidate ==> p in s.related)
    ensures NoSurprise(db, MarkInstall(db, s, p)) && Onward(db, s, MarkInstall(db, s, p))
    ensures MarkInstall(db, s, p).InstVer(db, p).Some? ==> Decided(db, MarkInstall(db, s, p), p)
  {
    hide Expected, Plan.InstBroken, Plan.PolicyBroken;
  }

  ghost predicate RelatedInBounds(db: Db, s: Plan) {
    s.related <= db.All()
  }

  lemma {:induction false} MarkRelatedInBounds(db: Db, s: Plan, v: Ver)
    requires db.Valid() && v.package in db.packages && RelatedInBounds(db, s)
    ensures RelatedInBounds(db, MarkRelated(db, s, v))
    decreases db.All() - s.related, 0
  {
    hide GroupTargets;
    if v.package !in s.related {
      var s1 := s.(related := s.related + {v.package});
      assert v.package in db.All() - s.related && v.package !in db.All() - s1.related;
      if db.unsettled != {} {
        RelateTargetsInBounds(db, s1, GroupTargets(db.Groups(v), false));
      }
    }
  }

  lemma {:induction false} RelateTargetsInBounds(db: Db, s: Plan, ts: seq<Pkg>)
    requires db.Valid() && RelatedInBounds(db, s)
    ensures RelatedInBounds(db, RelateTargets(db, s, ts))
    decreases db.All() - s.related, |ts|
  {
    hide GroupTargets;
    if ts != [] {
      var s1 := match db.Current(ts[0]) case Some(w) => MarkRelated(db, s, w) case None => s;
      if ts[0] in db.current {
        MarkRelatedInBounds(db, s, db.current[ts[0]]);
      }
      RelateTargetsInBounds(db, s1, ts[1..]);
    }
  }

  lemma MarkRelatedNoSurprise(db: Db, s: Plan, v: Ver)
    requires db.Valid() && v.package in db.packages && NoSurprise(db, s)
    ensures NoSurprise(db, MarkRelated(db, s, v)) && v.package in MarkRelated(db, s, v).related
    ensures Onward(db, s, MarkRelated(db, s, v))
  {
    hide GroupTargets, Expected;
    MarkRelatedInBounds(db, s, v);
  }

  lemma PickInBounds(db: Db, a: Alt)
    requires db.Valid() && db.ValidAlt(a)
    ensures PickPackage(db, a).Some? ==> PickPackage(db, a).value in db.packages
  {
  }

  lemma {:induction false} InstallNoSurprise(db: Db, s: Plan, p: Pkg, level: nat)
    requires db.Valid() && NoSurprise(db, s)
    ensures NoSurprise(db, Install1(db, s, p, level)) && Onward(db, s, Install1(db, s, p, level))
    decreases MAX_LEVEL + 1 - level, 0
  {
    hide NoSurprise, MarkRelated, MarkInstall, Plan.InstBroken, Decided;
    if level <= MAX_LEVEL {
      var s1 := match db.Candidate(p) case Some(c) => MarkRelated(db, s, c) case None => s;
      if p in db.candidate {
        MarkRelatedNoSurprise(db, s, db.candidate[p]);
      }
      var s2 := MarkInstall(db, s1, p);
      MarkInstallNoSurprise(db, s1, p);
      if s2.InstVer(db, p).Some? {
        SurpriseFreeIsValid(db, s2);
        DecidedVersion(db, s2, p);
        InstallGroupsNoSurprise(db, s2, p, db.Groups(s2.InstVer(db, p).value), level);
      }
    }
  }

  lemma SurpriseFreeIsValid(db: Db, s: Plan)
    requires NoSurprise(db, s)
    ensures s.Valid(db)
  {
  }

  lemma {:induction false} InstallGroupsNoSurprise(db: Db, s: Plan, p: Pkg, gs: seq<Group>, level: nat)
    requires db.Valid() && NoSurprise(db, s) && level <= MAX_LEVEL && db.ValidGroups(gs) && Decided(db, s, p)
    requires Preferred(db, p).Some? && forall g :: g in gs ==> g in db.Groups(Preferred(db, p).value)
    ensures NoSurprise(db, InstallGroups(db, s, p, gs, level)) && Onward(db, s, InstallGroups(db, s, p, gs, level))
    decreases MAX_LEVEL - level, 2, |gs|
  {
    hide NoSurprise, Decided, Preferred;
    if gs != [] {
      assert gs[0] in gs;
      var s1 := InstallGroup(db, s, p, gs[0], level);
      InstallGroupNoSurprise(db, s, p, gs[0], level);
      assert Decided(db, s1, p);
      InstallGroupsNoSurprise(db, s1, p, gs[1..], level);
    }
  }

  lemma AutoNoSurprise(db: Db, s: Plan, q: Pkg)
    requires NoSurprise(db, s) && q in db.packages
    ensures NoSurprise(db, s.(auto := s.auto + {q})) && Onward(db, s, s.(auto := s.auto + {q}))
  {
    hide Expected;
  }

  lemma {:induction false} InstallGroupNoSurprise(db: Db, s: Plan, p: Pkg, g: Group, level: nat)
    requires db.Valid() && NoSurprise(db, s) && level <= MAX_LEVEL && db.ValidGroup(g) && Decided(db, s, p)
    requires Preferred(db, p).Some? && g in db.Groups(Preferred(db, p).value)
    ensures NoSurprise(db, InstallGroup(db, s, p, g, level)) && Onward(db, s, InstallGroup(db, s, p, g, level))
    decreases MAX_LEVEL - level, 1
  {
    hide NoSurprise, Plan.GroupSat, CandidateSat, PickPackage, Decided, Preferred;
    var a := ChooseAlt(db, g.kind, g.alts);
    assert db.ValidAlt(a);
    PickInBounds(db, a);
    if PickPackage(db, a).Some? {
      var q := PickPackage(db, a).value;
      InstallNoSurprise(db, s, q, level + 1);
      AutoNoSurprise(db, Install1(db, s, q, level + 1), q);
    }
    if g.kind.Conflicts? || g.kind.Obsoletes? {
      RemoveConflictingNoSurprise(db, s, p, a.Versions(), g, a);
    }
  }

  lemma {:induction false} UpgradesNoSurprise(db: Db, s: Plan, ps: seq<Pkg>)
    requires db.Valid() && NoSurprise(db, s)
    ensures NoSurprise(db, InstallUpgrades(db, s, ps))
    decreases |ps|
  {
    hide NoSurprise;
    if ps != [] {
      var p := ps[0];
      var s1 :=
        if p in db.current && !db.current[p].user && p !in s.del && p !in s.ins
        then Install1(db, s, p, 0) else s;
      InstallNoSurprise(db, s, p, 0);
      UpgradesNoSurprise(db, s1, ps[1..]);
    }
  }

  lemma FixNoSurprise(db: Db, s: Plan, autoinst: set<Pkg>)
    requires NoSurprise(db, s) && autoinst <= db.All()
    ensures NoSurprise(db, FixSoft(db, s, autoinst)) && Settled(db, FixSoft(db, s, autoinst))
  {
    hide FixSoft, Expected;
    FixSoftSettles(db, s, autoinst);
  }

  /** A broken package never names a deleted package in an unsatisfied group. */
  ghost predicate NamesNothingDeleted(db: Db, s: Plan) {
    forall p :: p in db.packages && s.InstBroken(db, p) ==>
      forall g :: g in db.Groups(s.InstVer(db, p).value) && !s.GroupSat(db, g) ==>
        forall a :: a in g.alts ==> a.target !in s.del
  }

  lemma SettledNamesNothing(db: Db, s: Plan)
    requires Settled(db, s) && s.del <= s.soft
    ensures NamesNothingDeleted(db, s)
  {
    hide Plan.GroupSat;
    forall p | p in db.packages && s.InstBroken(db, p)
      ensures forall g :: g in db.Groups(s.InstVer(db, p).value) && !s.GroupSat(db, g) ==>
        forall a :: a in g.alts ==> a.target !in s.del
    {
      assert SettledGroups(db, s, db.Groups(s.InstVer(db, p).value));
    }
  }

  /** Installing a package, or all upgrades, from a reset state removes only packages that
      are displaced or dragged along by displaced ones, softly, and none that a broken
      package names. */
  lemma NoSurpriseInstall(db: Db, autoinst: set<Pkg>, op: Operation)
    requires db.Valid() && autoinst <= db.All() && op.install
    ensures var s := Perform(db, autoinst, ResetPlan(autoinst), op); NoSurprise(db, s) && NamesNothingDeleted(db, s)
  {
    hide Expected, FixSoft, NamesNothingDeleted, Settled;
    var s0 := ResetPlan(autoinst);
    var s := Perform(db, autoinst, s0, op);
    if op.package == MAGIC_SYS {
      UpgradesNoSurprise(db, s0, db.packages);
      FixNoSurprise(db, InstallUpgrades(db, s0, db.packages), autoinst);
      SettledNamesNothing(db, s);
    } else if op.package in db.byName {
      var p := db.byName[op.package];
      InstallNoSurprise(db, s0, p, 0);
      FixNoSurprise(db, Install1(db, s0, p, 0), autoinst);
      SettledNamesNothing(db, s);
    } else {
      NothingDeletedNothingNamed(db, s0);
    }
  }

  lemma NothingDeletedNothingNamed(db: Db, s: Plan)
    requires s.del == {}
    ensures NamesNothingDeleted(db, s)
  {
  }

  // ---- User packages

  /** No version that some package ends up with both replaces an installed user package and
      conflicts with it through a version outside the user sections. */
  ghost predicate SectionsAgree(db: Db) {
    forall p :: db.UserPackage(p) ==> !Displaced(db, p)
  }

  lemma ExpectedUserPackage(db: Db, p: Pkg)
    requires Expected(db, p) && db.UserPackage(p)
    ensures Displaced(db, p)
  {
    var t, n: nat :| Displaced(db, t) && DraggedBy(db, t, p, n);
    if t != p {
      DraggedIsNoUserPackage(db, t, p, n);
    }
  }

  /** An installation removes an installed user package only if it is displaced; so it
      removes none if the sections agree. */
  lemma UserPackagesStay(db: Db, autoinst: set<Pkg>, op: Operation)
    requires db.Valid() && autoinst <= db.All() && op.install
    ensures forall q :: q in Perform(db, autoinst, ResetPlan(autoinst), op).del && db.UserPackage(q) ==> Displaced(db, q)
    ensures SectionsAgree(db) ==>
              forall q :: q in Perform(db, autoinst, ResetPlan(autoinst), op).del ==> !db.UserPackage(q)
  {
    hide Perform, Expected, Displaced;
    NoSurpriseInstall(db, autoinst, op);
    forall q | q in Perform(db, autoinst, ResetPlan(autoinst), op).del && db.UserPackage(q)
      ensures Displaced(db, q)
    {
      ExpectedUserPackage(db, q);
    }
  }

  lemma UserPackageRemoved(db: Db, s: Plan, q: Pkg, t: Pkg)
    requires db.Valid() && s.Valid(db) && q in db.packages && db.UserPackage(t) && t !in s.del
    ensures t in Remove1(db, s, q, true).del <==> q == t
    ensures Remove1(db, s, q, true).Valid(db)
  {
    hide GroupTargets;
    if db.Installed(q) {
      if q !in s.del {
        RemoveEffect(db, s, q, true);
        if t in Gone(s, Remove1(db, s, q, true)) {
          RemoveReaches(db, s, q, true, t);
        }
      }
    } else {
      RemoveNotInstalled(db, s, q, true);
    }
  }

  /** What the guard asks of a version, with `p` installing. */
  predicate Fires(db: Db, s: Plan, p: Pkg, v: Ver) {
    !v.user && PackageReplaces(db, s, p, v.package)
  }

  /** Removing the package of `v` takes the installing package along, or is its removal. */
  ghost predicate TakesAlong(db: Db, s: Plan, p: Pkg, v: Ver) {
    Fires(db, s, p, v) && v.package !in s.del && Reachable(db, s, v.package, p)
  }

  /** The version `vs[k]` is one of `t` outside the user sections, and the installing
      package replaces `t` and is still there when `vs[k]` comes up. */
  ghost predicate RemovedAt(db: Db, s: Plan, p: Pkg, vs: seq<Ver>, k: nat, t: Pkg)
    requires k < |vs|
  {
    vs[k].package == t && Fires(db, s, p, vs[k]) && forall j :: 0 <= j < k ==> !TakesAlong(db, s, p, vs[j])
  }

  lemma NoTargetsNoReach(db: Db, s: Plan, q: Pkg, p: Pkg)
    requires !db.Installed(q)
    ensures Reachable(db, s, q, p) <==> q == p
  {
    assert HardTargets(db, q) == [];
    assert forall m :: !Edge(db, s, q, m);
    assert Reach(db, s, q, q, 0);
  }

  /** What a removal leaves of the installing package. */
  lemma InstallerLeft(db: Db, s: Plan, q: Pkg, p: Pkg)
    requires db.Valid() && s.Valid(db) && q in db.packages && q !in s.del && p !in s.del
    ensures var s1 := Remove1(db, s, q, true);
            if Reachable(db, s, q, p) then s1.InstVer(db, p).None?
            else p !in s1.del && s1.InstVer(db, p) == s.InstVer(db, p)
  {
    hide GroupTargets, Remove1, Reachable;
    if db.Installed(q) {
      RemoveEffect(db, s, q, true);
      RemoveIsReachability(db, s, q, true, p);
    } else {
      RemoveNotInstalled(db, s, q, true);
      NoTargetsNoReach(db, s, q, p);
    }
  }

  /** A path to a package that is left is left. */
  lemma {:induction false} ReachLater(db: Db, s: Plan, s1: Plan, a: Pkg, b: Pkg, n: nat)
    requires Closed(db, s, s1) && a !in s1.del && b !in s1.del && Reach(db, s, a, b, n)
    requires forall x, y {:trigger Edge(db, s, x, y)} :: Edge(db, s, x, y) && y !in s1.del ==> Edge(db, s1, x, y)
    ensures Reach(db, s1, a, b, n)
    decreases n
  {
    hide Edge, Closed;
    if n > 0 {
      var m :| Edge(db, s, a, m) && Reach(db, s, m, b, n - 1);
      if m in s1.del {
        EdgeIsNew(db, s, a, m);
        ReachDeleted(db, s, s1, m, b, n - 1);
        assert false;
      }
      ReachLater(db, s, s1, m, b, n - 1);
      assert Edge(db, s1, a, m);
    }
  }

  lemma EdgeIsNew(db: Db, s: Plan, a: Pkg, m: Pkg)
    requires Edge(db, s, a, m)
    ensures m !in s.del
  {
  }

  /** What a removal does to the edges. */
  lemma EdgesLeft(db: Db, s: Plan, q: Pkg)
    requires db.Valid() && s.Valid(db) && q in db.packages && q !in s.del
    ensures var s1 := Remove1(db, s, q, true);
            && s.del <= s1.del && s1.auto <= s.auto && Closed(db, s, s1)
            && forall x, y {:trigger Edge(db, s, x, y)} :: Edge(db, s, x, y) && y !in s1.del ==> Edge(db, s1, x, y)
  {
    hide GroupTargets, Remove1;
    if db.Installed(q) {
      RemoveEffect(db, s, q, true);
      RemoveClosed(db, s, q, true);
    } else {
      RemoveNotInstalled(db, s, q, true);
    }
  }

  /** A removal that leaves the installing package leaves open which others would take it
      along. */
  lemma TakesAlongLater(db: Db, s: Plan, q: Pkg, p: Pkg, v: Ver)
    requires db.Valid() && s.Valid(db) && q in db.packages && q !in s.del && p !in s.del && !Reachable(db, s, q, p)
    ensures var s1 := Remove1(db, s, q, true);
            Fires(db, s, p, v) == Fires(db, s1, p, v) && TakesAlong(db, s, p, v) == TakesAlong(db, s1, p, v)
  {
    hide Remove1, Edge, Closed;
    var s1 := Remove1(db, s, q, true);
    InstallerLeft(db, s, q, p);
    EdgesLeft(db, s, q);
    if n: nat :| Reach(db, s1, v.package, p, n) {
      ReachEarlier(db, s, s1, v.package, p, n);
    }
    if v.package !in s.del {
      if n: nat :| Reach(db, s, v.package, p, n) {
        if v.package in s1.del {
          ReachDeleted(db, s, s1, v.package, p, n);
          assert false;
        }
        ReachLater(db, s, s1, v.package, p, n);
      }
    }
  }

  lemma {:induction false} RemovalsStay(db: Db, s: Plan, p: Pkg, vs: seq<Ver>, t: Pkg)
    requires db.Valid() && t in s.del && forall v :: v in vs ==> v.package in db.packages
    ensures t in RemoveConflicting(db, s, p, vs).del
    decreases |vs|
  {
    hide PackageReplaces;
    if vs != [] {
      assert vs[0] in vs;
      var s1 := if !vs[0].user && PackageReplaces(db, s, p, vs[0].package) then Remove1(db, s, vs[0].package, true) else s;
      RemovalsStay(db, s1, p, vs[1..], t);
    }
  }

  /** Without the installing package nothing more is removed. */
  lemma {:induction false} NothingReplaced(db: Db, s: Plan, p: Pkg, vs: seq<Ver>)
    requires db.Valid() && s.InstVer(db, p).None? && forall v :: v in vs ==> v.package in db.packages
    ensures RemoveConflicting(db, s, p, vs) == s
    decreases |vs|
  {
    if vs != [] {
      NothingReplaced(db, s, p, vs[1..]);
    }
  }

  /** When the first version neither removes `t` nor takes the installing package along, the
      rest decides. */
  lemma RestDecides(db: Db, s: Plan, s1: Plan, p: Pkg, vs: seq<Ver>, t: Pkg)
    requires vs != [] && !TakesAlong(db, s, p, vs[0]) && !(Fires(db, s, p, vs[0]) && vs[0].package == t)
    requires forall v :: v in vs ==> Fires(db, s, p, v) == Fires(db, s1, p, v)
    requires forall v :: v in vs ==> TakesAlong(db, s, p, v) == TakesAlong(db, s1, p, v)
    ensures (exists k :: 0 <= k < |vs| && RemovedAt(db, s, p, vs, k, t)) <==>
            (exists k :: 0 <= k < |vs[1..]| && RemovedAt(db, s1, p, vs[1..], k, t))
  {
    hide Fires, TakesAlong;
    if k :| 0 <= k < |vs| && RemovedAt(db, s, p, vs, k, t) {
      assert RemovedAt(db, s1, p, vs[1..], k - 1, t);
    }
    if k :| 0 <= k < |vs[1..]| && RemovedAt(db, s1, p, vs[1..], k, t) {
      assert vs[k + 1] in vs;
      assert forall j :: 0 < j < k + 1 ==> vs[j] == vs[1..][j - 1];
      assert RemovedAt(db, s, p, vs, k + 1, t);
    }
  }

  function AfterConflict(db: Db, s: Plan, p: Pkg, v: Ver): Plan
    requires db.Valid() && v.package in db.packages
  {
    if Fires(db, s, p, v) then Remove1(db, s, v.package, true) else s
  }

  /** The first of the versions. */
  lemma FirstConflict(db: Db, s: Plan, p: Pkg, v: Ver, t: Pkg)
    requires db.Valid() && s.Valid(db) && v.package in db.packages && db.UserPackage(t) && t !in s.del
    ensures var s1 := AfterConflict(db, s, p, v);
            && s1.Valid(db) && (t in s1.del <==> Fires(db, s, p, v) && v.package == t)
            && (TakesAlong(db, s, p, v) ==> s1.InstVer(db, p).None?)
  {
    hide Remove1, Reachable;
    if Fires(db, s, p, v) {
      UserPackageRemoved(db, s, v.package, t);
      if v.package !in s.del {
        InstallerLeft(db, s, v.package, p);
      }
    }
  }

  lemma LaterConflicts(db: Db, s: Plan, p: Pkg, v: Ver, w: Ver)
    requires db.Valid() && s.Valid(db) && v.package in db.packages && !TakesAlong(db, s, p, v)
    ensures var s1 := AfterConflict(db, s, p, v);
            Fires(db, s, p, w) == Fires(db, s1, p, w) && TakesAlong(db, s, p, w) == TakesAlong(db, s1, p, w)
  {
    hide Reachable;
    if Fires(db, s, p, v) && v.package !in s.del {
      hide Remove1;
      TakesAlongLater(db, s, v.package, p, w);
    }
  }

  lemma RemovedAtOnce(db: Db, s: Plan, p: Pkg, vs: seq<Ver>, t: Pkg)
    requires vs != [] && Fires(db, s, p, vs[0]) && vs[0].package == t
    ensures RemovedAt(db, s, p, vs, 0, t)
  {
  }

  lemma NeverRemoved(db: Db, s: Plan, p: Pkg, vs: seq<Ver>, t: Pkg)
    requires vs != [] && TakesAlong(db, s, p, vs[0]) && !(Fires(db, s, p, vs[0]) && vs[0].package == t)
    ensures forall k :: 0 <= k < |vs| ==> !RemovedAt(db, s, p, vs, k, t)
  {
    hide Fires, TakesAlong;
  }

  /** Decided before the call: removing what conflicts deletes an installed user package
      exactly if the installing package replaces it and one of its versions outside the user
      sections comes up before the installing package itself is taken along. */
  lemma {:induction false} UserPackageDisplaced(db: Db, s: Plan, p: Pkg, vs: seq<Ver>, t: Pkg)
    requires db.Valid() && s.Valid(db) && db.UserPackage(t) && t !in s.del
    requires forall v :: v in vs ==> v.package in db.packages
    ensures t in RemoveConflicting(db, s, p, vs).del <==> exists k :: 0 <= k < |vs| && RemovedAt(db, s, p, vs, k, t)
    decreases |vs|
  {
    if vs != [] {
      assert vs[0] in vs;
      var s1 := AfterConflict(db, s, p, vs[0]);
      FirstConflict(db, s, p, vs[0], t);
      assert RemoveConflicting(db, s, p, vs) == RemoveConflicting(db, s1, p, vs[1..]);
      hide Fires, TakesAlong, AfterConflict, PackageReplaces, Remove1, RemovedAt, RemoveConflicting;
      if t in s1.del {
        RemovalsStay(db, s1, p, vs[1..], t);
        RemovedAtOnce(db, s, p, vs, t);
      } else if TakesAlong(db, s, p, vs[0]) {
        NothingReplaced(db, s1, p, vs[1..]);
        NeverRemoved(db, s, p, vs, t);
      } else {
        UserPackageDisplaced(db, s1, p, vs[1..], t);
        forall v | v in vs
          ensures Fires(db, s, p, v) == Fires(db, s1, p, v) && TakesAlong(db, s, p, v) == TakesAlong(db, s1, p, v)
        {
          LaterConflicts(db, s, p, vs[0], v);
        }
        RestDecides(db, s, s1, p, vs, t);
      }
    }
  }

  /** If the installing package has been asked for, its auto flag cleared, and conflicts with
      no version of its own, it stays, and only `t` matters. */
  lemma UserPackageDisplacedBy(db: Db, s: Plan, p: Pkg, vs: seq<Ver>, t: Pkg)
    requires db.Valid() && s.Valid(db) && db.UserPackage(t) && t !in s.del
    requires p !in s.auto && forall v :: v in vs ==> v.package in db.packages && v.package != p
    ensures t in RemoveConflicting(db, s, p, vs).del <==>
            PackageReplaces(db, s, p, t) && exists v :: v in vs && v.package == t && !v.user
  {
    hide RemoveConflicting, PackageReplaces;
    UserPackageDisplaced(db, s, p, vs, t);
    forall v | v in vs
      ensures !TakesAlong(db, s, p, v)
    {
      if n: nat :| Reach(db, s, v.package, p, n) {
        ReachesRemovable(db, s, v.package, p, n);
      }
    }
    if v :| v in vs && v.package == t && !v.user && PackageReplaces(db, s, p, t) {
      var k :| 0 <= k < |vs| && vs[k] == v;
      assert RemovedAt(db, s, p, vs, k, t);
    }
  }

  lemma {:induction false} ReachesRemovable(db: Db, s: Plan, a: Pkg, b: Pkg, n: nat)
    requires Reach(db, s, a, b, n)
    ensures a == b || Removable(db, s, b)
    decreases n
  {
    hide GroupTargets;
    if n > 0 {
      var m :| Edge(db, s, a, m) && Reach(db, s, m, b, n - 1);
      ReachesRemovable(db, s, m, b, n - 1);
    }
  }

  /** An unsatisfied negative group removes what conflicts with its last alternative, but only
      for conflicts and obsoletes, and not if candidates would satisfy the group. */
  lemma GroupRemoves(db: Db, s: Plan, p: Pkg, g: Group, level: nat)
    requires db.Valid() && level <= MAX_LEVEL && db.ValidGroup(g) && Negative(g.kind) && !s.GroupSat(db, g)
    ensures var last := g.alts[|g.alts| - 1];
      && last in g.alts && db.ValidAlt(last)
      && InstallGroup(db, s, p, g, level) ==
         if g.kind.Breaks? || exists a :: a in g.alts && CandidateSat(db, g.kind, a) then s
         else RemoveConflicting(db, s, p, last.Versions())
  {
    hide Plan.GroupSat, RemoveConflicting;
    assert g.alts[|g.alts| - 1] in g.alts;
    LastUnlessSatisfied(db, g.kind, g.alts);
    var a := ChooseAlt(db, g.kind, g.alts);
    if CandidateSat(db, g.kind, a) {
      NoCandidate(db, a.direct);
      NoCandidate(db, a.ranked);
    }
  }

  lemma {:induction false} LastUnlessSatisfied(db: Db, k: DepKind, alts: seq<Alt>)
    requires alts != []
    ensures if exists a :: a in alts && CandidateSat(db, k, a) then CandidateSat(db, k, ChooseAlt(db, k, alts))
            else ChooseAlt(db, k, alts) == alts[|alts| - 1]
  {
    hide CandidateSat;
    if |alts| > 1 && !CandidateSat(db, k, alts[0]) {
      LastUnlessSatisfied(db, k, alts[1..]);
      assert forall a :: a in alts <==> a == alts[0] || a in alts[1..];
    }
    assert alts[0] in alts;
  }

  lemma NoCandidate(db: Db, vs: seq<Ver>)
    requires forall v :: v in vs ==> db.Candidate(v.package) != Some(v)
    ensures FirstCandidate(db, vs).None?
  {
  }

  /** So it removes an installed user package exactly if the guard does. */
  lemma GroupDisplaces(db: Db, s: Plan, p: Pkg, g: Group, level: nat, t: Pkg)
    requires db.Valid() && level <= MAX_LEVEL && db.ValidGroup(g) && Negative(g.kind) && !s.GroupSat(db, g)
    requires s.Valid(db) && db.UserPackage(t) && t !in s.del
    ensures var vs := g.alts[|g.alts| - 1].Versions();
      t in InstallGroup(db, s, p, g, level).del <==>
        && !g.kind.Breaks? && (forall a :: a in g.alts ==> !CandidateSat(db, g.kind, a))
        && exists k :: 0 <= k < |vs| && RemovedAt(db, s, p, vs, k, t)
  {
    hide Plan.GroupSat, RemoveConflicting, RemovedAt, InstallGroup, CandidateSat;
    GroupRemoves(db, s, p, g, level);
    UserPackageDisplaced(db, s, p, g.alts[|g.alts| - 1].Versions(), t);
  }

  // ---- Why the sections must agree

  /** The candidate of package 0 replaces package 1 and conflicts with both its
      installed user version and an older version outside the user sections. */
  function MixedSections(): Db {
    var v0, u1, n1 := Ver(0, 0, true), Ver(1, 1, true), Ver(1, 0, false);
    Db([0, 1], map[1 := u1], map[0 := v0, 1 := u1],
      map[v0 := [Group(Conflicts, [Alt(1, [u1, n1], [], [])]), Group(Replaces, [Alt(1, [n1], [], [])])]],
      map[0 := "a", 1 := "b"], map["a" := 0, "b" := 1], {}, {}, {})
  }

  lemma MixedSectionsValid()
    ensures MixedSections().Valid()
  {
    var db := MixedSections();
    assert db.name[0] == "a" && db.name[1] == "b";
    forall v | v in db.depends
      ensures db.ValidGroups(db.depends[v])
    {
      var gs := db.depends[v];
      assert gs == [gs[0], gs[1]];
      assert db.ValidAlt(gs[0].alts[0]) && db.ValidAlt(gs[1].alts[0]);
    }
  }

  lemma MixedSectionsReplaces(s: Plan)
    requires s.InstVer(MixedSections(), 0) == Some(Ver(0, 0, true))
    ensures PackageReplaces(MixedSections(), s, 0, 1)
  {
    var db, n1 := MixedSections(), Ver(1, 0, false);
    var g := db.depends[Ver(0, 0, true)][1];
    assert g in db.Groups(Ver(0, 0, true)) && n1 in g.alts[0].Versions();
  }

  lemma MixedSectionsRemove()
    requires MixedSections().Valid()
    ensures Remove1(MixedSections(), Plan({}, {0}, {}, {0}, {}), 1, true) == Plan({1}, {0}, {}, {0}, {1})
  {
    assert HardTargets(MixedSections(), 1) == [];
  }

  lemma MixedSectionsUnsatisfied()
    ensures var db := MixedSections(); var g := db.depends[Ver(0, 0, true)][0];
      && g == Group(Conflicts, [Alt(1, [Ver(1, 1, true), Ver(1, 0, false)], [], [])])
      && !Plan({}, {0}, {}, {0}, {}).GroupSat(db, g) && !CandidateSat(db, Conflicts, g.alts[0])
  {
    var db, s, u1 := MixedSections(), Plan({}, {0}, {}, {0}, {}), Ver(1, 1, true);
    var a := db.depends[Ver(0, 0, true)][0].alts[0];
    assert u1 in a.Versions() && s.Present(db, u1) && db.Candidate(1) == Some(u1);
  }

  lemma MixedSectionsConflict()
    ensures var db := MixedSections(); var s := Plan({}, {0}, {}, {0}, {});
      && db.Valid() && db.ValidGroup(db.depends[Ver(0, 0, true)][0])
      && InstallGroup(db, s, 0, db.depends[Ver(0, 0, true)][0], 0) == Plan({1}, {0}, {}, {0}, {1})
  {
    hide CandidateSat, Plan.GroupSat, RemoveConflicting, Remove1, PackageReplaces;
    MixedSectionsValid();
    MixedSectionsUnsatisfied();
    var db, s, s1 := MixedSections(), Plan({}, {0}, {}, {0}, {}), Plan({1}, {0}, {}, {0}, {1});
    var g := db.depends[Ver(0, 0, true)][0];
    assert g in db.depends[Ver(0, 0, true)];
    assert g.alts[0].Versions() == [Ver(1, 1, true), Ver(1, 0, false)];
    MixedSectionsReplaces(s);
    MixedSectionsRemove();
    MixedSectionsChain(s, s1);
  }

  lemma MixedSectionsChain(s: Plan, s1: Plan)
    requires MixedSections().Valid()
    requires PackageReplaces(MixedSections(), s, 0, 1) && Remove1(MixedSections(), s, 1, true) == s1
    ensures RemoveConflicting(MixedSections(), s, 0, [Ver(1, 1, true), Ver(1, 0, false)]) == s1
  {
    hide PackageReplaces, Remove1;
    var u1, n1 := Ver(1, 1, true), Ver(1, 0, false);
    assert [u1, n1][1..] == [n1] && [n1][1..] == [];
    assert RemoveConflicting(MixedSections(), s, 0, [n1]) == s1;
  }

  lemma MixedSectionsInstall()
    ensures MixedSections().Valid()
    ensures Install1(MixedSections(), ResetPlan({}), 0, 0) == Plan({1}, {0}, {}, {0}, {1})
  {
    MixedSectionsConflict();
    var db := MixedSections();
    var v0 := Ver(0, 0, true);
    var s2, s3 := Plan({}, {0}, {}, {0}, {}), Plan({1}, {0}, {}, {0}, {1});
    assert MarkInstall(db, MarkRelated(db, ResetPlan({}), v0), 0) == s2;
    var gs := db.depends[v0];
    assert gs == [gs[0], gs[1]] && gs[1..] == [gs[1]] && gs[1..][1..] == [];
    assert InstallGroup(db, s3, 0, gs[1], 0) == s3;
    assert InstallGroups(db, s3, 0, [gs[1]], 0) == s3;
    assert InstallGroups(db, s2, 0, gs, 0) == s3;
  }

  lemma MixedSectionsFix()
    ensures FixSoft(MixedSections(), Plan({1}, {0}, {}, {0}, {1}), {}) == Plan({1}, {0}, {}, {0}, {1})
  {
    var db, s := MixedSections(), Plan({1}, {0}, {}, {0}, {1});
    var gs := db.depends[Ver(0, 0, true)];
    assert gs == [gs[0], gs[1]];
    assert s.AltSat(db, Conflicts, gs[0].alts[0]);
    assert !s.InstBroken(db, 0) && !s.InstBroken(db, 1);
    assert db.packages[1..] == [1] && [1][1..] == [];
    assert FixPass(db, s, {}, [1]) == s;
  }

  /** Without that agreement an installation can remove an installed user package,
      because the section is looked up on the conflicting version. */
  lemma MixedSectionsRemovesUserPackage()
    ensures var db := MixedSections();
      db.Valid() && db.UserPackage(1) && PlanInstall(db, {}, ResetPlan({}), 0).del == {1}
  {
    MixedSectionsInstall();
    MixedSectionsFix();
  }
}
