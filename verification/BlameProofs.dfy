/** Who is to blame when a planned removal breaks something: never the packages that
    were only dragged along. */
module BlameProofs {
  import opened Wrappers
  import opened PackageDb
  import opened Planner
  import opened RemovalProofs
  import opened SoftProofs

  ghost predicate NothingBroken(db: Db, s: Plan) {
    forall p :: !s.InstBroken(db, p)
  }

  /** The reset state with nothing but `gone` deleted. */
  function OnlyGone(autoinst: set<Pkg>, gone: set<Pkg>): Plan {
    ResetPlan(autoinst).(del := gone)
  }

  /** The reset state with nothing but `root` deleted. */
  function OnlyRoot(autoinst: set<Pkg>, root: Pkg): Plan {
    OnlyGone(autoinst, {root})
  }

  /** What a planned removal looks like: only deletions, all but `root` soft and dragged
      along for being removable and reachable. */
  lemma RemovalShape(db: Db, autoinst: set<Pkg>, root: Pkg)
    requires db.Valid() && root in db.packages && db.Installed(root)
    ensures var s0 := ResetPlan(autoinst); var s := PlanRemove(db, autoinst, s0, root);
      && s.Valid(db) && s.ins == {} && root in s.del && root !in s.soft && Settled(db, s)
      && forall q :: q in s.del && q != root ==> q in s.soft && Removable(db, s0, q) && Reachable(db, s0, root, q)
  {
    hide GroupTargets;
    var s0 := ResetPlan(autoinst);
    var s1 := Remove1(db, s0, root, false);
    RemoveEffect(db, s0, root, false);
    FixSoftSettles(db, s1, autoinst);
    forall q | q in s1.del
      ensures q == root || Removable(db, s0, q)
      ensures Reachable(db, s0, root, q)
    {
      RemoveReaches(db, s0, root, false, q);
    }
  }

  // ---- Packages that are dragged along

  /** A removal of `root` drags `q` along at first; it may be put back. */
  ghost predicate Dragged(db: Db, autoinst: set<Pkg>, root: Pkg, q: Pkg) {
    q != root && Removable(db, ResetPlan(autoinst), q) && Reachable(db, ResetPlan(autoinst), root, q)
  }

  /** Of the packages that are dragged along, `K` stay away for good: whatever installed
      package names one of them is one of them, or `root`. */
  ghost predicate StaysAway(db: Db, autoinst: set<Pkg>, root: Pkg, K: set<Pkg>) {
    && (forall t :: t in K ==> Dragged(db, autoinst, root, t))
    && forall p, t :: p in db.current && t in K && VersionNames(db, db.current[p], t) ==> p in K || p == root
  }

  /** No provider of the group is dragged along, unless it is in `K`. */
  ghost predicate ProvidersSafe(db: Db, autoinst: set<Pkg>, root: Pkg, K: set<Pkg>, g: Group) {
    forall a, v :: a in g.alts && v in a.provided && db.Current(v.package) == Some(v) ==>
      v.package in K || !Dragged(db, autoinst, root, v.package)
  }

  /** The same for all that `q` critically depends on. */
  ghost predicate Safe(db: Db, autoinst: set<Pkg>, root: Pkg, K: set<Pkg>, q: Pkg) {
    q in db.current ==>
      forall g :: g in db.Groups(db.current[q]) && Critical(g.kind) && !Negative(g.kind) ==>
        ProvidersSafe(db, autoinst, root, K, g)
  }

  // ---- They stay away

  /** A deleted `K` stays deleted when a group is fixed that names none of it. */
  lemma FixGroupKeepsAway(db: Db, s: Plan, autoinst: set<Pkg>, g: Group, K: set<Pkg>)
    requires K <= s.del && forall a :: a in g.alts ==> a.target !in K
    ensures K <= FixGroup(db, s, autoinst, g).del
  {
  }

  lemma {:induction false} FixGroupsKeepAway(db: Db, s: Plan, autoinst: set<Pkg>, gs: seq<Group>, K: set<Pkg>)
    requires K <= s.del && forall g, a :: g in gs && a in g.alts ==> a.target !in K
    ensures K <= FixGroups(db, s, autoinst, gs).del
    decreases |gs|
  {
    if gs != [] {
      FixGroupKeepsAway(db, s, autoinst, gs[0], K);
      FixGroupsKeepAway(db, FixGroup(db, s, autoinst, gs[0]), autoinst, gs[1..], K);
    }
  }

  /** What holds while soft removals are undone. */
  ghost predicate Away(db: Db, autoinst: set<Pkg>, root: Pkg, K: set<Pkg>, s: Plan) {
    s.ins == {} && K <= s.del && root in s.del && root !in s.soft
  }

  lemma FixPackageKeepsAway(db: Db, autoinst: set<Pkg>, root: Pkg, K: set<Pkg>, s: Plan, p: Pkg)
    requires StaysAway(db, autoinst, root, K) && Away(db, autoinst, root, K, s)
    ensures Away(db, autoinst, root, K, FixPackage(db, s, autoinst, p))
  {
    hide VersionNames;
    if s.InstBroken(db, p) {
      var v := s.InstVer(db, p).value;
      FixGroupsRestores(db, s, autoinst, db.Groups(v));
      forall g, a | g in db.Groups(v) && a in g.alts
        ensures a.target !in K
      {
        Named(db, v, g, a);
      }
      FixGroupsKeepAway(db, s, autoinst, db.Groups(v), K);
    }
  }

  lemma Named(db: Db, v: Ver, g: Group, a: Alt)
    requires g in db.Groups(v) && a in g.alts
    ensures VersionNames(db, v, a.target)
  {
  }

  lemma {:induction false} FixPassKeepsAway(db: Db, autoinst: set<Pkg>, root: Pkg, K: set<Pkg>, s: Plan, ps: seq<Pkg>)
    requires StaysAway(db, autoinst, root, K) && Away(db, autoinst, root, K, s)
    ensures Away(db, autoinst, root, K, FixPass(db, s, autoinst, ps))
    decreases |ps|
  {
    hide StaysAway, Away, FixPackage;
    if ps != [] {
      FixPackageKeepsAway(db, autoinst, root, K, s, ps[0]);
      FixPassKeepsAway(db, autoinst, root, K, FixPackage(db, s, autoinst, ps[0]), ps[1..]);
    }
  }

  lemma {:induction false} FixSoftKeepsAway(db: Db, autoinst: set<Pkg>, root: Pkg, K: set<Pkg>, s: Plan)
    requires StaysAway(db, autoinst, root, K) && Away(db, autoinst, root, K, s)
    ensures Away(db, autoinst, root, K, FixSoft(db, s, autoinst))
    decreases SoftDel(s)
  {
    hide StaysAway, Away, FixPass;
    var s1 := FixPass(db, s, autoinst, db.packages);
    FixPassKeepsAway(db, autoinst, root, K, s, db.packages);
    if s1 != s {
      FixSoftKeepsAway(db, autoinst, root, K, s1);
    }
  }

  /** Packages that stay away are deleted by the planned removal. */
  lemma StayAwayIsDeleted(db: Db, autoinst: set<Pkg>, root: Pkg, K: set<Pkg>)
    requires db.Valid() && root in db.packages && db.Installed(root) && StaysAway(db, autoinst, root, K)
    ensures K <= PlanRemove(db, autoinst, ResetPlan(autoinst), root).del
  {
    hide GroupTargets, FixSoft;
    var s0 := ResetPlan(autoinst);
    var s1 := Remove1(db, s0, root, false);
    RemoveEffect(db, s0, root, false);
    forall t | t in K
      ensures t in s1.del
    {
      RemoveIsReachability(db, s0, root, false, t);
    }
    FixSoftKeepsAway(db, autoinst, root, K, s1);
  }

  // ---- Who is to blame

  /** A state that only deletes, and deletes more, has fewer versions present. */
  lemma FewerPresent(db: Db, r: Plan, s: Plan, v: Ver)
    requires r.ins == {} && s.ins == {} && r.del <= s.del
    requires s.Present(db, v)
    ensures r.Present(db, v)
  {
  }

  /** Deleting more can make a negative alternative hold and a positive one fail, but
      not the other way round. */
  lemma AltLater(db: Db, r: Plan, s: Plan, k: DepKind, a: Alt)
    requires r.ins == {} && s.ins == {} && r.del <= s.del
    ensures Negative(k) && r.AltSat(db, k, a) ==> s.AltSat(db, k, a)
    ensures !Negative(k) && s.AltSat(db, k, a) ==> r.AltSat(db, k, a)
  {
    forall v | v in a.Versions() && s.Present(db, v)
      ensures r.Present(db, v)
    {
      FewerPresent(db, r, s, v);
    }
  }

  /** No provider of the group is deleted, unless it is in `K`. */
  ghost predicate ProvidersLeft(db: Db, s: Plan, K: set<Pkg>, g: Group) {
    forall a, v :: a in g.alts && v in a.provided && db.Current(v.package) == Some(v) ==>
      v.package in K || v.package !in s.del
  }

  lemma SafeProvidersAreLeft(db: Db, autoinst: set<Pkg>, root: Pkg, K: set<Pkg>, g: Group)
    requires db.Valid() && root in db.packages && db.Installed(root) && ProvidersSafe(db, autoinst, root, K, g)
    ensures ProvidersLeft(db, PlanRemove(db, autoinst, ResetPlan(autoinst), root), K + {root}, g)
  {
    hide PlanRemove;
    RemovalShape(db, autoinst, root);
  }

  /** A version that satisfied an unsatisfied positive group before `K` and `root` went is
      one of `root` or of `K`. */
  lemma LostAlternative(db: Db, autoinst: set<Pkg>, root: Pkg, K: set<Pkg>, q: Pkg, g: Group, a: Alt, v: Ver)
    requires db.Valid() && root in db.packages && db.Installed(root)
    requires var s := PlanRemove(db, autoinst, ResetPlan(autoinst), root);
      s.InstBroken(db, q) && g in db.Groups(s.InstVer(db, q).value) && !s.GroupSat(db, g)
    requires !Negative(g.kind)
    requires ProvidersLeft(db, PlanRemove(db, autoinst, ResetPlan(autoinst), root), K, g)
    requires a in g.alts && v in a.Versions() && db.Current(v.package) == Some(v)
    ensures v.package == root || v.package in K
  {
    hide GroupTargets;
    var s0 := ResetPlan(autoinst);
    var s := PlanRemove(db, autoinst, s0, root);
    RemovalShape(db, autoinst, root);
    assert SettledGroup(s, g) by {
      assert q in db.packages;
      assert SettledGroups(db, s, db.Groups(s.InstVer(db, q).value));
    }
    GroupOfKnown(db, s.InstVer(db, q).value, g, a);
    assert !s.AltSat(db, g.kind, a);
    assert !s.Present(db, v) && v.package in s.del;
    if v in a.direct {
      assert !SoftlyDeleted(s, a.target);
    } else {
      assert v in a.provided;
    }
  }

  lemma GroupOfKnown(db: Db, v: Ver, g: Group, a: Alt)
    requires db.Valid() && g in db.Groups(v) && a in g.alts
    ensures db.ValidAlt(a)
  {
    assert db.ValidGroups(db.depends[v]) && db.ValidGroup(g);
  }

  /** Every unsatisfied group of a broken package that used to be satisfied was so by the
      current version of the requested package, or of a deleted provider.  If no provider
      is dragged along, it names the requested package. */
  lemma RemovalNamesRoot(db: Db, autoinst: set<Pkg>, root: Pkg, q: Pkg, g: Group)
    requires db.Valid() && root in db.packages && db.Installed(root)
    requires var s := PlanRemove(db, autoinst, ResetPlan(autoinst), root);
      s.InstBroken(db, q) && g in db.Groups(s.InstVer(db, q).value) && !s.GroupSat(db, g)
    requires ResetPlan(autoinst).GroupSat(db, g)
    ensures !Negative(g.kind)
    ensures var s := PlanRemove(db, autoinst, ResetPlan(autoinst), root);
            exists a, v ::
              && a in g.alts && v in a.Versions() && db.Current(v.package) == Some(v) && v.package in s.del
              && ((v.package == root && (v in a.direct ==> a.target == root))
                  || (v in a.provided && Dragged(db, autoinst, root, v.package)))
  {
    hide GroupTargets, PlanRemove;
    var s0 := ResetPlan(autoinst);
    var s := PlanRemove(db, autoinst, s0, root);
    RemovalShape(db, autoinst, root);
    var a :| a in g.alts && s0.AltSat(db, g.kind, a);
    assert !s.AltSat(db, g.kind, a);
    AltLater(db, s0, s, g.kind, a);
    GroupOfKnown(db, s.InstVer(db, q).value, g, a);
    var v :| v in a.Versions() && s0.Present(db, v);
    assert !s.Present(db, v);
    assert SettledGroups(db, s, db.Groups(s.InstVer(db, q).value));
    assert v.package != root && v !in a.provided ==> SoftlyDeleted(s, a.target);
  }

  lemma LostGroup(db: Db, autoinst: set<Pkg>, root: Pkg, K: set<Pkg>, q: Pkg, g: Group)
    requires db.Valid() && root in db.packages && db.Installed(root)
    requires var s := PlanRemove(db, autoinst, ResetPlan(autoinst), root);
      && K <= s.del && s.InstBroken(db, q) && g in db.Groups(s.InstVer(db, q).value) && !s.GroupSat(db, g)
    requires !Negative(g.kind) ==>
               ProvidersLeft(db, PlanRemove(db, autoinst, ResetPlan(autoinst), root), K + {root}, g)
    ensures !OnlyGone(autoinst, {root} + K).GroupSat(db, g)
  {
    hide GroupTargets, PlanRemove;
    var r := OnlyGone(autoinst, {root} + K);
    var s := PlanRemove(db, autoinst, ResetPlan(autoinst), root);
    RemovalShape(db, autoinst, root);
    forall a | a in g.alts
      ensures !r.AltSat(db, g.kind, a)
    {
      assert !s.AltSat(db, g.kind, a);
      AltLater(db, r, s, g.kind, a);
      if !Negative(g.kind) {
        forall v | v in a.Versions()
          ensures !r.Present(db, v)
        {
          if db.Current(v.package) == Some(v) {
            LostAlternative(db, autoinst, root, K + {root}, q, g, a, v);
          }
        }
      }
    }
  }

  /** A group that fails once `gone` is gone, though it held before, fails in every
      state that deletes `gone` and perhaps more. */
  lemma StillLost(db: Db, autoinst: set<Pkg>, gone: set<Pkg>, s: Plan, g: Group)
    requires s.ins == {} && gone <= s.del
    requires ResetPlan(autoinst).GroupSat(db, g) && !OnlyGone(autoinst, gone).GroupSat(db, g)
    ensures !s.GroupSat(db, g)
  {
    var s0, r := ResetPlan(autoinst), OnlyGone(autoinst, gone);
    forall a | a in g.alts
      ensures Negative(g.kind) && s0.AltSat(db, g.kind, a) ==> r.AltSat(db, g.kind, a)
      ensures !Negative(g.kind) && s.AltSat(db, g.kind, a) ==> r.AltSat(db, g.kind, a)
    {
      AltLater(db, s0, r, g.kind, a);
      AltLater(db, r, s, g.kind, a);
    }
  }

  /** No provider that `q` critically uses is deleted, unless it is in `K`. */
  ghost predicate NeedsLeft(db: Db, s: Plan, K: set<Pkg>, q: Pkg) {
    q in db.current ==>
      forall g :: g in db.Groups(db.current[q]) && Critical(g.kind) && !Negative(g.kind) ==> ProvidersLeft(db, s, K, g)
  }

  lemma SafeNeedsAreLeft(db: Db, autoinst: set<Pkg>, root: Pkg, K: set<Pkg>, q: Pkg)
    requires db.Valid() && root in db.packages && db.Installed(root) && Safe(db, autoinst, root, K, q)
    ensures NeedsLeft(db, PlanRemove(db, autoinst, ResetPlan(autoinst), root), K + {root}, q)
  {
    hide PlanRemove, ProvidersSafe, ProvidersLeft;
    if q in db.current {
      forall g | g in db.Groups(db.current[q]) && Critical(g.kind) && !Negative(g.kind)
        ensures ProvidersLeft(db, PlanRemove(db, autoinst, ResetPlan(autoinst), root), K + {root}, g)
      {
        SafeProvidersAreLeft(db, autoinst, root, K, g);
      }
    }
  }

  /** Whether `t` provides what `q` critically depends on. */
  predicate ProvidesFor(db: Db, t: Pkg, q: Pkg) {
    q in db.current &&
    exists g, a, v :: g in db.Groups(db.current[q]) && Critical(g.kind) && !Negative(g.kind)
                      && a in g.alts && v in a.provided && v.package == t
  }

  /** The deleted packages that provided for `q`. */
  function LostProviders(db: Db, s: Plan, q: Pkg): set<Pkg> {
    set t | t in s.del && ProvidesFor(db, t, q)
  }

  /** Whatever the dependencies are like, and whatever is broken already: what stays
      installed is newly broken exactly when removing just the requested package and the
      deleted providers would break it.  No other package that was dragged along is ever to
      blame. */
  lemma RemovalBlamesProviders(db: Db, autoinst: set<Pkg>, root: Pkg, q: Pkg)
    requires db.Valid() && root in db.packages && db.Installed(root)
    requires q !in PlanRemove(db, autoinst, ResetPlan(autoinst), root).del
    ensures var s := PlanRemove(db, autoinst, ResetPlan(autoinst), root);
            var r := OnlyGone(autoinst, {root} + LostProviders(db, s, q));
            (s.InstBroken(db, q) ==> r.InstBroken(db, q))
            && (!ResetPlan(autoinst).InstBroken(db, q) ==> (s.InstBroken(db, q) <==> r.InstBroken(db, q)))
  {
    hide PlanRemove, Plan.InstBroken;
    RemovalShape(db, autoinst, root);
    var s := PlanRemove(db, autoinst, ResetPlan(autoinst), root);
    var K := LostProviders(db, s, q);
    if s.InstBroken(db, q) {
      assert NeedsLeft(db, s, K + {root}, q);
      BrokenByThese(db, autoinst, root, K, q);
    }
    if !ResetPlan(autoinst).InstBroken(db, q) && OnlyGone(autoinst, {root} + K).InstBroken(db, q) {
      BrokenAllTheMore(db, autoinst, {root} + K, s, q);
    }
  }

  /** What can be said before the removal: if the dragged-along providers stay away for
      good, what stays installed is newly broken exactly when removing just the requested
      package and these would break it. */
  lemma RemovalBlames(db: Db, autoinst: set<Pkg>, root: Pkg, K: set<Pkg>, q: Pkg)
    requires db.Valid() && root in db.packages && db.Installed(root)
    requires StaysAway(db, autoinst, root, K) && Safe(db, autoinst, root, K, q)
    requires q !in PlanRemove(db, autoinst, ResetPlan(autoinst), root).del
    ensures var s, r := PlanRemove(db, autoinst, ResetPlan(autoinst), root), OnlyGone(autoinst, {root} + K);
            (s.InstBroken(db, q) ==> r.InstBroken(db, q))
            && (!ResetPlan(autoinst).InstBroken(db, q) ==> (s.InstBroken(db, q) <==> r.InstBroken(db, q)))
  {
    hide PlanRemove, StaysAway, Safe, Plan.InstBroken;
    RemovalShape(db, autoinst, root);
    StayAwayIsDeleted(db, autoinst, root, K);
    if PlanRemove(db, autoinst, ResetPlan(autoinst), root).InstBroken(db, q) {
      SafeNeedsAreLeft(db, autoinst, root, K, q);
      BrokenByThese(db, autoinst, root, K, q);
    }
    if !ResetPlan(autoinst).InstBroken(db, q) && OnlyGone(autoinst, {root} + K).InstBroken(db, q) {
      BrokenAllTheMore(db, autoinst, {root} + K, PlanRemove(db, autoinst, ResetPlan(autoinst), root), q);
    }
  }

  lemma BrokenByThese(db: Db, autoinst: set<Pkg>, root: Pkg, K: set<Pkg>, q: Pkg)
    requires db.Valid() && root in db.packages && db.Installed(root)
    requires NeedsLeft(db, PlanRemove(db, autoinst, ResetPlan(autoinst), root), K + {root}, q)
    requires var s := PlanRemove(db, autoinst, ResetPlan(autoinst), root);
      s.ins == {} && root in s.del && K <= s.del && s.InstBroken(db, q)
    ensures q !in {root} + K && OnlyGone(autoinst, {root} + K).InstBroken(db, q)
  {
    hide PlanRemove, ProvidersLeft;
    var v := db.current[q];
    var s := PlanRemove(db, autoinst, ResetPlan(autoinst), root);
    var g :| g in db.Groups(v) && Critical(g.kind) && !s.GroupSat(db, g);
    LostGroup(db, autoinst, root, K, q, g);
    assert OnlyGone(autoinst, {root} + K).VersionBroken(db, v);
  }

  /** What the absence of `gone` newly breaks is broken when more is absent, unless it is,
      too. */
  lemma BrokenAllTheMore(db: Db, autoinst: set<Pkg>, gone: set<Pkg>, s: Plan, q: Pkg)
    requires s.ins == {} && gone <= s.del && q !in s.del
    requires !ResetPlan(autoinst).InstBroken(db, q) && OnlyGone(autoinst, gone).InstBroken(db, q)
    ensures s.InstBroken(db, q)
  {
    var v := db.current[q];
    var g :| g in db.Groups(v) && Critical(g.kind) && !OnlyGone(autoinst, gone).GroupSat(db, g);
    StillLost(db, autoinst, gone, s, g);
    assert s.VersionBroken(db, v);
  }

  /** Removal blames only the requested package: unless a provider that `q` uses is dragged
      along, `q` is newly broken exactly when removing that package alone would break it. */
  lemma RemovalBlamesRoot(db: Db, autoinst: set<Pkg>, root: Pkg, q: Pkg)
    requires db.Valid() && root in db.packages && db.Installed(root)
    requires Safe(db, autoinst, root, {}, q)
    requires q !in PlanRemove(db, autoinst, ResetPlan(autoinst), root).del
    ensures var s, r := PlanRemove(db, autoinst, ResetPlan(autoinst), root), OnlyRoot(autoinst, root);
            (s.InstBroken(db, q) ==> r.InstBroken(db, q))
            && (!ResetPlan(autoinst).InstBroken(db, q) ==> (s.InstBroken(db, q) <==> r.InstBroken(db, q)))
  {
    hide PlanRemove, Safe, Plan.InstBroken;
    RemovalBlames(db, autoinst, root, {}, q);
    assert {root} + {} == {root};
  }

  /** The converse: a dragged-along provider is to blame, and not `root`, when it stays away
      and `q` lacks it but not `root`. */
  lemma DraggedProviderIsToBlame(db: Db, autoinst: set<Pkg>, root: Pkg, K: set<Pkg>, q: Pkg, g: Group)
    requires db.Valid() && root in db.packages && db.Installed(root)
    requires StaysAway(db, autoinst, root, K)
    requires q in db.current && q !in PlanRemove(db, autoinst, ResetPlan(autoinst), root).del
    requires g in db.Groups(db.current[q]) && Critical(g.kind) && !Negative(g.kind)
    requires forall a, v :: a in g.alts && v in a.Versions() && db.Current(v.package) == Some(v) ==> v.package in K
    ensures PlanRemove(db, autoinst, ResetPlan(autoinst), root).InstBroken(db, q)
    ensures OnlyRoot(autoinst, root).GroupSat(db, g) <==> ResetPlan(autoinst).GroupSat(db, g)
  {
    hide GroupTargets, PlanRemove, StaysAway;
    var s0, r := ResetPlan(autoinst), OnlyRoot(autoinst, root);
    var s := PlanRemove(db, autoinst, s0, root);
    RemovalShape(db, autoinst, root);
    StayAwayIsDeleted(db, autoinst, root, K);
    RootIsNotAway(db, autoinst, root, K);
    forall a | a in g.alts
      ensures !s.AltSat(db, g.kind, a) && r.AltSat(db, g.kind, a) == s0.AltSat(db, g.kind, a)
    {
      forall v | v in a.Versions()
        ensures !s.Present(db, v) && r.Present(db, v) == s0.Present(db, v)
      {
      }
    }
    assert !s.GroupSat(db, g) && s.VersionBroken(db, db.current[q]);
  }

  lemma RootIsNotAway(db: Db, autoinst: set<Pkg>, root: Pkg, K: set<Pkg>)
    requires StaysAway(db, autoinst, root, K)
    ensures root !in K
  {
  }

  // ---- The status reported to the user

  datatype AbleStatus = Able | Unable | NeededByOthers | SystemUpdate

  /** Some package is broken that is not broken now, or that is related. */
  predicate AnyNewlyOrRelatedBroken(db: Db, autoinst: set<Pkg>, s: Plan) {
    exists p :: p in db.packages && s.InstBroken(db, p) && (!ResetPlan(autoinst).InstBroken(db, p) || p in s.related)
  }

  /** `system` are the packages whose current version is flagged as a system update. */
  function RemovableStatus(db: Db, autoinst: set<Pkg>, s: Plan, system: set<Pkg>): AbleStatus {
    if s.del * system != {} then SystemUpdate
    else if !AnyNewlyOrRelatedBroken(db, autoinst, s) then Able
    else if exists p :: p in db.packages && s.InstBroken(db, p) then NeededByOthers
    else Unable
  }

  lemma StatusByBroken(db: Db, autoinst: set<Pkg>, s: Plan, system: set<Pkg>)
    requires db.Valid() && s.ins == {} && s.related == {}
    ensures RemovableStatus(db, autoinst, s, system) ==
      if s.del * system != {} then SystemUpdate
      else if exists q :: q !in s.del && !ResetPlan(autoinst).InstBroken(db, q) && s.InstBroken(db, q) then NeededByOthers
      else Able
  {
    assert forall q :: s.InstBroken(db, q) ==> q !in s.del && q in db.packages;
  }

  /** A planned removal marks nothing for installation and relates nothing. */
  lemma OnlyDeletions(db: Db, autoinst: set<Pkg>, root: Pkg)
    requires db.Valid() && root in db.packages
    ensures var s := PlanRemove(db, autoinst, ResetPlan(autoinst), root); s.ins == {} && s.related == {}
    ensures !db.Installed(root) ==> PlanRemove(db, autoinst, ResetPlan(autoinst), root).del == {}
  {
    hide FixSoft, Remove1;
    var s0 := ResetPlan(autoinst);
    if db.Installed(root) {
      RemoveEffect(db, s0, root, false);
    } else {
      RemoveNotInstalled(db, s0, root, false);
    }
    FixSoftSettles(db, Remove1(db, s0, root, false), autoinst);
  }

  /** Whatever the dependencies are like, and whatever is broken already: a package is
      reported as needed exactly when removing just it and the deleted providers would newly
      break a package that stays, unless a system update would go with it. */
  lemma NeededByProviders(db: Db, autoinst: set<Pkg>, root: Pkg, system: set<Pkg>)
    requires db.Valid() && root in db.packages
    ensures var s := PlanRemove(db, autoinst, ResetPlan(autoinst), root);
      RemovableStatus(db, autoinst, s, system) ==
        if s.del * system != {} then SystemUpdate
        else if exists q :: q !in s.del && !ResetPlan(autoinst).InstBroken(db, q)
                            && OnlyGone(autoinst, {root} + LostProviders(db, s, q)).InstBroken(db, q)
        then NeededByOthers else Able
  {
    hide PlanRemove, LostProviders;
    var s0 := ResetPlan(autoinst);
    var s := PlanRemove(db, autoinst, s0, root);
    OnlyDeletions(db, autoinst, root);
    forall q | q !in s.del && !s0.InstBroken(db, q)
      ensures s.InstBroken(db, q) <==> OnlyGone(autoinst, {root} + LostProviders(db, s, q)).InstBroken(db, q)
    {
      if db.Installed(root) {
        RemovalBlamesProviders(db, autoinst, root, q);
      } else {
        NoneLost(db, s, q);
        SamePresence(db, s0, s, OnlyGone(autoinst, {root} + LostProviders(db, s, q)), q);
      }
    }
    StatusByBroken(db, autoinst, s, system);
  }

  lemma NoneLost(db: Db, s: Plan, q: Pkg)
    requires s.del == {}
    ensures LostProviders(db, s, q) == {}
  {
  }

  /** States that differ only in packages that are not installed break the same. */
  lemma SamePresence(db: Db, s0: Plan, s: Plan, r: Plan, q: Pkg)
    requires s0.del == s.del == {} && s0.ins == s.ins == r.ins == {} && forall p :: p in r.del ==> p !in db.current
    ensures s.InstBroken(db, q) == s0.InstBroken(db, q) == r.InstBroken(db, q)
  {
  }

  /** What can be said before the removal: with the dragged-along providers that stay away
      for good counted in, it is needed exactly when these and the package together newly
      break one that stays. */
  lemma NeededByThoseThatStay(db: Db, autoinst: set<Pkg>, root: Pkg, K: set<Pkg>, system: set<Pkg>)
    requires db.Valid() && root in db.packages
    requires if db.Installed(root) then StaysAway(db, autoinst, root, K) else K == {}
    requires forall q :: q != root && q !in K && !ResetPlan(autoinst).InstBroken(db, q) ==> Safe(db, autoinst, root, K, q)
    ensures var s := PlanRemove(db, autoinst, ResetPlan(autoinst), root);
      RemovableStatus(db, autoinst, s, system) ==
        if s.del * system != {} then SystemUpdate
        else if exists q :: q !in s.del && !ResetPlan(autoinst).InstBroken(db, q)
                            && OnlyGone(autoinst, {root} + K).InstBroken(db, q)
        then NeededByOthers else Able
  {
    hide GroupTargets, StaysAway, Safe, PlanRemove;
    var s0 := ResetPlan(autoinst);
    var s := PlanRemove(db, autoinst, s0, root);
    var r := OnlyGone(autoinst, {root} + K);
    OnlyDeletions(db, autoinst, root);
    if db.Installed(root) {
      RemovalShape(db, autoinst, root);
      StayAwayIsDeleted(db, autoinst, root, K);
    }
    forall q | q !in s.del && !s0.InstBroken(db, q)
      ensures s.InstBroken(db, q) <==> r.InstBroken(db, q)
    {
      if db.Installed(root) {
        RemovalBlames(db, autoinst, root, K, q);
      } else {
        SamePresence(db, s0, s, r, q);
      }
    }
    StatusByBroken(db, autoinst, s, system);
  }

  /** Unless a provider in use is dragged along, it is needed exactly when its removal alone
      newly breaks a package that stays. */
  lemma NeededIsRootsFault(db: Db, autoinst: set<Pkg>, root: Pkg, system: set<Pkg>)
    requires db.Valid() && root in db.packages
    requires forall q :: q != root && !ResetPlan(autoinst).InstBroken(db, q) ==> Safe(db, autoinst, root, {}, q)
    ensures var s := PlanRemove(db, autoinst, ResetPlan(autoinst), root);
      RemovableStatus(db, autoinst, s, system) ==
        if s.del * system != {} then SystemUpdate
        else if exists q :: q !in s.del && !ResetPlan(autoinst).InstBroken(db, q)
                            && OnlyRoot(autoinst, root).InstBroken(db, q)
        then NeededByOthers else Able
  {
    hide PlanRemove, Safe, Plan.InstBroken, RemovableStatus;
    NeededByThoseThatStay(db, autoinst, root, {}, system);
    assert {root} + {} == {root};
  }

  // ---- Why dragged-along providers are excluded

  /** Package 0 depends on 1, an automatically installed library.  Package 3 depends on
      the virtual package 2, which only the library provides. */
  function ProvidedLibrary(): Db {
    var v0, v1, v3 := Ver(0, 0, true), Ver(1, 0, false), Ver(3, 0, true);
    Db([0, 1, 2, 3], map[0 := v0, 1 := v1, 3 := v3], map[],
      map[v0 := [Group(Depends, [Alt(1, [v1], [], [])])],
          v3 := [Group(Depends, [Alt(2, [], [v1], [v1])])]],
      map[0 := "a", 1 := "b", 2 := "c", 3 := "d"], map["a" := 0, "b" := 1, "c" := 2, "d" := 3],
      {}, {}, {})
  }

  const AUTO_LIBRARY: set<Pkg> := {1}

  lemma ProvidedLibraryIsValid()
    ensures ProvidedLibrary().Valid()
  {
    var db := ProvidedLibrary();
    assert forall p :: p in db.packages ==> p == 0 || p == 1 || p == 2 || p == 3;
    assert db.name[0] == "a" && db.name[1] == "b" && db.name[2] == "c" && db.name[3] == "d";
    ProvidedLibraryGroups();
  }

  lemma ProvidedLibraryGroups()
    ensures var db := ProvidedLibrary(); forall v :: v in db.depends ==> db.ValidGroups(db.depends[v])
  {
    var db := ProvidedLibrary();
    forall v | v in db.depends
      ensures db.ValidGroups(db.depends[v])
    {
      var g := db.depends[v][0];
      assert db.depends[v] == [g] && g.alts == [g.alts[0]];
      assert db.ValidAlt(g.alts[0]);
    }
  }

  lemma ProvidedLibraryIsWhole()
    ensures NothingBroken(ProvidedLibrary(), ResetPlan(AUTO_LIBRARY))
  {
    var db := ProvidedLibrary();
    var s0 := ResetPlan(AUTO_LIBRARY);
    var v1 := Ver(1, 0, false);
    forall v | v in db.depends
      ensures !s0.VersionBroken(db, v)
    {
      var g := db.depends[v][0];
      assert db.depends[v] == [g] && g.alts == [g.alts[0]];
      assert v1 in g.alts[0].Versions() && s0.Present(db, v1);
      assert s0.AltSat(db, Depends, g.alts[0]);
    }
  }

  lemma ProvidedLibraryRemoval()
    requires ProvidedLibrary().Valid()
    ensures Remove1(ProvidedLibrary(), ResetPlan(AUTO_LIBRARY), 0, false) == Plan({0, 1}, {}, {}, {}, {1})
  {
    var db := ProvidedLibrary();
    var s1 := RemoveSelf(db, ResetPlan(AUTO_LIBRARY), 0, false);
    assert s1 == Plan({0}, {}, {1}, {}, {});
    var gs := db.Groups(Ver(0, 0, true));
    assert gs == [gs[0]] && gs[0].alts == [gs[0].alts[0]];
    assert Targets(gs[0].alts) == [1];
    assert HardTargets(db, 0) == [1];
    assert db.Groups(Ver(1, 0, false)) == [];
    assert HardTargets(db, 1) == [];
    assert Removable(db, s1, 1);
    assert RemoveTargets(db, s1, [1]) == Remove1(db, s1, 1, true);
    assert Remove1(db, s1, 1, true) == RemoveSelf(db, s1, 1, true);
  }

  lemma ProvidedLibraryFix()
    ensures FixSoft(ProvidedLibrary(), Plan({0, 1}, {}, {}, {}, {1}), AUTO_LIBRARY) == Plan({0, 1}, {}, {}, {}, {1})
    ensures Plan({0, 1}, {}, {}, {}, {1}).InstBroken(ProvidedLibrary(), 3)
  {
    var db, s := ProvidedLibrary(), Plan({0, 1}, {}, {}, {}, {1});
    var g := db.depends[Ver(3, 0, true)][0];
    assert !s.AltSat(db, Depends, g.alts[0]);
    assert g in db.Groups(Ver(3, 0, true)) && !s.GroupSat(db, g);
    assert FixGroups(db, s, AUTO_LIBRARY, [g]) == s;
    assert forall p :: p in db.packages ==> FixPackage(db, s, AUTO_LIBRARY, p) == s;
    assert db.packages[1..] == [1, 2, 3] && db.packages[1..][1..] == [2, 3];
    assert FixPass(db, s, AUTO_LIBRARY, [2, 3]) == s;
    assert FixPass(db, s, AUTO_LIBRARY, [1, 2, 3]) == s;
  }

  lemma ProvidedLibraryAlone()
    ensures !OnlyRoot(AUTO_LIBRARY, 0).InstBroken(ProvidedLibrary(), 3)
  {
    var db, r := ProvidedLibrary(), OnlyRoot(AUTO_LIBRARY, 0);
    var g := db.depends[Ver(3, 0, true)][0];
    assert db.depends[Ver(3, 0, true)] == [g];
    assert r.Present(db, Ver(1, 0, false)) && Ver(1, 0, false) in g.alts[0].Versions();
    assert r.AltSat(db, Depends, g.alts[0]);
  }

  /** With a provided dependency the blame can fall on a package that was only dragged
      along: removing 0 takes 1 with it and does not put it back for 3. */
  lemma ProvidedLibraryIsNotPutBack()
    ensures ProvidedLibrary().Valid() && NothingBroken(ProvidedLibrary(), ResetPlan(AUTO_LIBRARY))
    ensures var s := PlanRemove(ProvidedLibrary(), AUTO_LIBRARY, ResetPlan(AUTO_LIBRARY), 0);
      s.del == {0, 1} && s.InstBroken(ProvidedLibrary(), 3)
    ensures !OnlyRoot(AUTO_LIBRARY, 0).InstBroken(ProvidedLibrary(), 3)
  {
    hide Plan.InstBroken, NothingBroken;
    ProvidedLibraryIsValid();
    ProvidedLibraryIsWhole();
    ProvidedLibraryRemoval();
    ProvidedLibraryFix();
    ProvidedLibraryAlone();
  }
}
