/** Undoing soft removals: the fixpoint loop only puts softly deleted packages back,
    and stops when no further one could help a broken package. */
module SoftProofs {
  import opened Collections
  import opened PackageDb
  import opened Planner

  /** The state with the packages in `back` reset to what they were at first. */
  function PutBack(s: Plan, autoinst: set<Pkg>, back: set<Pkg>): Plan {
    Plan(s.del - back, s.ins - back, s.auto - back + back * autoinst, s.related - back, s.soft - back)
  }

  /** `s'` is `s` with some softly deleted packages put back. */
  ghost predicate Restores(s: Plan, s': Plan, autoinst: set<Pkg>) {
    s.del - s'.del <= s.soft && s' == PutBack(s, autoinst, s.del - s'.del)
  }

  lemma RestoresTransitive(s: Plan, s1: Plan, s2: Plan, autoinst: set<Pkg>)
    requires Restores(s, s1, autoinst) && Restores(s1, s2, autoinst)
    ensures Restores(s, s2, autoinst)
  {
    assert s.del - s2.del == (s.del - s1.del) + (s1.del - s2.del);
  }

  lemma FixGroupRestores(db: Db, s: Plan, autoinst: set<Pkg>, g: Group)
    ensures Restores(s, FixGroup(db, s, autoinst, g), autoinst)
  {
    var s' := FixGroup(db, s, autoinst, g);
    if s' != s {
      var t := FirstSoft(db, s, g.kind, g.alts).value;
      assert s.del - s'.del == {t};
    }
  }

  lemma {:induction false} FixGroupsRestores(db: Db, s: Plan, autoinst: set<Pkg>, gs: seq<Group>)
    ensures Restores(s, FixGroups(db, s, autoinst, gs), autoinst)
    decreases |gs|
  {
    if gs != [] {
      var s1 := FixGroup(db, s, autoinst, gs[0]);
      FixGroupRestores(db, s, autoinst, gs[0]);
      FixGroupsRestores(db, s1, autoinst, gs[1..]);
      RestoresTransitive(s, s1, FixGroups(db, s1, autoinst, gs[1..]), autoinst);
    }
  }

  lemma {:induction false} FixPassRestores(db: Db, s: Plan, autoinst: set<Pkg>, ps: seq<Pkg>)
    ensures Restores(s, FixPass(db, s, autoinst, ps), autoinst)
    decreases |ps|
  {
    if ps != [] {
      var s1 := FixPackage(db, s, autoinst, ps[0]);
      if s.InstBroken(db, ps[0]) {
        FixGroupsRestores(db, s, autoinst, db.Groups(s.InstVer(db, ps[0]).value));
      }
      FixPassRestores(db, s1, autoinst, ps[1..]);
      RestoresTransitive(s, s1, FixPass(db, s1, autoinst, ps[1..]), autoinst);
    }
  }

  /** Every changing pass leaves strictly fewer softly deleted packages. */
  lemma FixPassShrinks(db: Db, s: Plan, autoinst: set<Pkg>)
    ensures var s' := FixPass(db, s, autoinst, db.packages);
      s' == s || (SoftDel(s') < SoftDel(s) && |SoftDel(s')| < |SoftDel(s)|)
  {
    var s' := FixPass(db, s, autoinst, db.packages);
    if s' != s {
      SubsetCount(SoftDel(s'), SoftDel(s));
    }
  }

  /** No broken package has an unsatisfied group with a softly deleted direct target. */
  ghost predicate Settled(db: Db, s: Plan) {
    forall p :: p in db.packages && s.InstBroken(db, p) ==> SettledGroups(db, s, db.Groups(s.InstVer(db, p).value))
  }

  ghost predicate SettledGroups(db: Db, s: Plan, gs: seq<Group>) {
    forall g :: g in gs && !s.GroupSat(db, g) ==> SettledGroup(s, g)
  }

  ghost predicate SettledGroup(s: Plan, g: Group) {
    forall a :: a in g.alts ==> !SoftlyDeleted(s, a.target)
  }

  lemma UnchangedGroup(db: Db, s: Plan, autoinst: set<Pkg>, g: Group)
    requires FixGroup(db, s, autoinst, g) == s
    ensures s.GroupSat(db, g) || SettledGroup(s, g)
  {
    if !s.GroupSat(db, g) {
      forall a | a in g.alts
        ensures !SoftlyDeleted(s, a.target)
      {
        assert !s.AltSat(db, g.kind, a);
      }
    }
  }

  lemma {:induction false} UnchangedGroups(db: Db, s: Plan, autoinst: set<Pkg>, gs: seq<Group>)
    requires FixGroups(db, s, autoinst, gs) == s
    ensures SettledGroups(db, s, gs)
    decreases |gs|
  {
    if gs != [] {
      assert FixGroup(db, s, autoinst, gs[0]) == s;
      UnchangedGroup(db, s, autoinst, gs[0]);
      UnchangedGroups(db, s, autoinst, gs[1..]);
      assert forall g :: g in gs ==> g == gs[0] || g in gs[1..];
    }
  }

  lemma {:induction false} UnchangedPass(db: Db, s: Plan, autoinst: set<Pkg>, ps: seq<Pkg>, p: Pkg)
    requires FixPass(db, s, autoinst, ps) == s && p in ps && s.InstBroken(db, p)
    ensures SettledGroups(db, s, db.Groups(s.InstVer(db, p).value))
    decreases |ps|
  {
    assert FixPackage(db, s, autoinst, ps[0]) == s;
    if p == ps[0] {
      UnchangedGroups(db, s, autoinst, db.Groups(s.InstVer(db, p).value));
    } else {
      UnchangedPass(db, s, autoinst, ps[1..], p);
    }
  }

  /** From any state at all, undoing soft removals only puts softly deleted packages
      back and ends where no further one would help a broken package. */
  lemma {:induction false} FixSoftSettles(db: Db, s: Plan, autoinst: set<Pkg>)
    ensures var s' := FixSoft(db, s, autoinst); Restores(s, s', autoinst) && Settled(db, s')
    decreases SoftDel(s)
  {
    var s1 := FixPass(db, s, autoinst, db.packages);
    if s1 == s {
      forall p | p in db.packages && s.InstBroken(db, p)
        ensures SettledGroups(db, s, db.Groups(s.InstVer(db, p).value))
      {
        UnchangedPass(db, s, autoinst, db.packages, p);
      }
    } else {
      FixPassRestores(db, s, autoinst, db.packages);
      FixSoftSettles(db, s1, autoinst);
      RestoresTransitive(s, s1, FixSoft(db, s1, autoinst), autoinst);
    }
  }

  /** A pass visits the packages one after the other. */
  lemma {:induction false} PassInOrder(db: Db, s: Plan, autoinst: set<Pkg>, ps: seq<Pkg>, qs: seq<Pkg>)
    ensures FixPass(db, s, autoinst, ps + qs) == FixPass(db, FixPass(db, s, autoinst, ps), autoinst, qs)
    decreases |ps|
  {
    hide FixPackage;
    if ps == [] {
      assert ps + qs == qs;
    } else {
      assert (ps + qs)[1..] == ps[1..] + qs;
      PassInOrder(db, FixPackage(db, s, autoinst, ps[0]), autoinst, ps[1..], qs);
    }
  }

  // ---- Exactly when and what

  lemma SettledGroupStays(db: Db, s: Plan, autoinst: set<Pkg>, gs: seq<Group>)
    requires SettledGroups(db, s, gs)
    ensures FixGroups(db, s, autoinst, gs) == s
    decreases |gs|
  {
    if gs != [] {
      assert gs[0] in gs;
      SettledGroupStays(db, s, autoinst, gs[1..]);
    }
  }

  lemma {:induction false} SettledPassStays(db: Db, s: Plan, autoinst: set<Pkg>, ps: seq<Pkg>)
    requires Settled(db, s) && forall p :: p in ps ==> p in db.packages
    ensures FixPass(db, s, autoinst, ps) == s
    decreases |ps|
  {
    if ps != [] {
      if s.InstBroken(db, ps[0]) {
        SettledGroupStays(db, s, autoinst, db.Groups(s.InstVer(db, ps[0]).value));
      }
      SettledPassStays(db, s, autoinst, ps[1..]);
    }
  }

  /** The loop leaves a state alone exactly if no broken package has an unsatisfied group
      with a softly deleted direct target; whatever packages that are not broken name does
      not matter. */
  lemma SettledIsLeftAlone(db: Db, s: Plan, autoinst: set<Pkg>)
    ensures FixSoft(db, s, autoinst) == s <==> Settled(db, s)
  {
    hide Settled;
    FixSoftSettles(db, s, autoinst);
    if Settled(db, s) {
      SettledPassStays(db, s, autoinst, db.packages);
    }
  }

  /** Some group of a version names `t` itself. */
  predicate VersionNames(db: Db, v: Ver, t: Pkg) {
    exists g, a :: g in db.Groups(v) && a in g.alts && a.target == t
  }

  ghost predicate NamedByBroken(db: Db, s: Plan, t: Pkg) {
    exists p :: p in db.packages && s.InstBroken(db, p) && VersionNames(db, s.InstVer(db, p).value, t)
  }

  lemma {:induction false} GroupsName(db: Db, s: Plan, autoinst: set<Pkg>, gs: seq<Group>, t: Pkg)
    requires t in s.del && t !in FixGroups(db, s, autoinst, gs).del
    ensures SoftlyDeleted(s, t) && exists g, a :: g in gs && a in g.alts && a.target == t
    decreases |gs|
  {
    var s1 := FixGroup(db, s, autoinst, gs[0]);
    if t in s1.del {
      FixGroupRestores(db, s, autoinst, gs[0]);
      GroupsName(db, s1, autoinst, gs[1..], t);
    } else {
      assert gs[0] in gs;
    }
  }

  lemma {:induction false} PassNames(db: Db, s: Plan, autoinst: set<Pkg>, ps: seq<Pkg>, t: Pkg) returns (x: Plan)
    requires t in s.del && t !in FixPass(db, s, autoinst, ps).del && forall p :: p in ps ==> p in db.packages
    ensures Restores(s, x, autoinst) && Restores(x, FixPass(db, s, autoinst, ps), autoinst)
    ensures SoftlyDeleted(x, t) && NamedByBroken(db, x, t)
    decreases |ps|
  {
    var s1 := FixPackage(db, s, autoinst, ps[0]);
    if t in s1.del {
      if s.InstBroken(db, ps[0]) {
        FixGroupsRestores(db, s, autoinst, db.Groups(s.InstVer(db, ps[0]).value));
      }
      x := PassNames(db, s1, autoinst, ps[1..], t);
      RestoresTransitive(s, s1, x, autoinst);
    } else {
      GroupsName(db, s, autoinst, db.Groups(s.InstVer(db, ps[0]).value), t);
      assert PutBack(s, autoinst, {}) == s;
      FixPassRestores(db, s, autoinst, ps);
      x := s;
    }
  }

  /** A package is put back only if at some point on the way it was softly deleted and named
      by a broken package. */
  lemma {:induction false} PutBackIsNamed(db: Db, s: Plan, autoinst: set<Pkg>, t: Pkg) returns (x: Plan)
    requires t in s.del && t !in FixSoft(db, s, autoinst).del
    ensures Restores(s, x, autoinst) && Restores(x, FixSoft(db, s, autoinst), autoinst)
    ensures SoftlyDeleted(x, t) && NamedByBroken(db, x, t)
    decreases SoftDel(s)
  {
    var s1 := FixPass(db, s, autoinst, db.packages);
    if t in s1.del {
      FixPassRestores(db, s, autoinst, db.packages);
      x := PutBackIsNamed(db, s1, autoinst, t);
      RestoresTransitive(s, s1, x, autoinst);
    } else {
      x := PassNames(db, s, autoinst, db.packages, t);
      FixSoftSettles(db, s1, autoinst);
      RestoresTransitive(x, s1, FixSoft(db, s1, autoinst), autoinst);
    }
  }
}
