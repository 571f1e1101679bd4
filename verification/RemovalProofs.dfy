/** Planning a removal: which packages go, which come back, and who is to blame for
    what breaks. */
module RemovalProofs {
  import opened PackageDb
  import opened Planner

  // ---- The packages a removal drags along

  /** Deleting `a` next deletes `b`. */
  ghost predicate Edge(db: Db, s: Plan, a: Pkg, b: Pkg) {
    b in HardTargets(db, a) && b !in s.del && Removable(db, s, b)
  }

  /** `b` can be reached from `a` in `n` steps. */
  ghost predicate Reach(db: Db, s: Plan, a: Pkg, b: Pkg, n: nat)
    decreases n
  {
    if n == 0 then a == b
    else exists m {:trigger Edge(db, s, a, m)} :: Edge(db, s, a, m) && Reach(db, s, m, b, n - 1)
  }

  ghost predicate Reachable(db: Db, s: Plan, a: Pkg, b: Pkg) {
    exists n: nat :: Reach(db, s, a, b, n)
  }

  /** Everything removable that a newly deleted package depends on is deleted, too. */
  ghost predicate Closed(db: Db, s: Plan, s': Plan) {
    forall a, b {:trigger Edge(db, s, a, b)} :: Edge(db, s, a, b) && a in s'.del && a !in s.del ==> b in s'.del
  }

  /** The fields after deleting the set `gone` softly. */
  ghost function SoftlyGone(s: Plan, gone: set<Pkg>): Plan {
    Plan(s.del + gone, s.ins - gone, s.auto - gone, s.related, s.soft + gone)
  }

  lemma {:induction false} ReachEarlier(db: Db, s: Plan, s1: Plan, a: Pkg, b: Pkg, n: nat)
    requires s.del <= s1.del && s1.auto <= s.auto
    requires Reach(db, s1, a, b, n)
    ensures Reach(db, s, a, b, n)
    decreases n
  {
    if n > 0 {
      var m :| Edge(db, s1, a, m) && Reach(db, s1, m, b, n - 1);
      ReachEarlier(db, s, s1, m, b, n - 1);
      assert Edge(db, s, a, m);
    }
  }

  lemma {:induction false} ReachDeleted(db: Db, s: Plan, s': Plan, a: Pkg, b: Pkg, n: nat)
    requires Closed(db, s, s') && a in s'.del - s.del
    requires Reach(db, s, a, b, n)
    ensures b in s'.del
    decreases n
  {
    hide GroupTargets;
    if n > 0 {
      var m :| Edge(db, s, a, m) && Reach(db, s, m, b, n - 1);
      ReachDeleted(db, s, s', m, b, n - 1);
    }
  }

  ghost function Gone(s: Plan, s': Plan): set<Pkg> {
    s'.del - s.del
  }

  /** One removal deletes `p` and marks every other package it deletes as soft. */
  lemma {:induction false} RemoveEffect(db: Db, s: Plan, p: Pkg, soft: bool)
    requires db.Valid() && s.Valid(db) && p in db.packages && p !in s.del && db.Installed(p)
    ensures var s' := Remove1(db, s, p, soft); var gone := Gone(s, s');
      && p in s'.del && s'.Valid(db)
      && s' == SoftlyGone(s, gone).(soft := if soft then s.soft + gone else s.soft + gone - {p})
    decreases db.All() - s.del, 0
  {
    hide GroupTargets;
    var s1 := RemoveSelf(db, s, p, soft);
    var s' := Remove1(db, s, p, soft);
    TargetsKnown(db, db.current[p], true);
    RemoveTargetsEffect(db, s1, HardTargets(db, p));
    assert Gone(s, s') == {p} + Gone(s1, s');
  }

  lemma {:induction false} RemoveTargetsEffect(db: Db, s: Plan, ts: seq<Pkg>)
    requires db.Valid() && s.Valid(db) && forall t :: t in ts ==> t in db.packages
    ensures var s' := RemoveTargets(db, s, ts); s'.Valid(db) && s' == SoftlyGone(s, Gone(s, s'))
    decreases db.All() - s.del, |ts|
  {
    if ts != [] {
      var s1 := if Removable(db, s, ts[0]) then Remove1(db, s, ts[0], true) else s;
      if Removable(db, s, ts[0]) && ts[0] !in s.del {
        RemoveEffect(db, s, ts[0], true);
      }
      RemoveTargetsEffect(db, s1, ts[1..]);
      var s' := RemoveTargets(db, s, ts);
      assert Gone(s, s') == Gone(s, s1) + Gone(s1, s');
    }
  }

  /** Later states have fewer edges, and only deletion takes an edge away. */
  lemma EdgeLater(db: Db, s: Plan, s1: Plan, gone: set<Pkg>, a: Pkg, b: Pkg)
    requires s1.del == s.del + gone && s1.auto == s.auto - gone
    ensures Edge(db, s1, a, b) ==> Edge(db, s, a, b)
    ensures Edge(db, s, a, b) && b !in s1.del ==> Edge(db, s1, a, b)
  {
    hide GroupTargets;
  }

  lemma {:induction false} RemoveClosed(db: Db, s: Plan, p: Pkg, soft: bool)
    requires db.Valid() && s.Valid(db) && p in db.packages && p !in s.del && db.Installed(p)
    ensures Closed(db, s, Remove1(db, s, p, soft))
    decreases db.All() - s.del, 0
  {
    hide GroupTargets;
    var s1 := RemoveSelf(db, s, p, soft);
    var s' := Remove1(db, s, p, soft);
    TargetsKnown(db, db.current[p], true);
    RemoveTargetsClosed(db, s1, HardTargets(db, p));
    RemoveEffect(db, s, p, soft);
    forall a, b | Edge(db, s, a, b) && a in s'.del && a !in s.del
      ensures b in s'.del
    {
      EdgeLater(db, s, s1, {p}, a, b);
    }
  }

  lemma {:induction false} RemoveTargetsClosed(db: Db, s: Plan, ts: seq<Pkg>)
    requires db.Valid() && s.Valid(db) && forall t :: t in ts ==> t in db.packages
    ensures var s' := RemoveTargets(db, s, ts);
      Closed(db, s, s') && forall t :: t in ts && Removable(db, s, t) ==> t in s'.del
    decreases db.All() - s.del, |ts|
  {
    if ts != [] {
      var s1 := if Removable(db, s, ts[0]) then Remove1(db, s, ts[0], true) else s;
      if Removable(db, s, ts[0]) && ts[0] !in s.del {
        RemoveEffect(db, s, ts[0], true);
        RemoveClosed(db, s, ts[0], true);
      }
      RemoveTargetsClosed(db, s1, ts[1..]);
      ClosedTransitive(db, s, s1, RemoveTargets(db, s, ts));
    }
  }

  lemma ClosedTransitive(db: Db, s: Plan, s1: Plan, s': Plan)
    requires s.del <= s1.del <= s'.del && s1.auto == s.auto - Gone(s, s1)
    requires Closed(db, s, s1) && Closed(db, s1, s')
    ensures Closed(db, s, s')
  {
    forall a, b | Edge(db, s, a, b) && a in s'.del && a !in s.del
      ensures b in s'.del
    {
      EdgeLater(db, s, s1, Gone(s, s1), a, b);
    }
  }

  lemma {:induction false} RemoveReaches(db: Db, s: Plan, p: Pkg, soft: bool, q: Pkg)
    requires db.Valid() && s.Valid(db) && p in db.packages && p !in s.del && db.Installed(p)
    requires q in Gone(s, Remove1(db, s, p, soft))
    ensures Reachable(db, s, p, q) && (q == p || Removable(db, s, q))
    decreases db.All() - s.del, 0
  {
    hide GroupTargets;
    if q == p {
      assert Reach(db, s, p, q, 0);
    } else {
      var s1 := RemoveSelf(db, s, p, soft);
      TargetsKnown(db, db.current[p], true);
      var t, n := RemoveTargetsReaches(db, s1, HardTargets(db, p), q);
      EdgeLater(db, s, s1, {p}, p, t);
      ReachEarlier(db, s, s1, t, q, n);
      assert Reach(db, s, p, q, n + 1);
    }
  }

  lemma {:induction false} RemoveTargetsReaches(db: Db, s: Plan, ts: seq<Pkg>, q: Pkg) returns (t: Pkg, n: nat)
    requires db.Valid() && s.Valid(db) && forall t :: t in ts ==> t in db.packages
    requires q in Gone(s, RemoveTargets(db, s, ts))
    ensures t in ts && t !in s.del && Removable(db, s, t) && Reach(db, s, t, q, n) && Removable(db, s, q)
    decreases db.All() - s.del, |ts|
  {
    hide GroupTargets;
    var s1 := if Removable(db, s, ts[0]) then Remove1(db, s, ts[0], true) else s;
    if q in s1.del {
      RemoveReaches(db, s, ts[0], true, q);
      t := ts[0];
      n :| Reach(db, s, t, q, n);
    } else {
      if Removable(db, s, ts[0]) && ts[0] !in s.del {
        RemoveEffect(db, s, ts[0], true);
      }
      t, n := RemoveTargetsReaches(db, s1, ts[1..], q);
      ReachEarlier(db, s, s1, t, q, n);
    }
  }

  /** A removal deletes exactly what was deleted before, the package itself, and what
      can be reached from it. */
  lemma RemoveIsReachability(db: Db, s: Plan, p: Pkg, soft: bool, q: Pkg)
    requires db.Valid() && s.Valid(db) && p in db.packages && p !in s.del && db.Installed(p)
    ensures q in Remove1(db, s, p, soft).del <==> q in s.del || Reachable(db, s, p, q)
  {
    hide GroupTargets;
    var s' := Remove1(db, s, p, soft);
    RemoveEffect(db, s, p, soft);
    RemoveClosed(db, s, p, soft);
    if Reachable(db, s, p, q) {
      var n: nat :| Reach(db, s, p, q, n);
      ReachDeleted(db, s, s', p, q, n);
    }
    if q in Gone(s, s') {
      RemoveReaches(db, s, p, soft, q);
    }
  }

  /** Removing a package that is not installed deletes nothing. */
  lemma RemoveNotInstalled(db: Db, s: Plan, p: Pkg, soft: bool)
    requires db.Valid() && s.Valid(db) && p in db.packages && !db.Installed(p)
    ensures var s' := Remove1(db, s, p, soft);
      && s'.Valid(db)
      && s' == Plan(s.del, s.ins - {p}, s.auto - {p}, s.related, if soft then s.soft + {p} else s.soft - {p})
  {
  }
}
