/** Which packages an installation marks as related while some packages are not settled. */
module RelatedProofs {
  import opened Wrappers
  import opened PackageDb
  import opened Planner

  /** The installed package `a` names the installed package `b`, which is not related yet. */
  ghost predicate Leads(db: Db, s: Plan, a: Pkg, b: Pkg) {
    a in db.current && b in db.current && b in GroupTargets(db.Groups(db.current[a]), false) && b !in s.related
  }

  ghost predicate LeadsIn(db: Db, s: Plan, a: Pkg, b: Pkg, n: nat)
    decreases n
  {
    if n == 0 then a == b
    else exists m {:trigger Leads(db, s, a, m)} :: Leads(db, s, a, m) && LeadsIn(db, s, m, b, n - 1)
  }

  ghost predicate LeadsTo(db: Db, s: Plan, a: Pkg, b: Pkg) {
    exists n: nat :: LeadsIn(db, s, a, b, n)
  }

  /** One of the targets is installed, not related yet, and leads to `q`. */
  ghost predicate TargetsLeadTo(db: Db, s: Plan, ts: seq<Pkg>, q: Pkg) {
    exists t :: t in ts && t in db.current && t !in s.related && LeadsTo(db, s, t, q)
  }

  /** Whatever a newly related package leads to is related, too. */
  ghost predicate RelatedClosed(db: Db, s: Plan, s': Plan) {
    forall a, b {:trigger Leads(db, s, a, b)} ::
      Leads(db, s, a, b) && a in s'.related && a !in s.related ==> b in s'.related
  }

  lemma LeadsEarlier(db: Db, s: Plan, s1: Plan, a: Pkg, b: Pkg)
    requires s.related <= s1.related
    ensures Leads(db, s1, a, b) ==> Leads(db, s, a, b)
    ensures Leads(db, s, a, b) && b !in s1.related ==> Leads(db, s1, a, b)
  {
  }

  lemma {:induction false} LeadsInEarlier(db: Db, s: Plan, s1: Plan, a: Pkg, b: Pkg, n: nat)
    requires s.related <= s1.related && LeadsIn(db, s1, a, b, n)
    ensures LeadsIn(db, s, a, b, n)
    decreases n
  {
    hide Leads;
    if n > 0 {
      var m :| Leads(db, s1, a, m) && LeadsIn(db, s1, m, b, n - 1);
      LeadsInEarlier(db, s, s1, m, b, n - 1);
      LeadsEarlier(db, s, s1, a, m);
    }
  }

  lemma {:induction false} LeadsInClosed(db: Db, s: Plan, s': Plan, a: Pkg, b: Pkg, n: nat)
    requires RelatedClosed(db, s, s') && a in s'.related && a !in s.related && LeadsIn(db, s, a, b, n)
    ensures b in s'.related
    decreases n
  {
    if n > 0 {
      var m :| Leads(db, s, a, m) && LeadsIn(db, s, m, b, n - 1);
      LeadsInClosed(db, s, s', m, b, n - 1);
    }
  }

  lemma ClosedCompose(db: Db, s: Plan, s1: Plan, s': Plan)
    requires s.related <= s1.related <= s'.related && RelatedClosed(db, s, s1) && RelatedClosed(db, s1, s')
    ensures RelatedClosed(db, s, s')
  {
    hide Leads;
    forall a, b | Leads(db, s, a, b) && a in s'.related && a !in s.related
      ensures b in s'.related
    {
      LeadsEarlier(db, s, s1, a, b);
    }
  }

  lemma {:induction false} MarkClosed(db: Db, s: Plan, p: Pkg)
    requires db.Valid() && db.unsettled != {} && p in db.current && p !in s.related
    ensures var s' := MarkRelated(db, s, db.current[p]); p in s'.related && RelatedClosed(db, s, s')
    decreases db.All() - s.related, 0
  {
    var s1 := s.(related := s.related + {p});
    var ts := GroupTargets(db.Groups(db.current[p]), false);
    var s' := RelateTargets(db, s1, ts);
    assert p in db.All() - s.related && p !in db.All() - s1.related;
    TargetsClosed(db, s1, ts);
    forall a, b | Leads(db, s, a, b) && a in s'.related && a !in s.related
      ensures b in s'.related
    {
      LeadsEarlier(db, s, s1, a, b);
    }
  }

  lemma {:induction false} TargetsClosed(db: Db, s: Plan, ts: seq<Pkg>)
    requires db.Valid() && db.unsettled != {}
    ensures var s' := RelateTargets(db, s, ts);
      RelatedClosed(db, s, s') && forall t :: t in ts && t in db.current ==> t in s'.related
    decreases db.All() - s.related, |ts|
  {
    hide Leads;
    if ts != [] {
      var t := ts[0];
      var s1 := match db.Current(t) case Some(w) => MarkRelated(db, s, w) case None => s;
      if t in db.current && t !in s.related {
        MarkClosed(db, s, t);
      }
      TargetsClosed(db, s1, ts[1..]);
      ClosedCompose(db, s, s1, RelateTargets(db, s, ts));
    }
  }

  lemma {:induction false} MarkReaches(db: Db, s: Plan, p: Pkg, q: Pkg)
    requires db.Valid() && db.unsettled != {} && p in db.current && p !in s.related
    requires q in MarkRelated(db, s, db.current[p]).related && q !in s.related
    ensures LeadsTo(db, s, p, q)
    decreases db.All() - s.related, 0
  {
    var s1 := s.(related := s.related + {p});
    assert p in db.All() - s.related && p !in db.All() - s1.related;
    assert LeadsIn(db, s, p, p, 0);
    if q != p {
      var t, n := TargetsReach(db, s1, GroupTargets(db.Groups(db.current[p]), false), q);
      LeadsInEarlier(db, s, s1, t, q, n);
      assert Leads(db, s, p, t) && LeadsIn(db, s, p, q, n + 1);
    }
  }

  lemma {:induction false} TargetsReach(db: Db, s: Plan, ts: seq<Pkg>, q: Pkg) returns (t: Pkg, n: nat)
    requires db.Valid() && db.unsettled != {} && q in RelateTargets(db, s, ts).related && q !in s.related
    ensures t in ts && t in db.current && t !in s.related && LeadsIn(db, s, t, q, n)
    decreases db.All() - s.related, |ts|
  {
    hide Leads;
    var s1 := match db.Current(ts[0]) case Some(w) => MarkRelated(db, s, w) case None => s;
    if q in s1.related {
      t := ts[0];
      MarkReaches(db, s, t, q);
      n :| LeadsIn(db, s, t, q, n);
    } else {
      t, n := TargetsReach(db, s1, ts[1..], q);
      LeadsInEarlier(db, s, s1, t, q, n);
    }
  }

  lemma RelatedTargetsReached(db: Db, s: Plan, ts: seq<Pkg>, q: Pkg)
    requires db.Valid() && db.unsettled != {}
    ensures q in RelateTargets(db, s, ts).related <==> q in s.related || TargetsLeadTo(db, s, ts, q)
  {
    hide Leads;
    TargetsClosed(db, s, ts);
    if t :| t in ts && t in db.current && t !in s.related && LeadsTo(db, s, t, q) {
      var n: nat :| LeadsIn(db, s, t, q, n);
      LeadsInClosed(db, s, RelateTargets(db, s, ts), t, q, n);
    }
    if q in RelateTargets(db, s, ts).related && q !in s.related {
      var t, n := TargetsReach(db, s, ts, q);
      assert LeadsTo(db, s, t, q);
    }
  }

  /** A version makes its package related and, as long as anything is not settled, exactly
      those installed packages besides that can be reached from it through the dependencies
      of any kind of installed versions, past packages that are not related yet. */
  lemma RelatedIsReachability(db: Db, s: Plan, v: Ver, q: Pkg)
    requires db.Valid() && v.package in db.packages && v.package !in s.related
    ensures var s1 := s.(related := s.related + {v.package});
      q in MarkRelated(db, s, v).related <==>
        || q in s1.related
        || (db.unsettled != {} && TargetsLeadTo(db, s1, GroupTargets(db.Groups(v), false), q))
  {
    hide TargetsLeadTo, GroupTargets;
    if db.unsettled != {} {
      RelatedTargetsReached(db, s.(related := s.related + {v.package}), GroupTargets(db.Groups(v), false), q);
    }
  }
}
