/** Planning an installation selects what is needed, and nothing else.  This is about packages
    whose needs can be met by adding: an upgrade satisfies whatever the installed version did,
    and nothing that is or may be selected is in conflict. */
module InstallComplete {
  import opened Collections
  import opened Wrappers
  import opened PackageDb
  import opened Planner
  import opened SoftProofs

  /** Upgrading one of the packages `C` keeps the alternative satisfied. */
  ghost predicate BenignAlt(db: Db, C: set<Pkg>, a: Alt) {
    forall p :: p in C && p in db.current && p in db.candidate && db.current[p] in a.Versions() ==>
      db.candidate[p] in a.Versions()
  }

  /** No version in conflict is installed or may be selected from `C`. */
  ghost predicate NoConflict(db: Db, C: set<Pkg>, a: Alt) {
    forall v :: v in a.Versions() ==>
      db.Current(v.package) != Some(v) && !(v.package in C && db.Candidate(v.package) == Some(v))
  }

  ghost predicate BenignGroup(db: Db, C: set<Pkg>, g: Group) {
    && db.ValidGroup(g)
    && if Negative(g.kind) then exists a :: a in g.alts && NoConflict(db, C, a)
       else forall a :: a in g.alts ==> BenignAlt(db, C, a)
  }

  /** The groups that an installation of `p` looks at: for a package that is installed
      already only the critical ones. */
  predicate Considered(db: Db, p: Pkg, g: Group) {
    db.Important(g.kind) && (p in db.current ==> Critical(g.kind))
  }

  /** Critical groups always, and others only for new packages if the configuration makes them
      important. */
  lemma WhatIsConsidered(db: Db, p: Pkg, g: Group)
    ensures Considered(db, p, g) <==> Critical(g.kind) || (p !in db.current && g.kind in db.recommended)
  {
  }

  ghost predicate BenignGroups(db: Db, C: set<Pkg>, p: Pkg, gs: seq<Group>) {
    forall g :: g in gs && Considered(db, p, g) ==> BenignGroup(db, C, g)
  }

  // ---- Which package is chosen

  /** The first alternative that the candidates satisfy. */
  ghost predicate FirstSatisfiable(db: Db, k: DepKind, alts: seq<Alt>, i: nat) {
    i < |alts| && CandidateSat(db, k, alts[i]) && forall j :: 0 <= j < i ==> !CandidateSat(db, k, alts[j])
  }

  predicate IsCandidate(db: Db, v: Ver) {
    db.Candidate(v.package) == Some(v)
  }

  /** The package is the target itself if that has a matching candidate, else the best ranked
      provider that has one. */
  ghost predicate Picked(db: Db, a: Alt, q: Pkg) {
    q in db.candidate &&
    if exists v :: v in a.direct && IsCandidate(db, v) then db.candidate[q] in a.direct
    else exists j :: 0 <= j < |a.ranked| && a.ranked[j] == db.candidate[q]
                     && forall i :: 0 <= i < j ==> !IsCandidate(db, a.ranked[i])
  }

  /** The group makes an installation of `p` select `q`, through its alternative `i`. */
  ghost predicate ChosenFor(db: Db, p: Pkg, g: Group, i: nat, q: Pkg) {
    && Considered(db, p, g) && !Negative(g.kind)
    && FirstSatisfiable(db, g.kind, g.alts, i) && Picked(db, g.alts[i], q)
  }

  /** Some group of the version of `p` does so; `q` is marked as automatically installed
      exactly if the target of the alternative is not installed. */
  ghost predicate ChosenBy(db: Db, p: Pkg, q: Pkg, isAuto: bool) {
    Preferred(db, p).Some? &&
    exists g, i: nat :: g in db.Groups(Preferred(db, p).value) && ChosenFor(db, p, g, i, q)
                   && isAuto == (g.alts[i].target !in db.current)
  }

  ghost predicate Chooses(db: Db, p: Pkg, q: Pkg) {
    ChosenBy(db, p, q, true) || ChosenBy(db, p, q, false)
  }

  lemma {:induction false} ChosenIsFirst(db: Db, k: DepKind, alts: seq<Alt>, i: nat)
    requires FirstSatisfiable(db, k, alts, i)
    ensures ChooseAlt(db, k, alts) == alts[i]
  {
    hide CandidateSat;
    if i > 0 {
      ChosenIsFirst(db, k, alts[1..], i - 1);
    }
  }

  lemma {:induction false} SomeFirst(db: Db, k: DepKind, alts: seq<Alt>) returns (i: nat)
    requires exists a :: a in alts && CandidateSat(db, k, a)
    ensures FirstSatisfiable(db, k, alts, i)
  {
    hide CandidateSat;
    if CandidateSat(db, k, alts[0]) {
      i := 0;
    } else {
      var a :| a in alts && CandidateSat(db, k, a);
      assert a in alts[1..];
      i := SomeFirst(db, k, alts[1..]);
      i := i + 1;
    }
  }

  lemma {:induction false} FirstCandidateAt(db: Db, vs: seq<Ver>)
    ensures match FirstCandidate(db, vs)
            case None => forall v :: v in vs ==> !IsCandidate(db, v)
            case Some(q) => q in db.candidate && exists j :: 0 <= j < |vs| && vs[j] == db.candidate[q]
                                                   && forall i :: 0 <= i < j ==> !IsCandidate(db, vs[i])
  {
    if vs != [] && !IsCandidate(db, vs[0]) {
      FirstCandidateAt(db, vs[1..]);
      if q :| Some(q) == FirstCandidate(db, vs) {
        var j :| 0 <= j < |vs[1..]| && vs[1..][j] == db.candidate[q]
                 && forall i :: 0 <= i < j ==> !IsCandidate(db, vs[1..][i]);
        assert vs[j + 1] == db.candidate[q] && forall i :: 0 < i < j + 1 ==> vs[i] == vs[1..][i - 1];
      }
    }
  }

  lemma PickedIsPicked(db: Db, a: Alt, q: Pkg)
    requires db.Valid() && db.ValidAlt(a) && Picked(db, a, q)
    ensures PickPackage(db, a) == Some(q)
  {
    hide FirstCandidate;
    FirstCandidateAt(db, a.direct);
    if exists v :: v in a.direct && IsCandidate(db, v) {
      assert FirstCandidate(db, a.direct) == Some(q);
    } else {
      assert FirstCandidate(db, a.direct).None?;
      var j :| 0 <= j < |a.ranked| && a.ranked[j] == db.candidate[q]
               && forall i :: 0 <= i < j ==> !IsCandidate(db, a.ranked[i]);
      CandidateOf(db, q);
      FirstCandidateIs(db, a.ranked, j);
    }
  }

  lemma CandidateOf(db: Db, q: Pkg)
    requires db.Valid() && q in db.candidate
    ensures IsCandidate(db, db.candidate[q]) && db.candidate[q].package == q
  {
  }

  lemma {:induction false} FirstCandidateIs(db: Db, vs: seq<Ver>, j: nat)
    requires j < |vs| && IsCandidate(db, vs[j]) && forall i :: 0 <= i < j ==> !IsCandidate(db, vs[i])
    ensures FirstCandidate(db, vs) == Some(vs[j].package)
  {
    if j > 0 {
      FirstCandidateIs(db, vs[1..], j - 1);
    }
  }

  lemma PickIsPicked(db: Db, k: DepKind, a: Alt)
    requires db.Valid() && db.ValidAlt(a) && !Negative(k) && CandidateSat(db, k, a)
    ensures PickPackage(db, a).Some? && Picked(db, a, PickPackage(db, a).value)
    ensures PickPackage(db, a).value in db.candidate && db.candidate[PickPackage(db, a).value] in a.Versions()
  {
    FirstCandidateAt(db, a.direct);
    FirstCandidateAt(db, a.ranked);
    var v :| v in a.Versions() && db.Candidate(v.package) == Some(v);
    assert IsCandidate(db, v);
  }

  /** In any state at all, an unsatisfied positive group that is looked at makes the package
      that it chooses be installed, as an automatic one unless the target is installed. */
  lemma GroupInstalls(db: Db, s: Plan, p: Pkg, g: Group, level: nat, i: nat, q: Pkg)
    requires db.Valid() && level <= MAX_LEVEL && db.ValidGroup(g) && !s.GroupSat(db, g) && ChosenFor(db, p, g, i, q)
    ensures var s1 := Install1(db, s, q, level + 1);
            InstallGroup(db, s, p, g, level)
            == s1.(auto := if g.alts[i].target in db.current then s1.auto else s1.auto + {q})
  {
    hide Plan.GroupSat, Picked, CandidateSat, Install1, PickPackage;
    ChosenIsFirst(db, g.kind, g.alts, i);
    assert g.alts[i] in g.alts && db.ValidAlt(g.alts[i]);
    PickedIsPicked(db, g.alts[i], q);
  }

  /** An unsatisfied positive group that is looked at chooses some package, or else changes
      nothing. */
  lemma GroupChooses(db: Db, s: Plan, p: Pkg, g: Group, level: nat)
    requires db.Valid() && level <= MAX_LEVEL && db.ValidGroup(g) && !Negative(g.kind)
    ensures if !s.GroupSat(db, g) && Considered(db, p, g) && CandidatesSatisfy(db, g)
            then exists i: nat, q :: ChosenFor(db, p, g, i, q) && i < |g.alts|
                                     && q in db.candidate && db.candidate[q] in g.alts[i].Versions()
            else InstallGroup(db, s, p, g, level) == s
  {
    hide Plan.GroupSat, Picked, CandidateSat, Install1;
    if CandidatesSatisfy(db, g) {
      var i := SomeFirst(db, g.kind, g.alts);
      assert g.alts[i] in g.alts && db.ValidAlt(g.alts[i]);
      PickIsPicked(db, g.kind, g.alts[i]);
      assert !s.GroupSat(db, g) && Considered(db, p, g) ==>
          ChosenFor(db, p, g, i, PickPackage(db, g.alts[i]).value);
    } else {
      assert ChooseAlt(db, g.kind, g.alts) in g.alts;
    }
  }

  // ---- The conditions

  function Selectable(db: Db, N: set<Pkg>): set<Pkg> {
    set p | p in N && p in db.candidate && db.Candidate(p) != db.Current(p)
  }

  /** What the packages `C` need is no trouble. */
  ghost predicate Benign(db: Db, C: set<Pkg>) {
    db.Valid() &&
    forall p :: p in C && Preferred(db, p).Some? ==> BenignGroups(db, C, p, db.Groups(Preferred(db, p).value))
  }

  /** `N` has whatever its members choose, and is small enough for the recursion limit. */
  ghost predicate Bounded(db: Db, N: set<Pkg>) {
    |Selectable(db, N)| <= 100 && forall p, q :: p in N && Chooses(db, p, q) ==> q in N
  }

  /** Nothing is deleted and only more is installed. */
  ghost predicate Grows(s: Plan, s': Plan) {
    s.del == s'.del == {} && s.ins <= s'.ins
  }

  ghost predicate CandidatesSatisfy(db: Db, g: Group) {
    exists a :: a in g.alts && CandidateSat(db, g.kind, a)
  }

  /** Every group that is looked at and that the candidates could satisfy is satisfied. */
  ghost predicate Complete(db: Db, s: Plan, p: Pkg, gs: seq<Group>) {
    forall g :: g in gs && Considered(db, p, g) && CandidatesSatisfy(db, g) ==> s.GroupSat(db, g)
  }

  ghost predicate CompletePackage(db: Db, s: Plan, p: Pkg) {
    Preferred(db, p).Some? ==> Complete(db, s, p, db.Groups(Preferred(db, p).value))
  }

  /** What has been selected since. */
  ghost function New(s: Plan, s': Plan): set<Pkg> {
    s'.ins - s.ins
  }

  ghost predicate NewlyComplete(db: Db, s: Plan, s': Plan) {
    forall q :: q in New(s, s') ==> CompletePackage(db, s', q)
  }

  lemma AltStays(db: Db, C: set<Pkg>, s: Plan, s': Plan, k: DepKind, a: Alt)
    requires db.Valid() && Grows(s, s') && s'.Valid(db) && s'.ins <= C && !Negative(k)
    requires BenignAlt(db, C, a) && s.AltSat(db, k, a)
    ensures s'.AltSat(db, k, a)
  {
    var v :| v in a.Versions() && s.Present(db, v);
    var p := v.package;
    var w := if p in s'.ins then db.candidate[p] else v;
    assert w in a.Versions() && s'.Present(db, w);
  }

  lemma NoConflictHolds(db: Db, C: set<Pkg>, s: Plan, k: DepKind, a: Alt)
    requires s.del == {} && s.ins <= C && Negative(k) && NoConflict(db, C, a)
    ensures s.AltSat(db, k, a)
  {
  }

  /** A negative group always holds. */
  lemma NegativeHolds(db: Db, C: set<Pkg>, s: Plan, g: Group)
    requires s.del == {} && s.ins <= C && Negative(g.kind) && BenignGroup(db, C, g)
    ensures s.GroupSat(db, g)
  {
    var a :| a in g.alts && NoConflict(db, C, a);
    NoConflictHolds(db, C, s, g.kind, a);
  }

  lemma GroupStays(db: Db, C: set<Pkg>, s: Plan, s': Plan, g: Group)
    requires db.Valid() && Grows(s, s') && s'.Valid(db) && s'.ins <= C && BenignGroup(db, C, g) && s.GroupSat(db, g)
    ensures s'.GroupSat(db, g)
  {
    if Negative(g.kind) {
      NegativeHolds(db, C, s', g);
    } else {
      var a :| a in g.alts && s.AltSat(db, g.kind, a);
      AltStays(db, C, s, s', g.kind, a);
    }
  }

  lemma CompleteStays(db: Db, C: set<Pkg>, s: Plan, s': Plan, p: Pkg, gs: seq<Group>)
    requires db.Valid() && Grows(s, s') && s'.Valid(db) && s'.ins <= C && BenignGroups(db, C, p, gs)
    requires Complete(db, s, p, gs)
    ensures Complete(db, s', p, gs)
  {
    hide Plan.GroupSat, CandidatesSatisfy, BenignGroup;
    forall g | g in gs && Considered(db, p, g) && CandidatesSatisfy(db, g)
      ensures s'.GroupSat(db, g)
    {
      GroupStays(db, C, s, s', g);
    }
  }

  lemma CompletePackageStays(db: Db, C: set<Pkg>, s: Plan, s': Plan, p: Pkg)
    requires Benign(db, C) && p in C && Grows(s, s') && s'.Valid(db) && s'.ins <= C && CompletePackage(db, s, p)
    ensures CompletePackage(db, s', p)
  {
    hide Complete, BenignGroups;
    if Preferred(db, p).Some? {
      CompleteStays(db, C, s, s', p, db.Groups(Preferred(db, p).value));
    }
  }

  lemma NewlyCompleteStays(db: Db, C: set<Pkg>, s: Plan, s1: Plan, s': Plan)
    requires Benign(db, C) && s1.Valid(db) && Grows(s, s1) && Grows(s1, s') && s'.Valid(db) && s'.ins <= C
    requires NewlyComplete(db, s, s1) && NewlyComplete(db, s1, s')
    ensures NewlyComplete(db, s, s')
  {
    hide CompletePackage, Benign;
    forall q | q in New(s, s')
      ensures CompletePackage(db, s', q)
    {
      if q in s1.ins {
        CompletePackageStays(db, C, s1, s', q);
      }
    }
  }

  lemma RelatedGrows(db: Db, s: Plan, p: Pkg)
    requires db.Valid() && p in db.candidate && s.Valid(db)
    ensures var s1 := MarkRelated(db, s, db.candidate[p]); s1.Valid(db) && s1.del == s.del && s1.ins == s.ins
  {
    hide MarkRelated;
  }

  // ---- Marking

  lemma MarkShape(db: Db, s: Plan, p: Pkg)
    requires s.Valid(db) && s.del == {}
    ensures var s2 := MarkInstall(db, s, p);
      && s2.del == {} && (s2.ins == s.ins || s2.ins == s.ins - {p} || s2.ins == s.ins + {p})
      && (p in db.candidate ==> (p in s2.ins <==> db.Candidate(p) != db.Current(p)))
      && (p !in db.candidate ==> s2 == s)
  {
    hide Plan.InstBroken, Plan.PolicyBroken;
  }

  /** Marking a package whose candidate is installed already keeps it, and takes its auto flag
      unless all its important groups are satisfied. */
  lemma MarkUpToDate(db: Db, s: Plan, p: Pkg)
    requires p in db.candidate && db.Candidate(p) == db.Current(p)
    ensures var s2 := MarkInstall(db, s, p);
      && p !in s2.del && p !in s2.ins
      && (p in s2.auto <==>
            && p in s.auto
            && (s.InstVer(db, p).Some? ==>
                  forall g :: g in db.Groups(s.InstVer(db, p).value) && db.Important(g.kind) ==> s.GroupSat(db, g)))
  {
    hide Plan.GroupSat;
  }

  /** Marking a package again that is selected already leaves it selected, and takes its auto
      flag unless all its important groups are satisfied. */
  lemma MarkAgain(db: Db, s: Plan, p: Pkg)
    requires s.Valid(db) && p in s.ins
    ensures MarkInstall(db, s, p).ins == s.ins && MarkInstall(db, s, p).del == s.del
    ensures p in MarkInstall(db, s, p).auto <==>
              && p in s.auto
              && forall g :: g in db.Groups(db.candidate[p]) && db.Important(g.kind) ==> s.GroupSat(db, g)
  {
    hide Plan.GroupSat;
    assert s.ins + {p} == s.ins && s.del - {p} == s.del;
  }

  lemma MarkAuto(db: Db, s: Plan, p: Pkg)
    requires p !in s.ins
    ensures var s2 := MarkInstall(db, s, p);
      (p in s2.ins ==> p !in s2.auto) && forall q :: q != p ==> (q in s2.auto <==> q in s.auto)
  {
    hide Plan.InstBroken, Plan.PolicyBroken;
  }

  // ---- The recursion

  /** The level stays below the number of packages selected since the beginning, because an
      installation only recurses into a package that is not selected yet. */
  ghost predicate LevelOk(db: Db, base: set<Pkg>, s: Plan, p: Pkg, level: nat) {
    level == 0 || (p in db.candidate && db.Candidate(p) != db.Current(p) && level <= |s.ins - base| + 1)
  }

  /** What an installation starts from: nothing is deleted, and what has been selected since
      `base` is within `N`. */
  ghost predicate Ready(db: Db, C: set<Pkg>, N: set<Pkg>, base: set<Pkg>, s: Plan) {
    && Benign(db, C) && Bounded(db, N) && N <= C
    && s.Valid(db) && s.del == {} && s.ins <= C && base <= s.ins && s.ins - base <= N
  }

  lemma LevelBounded(db: Db, C: set<Pkg>, N: set<Pkg>, base: set<Pkg>, s: Plan, p: Pkg, level: nat)
    requires Ready(db, C, N, base, s) && p in N && p !in s.ins && LevelOk(db, base, s, p, level)
    ensures level <= MAX_LEVEL
  {
    hide Benign;
    if level > 0 {
      var now := s.ins - base;
      assert now + {p} <= Selectable(db, N);
      assert |now + {p}| == |now| + 1;
      SubsetCount(now + {p}, Selectable(db, N));
    }
  }

  lemma MarkGrows(db: Db, s: Plan, p: Pkg)
    requires db.Valid() && s.Valid(db) && s.del == {} && p !in s.ins
    ensures var s2 := MarkInstall(db, s, p);
      && s2.Valid(db) && Grows(s, s2) && (s2.ins == s.ins || s2.ins == s.ins + {p})
      && s2.InstVer(db, p) == Preferred(db, p)
  {
    hide MarkInstall;
    MarkShape(db, s, p);
    NotIn(s.ins, p);
  }

  lemma LevelGrows(db: Db, base: set<Pkg>, s: Plan, s2: Plan, p: Pkg, level: nat)
    requires base <= s.ins && p !in s.ins && s2.del == {} && LevelOk(db, base, s, p, level)
    requires (s2.ins == s.ins || s2.ins == s.ins + {p}) && s2.InstVer(db, p) == Preferred(db, p)
    ensures level <= |s2.ins - base|
  {
    OneMore(base, s.ins, p);
  }

  lemma NotIn(ins: set<Pkg>, p: Pkg)
    requires p !in ins
    ensures ins - {p} == ins && p in ins + {p}
  {
  }

  lemma OneMore(base: set<Pkg>, ins: set<Pkg>, p: Pkg)
    requires base <= ins && p !in ins
    ensures |(ins + {p}) - base| == |ins - base| + 1
  {
    assert (ins + {p}) - base == (ins - base) + {p};
  }

  /** What holds after an installation. */
  ghost predicate Done(db: Db, N: set<Pkg>, s: Plan, s': Plan) {
    s'.Valid(db) && Grows(s, s') && New(s, s') <= N && NewlyComplete(db, s, s')
  }

  lemma DoneReady(db: Db, C: set<Pkg>, N: set<Pkg>, base: set<Pkg>, s: Plan, s': Plan)
    requires Ready(db, C, N, base, s) && Done(db, N, s, s')
    ensures Ready(db, C, N, base, s') && |s.ins - base| <= |s'.ins - base|
  {
    hide Benign, Bounded, NewlyComplete;
    MoreSince(base, s.ins, s'.ins);
  }

  lemma MoreSince(base: set<Pkg>, ins: set<Pkg>, ins': set<Pkg>)
    requires ins <= ins'
    ensures |ins - base| <= |ins' - base|
  {
    SubsetCount(ins - base, ins' - base);
  }

  /** The state once `p` has been marked, before its groups are looked at. */
  ghost function Marked(db: Db, s: Plan, p: Pkg): Plan
    requires db.Valid()
  {
    MarkInstall(db, match db.Candidate(p) case Some(c) => MarkRelated(db, s, c) case None => s, p)
  }

  lemma MarkedReady(db: Db, C: set<Pkg>, N: set<Pkg>, base: set<Pkg>, s: Plan, p: Pkg, level: nat)
    requires Ready(db, C, N, base, s) && p in N && p !in s.ins && LevelOk(db, base, s, p, level)
    ensures db.Valid() && level <= MAX_LEVEL
    ensures var s2 := Marked(db, s, p);
      && Ready(db, C, N, base, s2) && Grows(s, s2) && s2.ins <= s.ins + {p} && level <= |s2.ins - base|
      && s2.InstVer(db, p) == Preferred(db, p)
      && (p in s2.ins ==> p !in s2.auto) && forall q :: q != p ==> (q in s2.auto <==> q in s.auto)
  {
    hide MarkRelated, MarkInstall, Benign, Bounded, Preferred;
    LevelBounded(db, C, N, base, s, p, level);
    BenignIsValid(db, C);
    var s1 := match db.Candidate(p) case Some(c) => MarkRelated(db, s, c) case None => s;
    if p in db.candidate {
      RelatedGrows(db, s, p);
    }
    MarkGrows(db, s1, p);
    LevelGrows(db, base, s1, MarkInstall(db, s1, p), p, level);
    MarkAuto(db, s1, p);
  }

  lemma InstallUnfolds(db: Db, s: Plan, p: Pkg, level: nat)
    requires db.Valid() && p !in s.ins && p !in s.del && level <= MAX_LEVEL
    requires Marked(db, s, p).del == {} && Marked(db, s, p).InstVer(db, p) == Preferred(db, p)
    ensures Install1(db, s, p, level) ==
      match Preferred(db, p)
      case None => Marked(db, s, p)
      case Some(v) => InstallGroups(db, Marked(db, s, p), p, db.Groups(v), level)
  {
    hide MarkInstall, InstallGroups, Plan.InstBroken, MarkRelated;
  }

  lemma {:induction false} InstallCompletes(db: Db, C: set<Pkg>, N: set<Pkg>, base: set<Pkg>, s: Plan, p: Pkg, level: nat)
    requires Ready(db, C, N, base, s) && p in N && p !in s.ins && LevelOk(db, base, s, p, level)
    ensures var s' := Install1(db, s, p, level);
      Done(db, N, s, s') && CompletePackage(db, s', p) && s'.InstVer(db, p) == Preferred(db, p)
    decreases MAX_LEVEL + 1 - level, 0
  {
    MarkedReady(db, C, N, base, s, p, level);
    InstallUnfolds(db, s, p, level);
    hide Marked, Install1, CompletePackage, Benign, Bounded;
    var s2 := Marked(db, s, p);
    if Preferred(db, p).Some? {
      var gs := db.Groups(Preferred(db, p).value);
      InstallGroupsComplete(db, C, N, base, s2, p, gs, level);
      InstallDone(db, N, s, s2, InstallGroups(db, s2, p, gs, level), p);
    } else {
      NoPreferred(db, s2, p);
    }
  }

  lemma NoPreferred(db: Db, s: Plan, p: Pkg)
    requires Preferred(db, p).None?
    ensures CompletePackage(db, s, p)
  {
  }

  /** Putting `p` and what its groups selected together. */
  lemma InstallDone(db: Db, N: set<Pkg>, s: Plan, s2: Plan, s': Plan, p: Pkg)
    requires p in N && Grows(s, s2) && s2.ins <= s.ins + {p} && s2.Valid(db) && Done(db, N, s2, s')
    requires s2.InstVer(db, p) == Preferred(db, p) && Preferred(db, p).Some?
    requires Complete(db, s', p, db.Groups(Preferred(db, p).value))
    ensures Done(db, N, s, s') && CompletePackage(db, s', p) && s'.InstVer(db, p) == Preferred(db, p)
  {
    hide Complete;
    forall q | q in New(s, s')
      ensures CompletePackage(db, s', q)
    {
      assert q == p || q in New(s2, s');
    }
  }

  lemma {:induction false} InstallGroupsComplete(db: Db, C: set<Pkg>, N: set<Pkg>, base: set<Pkg>, s: Plan,
                                                 p: Pkg, gs: seq<Group>, level: nat)
    requires Ready(db, C, N, base, s) && p in N && level <= MAX_LEVEL && level <= |s.ins - base|
    requires Preferred(db, p).Some? && forall g :: g in gs ==> g in db.Groups(Preferred(db, p).value)
    requires db.ValidGroups(gs)
    ensures var s' := InstallGroups(db, s, p, gs, level); Done(db, N, s, s') && Complete(db, s', p, gs)
    decreases MAX_LEVEL - level, 2, |gs|
  {
    assert db.Valid() && s.Valid(db) && Grows(s, s) && New(s, s) <= N by {
      BenignIsValid(db, C);
    }
    hide Complete, Benign, Bounded, Preferred, NewlyComplete, Ready, Grows, New;
    if gs == [] {
      NothingNew(db, s, p);
    } else {
      assert gs[0] in gs;
      var s1 := InstallGroup(db, s, p, gs[0], level);
      InstallGroupCompletes(db, C, N, base, s, p, gs[0], level);
      DoneReady(db, C, N, base, s, s1);
      InstallGroupsComplete(db, C, N, base, s1, p, gs[1..], level);
      GroupsDone(db, C, N, base, s, s1, InstallGroups(db, s, p, gs, level), p, gs);
    }
  }

  lemma GroupsDone(db: Db, C: set<Pkg>, N: set<Pkg>, base: set<Pkg>, s: Plan, s1: Plan, s': Plan, p: Pkg, gs: seq<Group>)
    requires Ready(db, C, N, base, s1) && p in N && gs != [] && Preferred(db, p).Some?
    requires gs[0] in db.Groups(Preferred(db, p).value)
    requires Done(db, N, s, s1) && Complete(db, s1, p, [gs[0]])
    requires Done(db, N, s1, s') && Complete(db, s', p, gs[1..])
    ensures Done(db, N, s, s') && Complete(db, s', p, gs)
  {
    hide Complete, Benign, Bounded, Preferred, NewlyComplete;
    DoneReady(db, C, N, base, s1, s');
    NewlyCompleteStays(db, C, s, s1, s');
    OneGroupStays(db, C, s1, s', p, gs[0]);
    CompleteCons(db, s', p, gs);
  }

  lemma CompleteCons(db: Db, s: Plan, p: Pkg, gs: seq<Group>)
    requires gs != [] && Complete(db, s, p, [gs[0]]) && Complete(db, s, p, gs[1..])
    ensures Complete(db, s, p, gs)
  {
    hide Plan.GroupSat, CandidatesSatisfy;
    assert forall g :: g in gs ==> g in [gs[0]] || g in gs[1..];
  }

  lemma OneGroupStays(db: Db, C: set<Pkg>, s: Plan, s': Plan, p: Pkg, g: Group)
    requires Benign(db, C) && p in C && Grows(s, s') && s'.Valid(db) && s'.ins <= C
    requires Preferred(db, p).Some? && g in db.Groups(Preferred(db, p).value) && Complete(db, s, p, [g])
    ensures Complete(db, s', p, [g])
  {
    hide Complete, BenignGroup;
    CompleteStays(db, C, s, s', p, [g]);
  }

  lemma BenignIsValid(db: Db, C: set<Pkg>)
    requires Benign(db, C)
    ensures db.Valid()
  {
  }

  lemma NothingNew(db: Db, s: Plan, p: Pkg)
    ensures NewlyComplete(db, s, s) && Complete(db, s, p, [])
  {
  }

  /** The auto flags play no role. */
  lemma AutoSame(db: Db, N: set<Pkg>, s: Plan, s1: Plan, auto: set<Pkg>)
    requires Done(db, N, s, s1)
    ensures Done(db, N, s, s1.(auto := auto))
  {
    var s' := s1.(auto := auto);
    assert forall v :: s1.Present(db, v) == s'.Present(db, v);
    assert forall k, a :: s1.AltSat(db, k, a) == s'.AltSat(db, k, a);
    assert forall g :: s1.GroupSat(db, g) == s'.GroupSat(db, g);
    forall q | q in New(s, s')
      ensures CompletePackage(db, s', q)
    {
      assert CompletePackage(db, s1, q);
    }
  }

  lemma NotYetSelected(db: Db, s: Plan, g: Group, a: Alt, q: Pkg)
    requires db.Valid() && s.Valid(db) && s.del == {} && !Negative(g.kind) && a in g.alts && !s.GroupSat(db, g)
    requires q in db.candidate && db.candidate[q] in a.Versions()
    ensures q !in s.ins && db.Candidate(q) != db.Current(q)
  {
    assert !s.AltSat(db, g.kind, a);
    assert !s.Present(db, db.candidate[q]);
  }

  lemma SelectedSatisfies(db: Db, s: Plan, g: Group, a: Alt, q: Pkg)
    requires db.Valid() && !Negative(g.kind) && a in g.alts
    requires q in db.candidate && db.candidate[q] in a.Versions() && s.InstVer(db, q) == db.Candidate(q)
    ensures s.GroupSat(db, g)
  {
    assert s.Present(db, db.candidate[q]);
    assert s.AltSat(db, g.kind, a);
  }

  lemma ChosenIn(db: Db, N: set<Pkg>, p: Pkg, g: Group, i: nat, q: Pkg)
    requires Bounded(db, N) && p in N && Preferred(db, p).Some? && g in db.Groups(Preferred(db, p).value)
    requires ChosenFor(db, p, g, i, q)
    ensures q in N && g.alts[i] in g.alts
  {
    hide ChosenFor;
    assert g.alts[i] in g.alts by {
      ChosenAlternative(db, p, g, i, q);
    }
    assert ChosenBy(db, p, q, g.alts[i].target !in db.current);
    assert Chooses(db, p, q);
  }

  lemma ChosenAlternative(db: Db, p: Pkg, g: Group, i: nat, q: Pkg)
    requires ChosenFor(db, p, g, i, q)
    ensures i < |g.alts| && !Negative(g.kind)
  {
  }

  lemma BenignGroupOf(db: Db, C: set<Pkg>, p: Pkg, g: Group)
    requires Benign(db, C) && p in C && Preferred(db, p).Some? && g in db.Groups(Preferred(db, p).value)
    ensures db.ValidGroup(g) && (Considered(db, p, g) ==> BenignGroup(db, C, g))
  {
    hide BenignGroup;
    assert db.ValidGroups(db.Groups(Preferred(db, p).value));
  }

  /** A satisfied group, or one that is not looked at, or that cannot be satisfied. */
  lemma GroupPassed(db: Db, s: Plan, p: Pkg, g: Group)
    requires s.GroupSat(db, g) || !Considered(db, p, g) || !CandidatesSatisfy(db, g)
    ensures Complete(db, s, p, [g])
  {
  }

  lemma {:induction false} InstallGroupCompletes(db: Db, C: set<Pkg>, N: set<Pkg>, base: set<Pkg>, s: Plan,
                                                 p: Pkg, g: Group, level: nat)
    requires Ready(db, C, N, base, s) && p in N && level <= MAX_LEVEL && level <= |s.ins - base|
    requires Preferred(db, p).Some? && g in db.Groups(Preferred(db, p).value) && db.ValidGroup(g)
    ensures var s' := InstallGroup(db, s, p, g, level); Done(db, N, s, s') && Complete(db, s', p, [g])
    decreases MAX_LEVEL - level, 1
  {
    hide NewlyComplete, Complete, Install1, Plan.GroupSat, BenignGroup, Benign, Bounded, CandidatesSatisfy, ChosenFor;
    hide Preferred, PickPackage, ChooseAlt, CandidateSat;
    BenignGroupOf(db, C, p, g);
    BenignIsValid(db, C);
    NothingNew(db, s, p);
    if Negative(g.kind) {
      if Considered(db, p, g) {
        NegativeHolds(db, C, s, g);
      }
      GroupPassed(db, s, p, g);
    } else {
      GroupChooses(db, s, p, g, level);
      if !s.GroupSat(db, g) && Considered(db, p, g) && CandidatesSatisfy(db, g) {
        var i: nat, q :| ChosenFor(db, p, g, i, q) && i < |g.alts|
                         && q in db.candidate && db.candidate[q] in g.alts[i].Versions();
        ChosenIn(db, N, p, g, i, q);
        NotYetSelected(db, s, g, g.alts[i], q);
        InstallCompletes(db, C, N, base, s, q, level + 1);
        GroupInstalls(db, s, p, g, level, i, q);
        AfterChoice(db, N, s, p, g, i, q, Install1(db, s, q, level + 1));
      } else {
        GroupPassed(db, s, p, g);
      }
    }
  }

  lemma AfterChoice(db: Db, N: set<Pkg>, s: Plan, p: Pkg, g: Group, i: nat, q: Pkg, s1: Plan)
    requires db.Valid() && Done(db, N, s, s1) && s1.InstVer(db, q) == Preferred(db, q)
    requires ChosenFor(db, p, g, i, q) && q in db.candidate && db.candidate[q] in g.alts[i].Versions()
    ensures var s' := s1.(auto := if g.alts[i].target in db.current then s1.auto else s1.auto + {q});
            Done(db, N, s, s') && Complete(db, s', p, [g])
  {
    hide Done, Complete, Plan.GroupSat, CandidateSat, Picked;
    var s' := s1.(auto := if g.alts[i].target in db.current then s1.auto else s1.auto + {q});
    AutoSame(db, N, s, s1, s'.auto);
    SelectedSatisfies(db, s', g, g.alts[i], q);
    GroupPassed(db, s', p, g);
  }

  lemma MarkedAgain(db: Db, s: Plan, p: Pkg)
    requires db.Valid() && s.Valid(db) && s.del == {} && p in s.ins
    ensures var s1 := MarkRelated(db, s, db.candidate[p]); var s2 := MarkInstall(db, s1, p);
      && s1.InstBroken(db, p) == s.InstBroken(db, p) && s1.ins == s.ins && s1.del == {} && s1.Valid(db)
      && s2.ins == s.ins && s2.del == {} && s2.Valid(db) && s2.InstVer(db, p) == Preferred(db, p)
  {
    hide MarkRelated, MarkInstall, Plan.InstBroken;
    RelatedGrows(db, s, p);
    var s1 := MarkRelated(db, s, db.candidate[p]);
    SameBroken(db, s, s1, p);
    MarkAgain(db, s1, p);
  }

  lemma SameBroken(db: Db, s: Plan, s1: Plan, p: Pkg)
    requires s1.ins == s.ins && s1.del == s.del
    ensures s1.InstBroken(db, p) == s.InstBroken(db, p)
  {
    assert forall v :: s1.Present(db, v) == s.Present(db, v);
    assert forall k, a :: s1.AltSat(db, k, a) == s.AltSat(db, k, a);
    assert forall g :: s1.GroupSat(db, g) == s.GroupSat(db, g);
  }

  /** Installing a package again that is selected already repairs it if it is broken, and
      selects nothing otherwise. */
  lemma SelectedIsRepaired(db: Db, C: set<Pkg>, N: set<Pkg>, base: set<Pkg>, s: Plan, p: Pkg)
    requires Ready(db, C, N, base, s) && p in N && p in s.ins
    ensures var s' := Install1(db, s, p, 0);
      if s.InstBroken(db, p) then Done(db, N, s, s') && CompletePackage(db, s', p) else s'.ins == s.ins && s'.del == {}
  {
    BenignIsValid(db, C);
    hide Benign, Bounded, MarkRelated, MarkInstall, Plan.InstBroken, Complete;
    MarkedAgain(db, s, p);
    var s2 := MarkInstall(db, MarkRelated(db, s, db.candidate[p]), p);
    if s.InstBroken(db, p) {
      assert Ready(db, C, N, base, s2);
      InstallGroupsComplete(db, C, N, base, s2, p, db.Groups(Preferred(db, p).value), 0);
      InstallDone(db, N, s, s2, Install1(db, s, p, 0), p);
    }
  }

  // ---- Nothing else is selected

  /** What selected `q`: a group of `p`, or of another newly selected package. */
  ghost predicate HasReason(db: Db, s: Plan, s': Plan, p: Pkg, q: Pkg) {
    exists r :: (r == p || r in New(s, s')) && ChosenBy(db, r, q, q in s'.auto)
  }

  /** Whatever is newly selected has a reason, and other auto flags stay. */
  ghost predicate GroupReasons(db: Db, s: Plan, s': Plan, p: Pkg) {
    && (forall q :: q in New(s, s') ==> HasReason(db, s, s', p, q))
    && (forall q :: q !in New(s, s') ==> (q in s'.auto <==> q in s.auto))
  }

  /** The same, but for `p` itself, which is no automatic package once it is selected. */
  ghost predicate InstallReasons(db: Db, s: Plan, s': Plan, p: Pkg) {
    && (forall q :: q in New(s, s') && q != p ==> HasReason(db, s, s', p, q))
    && (p in New(s, s') ==> p !in s'.auto)
    && (forall q :: q !in New(s, s') && q != p ==> (q in s'.auto <==> q in s.auto))
  }

  lemma ReasonsCompose(db: Db, s: Plan, s1: Plan, s': Plan, p: Pkg)
    requires Grows(s, s1) && Grows(s1, s') && GroupReasons(db, s, s1, p) && GroupReasons(db, s1, s', p)
    ensures GroupReasons(db, s, s', p)
  {
    hide ChosenBy;
    forall q | q in New(s, s')
      ensures HasReason(db, s, s', p, q)
    {
      if q in s1.ins {
        assert HasReason(db, s, s1, p, q) && q !in New(s1, s');
      } else {
        assert HasReason(db, s1, s', p, q);
      }
    }
  }

  lemma {:induction false} InstallHasReasons(db: Db, C: set<Pkg>, N: set<Pkg>, base: set<Pkg>, s: Plan, p: Pkg, level: nat)
    requires Ready(db, C, N, base, s) && p in N && p !in s.ins && LevelOk(db, base, s, p, level)
    ensures InstallReasons(db, s, Install1(db, s, p, level), p)
    decreases MAX_LEVEL + 1 - level, 0
  {
    MarkedReady(db, C, N, base, s, p, level);
    InstallUnfolds(db, s, p, level);
    hide Marked, Install1, Benign, Bounded, GroupReasons, InstallReasons, NewlyComplete;
    var s2 := Marked(db, s, p);
    if Preferred(db, p).Some? {
      var gs := db.Groups(Preferred(db, p).value);
      InstallGroupsComplete(db, C, N, base, s2, p, gs, level);
      GroupsHaveReasons(db, C, N, base, s2, p, gs, level);
      MarkedReasons(db, s, s2, InstallGroups(db, s2, p, gs, level), p);
    } else {
      SameReasons(db, s2, p);
      MarkedReasons(db, s, s2, s2, p);
    }
  }

  lemma SameReasons(db: Db, s: Plan, p: Pkg)
    ensures GroupReasons(db, s, s, p)
  {
  }

  lemma MarkedReasons(db: Db, s: Plan, s2: Plan, s': Plan, p: Pkg)
    requires Grows(s, s2) && s2.ins <= s.ins + {p} && Grows(s2, s') && s'.Valid(db) && p !in s.ins
    requires s2.InstVer(db, p) == Preferred(db, p) && GroupReasons(db, s2, s', p)
    requires p in s2.ins ==> p !in s2.auto
    requires forall q :: q != p ==> (q in s2.auto <==> q in s.auto)
    ensures InstallReasons(db, s, s', p)
  {
    hide ChosenBy;
    assert p in s'.ins ==> p in s2.ins;
    forall q | q in New(s, s') && q != p
      ensures HasReason(db, s, s', p, q)
    {
      assert HasReason(db, s2, s', p, q);
    }
  }

  lemma {:induction false} GroupsHaveReasons(db: Db, C: set<Pkg>, N: set<Pkg>, base: set<Pkg>, s: Plan,
                                             p: Pkg, gs: seq<Group>, level: nat)
    requires Ready(db, C, N, base, s) && p in N && level <= MAX_LEVEL && level <= |s.ins - base|
    requires Preferred(db, p).Some? && forall g :: g in gs ==> g in db.Groups(Preferred(db, p).value)
    requires db.ValidGroups(gs)
    ensures GroupReasons(db, s, InstallGroups(db, s, p, gs, level), p)
    decreases MAX_LEVEL - level, 2, |gs|
  {
    assert db.Valid() by {
      BenignIsValid(db, C);
    }
    hide Complete, Preferred, NewlyComplete, Ready, GroupReasons;
    if gs == [] {
      SameReasons(db, s, p);
    } else {
      assert gs[0] in gs;
      var s1 := InstallGroup(db, s, p, gs[0], level);
      InstallGroupCompletes(db, C, N, base, s, p, gs[0], level);
      DoneReady(db, C, N, base, s, s1);
      InstallGroupsComplete(db, C, N, base, s1, p, gs[1..], level);
      GroupHasReasons(db, C, N, base, s, p, gs[0], level);
      GroupsHaveReasons(db, C, N, base, s1, p, gs[1..], level);
      ReasonsCompose(db, s, s1, InstallGroups(db, s, p, gs, level), p);
    }
  }

  lemma {:induction false} GroupHasReasons(db: Db, C: set<Pkg>, N: set<Pkg>, base: set<Pkg>, s: Plan,
                                           p: Pkg, g: Group, level: nat)
    requires Ready(db, C, N, base, s) && p in N && level <= MAX_LEVEL && level <= |s.ins - base|
    requires Preferred(db, p).Some? && g in db.Groups(Preferred(db, p).value) && db.ValidGroup(g)
    ensures GroupReasons(db, s, InstallGroup(db, s, p, g, level), p)
    decreases MAX_LEVEL - level, 1
  {
    hide Install1, Plan.GroupSat, BenignGroup, Benign, Bounded, CandidatesSatisfy, ChosenFor, GroupReasons, InstallReasons;
    hide Preferred, PickPackage, ChooseAlt, CandidateSat, NewlyComplete;
    BenignGroupOf(db, C, p, g);
    BenignIsValid(db, C);
    SameReasons(db, s, p);
    if Negative(g.kind) {
      if Considered(db, p, g) {
        NegativeHolds(db, C, s, g);
      }
    } else {
      GroupChooses(db, s, p, g, level);
      if !s.GroupSat(db, g) && Considered(db, p, g) && CandidatesSatisfy(db, g) {
        var i: nat, q :| ChosenFor(db, p, g, i, q) && i < |g.alts|
                         && q in db.candidate && db.candidate[q] in g.alts[i].Versions();
        ChosenIn(db, N, p, g, i, q);
        NotYetSelected(db, s, g, g.alts[i], q);
        InstallCompletes(db, C, N, base, s, q, level + 1);
        InstallHasReasons(db, C, N, base, s, q, level + 1);
        GroupInstalls(db, s, p, g, level, i, q);
        var isAuto := g.alts[i].target !in db.current;
        ChosenByThis(db, p, g, i, q, isAuto);
        ChosenIsNew(db, N, s, q, Install1(db, s, q, level + 1));
        ChosenReasons(db, s, p, q, isAuto, Install1(db, s, q, level + 1), InstallGroup(db, s, p, g, level));
      }
    }
  }

  lemma DirectReason(db: Db, s: Plan, s': Plan, p: Pkg, q: Pkg)
    requires ChosenBy(db, p, q, q in s'.auto)
    ensures HasReason(db, s, s', p, q)
  {
    hide ChosenBy;
  }

  lemma ReasonKept(db: Db, s: Plan, s1: Plan, s': Plan, p: Pkg, q: Pkg, x: Pkg)
    requires HasReason(db, s, s1, q, x) && q in New(s, s1) && New(s, s') == New(s, s1)
    requires x in s'.auto <==> x in s1.auto
    ensures HasReason(db, s, s', p, x)
  {
    hide ChosenBy;
  }

  lemma ChosenIsNew(db: Db, N: set<Pkg>, s: Plan, q: Pkg, s1: Plan)
    requires Done(db, N, s, s1) && q !in s.ins && q in db.candidate && db.Candidate(q) != db.Current(q)
    requires s1.InstVer(db, q) == Preferred(db, q)
    ensures q in New(s, s1)
  {
    hide NewlyComplete;
  }

  lemma ChosenReasons(db: Db, s: Plan, p: Pkg, q: Pkg, isAuto: bool, s1: Plan, s': Plan)
    requires ChosenBy(db, p, q, isAuto) && q in New(s, s1) && InstallReasons(db, s, s1, q)
    requires s' == s1.(auto := if isAuto then s1.auto + {q} else s1.auto)
    ensures GroupReasons(db, s, s', p)
  {
    hide ChosenBy, HasReason;
    assert New(s, s') == New(s, s1) && (q in s'.auto <==> isAuto);
    forall x | x in New(s, s')
      ensures HasReason(db, s, s', p, x)
    {
      if x == q {
        DirectReason(db, s, s', p, q);
      } else {
        ReasonKept(db, s, s1, s', p, q, x);
      }
    }
  }

  lemma ChosenByThis(db: Db, p: Pkg, g: Group, i: nat, q: Pkg, isAuto: bool)
    requires Preferred(db, p).Some? && g in db.Groups(Preferred(db, p).value) && ChosenFor(db, p, g, i, q)
    requires isAuto == (g.alts[i].target !in db.current)
    ensures ChosenBy(db, p, q, isAuto)
  {
  }

  // ---- What a package needs

  ghost predicate NeededIn(db: Db, p: Pkg, q: Pkg, n: nat)
    decreases n
  {
    if n == 0 then p == q
    else exists m {:trigger Chooses(db, m, q)} :: Chooses(db, m, q) && NeededIn(db, p, m, n - 1)
  }

  /** The package and all that its groups choose, directly or not. */
  ghost function Needs(db: Db, p: Pkg): set<Pkg> {
    set q | q in db.packages && exists n: nat :: NeededIn(db, p, q, n)
  }

  lemma NeedsItself(db: Db, p: Pkg)
    requires p in db.packages
    ensures p in Needs(db, p)
  {
    assert NeededIn(db, p, p, 0);
  }

  lemma ChosenIsKnown(db: Db, p: Pkg, q: Pkg)
    requires db.Valid() && Chooses(db, p, q)
    ensures q in db.packages
  {
  }

  lemma NeedsMore(db: Db, p: Pkg, q: Pkg, r: Pkg)
    requires db.Valid() && q in Needs(db, p) && Chooses(db, q, r)
    ensures r in Needs(db, p)
  {
    ChosenIsKnown(db, q, r);
    hide Chooses;
    var n: nat :| NeededIn(db, p, q, n);
    assert NeededIn(db, p, r, n + 1);
  }

  lemma NeedsBounded(db: Db, p: Pkg)
    requires db.Valid() && |Selectable(db, Needs(db, p))| <= 100
    ensures Bounded(db, Needs(db, p))
  {
    hide Needs, Chooses;
    forall q, r | q in Needs(db, p) && Chooses(db, q, r)
      ensures r in Needs(db, p)
    {
      NeedsMore(db, p, q, r);
    }
  }

  /** Every selected package but `p` is chosen by a group of `p` or of a selected package. */
  ghost predicate OnlyChosen(db: Db, s: Plan, p: Pkg) {
    forall q :: q in s.ins && q != p ==> exists r :: (r == p || r in s.ins) && ChosenBy(db, r, q, q in s.auto)
  }

  /** Within any set that is benign and has what its members choose, planning an
      installation selects the package's candidate and just what is chosen.  Of every
      selected package all groups that are looked at are satisfied if candidates can do
      that. */
  lemma InstallSelectsWithin(db: Db, N: set<Pkg>, autoinst: set<Pkg>, p: Pkg)
    requires Benign(db, N) && Bounded(db, N) && p in N && p in db.packages
    ensures var s := PlanInstall(db, autoinst, ResetPlan(autoinst), p);
      && s.del == {} && s.ins <= N && s.InstVer(db, p) == Preferred(db, p)
      && CompletePackage(db, s, p) && (forall q :: q in s.ins ==> CompletePackage(db, s, q))
      && OnlyChosen(db, s, p) && (p in s.ins ==> p !in s.auto)
  {
    assert db.Valid();
    var s0 := ResetPlan(autoinst);
    hide CompletePackage, Install1, Benign, Bounded, ChosenBy;
    InstallCompletes(db, N, N, {}, s0, p, 0);
    InstallHasReasons(db, N, N, {}, s0, p, 0);
    var s := Install1(db, s0, p, 0);
    forall q | q in s.ins && q != p
      ensures exists r :: (r == p || r in s.ins) && ChosenBy(db, r, q, q in s.auto)
    {
      assert HasReason(db, s0, s, p, q);
    }
    NothingToFix(db, s, autoinst);
  }

  /** So it does within the needs of the package, over which the conditions can be checked
      before it is installed. */
  lemma InstallSelects(db: Db, autoinst: set<Pkg>, p: Pkg)
    requires p in db.packages && Benign(db, Needs(db, p)) && |Selectable(db, Needs(db, p))| <= 100
    ensures var s := PlanInstall(db, autoinst, ResetPlan(autoinst), p);
      && s.del == {} && s.ins <= Needs(db, p) && s.InstVer(db, p) == Preferred(db, p)
      && CompletePackage(db, s, p) && (forall q :: q in s.ins ==> CompletePackage(db, s, q))
      && OnlyChosen(db, s, p) && (p in s.ins ==> p !in s.auto)
  {
    assert db.Valid();
    hide Benign, Needs, PlanInstall, CompletePackage, OnlyChosen, Bounded;
    NeedsItself(db, p);
    NeedsBounded(db, p);
    InstallSelectsWithin(db, Needs(db, p), autoinst, p);
  }

  lemma NothingToFix(db: Db, s: Plan, autoinst: set<Pkg>)
    requires s.del == {}
    ensures FixSoft(db, s, autoinst) == s
  {
    FixSoftSettles(db, s, autoinst);
    assert PutBack(s, autoinst, {}) == s;
  }
}
