/** What planning an installation or a removal does to the desired state, as
    functions of that state.  `PackageCache` does the same by updating fields. */
module Planner {
  import opened Wrappers
  import opened PackageDb

  const MAX_LEVEL := 100

  // ---- The cache interface

  /** Deleting a package that is not installed only takes back its installation. */
  function MarkDelete(db: Db, s: Plan, p: Pkg): Plan {
    if s.InstVer(db, p).None? then s
    else if p !in db.current then s.(ins := s.ins - {p})
    else s.(del := s.del + {p}, ins := s.ins - {p})
  }

  function MarkKeep(s: Plan, p: Pkg): Plan {
    s.(del := s.del - {p}, ins := s.ins - {p})
  }

  /** Marking selects the candidate and clears the auto flag; a candidate that is the
      current version leaves mode Keep. */
  function MarkInstall(db: Db, s: Plan, p: Pkg): Plan {
    if p !in db.candidate then s
    else if db.Candidate(p) == db.Current(p) then
      if !s.InstBroken(db, p) && !s.PolicyBroken(db, p) then MarkKeep(s, p)
      else MarkKeep(s, p).(auto := s.auto - {p})
    else if p in s.ins && !s.InstBroken(db, p) && !s.PolicyBroken(db, p) then s
    else s.(del := s.del - {p}, ins := s.ins + {p}, auto := s.auto - {p})
  }

  function ResetPackage(s: Plan, autoinst: set<Pkg>, p: Pkg): Plan {
    MarkKeep(s, p).(
      auto := if p in autoinst then s.auto + {p} else s.auto - {p},
      related := s.related - {p},
      soft := s.soft - {p})
  }

  // ---- Related packages

  ghost predicate OnlyRelatedGrows(s: Plan, s': Plan) {
    s' == s.(related := s'.related) && s.related <= s'.related
  }

  function MarkRelated(db: Db, s: Plan, v: Ver): (s': Plan)
    requires db.Valid() && v.package in db.packages
    ensures OnlyRelatedGrows(s, s')
    decreases db.All() - s.related, 0
  {
    var p := v.package;
    if p in s.related then s
    else
      var s1 := s.(related := s.related + {p});
      assert p in db.All() - s.related && p !in db.All() - s1.related;
      if db.unsettled != {} then RelateTargets(db, s1, GroupTargets(db.Groups(v), false)) else s1
  }

  function RelateTargets(db: Db, s: Plan, ts: seq<Pkg>): (s': Plan)
    requires db.Valid()
    ensures OnlyRelatedGrows(s, s')
    decreases db.All() - s.related, |ts|
  {
    if ts == [] then s
    else
      var s1 := match db.Current(ts[0]) case Some(w) => MarkRelated(db, s, w) case None => s;
      RelateTargets(db, s1, ts[1..])
  }

  // ---- Removal

  /** An automatically installed, installed package outside the user sections. */
  predicate Removable(db: Db, s: Plan, p: Pkg) {
    p in s.auto && p in db.current && !db.current[p].user
  }

  function HardTargets(db: Db, p: Pkg): seq<Pkg> {
    match db.Current(p)
    case Some(v) => GroupTargets(db.Groups(v), true)
    case None => []
  }

  /** The state right after `p` itself has been marked for deletion. */
  function RemoveSelf(db: Db, s: Plan, p: Pkg, soft: bool): Plan {
    MarkDelete(db, s, p).(
      auto := s.auto - {p},
      soft := if soft then s.soft + {p} else s.soft - {p})
  }

  function Remove1(db: Db, s: Plan, p: Pkg, soft: bool): (s': Plan)
    requires db.Valid() && p in db.packages
    ensures s.del <= s'.del
    decreases db.All() - s.del, 0
  {
    if p in s.del then s
    else
      var s1 := RemoveSelf(db, s, p, soft);
      if p !in s1.del then s1
      else
        assert p in db.All() - s.del && p !in db.All() - s1.del;
        TargetsKnown(db, db.current[p], true);
        RemoveTargets(db, s1, HardTargets(db, p))
  }

  function RemoveTargets(db: Db, s: Plan, ts: seq<Pkg>): (s': Plan)
    requires db.Valid() && forall t :: t in ts ==> t in db.packages
    ensures s.del <= s'.del
    decreases db.All() - s.del, |ts|
  {
    if ts == [] then s
    else
      var s1 := if Removable(db, s, ts[0]) then Remove1(db, s, ts[0], true) else s;
      RemoveTargets(db, s1, ts[1..])
  }

  // ---- Undoing soft removals

  predicate SoftlyDeleted(s: Plan, p: Pkg) {
    p in s.del && p in s.soft
  }

  ghost function SoftDel(s: Plan): set<Pkg> {
    s.del * s.soft
  }

  /** The first alternative of an unsatisfied group whose target is softly deleted. */
  function FirstSoft(db: Db, s: Plan, k: DepKind, alts: seq<Alt>): (r: Option<Pkg>)
    ensures r.Some? ==> SoftlyDeleted(s, r.value)
    ensures r.Some? ==>
              exists i ::
                && 0 <= i < |alts| && alts[i].target == r.value && !s.AltSat(db, k, alts[i])
                && forall j :: 0 <= j < i && !s.AltSat(db, k, alts[j]) ==> !SoftlyDeleted(s, alts[j].target)
    ensures r.None? ==> forall a :: a in alts && !s.AltSat(db, k, a) ==> !SoftlyDeleted(s, a.target)
  {
    if alts == [] then None
    else if !s.AltSat(db, k, alts[0]) && SoftlyDeleted(s, alts[0].target) then Some(alts[0].target)
    else FirstSoft(db, s, k, alts[1..])
  }

  function FixGroup(db: Db, s: Plan, autoinst: set<Pkg>, g: Group): (s': Plan)
    ensures SoftDel(s') <= SoftDel(s)
    ensures s' == s || SoftDel(s') < SoftDel(s)
  {
    if s.GroupSat(db, g) then s
    else
      match FirstSoft(db, s, g.kind, g.alts)
      case None => s
      case Some(t) =>
        assert t in SoftDel(s) && t !in SoftDel(ResetPackage(s, autoinst, t));
        ResetPackage(s, autoinst, t)
  }

  function FixGroups(db: Db, s: Plan, autoinst: set<Pkg>, gs: seq<Group>): (s': Plan)
    ensures SoftDel(s') <= SoftDel(s)
    ensures s' == s || SoftDel(s') < SoftDel(s)
    decreases |gs|
  {
    if gs == [] then s else FixGroups(db, FixGroup(db, s, autoinst, gs[0]), autoinst, gs[1..])
  }

  function FixPackage(db: Db, s: Plan, autoinst: set<Pkg>, p: Pkg): (s': Plan)
    ensures SoftDel(s') <= SoftDel(s)
    ensures s' == s || SoftDel(s') < SoftDel(s)
  {
    if s.InstBroken(db, p) then FixGroups(db, s, autoinst, db.Groups(s.InstVer(db, p).value)) else s
  }

  function FixPass(db: Db, s: Plan, autoinst: set<Pkg>, ps: seq<Pkg>): (s': Plan)
    ensures SoftDel(s') <= SoftDel(s)
    ensures s' == s || SoftDel(s') < SoftDel(s)
    decreases |ps|
  {
    if ps == [] then s else FixPass(db, FixPackage(db, s, autoinst, ps[0]), autoinst, ps[1..])
  }

  function FixSoft(db: Db, s: Plan, autoinst: set<Pkg>): Plan
    decreases SoftDel(s)
  {
    var s' := FixPass(db, s, autoinst, db.packages);
    if s' == s then s else FixSoft(db, s', autoinst)
  }

  // ---- Installation

  /** The version that an installation of `p` ends up with. */
  function Preferred(db: Db, p: Pkg): Option<Ver> {
    if p in db.candidate then db.Candidate(p) else db.Current(p)
  }

  /** In an or-group the first alternative that the candidates satisfy, else the last. */
  function ChooseAlt(db: Db, k: DepKind, alts: seq<Alt>): (a: Alt)
    requires alts != []
    ensures a in alts
  {
    if |alts| == 1 || CandidateSat(db, k, alts[0]) then alts[0] else ChooseAlt(db, k, alts[1..])
  }

  function FirstCandidate(db: Db, vs: seq<Ver>): (r: Option<Pkg>)
    ensures r.Some? ==> exists v :: v in vs && v.package == r.value && db.Candidate(r.value) == Some(v)
  {
    if vs == [] then None
    else if db.Candidate(vs[0].package) == Some(vs[0]) then Some(vs[0].package)
    else FirstCandidate(db, vs[1..])
  }

  /** A direct match if there is one, else the best ranked providing package. */
  function PickPackage(db: Db, a: Alt): Option<Pkg> {
    match FirstCandidate(db, a.direct)
    case Some(q) => Some(q)
    case None => FirstCandidate(db, a.ranked)
  }

  predicate PackageReplaces(db: Db, s: Plan, p: Pkg, target: Pkg) {
    && s.InstVer(db, p).Some?
    && exists g, a, v ::
        && g in db.Groups(s.InstVer(db, p).value) && g.kind.Replaces?
        && a in g.alts && v in a.Versions() && v.package == target
  }

  function RemoveConflicting(db: Db, s: Plan, p: Pkg, vs: seq<Ver>): Plan
    requires db.Valid() && forall v :: v in vs ==> v.package in db.packages
    decreases |vs|
  {
    if vs == [] then s
    else
      var target := vs[0].package;
      var s1 := if !vs[0].user && PackageReplaces(db, s, p, target) then Remove1(db, s, target, true) else s;
      RemoveConflicting(db, s1, p, vs[1..])
  }

  function Install1(db: Db, s: Plan, p: Pkg, level: nat): Plan
    requires db.Valid()
    decreases MAX_LEVEL + 1 - level, 0
  {
    if level > MAX_LEVEL then s
    else
      var s1 := match db.Candidate(p) case Some(c) => MarkRelated(db, s, c) case None => s;
      if p in s1.ins && !s1.InstBroken(db, p) then s1
      else
        var s2 := MarkInstall(db, s1, p);
        if p in s2.del then s2
        else
          match s2.InstVer(db, p)
          case None => s2
          case Some(v) => InstallGroups(db, s2, p, db.Groups(v), level)
  }

  function InstallGroups(db: Db, s: Plan, p: Pkg, gs: seq<Group>, level: nat): Plan
    requires db.Valid() && level <= MAX_LEVEL && db.ValidGroups(gs)
    decreases MAX_LEVEL - level, 2, |gs|
  {
    if gs == [] then s
    else
      assert gs[0] in gs;
      InstallGroups(db, InstallGroup(db, s, p, gs[0], level), p, gs[1..], level)
  }

  function InstallGroup(db: Db, s: Plan, p: Pkg, g: Group, level: nat): Plan
    requires db.Valid() && level <= MAX_LEVEL && db.ValidGroup(g)
    decreases MAX_LEVEL - level, 1
  {
    if s.GroupSat(db, g) || !db.Important(g.kind) then s
    else if p in db.current && !Critical(g.kind) then s
    else
      var a := ChooseAlt(db, g.kind, g.alts);
      if CandidateSat(db, g.kind, a) then
        match PickPackage(db, a)
        case None => s
        case Some(q) =>
          var s1 := Install1(db, s, q, level + 1);
          if a.target !in db.current then s1.(auto := s1.auto + {q}) else s1
      else if g.kind.Conflicts? || g.kind.Obsoletes? then RemoveConflicting(db, s, p, a.Versions())
      else s
  }

  function InstallUpgrades(db: Db, s: Plan, ps: seq<Pkg>): Plan
    requires db.Valid()
    decreases |ps|
  {
    if ps == [] then s
    else
      var p := ps[0];
      var s1 :=
        if p in db.current && !db.current[p].user && p !in s.del && p !in s.ins
        then Install1(db, s, p, 0) else s;
      InstallUpgrades(db, s1, ps[1..])
  }

  // ---- Operations

  const MAGIC_SYS := "magic:sys"

  datatype Operation = Operation(package: string, install: bool)

  function PlanInstall(db: Db, autoinst: set<Pkg>, s: Plan, p: Pkg): Plan
    requires db.Valid()
  {
    FixSoft(db, Install1(db, s, p, 0), autoinst)
  }

  function PlanUpgrade(db: Db, autoinst: set<Pkg>, s: Plan): Plan
    requires db.Valid()
  {
    FixSoft(db, InstallUpgrades(db, s, db.packages), autoinst)
  }

  function PlanRemove(db: Db, autoinst: set<Pkg>, s: Plan, p: Pkg): Plan
    requires db.Valid() && p in db.packages
  {
    FixSoft(db, Remove1(db, s, p, false), autoinst)
  }

  /** What an operation by name does to a state; an unknown name does nothing. */
  function Perform(db: Db, autoinst: set<Pkg>, s: Plan, op: Operation): Plan
    requires db.Valid()
  {
    if op.install && op.package == MAGIC_SYS then PlanUpgrade(db, autoinst, s)
    else if op.package !in db.byName then s
    else
      var p := db.byName[op.package];
      if op.install then PlanInstall(db, autoinst, s, p) else PlanRemove(db, autoinst, s, p)
  }
}
