/** The package database as the planner sees it: the fixed part (packages,
    versions and their dependencies) and the desired state laid over it.

    A version's dependencies are a list of or-groups.  Each alternative has a
    direct target package and the versions that satisfy it, or, for the negative
    kinds, the versions that conflict with it. */
module PackageDb {
  import opened Wrappers

  type Pkg = nat

  /** `user` tells whether the version is in a section of user packages. */
  datatype Ver = Ver(package: Pkg, number: nat, user: bool)

  datatype DepKind =
    | Depends | PreDepends | Recommends | Suggests | Enhances
    | Conflicts | Breaks | Obsoletes | Replaces

  predicate Negative(k: DepKind) {
    k.Conflicts? || k.Breaks? || k.Obsoletes?
  }

  predicate Critical(k: DepKind) {
    k.Depends? || k.PreDepends? || Negative(k)
  }

  predicate Hard(k: DepKind) {
    k.Depends? || k.PreDepends?
  }

  /** The critical kinds are the hard and the negative ones, and those all but what is merely
      recommended, suggested, enhanced or replaced. */
  lemma KindsOfDependency(k: DepKind)
    ensures Critical(k) <==> Hard(k) != Negative(k)
    ensures Critical(k) <==> !k.Recommends? && !k.Suggests? && !k.Enhances? && !k.Replaces?
    ensures Negative(k) <==> Critical(k) && !k.Depends? && !k.PreDepends?
  {
  }

  /** `direct` are the matching versions of the target itself, `provided` those of
      other packages, and `ranked` the latter again in order of priority. */
  datatype Alt = Alt(target: Pkg, direct: seq<Ver>, provided: seq<Ver>, ranked: seq<Ver>) {
    function Versions(): seq<Ver> {
      direct + provided
    }
  }

  datatype Group = Group(kind: DepKind, alts: seq<Alt>)

  /** `packages` lists every package in the order in which the cache walks them, and
      `recommended` holds the optional kinds that the configuration makes important. */
  datatype Db = Db(
    packages: seq<Pkg>,
    current: map<Pkg, Ver>,
    candidate: map<Pkg, Ver>,
    depends: map<Ver, seq<Group>>,
    name: map<Pkg, string>,
    byName: map<string, Pkg>,
    needsUnpack: set<Pkg>,
    unsettled: set<Pkg>,
    recommended: set<DepKind>)
  {
    ghost predicate Valid() {
      && (forall p :: p in current ==> current[p].package == p && p in packages)
      && (forall p :: p in candidate ==> candidate[p].package == p && p in packages)
      && (forall v :: v in depends ==> ValidGroups(depends[v]))
      && (forall n :: n in byName ==> byName[n] in packages)
      && (forall p :: p in packages ==> p in name && name[p] in byName && byName[name[p]] == p)
    }

    ghost predicate ValidGroups(gs: seq<Group>) {
      forall g :: g in gs ==> ValidGroup(g)
    }

    ghost predicate ValidGroup(g: Group) {
      g.alts != [] && forall a :: a in g.alts ==> ValidAlt(a)
    }

    ghost predicate ValidAlt(a: Alt) {
      && a.target in packages
      && (forall v :: v in a.direct ==> v.package == a.target)
      && (forall v :: v in a.provided ==> v.package in packages)
      && (forall v :: v in a.ranked <==> v in a.provided)
    }

    function Current(p: Pkg): Option<Ver> {
      if p in current then Some(current[p]) else None
    }

    function Candidate(p: Pkg): Option<Ver> {
      if p in candidate then Some(candidate[p]) else None
    }

    function Groups(v: Ver): seq<Group> {
      if v in depends then depends[v] else []
    }

    function All(): set<Pkg> {
      set p | p in packages
    }

    predicate Important(k: DepKind) {
      Critical(k) || k in recommended
    }

    predicate Installed(p: Pkg) {
      p in current
    }

    predicate UserPackage(p: Pkg) {
      p in current && current[p].user
    }
  }

  /** The desired state.  A package in `del` is in mode Delete, one in `ins` in mode
      Install, any other in mode Keep; the other fields are the per-package flags. */
  datatype Plan = Plan(del: set<Pkg>, ins: set<Pkg>, auto: set<Pkg>, related: set<Pkg>, soft: set<Pkg>)
  {
    ghost predicate Valid(db: Db) {
      && del <= db.All()
      && (forall p :: p in del ==> db.Installed(p))
      && (forall p :: p in ins ==> p in db.candidate && db.Candidate(p) != db.Current(p))
      && del !! ins
    }

    /** The version that is there once the plan has been carried out. */
    function InstVer(db: Db, p: Pkg): Option<Ver> {
      if p in del then None else if p in ins then db.Candidate(p) else db.Current(p)
    }

    predicate Present(db: Db, v: Ver) {
      InstVer(db, v.package) == Some(v)
    }

    predicate AltSat(db: Db, k: DepKind, a: Alt) {
      Negative(k) != exists v :: v in a.Versions() && Present(db, v)
    }

    predicate GroupSat(db: Db, g: Group) {
      exists a :: a in g.alts && AltSat(db, g.kind, a)
    }

    predicate VersionBroken(db: Db, v: Ver) {
      exists g :: g in db.Groups(v) && Critical(g.kind) && !GroupSat(db, g)
    }

    predicate InstBroken(db: Db, p: Pkg) {
      InstVer(db, p).Some? && VersionBroken(db, InstVer(db, p).value)
    }

    /** Some important group, critical or not, is unsatisfied. */
    predicate PolicyBroken(db: Db, p: Pkg) {
      && InstVer(db, p).Some?
      && exists g :: g in db.Groups(InstVer(db, p).value) && db.Important(g.kind) && !GroupSat(db, g)
    }
  }

  /** Whether the candidates alone would satisfy an alternative. */
  predicate CandidateSat(db: Db, k: DepKind, a: Alt) {
    Negative(k) != exists v :: v in a.Versions() && db.Candidate(v.package) == Some(v)
  }

  /** The state the cache is reset to: everything kept, auto flags as recorded. */
  function ResetPlan(autoinst: set<Pkg>): Plan {
    Plan({}, {}, autoinst, {}, {})
  }

  /** The direct targets of a list of groups, in order, of all or only of the hard ones. */
  function GroupTargets(gs: seq<Group>, hardOnly: bool): seq<Pkg> {
    if gs == [] then []
    else
      (if hardOnly && !Hard(gs[0].kind) then [] else Targets(gs[0].alts)) + GroupTargets(gs[1..], hardOnly)
  }

  function Targets(alts: seq<Alt>): seq<Pkg> {
    if alts == [] then [] else [alts[0].target] + Targets(alts[1..])
  }

  lemma {:induction false} TargetsMember(alts: seq<Alt>, t: Pkg)
    ensures t in Targets(alts) <==> exists a :: a in alts && a.target == t
  {
    if alts != [] {
      TargetsMember(alts[1..], t);
      assert forall a :: a in alts <==> a == alts[0] || a in alts[1..];
    }
  }

  lemma {:induction false} GroupTargetsMember(gs: seq<Group>, hardOnly: bool, t: Pkg)
    ensures t in GroupTargets(gs, hardOnly) <==>
      exists g, a :: g in gs && a in g.alts && a.target == t && (hardOnly ==> Hard(g.kind))
  {
    if gs != [] {
      TargetsMember(gs[0].alts, t);
      GroupTargetsMember(gs[1..], hardOnly, t);
      assert forall g :: g in gs <==> g == gs[0] || g in gs[1..];
    }
  }

  lemma TargetsKnown(db: Db, v: Ver, hardOnly: bool)
    requires db.Valid()
    ensures forall t :: t in GroupTargets(db.Groups(v), hardOnly) ==> t in db.packages
  {
    forall t | t in GroupTargets(db.Groups(v), hardOnly)
      ensures t in db.packages
    {
      GroupTargetsMember(db.Groups(v), hardOnly, t);
      var g, a :| g in db.Groups(v) && a in g.alts && a.target == t;
      assert db.ValidAlt(a);
    }
  }
}
