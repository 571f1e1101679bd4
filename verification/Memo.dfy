/** The cache remembers which operation it represents, so that asking for the same one
    again costs nothing.  What it then holds is what running that operation alone on a
    reset cache would give. */
module Memo {
  import opened Wrappers
  import opened PackageDb
  import opened Planner
  import opened RemovalProofs
  import opened SoftProofs
  import opened InstallProofs

  datatype State = State(plan: Plan, op: Option<Operation>)

  /** Every package reset in turn. */
  function ResetAll(s: Plan, autoinst: set<Pkg>, ps: seq<Pkg>): Plan
    decreases |ps|
  {
    if ps == [] then s else ResetAll(ResetPackage(s, autoinst, ps[0]), autoinst, ps[1..])
  }

  /** Unless the cache already represents the operation it is reset first, but only if it
      represents some operation. */
  function Simulate(db: Db, autoinst: set<Pkg>, m: State, op: Operation): State
    requires db.Valid()
  {
    if m.op == Some(op) then m
    else
      var base := if m.op.Some? then ResetAll(m.plan, autoinst, db.packages) else m.plan;
      State(Perform(db, autoinst, base, op), Some(op))
  }

  function Forget(db: Db, autoinst: set<Pkg>, m: State): State {
    State(ResetAll(m.plan, autoinst, db.packages), None)
  }

  datatype Event = Simulated(op: Operation) | Reset

  function Step(db: Db, autoinst: set<Pkg>, m: State, e: Event): State
    requires db.Valid()
  {
    match e
    case Simulated(op) => Simulate(db, autoinst, m, op)
    case Reset => Forget(db, autoinst, m)
  }

  function Run(db: Db, autoinst: set<Pkg>, m: State, es: seq<Event>): State
    requires db.Valid()
    decreases |es|
  {
    if es == [] then m else Run(db, autoinst, Step(db, autoinst, m, es[0]), es[1..])
  }

  /** The state that a memo of `op` stands for. */
  function Alone(db: Db, autoinst: set<Pkg>, op: Option<Operation>): Plan
    requires db.Valid()
  {
    match op
    case None => ResetPlan(autoinst)
    case Some(o) => Perform(db, autoinst, ResetPlan(autoinst), o)
  }

  ghost predicate Agrees(db: Db, autoinst: set<Pkg>, m: State)
    requires db.Valid()
  {
    m.plan == Alone(db, autoinst, m.op)
  }

  lemma {:induction false} ResetAllPutsBack(s: Plan, autoinst: set<Pkg>, ps: seq<Pkg>)
    ensures ResetAll(s, autoinst, ps) == PutBack(s, autoinst, set p | p in ps)
    decreases |ps|
  {
    if ps != [] {
      ResetAllPutsBack(ResetPackage(s, autoinst, ps[0]), autoinst, ps[1..]);
      assert (set p | p in ps) == {ps[0]} + set p | p in ps[1..];
    }
  }

  /** Resetting every package gives the reset state, whatever was planned. */
  lemma ResetAllResets(db: Db, s: Plan, autoinst: set<Pkg>)
    requires s.Valid(db) && InBounds(db, s) && autoinst <= db.All()
    ensures ResetAll(s, autoinst, db.packages) == ResetPlan(autoinst)
  {
    ResetAllPutsBack(s, autoinst, db.packages);
  }

  lemma RemoveInBounds(db: Db, autoinst: set<Pkg>, p: Pkg)
    requires db.Valid() && autoinst <= db.All() && p in db.packages
    ensures var s := PlanRemove(db, autoinst, ResetPlan(autoinst), p); s.Valid(db) && InBounds(db, s)
  {
    hide FixSoft, Remove1;
    var s0 := ResetPlan(autoinst);
    if db.Installed(p) {
      RemoveEffect(db, s0, p, false);
    } else {
      RemoveNotInstalled(db, s0, p, false);
    }
    FixSoftSettles(db, Remove1(db, s0, p, false), autoinst);
  }

  lemma AloneInBounds(db: Db, autoinst: set<Pkg>, op: Option<Operation>)
    requires db.Valid() && autoinst <= db.All()
    ensures var s := Alone(db, autoinst, op); s.Valid(db) && InBounds(db, s)
  {
    hide PlanRemove, PlanInstall, PlanUpgrade;
    if op.Some? {
      var o := op.value;
      if o.install {
        NoSurpriseInstall(db, autoinst, o);
      } else if o.package in db.byName {
        RemoveInBounds(db, autoinst, db.byName[o.package]);
      }
    }
  }

  lemma StepAgrees(db: Db, autoinst: set<Pkg>, m: State, e: Event)
    requires db.Valid() && autoinst <= db.All() && Agrees(db, autoinst, m)
    ensures Agrees(db, autoinst, Step(db, autoinst, m, e))
    ensures Step(db, autoinst, m, e).op == match e case Simulated(op) => Some(op) case Reset => None
  {
    hide Perform;
    AloneInBounds(db, autoinst, m.op);
    ResetAllResets(db, m.plan, autoinst);
  }

  function LastOperation(op: Option<Operation>, es: seq<Event>): Option<Operation> {
    if es == [] then op
    else match es[|es| - 1] case Simulated(o) => Some(o) case Reset => None
  }

  /** The memo agrees with recomputation: after any sequence of simulations and resets
      the cache is what the last operation alone makes of a reset cache. */
  lemma {:induction false} MemoAgrees(db: Db, autoinst: set<Pkg>, m: State, es: seq<Event>)
    requires db.Valid() && autoinst <= db.All() && Agrees(db, autoinst, m)
    ensures Run(db, autoinst, m, es).plan == Alone(db, autoinst, LastOperation(m.op, es))
    ensures Run(db, autoinst, m, es).op == LastOperation(m.op, es)
    decreases |es|
  {
    hide Alone, Step;
    if es != [] {
      StepAgrees(db, autoinst, m, es[0]);
      MemoAgrees(db, autoinst, Step(db, autoinst, m, es[0]), es[1..]);
    }
  }

  // ---- The one way to break the memo

  /** Automatic removal plans straight on the cache and records no operation. */
  function Autoremove(db: Db, s: Plan, garbage: set<Pkg>, ps: seq<Pkg>): Plan
    decreases |ps|
  {
    if ps == [] then s
    else
      var s1 :=
        if ps[0] !in garbage then s
        else if db.Installed(ps[0]) then MarkDelete(db, s, ps[0])
        else MarkKeep(s, ps[0]);
      Autoremove(db, s1, garbage, ps[1..])
  }

  /** When that breaks something the command returns early and leaves the cache so. */
  function AutoremoveGivesUp(db: Db, garbage: set<Pkg>, m: State): State {
    State(Autoremove(db, m.plan, garbage, db.packages), m.op)
  }

  /** What is left over: the installed garbage deleted and the rest of it kept. */
  function Leftovers(db: Db, s: Plan, garbage: set<Pkg>, ps: seq<Pkg>): Plan {
    s.(del := s.del + (set p | p in ps && p in garbage && db.Installed(p)),
       ins := s.ins - (set p | p in ps && p in garbage))
  }

  lemma {:induction false} AutoremoveLeaves(db: Db, s: Plan, garbage: set<Pkg>, ps: seq<Pkg>)
    requires s.del !! s.ins && s.ins <= db.candidate.Keys && s.del <= db.current.Keys
    ensures Autoremove(db, s, garbage, ps) == Leftovers(db, s, garbage, ps)
    decreases |ps|
  {
    if ps != [] {
      var p := ps[0];
      var s1 :=
        if p !in garbage then s
        else if db.Installed(p) then MarkDelete(db, s, p)
        else MarkKeep(s, p);
      assert s1 == Leftovers(db, s, garbage, [p]);
      AutoremoveLeaves(db, s1, garbage, ps[1..]);
      assert forall q :: q in ps <==> q == p || q in ps[1..];
    }
  }

  /** Whether the plan already does to all garbage what automatic removal does. */
  predicate AlreadyRemoved(db: Db, s: Plan, garbage: set<Pkg>) {
    forall p :: p in db.packages && p in garbage ==> if db.Installed(p) then p in s.del else p !in s.ins
  }

  lemma LeftoversInBounds(db: Db, s: Plan, garbage: set<Pkg>)
    requires s.Valid(db) && InBounds(db, s)
    ensures var s' := Leftovers(db, s, garbage, db.packages); s'.Valid(db) && InBounds(db, s')
    ensures Leftovers(db, s, garbage, db.packages) == s <==> AlreadyRemoved(db, s, garbage)
  {
    var s' := Leftovers(db, s, garbage, db.packages);
    if s' == s {
      forall p | p in db.packages && p in garbage
        ensures if db.Installed(p) then p in s.del else p !in s.ins
      {
        assert db.Installed(p) ==> p in s'.del;
        assert p !in s'.ins;
      }
    }
  }

  /** After giving up, whatever the cache represented, the memo still agrees exactly if
      the plan already removed all garbage.  Asked for the recorded operation again the
      cache answers with the leftovers; any other operation gets its proper plan, unless
      none was recorded: then it is planned on top of the leftovers. */
  lemma AutoremoveLeavesLeftovers(db: Db, autoinst: set<Pkg>, garbage: set<Pkg>, m: State, op: Operation)
    requires db.Valid() && autoinst <= db.All() && Agrees(db, autoinst, m)
    ensures var m' := AutoremoveGivesUp(db, garbage, m);
      && m' == State(Leftovers(db, m.plan, garbage, db.packages), m.op)
      && (Agrees(db, autoinst, m') <==> AlreadyRemoved(db, m.plan, garbage))
      && (m.op == Some(op) ==> Simulate(db, autoinst, m', op) == m')
      && (m.op.Some? && m.op != Some(op) ==> Agrees(db, autoinst, Simulate(db, autoinst, m', op)))
      && (m.op.None? ==> Simulate(db, autoinst, m', op).plan == Perform(db, autoinst, m'.plan, op))
  {
    hide Perform, Leftovers, AlreadyRemoved, Autoremove;
    AloneInBounds(db, autoinst, m.op);
    AutoremoveLeaves(db, m.plan, garbage, db.packages);
    LeftoversInBounds(db, m.plan, garbage);
    ResetAllResets(db, Leftovers(db, m.plan, garbage, db.packages), autoinst);
  }
}
