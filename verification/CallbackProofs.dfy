/** Which calls the callbacks issue: every call that is finished has issued exactly the calls
    of its callback, and what is sent is what was issued. */
module CallbackProofs {
  import opened Wrappers
  import opened WorkerClient
  import opened Protocol

  /** The open calls and the requests in the pipe are what was issued under their numbers. */
  ghost predicate Carries(c: Client) {
    && |c.issued| == c.nextSeq
    && (forall call :: call in Open(c) ==> call.seqno < |c.issued| && call.spec == c.issued[call.seqno])
    && (forall r :: r in c.requests ==> r.seqno < |c.issued| && r.cmd == c.issued[r.seqno].cmd)
  }

  // ---- What callbacks owe

  /** The calls that the callback of a finished call issues. */
  ghost function Owed(issued: seq<Spec>, d: Done): seq<Spec> {
    if d.seqno >= |issued| then []
    else if d.outcome.Replied? then issued[d.seqno].onReply
    else issued[d.seqno].onFail
  }

  ghost function OwedAll(issued: seq<Spec>, ds: seq<Done>): multiset<Spec> {
    if ds == [] then multiset{} else OwedAll(issued, ds[..|ds| - 1]) + multiset(Owed(issued, ds[|ds| - 1]))
  }

  /** A call that is refused runs its callback without a reply. */
  ghost function OwedByRefused(refused: seq<Spec>): multiset<Spec> {
    if refused == [] then multiset{}
    else OwedByRefused(refused[..|refused| - 1]) + multiset(refused[|refused| - 1].onFail)
  }

  ghost function Debt(c: Client): multiset<Spec> {
    OwedAll(c.issued, c.finished) + OwedByRefused(c.refused)
  }

  ghost function Credit(c: Client): multiset<Spec> {
    multiset(c.issued) + multiset(c.refused)
  }

  /** Apart from what callbacks owed meanwhile, exactly the calls `ss` have been made. */
  ghost predicate Adds(c: Client, c': Client, ss: multiset<Spec>) {
    Credit(c') + Debt(c) == Credit(c) + ss + Debt(c')
  }

  lemma SumsCompose(p0: multiset<Spec>, d0: multiset<Spec>, p1: multiset<Spec>, d1: multiset<Spec>,
                    p2: multiset<Spec>, d2: multiset<Spec>, a: multiset<Spec>, b: multiset<Spec>)
    requires p1 + d0 == p0 + a + d1 && p2 + d1 == p1 + b + d2
    ensures p2 + d0 == p0 + (a + b) + d2
  {
    forall x
      ensures (p2 + d0)[x] == (p0 + (a + b) + d2)[x]
    {
      assert (p1 + d0)[x] == (p0 + a + d1)[x] && (p2 + d1)[x] == (p1 + b + d2)[x];
    }
  }

  lemma AddsCompose(c: Client, c1: Client, c2: Client, a: multiset<Spec>, b: multiset<Spec>)
    requires Adds(c, c1, a) && Adds(c1, c2, b)
    ensures Adds(c, c2, a + b)
  {
    SumsCompose(Credit(c), Debt(c), Credit(c1), Debt(c1), Credit(c2), Debt(c2), a, b);
  }

  /** What later calls change. */
  ghost predicate Extends(c: Client, c': Client) {
    c.issued <= c'.issued && c.refused <= c'.refused && c.finished <= c'.finished
  }

  /** An intermediate state in good order. */
  ghost predicate Orderly(c: Client) {
    Fifo(c) && Carries(c)
  }

  lemma {:induction false} OwedLater(issued: seq<Spec>, s: Spec, ds: seq<Done>)
    requires forall d :: d in ds ==> d.seqno < |issued|
    ensures OwedAll(issued + [s], ds) == OwedAll(issued, ds)
  {
    if ds != [] {
      OwedLater(issued, s, ds[..|ds| - 1]);
    }
  }

  lemma AddedLast<T>(s: seq<T>, x: T)
    ensures multiset(s + [x]) == multiset(s) + multiset{x} && (s + [x])[..|s|] == s && (s + [x])[|s|] == x
  {
  }

  ghost function Queued(c: Client, s: Spec): Client {
    c.(pending := c.pending + [Call(c.nextSeq, s)], nextSeq := c.nextSeq + 1, issued := c.issued + [s])
  }

  /** A call that is queued. */
  lemma QueuedAdds(c: Client, s: Spec)
    requires Orderly(c)
    ensures var c1 := Queued(c, s);
            Orderly(c1) && Extends(c, c1) && Adds(c, c1, multiset{s})
  {
    hide Adds;
    QueuedAccounts(c, s);
    assert Open(Queued(c, s)) == Open(c) + [Call(c.nextSeq, s)];
  }

  lemma QueuedAccounts(c: Client, s: Spec)
    requires Orderly(c)
    ensures Adds(c, Queued(c, s), multiset{s})
  {
    assert forall d :: d in c.finished ==> d.seqno < |c.issued|;
    OwedLater(c.issued, s, c.finished);
    AddedLast(c.issued, s);
  }

  lemma RefusedOwes(c: Client, s: Spec)
    requires Orderly(c)
    ensures var c1 := c.(refused := c.refused + [s]);
            && Orderly(c1) && Extends(c, c1)
            && Credit(c1) == Credit(c) + multiset{s} && Debt(c1) == Debt(c) + multiset(s.onFail)
  {
    assert Open(c.(refused := c.refused + [s])) == Open(c);
    AddedLast(c.refused, s);
  }

  lemma DoneOwes(c: Client, c1: Client, d: Done)
    requires c1 == c.(active := c1.active, pending := c1.pending, finished := c.finished + [d], fate := c1.fate)
    ensures Credit(c1) == Credit(c) && Debt(c1) == Debt(c) + multiset(Owed(c.issued, d))
  {
    AddedLast(c.finished, d);
  }

  lemma SumsOwed(p0: multiset<Spec>, d0: multiset<Spec>, a: multiset<Spec>, o: multiset<Spec>,
                 p: multiset<Spec>, d: multiset<Spec>)
    requires p + (d0 + o) == (p0 + a) + o + d
    ensures p + d0 == p0 + a + d
  {
    forall x
      ensures (p + d0)[x] == (p0 + a + d)[x]
    {
      assert (p + (d0 + o))[x] == ((p0 + a) + o + d)[x];
    }
  }

  lemma NothingTwice(c: Client, c1: Client, c2: Client)
    requires Adds(c, c1, multiset{}) && Adds(c1, c2, multiset{})
    ensures Adds(c, c2, multiset{})
  {
    hide Adds;
    var none: multiset<Spec> := multiset{};
    AddsCompose(c, c1, c2, none, none);
    assert none + none == none;
  }

  /** Paying what is owed leaves just what was called before. */
  lemma PaidOff(c: Client, c1: Client, c': Client, a: multiset<Spec>, owed: seq<Spec>)
    requires Credit(c1) == Credit(c) + a && Debt(c1) == Debt(c) + multiset(owed) && Adds(c1, c', multiset(owed))
    ensures Adds(c, c', a)
  {
    hide Credit, Debt;
    SumsOwed(Credit(c), Debt(c), a, multiset(owed), Credit(c'), Debt(c'));
  }

  // ---- Sending and issuing

  lemma NothingAdded(c: Client)
    ensures Adds(c, c, multiset{}) && Extends(c, c)
  {
  }

  /** The head of the queue becomes active or is dropped. */
  lemma HeadTaken(c: Client, c1: Client)
    requires Orderly(c) && c.active.None? && c.pending != [] && c1 == AfterWrite(c).(pending := c.pending[1..])
    ensures var call := c.pending[0];
            && call.seqno < |c.issued| && call.spec == c.issued[call.seqno]
            && Orderly(Dropped(c1, call))
            && Orderly(c1.(active := Some(call), requests := c.requests + [Request(call.spec.cmd, call.seqno)]))
  {
    var call := c.pending[0];
    PopHead(c, c1);
    assert call == Open(c)[0];
    assert Open(Dropped(c1, call)) == Open(c)[1..];
    var c2 := c1.(active := Some(call), requests := c.requests + [Request(call.spec.cmd, call.seqno)]);
    assert Open(c2) == Open(c);
    assert Open(c1.(active := Some(call), requests := c1.requests)) == Open(c);
  }

  lemma SentAddsNothing(c: Client, c1: Client)
    requires c1 == c.(active := c1.active, pending := c1.pending, requests := c1.requests, fate := c1.fate)
    ensures Adds(c, c1, multiset{}) && Extends(c, c1)
  {
  }

  lemma {:induction false} MaybeSendOwes(c: Client)
    requires Orderly(c)
    ensures var c' := MaybeSend(c); Orderly(c') && Extends(c, c') && Adds(c, c', multiset{})
    decreases QueueWeight(c.pending), 1, 0
  {
    hide Orderly, Adds;
    if c.ready && c.active.None? && c.pending != [] {
      var call := c.pending[0];
      var c1 := AfterWrite(c).(pending := c.pending[1..]);
      HeadTaken(c, c1);
      if WriteOk(c) {
        SentAddsNothing(c, MaybeSend(c));
      } else {
        SentAddsNothing(c, c1);
        CancelOwes(c1, call);
        var c2 := CancelCall(c1, call);
        MaybeSendOwes(c2);
        NothingTwice(c, c1, c2);
        NothingTwice(c, c2, MaybeSend(c2));
      }
    } else {
      NothingAdded(c);
    }
  }

  lemma {:induction false} CancelOwes(c: Client, call: Call)
    requires Orderly(Dropped(c, call)) && call.seqno < |c.issued| && call.spec == c.issued[call.seqno]
    ensures var c' := CancelCall(c, call); Orderly(c') && Extends(Dropped(c, call), c') && Adds(c, c', multiset{})
    decreases QueueWeight(c.pending) + Weight(call.spec), 0, 0
  {
    hide Orderly, Adds;
    IssueAllOwes(Dropped(c, call), call.spec.onFail);
    DoneOwes(c, Dropped(c, call), Done(call.seqno, Cancelled));
    PaidOff(c, Dropped(c, call), CancelCall(c, call), multiset{}, call.spec.onFail);
  }

  lemma {:induction false} IssueAllOwes(c: Client, ss: seq<Spec>)
    requires Orderly(c)
    ensures var c' := IssueAll(c, ss); Orderly(c') && Extends(c, c') && Adds(c, c', multiset(ss))
    decreases QueueWeight(c.pending) + WeightAll(ss), 3, |ss|
  {
    hide Orderly, Adds;
    if ss == [] {
      NothingAdded(c);
    } else {
      IssueOwes(c, ss[0]);
      IssueAllOwes(Issue(c, ss[0]), ss[1..]);
      AddsCompose(c, Issue(c, ss[0]), IssueAll(c, ss), multiset{ss[0]}, multiset(ss[1..]));
      assert ss == [ss[0]] + ss[1..];
    }
  }

  lemma {:induction false} IssueOwes(c: Client, s: Spec)
    requires Orderly(c)
    ensures var c' := Issue(c, s); Orderly(c') && Extends(c, c') && Adds(c, c', multiset{s})
    ensures c.running ==> c.issued + [s] <= Issue(c, s).issued
    decreases QueueWeight(c.pending) + Weight(s), 2, 0
  {
    hide Orderly, Adds;
    if c.running {
      QueueWeightAppend(c.pending, Call(c.nextSeq, s));
      var c1 := Queued(c, s);
      QueuedAdds(c, s);
      MaybeSendOwes(c1);
      AddsCompose(c, c1, MaybeSend(c1), multiset{s}, multiset{});
      assert multiset{s} + multiset{} == multiset{s};
    } else {
      var c1 := c.(refused := c.refused + [s]);
      RefusedOwes(c, s);
      IssueAllOwes(c1, s.onFail);
      PaidOff(c, c1, IssueAll(c1, s.onFail), multiset{s}, s.onFail);
    }
  }

  // ---- Messages and failures

  lemma AwakeOwes(c: Client)
    requires Orderly(c)
    ensures var c1 := Awake(c); Orderly(c1) && Extends(c, c1) && Adds(c, c1, multiset{})
  {
    if c.ready {
      NothingAdded(c);
    } else {
      var c0 := c.(ready := true);
      assert Open(c0) == Open(c);
      MaybeSendOwes(c0);
      assert Credit(c0) == Credit(c) && Debt(c0) == Debt(c);
    }
  }

  lemma AnsweredOrderly(c: Client)
    requires Orderly(c) && c.active.Some?
    ensures var call := c.active.value;
            && call.seqno < |c.issued| && call.spec == c.issued[call.seqno] && Orderly(Answered(c))
  {
    var call := c.active.value;
    assert call == Open(c)[0];
    assert Open(Answered(c)) == Open(c)[1..];
  }

  /** An answer makes the calls of the callback and nothing else. */
  lemma AnswerOwes(c: Client, m: Message)
    requires Orderly(c) && c.ready && Answers(c, m)
    ensures var c' := HandleResponse(c, m); Orderly(c') && Extends(c, c') && Adds(c, c', multiset{})
  {
    hide Orderly, Adds, MaybeSend, IssueAll;
    AnsweredOrderly(c);
    var call, c2 := c.active.value, Answered(c);
    var c3 := IssueAll(c2, call.spec.onReply);
    IssueAllOwes(c2, call.spec.onReply);
    DoneOwes(c, c2, Done(call.seqno, Replied));
    PaidOff(c, c2, c3, multiset{}, call.spec.onReply);
    MaybeSendOwes(c3);
    NothingTwice(c, c3, HandleResponse(c, m));
  }

  lemma ResponseOwes(c: Client, m: Message)
    requires Orderly(c)
    ensures var c' := HandleResponse(c, m); Orderly(c') && Extends(c, c') && Adds(c, c', multiset{})
  {
    hide Orderly, Adds, MaybeSend, IssueAll;
    var c1, c' := Awake(c), HandleResponse(c, m);
    AwakeOwes(c);
    assert c' == HandleResponse(c1, m) by {
      AwakeIsReady(c);
    }
    if Answers(c1, m) {
      AwakeIsReady(c);
      AnswerOwes(c1, m);
      NothingTwice(c, c1, c');
    } else if m.Reply? {
      IgnoredOwes(c, c1);
    }
  }

  lemma AwakeIsReady(c: Client)
    ensures Awake(c).ready
  {
  }

  lemma IgnoredOwes(c: Client, c1: Client)
    requires Orderly(c1) && Adds(c, c1, multiset{})
    ensures var c2 := c1.(ignored := c1.ignored + 1); Orderly(c2) && Adds(c, c2, multiset{})
  {
    var c2 := c1.(ignored := c1.ignored + 1);
    assert Open(c2) == Open(c1);
    assert Credit(c2) == Credit(c1) && Debt(c2) == Debt(c1);
  }

  /** Without a worker calls are refused, and so are those of their callbacks. */
  lemma {:induction false} RefusedAllOwes(c: Client, ss: seq<Spec>)
    requires !c.running
    ensures var c' := IssueAll(c, ss); c.refused <= c'.refused && Adds(c, c', multiset(ss))
    decreases QueueWeight(c.pending) + WeightAll(ss), |ss|
  {
    hide Adds;
    if ss == [] {
      NothingAdded(c);
    } else {
      var s := ss[0];
      var c1 := c.(refused := c.refused + [s]);
      assert WeightAll(ss) == 1 + WeightAll(s.onFail) + WeightAll(ss[1..]);
      RefusedAllOwes(c1, s.onFail);
      RefusedDebt(c, s);
      PaidOff(c, c1, Issue(c, s), multiset{s}, s.onFail);
      RefusedAllOwes(Issue(c, s), ss[1..]);
      AddsCompose(c, Issue(c, s), IssueAll(c, ss), multiset{s}, multiset(ss[1..]));
      assert ss == [s] + ss[1..];
    }
  }

  lemma RefusedDebt(c: Client, s: Spec)
    ensures var c1 := c.(refused := c.refused + [s]);
            Credit(c1) == Credit(c) + multiset{s} && Debt(c1) == Debt(c) + multiset(s.onFail)
  {
    AddedLast(c.refused, s);
  }

  ghost predicate PendingCarried(c: Client) {
    forall call :: call in c.pending ==> call.seqno < |c.issued| && call.spec == c.issued[call.seqno]
  }

  lemma FailedCallOwes(c: Client, call: Call)
    requires !c.running && call.seqno < |c.issued| && call.spec == c.issued[call.seqno]
    ensures var c' := CancelCall(c, call);
            Adds(c, c', multiset{}) && c' == c.(finished := c'.finished, refused := c'.refused)
  {
    hide Adds;
    IssueAllRefused(Dropped(c, call), call.spec.onFail);
    RefusedAllOwes(Dropped(c, call), call.spec.onFail);
    DoneOwes(c, Dropped(c, call), Done(call.seqno, Cancelled));
    PaidOff(c, Dropped(c, call), CancelCall(c, call), multiset{}, call.spec.onFail);
  }

  lemma {:induction false} CancelPendingOwes(c: Client)
    requires !c.running && PendingCarried(c)
    ensures var c' := CancelPending(c); Adds(c, c', multiset{}) && c'.issued == c.issued
    decreases QueueWeight(c.pending)
  {
    hide Adds, CancelCall;
    if c.pending == [] {
      NothingAdded(c);
    } else {
      var c1 := c.(pending := c.pending[1..]);
      var c2 := CancelCall(c1, c.pending[0]);
      SentAddsNothing(c, c1);
      FailedCallOwes(c1, c.pending[0]);
      NothingTwice(c, c1, c2);
      CancelPendingOwes(c2);
      NothingTwice(c, c2, CancelPending(c2));
    }
  }

  lemma FailureOwes(c: Client)
    requires Orderly(c)
    ensures var c' := NoticeFailure(c); Orderly(c') && Adds(c, c', multiset{})
  {
    hide CancelPending, CancelCall, Adds;
    FailureFinishesAll(c);
    var c0, c' := c.(running := false), NoticeFailure(c);
    assert Open(c0) == Open(c);
    SameAccounts(c, c0);
    if c.active.Some? {
      AnsweredOrderly(c);
      FailedCallOwes(c0, c.active.value);
      var c1 := CancelCall(c0, c.active.value);
      SameAccounts(c1, c1.(active := None));
      NothingTwice(c, c0, c1);
      NothingTwice(c, c1, c1.(active := None));
      CancelPendingOwes(c1.(active := None));
      NothingTwice(c, c1.(active := None), c');
    } else {
      CancelPendingOwes(c0);
      NothingTwice(c, c0, c');
    }
  }

  lemma SameAccounts(c: Client, c1: Client)
    requires c1.issued == c.issued && c1.refused == c.refused && c1.finished == c.finished
    ensures Adds(c, c1, multiset{})
  {
  }

  // ---- Whole runs

  /** The calls that the user makes. */
  function UserSpecs(es: seq<Event>): seq<Spec> {
    if es == [] then []
    else if es[0].UserCalls? then [es[0].spec] + UserSpecs(es[1..])
    else UserSpecs(es[1..])
  }

  lemma StepOwes(s: System, e: Event)
    requires Orderly(s.client)
    ensures Orderly(Step(s, e).client)
    ensures Adds(s.client, Step(s, e).client, if e.UserCalls? then multiset{e.spec} else multiset{})
  {
    hide Adds, Issue, HandleResponse, NoticeFailure;
    var c := s.client;
    NothingAdded(c);
    match e
    case UserCalls(spec, fate) =>
      var c0 := c.(fate := fate);
      assert Open(c0) == Open(c);
      IssueOwes(c0, spec);
      FateOwes(c, c0, Issue(c0, spec), multiset{spec});
    case FrontendReads(fate) =>
      if c.running && s.replies != [] {
        var c0 := c.(fate := fate);
        assert Open(c0) == Open(c);
        ResponseOwes(c0, s.replies[0]);
        FateOwes(c, c0, HandleResponse(c0, s.replies[0]), multiset{});
      }
    case FrontendNoticesFailure => FailureOwes(c);
    case WorkerReads =>
      if Step(s, e) != s {
        assert Open(Step(s, e).client) == Open(c);
        SameAccounts(c, Step(s, e).client);
      }
    case UserCancels =>
    case WorkerReports =>
    case WorkerPolls =>
    case WorkerAnswers =>
    case WorkerDies =>
  }

  lemma FateOwes(c: Client, c0: Client, c': Client, a: multiset<Spec>)
    requires c0 == c.(fate := c0.fate) && Adds(c0, c', a)
    ensures Adds(c, c', a)
  {
  }

  lemma {:induction false} RunOwes(s: System, es: seq<Event>)
    requires Orderly(s.client)
    ensures Orderly(Run(s, es).client) && Adds(s.client, Run(s, es).client, multiset(UserSpecs(es)))
    decreases |es|
  {
    hide Orderly, Adds, Step;
    if es == [] {
      NothingAdded(s.client);
    } else {
      var s1 := Step(s, es[0]);
      var first := if es[0].UserCalls? then multiset{es[0].spec} else multiset{};
      StepOwes(s, es[0]);
      RunOwes(s1, es[1..]);
      AddsCompose(s.client, s1.client, Run(s, es).client, first, multiset(UserSpecs(es[1..])));
      assert multiset(UserSpecs(es)) == first + multiset(UserSpecs(es[1..]));
    }
  }

  /** In every run the calls made, accepted or refused, are exactly those of the user and
      those that the callbacks of finished and refused calls owe. */
  lemma CallsAreAccountedFor(es: seq<Event>)
    ensures var c := Run(Start, es).client;
      multiset(c.issued) + multiset(c.refused)
      == multiset(UserSpecs(es)) + OwedAll(c.issued, c.finished) + OwedByRefused(c.refused)
  {
    hide Run, Carries, Fifo, OwedAll, OwedByRefused;
    FreshOwes();
    RunOwes(Start, es);
    var c := Run(Start, es).client;
    Regrouped(Credit(c), multiset(UserSpecs(es)), OwedAll(c.issued, c.finished), OwedByRefused(c.refused));
  }

  lemma Regrouped(p: multiset<Spec>, a: multiset<Spec>, b: multiset<Spec>, c: multiset<Spec>)
    requires p + multiset{} == multiset{} + a + (b + c)
    ensures p == a + b + c
  {
    assert p == p + multiset{} && multiset{} + a + (b + c) == a + b + c;
  }

  lemma FreshOwes()
    ensures Orderly(Fresh) && Credit(Fresh) == multiset{} && Debt(Fresh) == multiset{}
  {
  }

  /** In every run the active call, the pending ones and the requests in the pipe are what
      was issued under their numbers. */
  lemma WhatIsSentWasIssued(es: seq<Event>)
    ensures var c := Run(Start, es).client;
      && |c.issued| == c.nextSeq
      && (forall call :: call in Open(c) ==> call.seqno < |c.issued| && call.spec == c.issued[call.seqno])
      && (forall r :: r in c.requests ==> r.seqno < |c.issued| && r.cmd == c.issued[r.seqno].cmd)
  {
    hide Run;
    RunOwes(Start, es);
  }

  // ---- In which order

  /** The calls `ss` have the numbers `at`, in this order and all from `from` on. */
  ghost predicate InOrder(issued: seq<Spec>, ss: seq<Spec>, from: nat, at: seq<nat>) {
    && |at| == |ss|
    && (forall i :: 0 <= i < |ss| ==> from <= at[i] < |issued| && issued[at[i]] == ss[i])
    && (forall i, j :: 0 <= i < j < |ss| ==> at[i] < at[j])
  }

  lemma InOrderCons(issued: seq<Spec>, later: seq<Spec>, ss: seq<Spec>, from: nat, at: seq<nat>)
    requires ss != [] && from < |issued| && issued[from] == ss[0] && issued <= later
    requires InOrder(later, ss[1..], |issued|, at)
    ensures InOrder(later, ss, from, [from] + at)
  {
    var all := [from] + at;
    forall i | 0 <= i < |ss|
      ensures from <= all[i] < |later| && later[all[i]] == ss[i]
    {
      assert i > 0 ==> ss[i] == ss[1..][i - 1] && all[i] == at[i - 1];
    }
    assert forall i :: 0 < i < |ss| ==> all[i] == at[i - 1] && |issued| <= at[i - 1];
  }

  /** The calls of one callback get their numbers in order, the first the next one. */
  lemma {:induction false} IssuedInOrder(c: Client, ss: seq<Spec>) returns (at: seq<nat>)
    requires Orderly(c) && c.running
    ensures InOrder(IssueAll(c, ss).issued, ss, |c.issued|, at) && (ss != [] ==> at[0] == |c.issued|)
    decreases |ss|
  {
    hide Orderly, InOrder, Issue;
    if ss == [] {
      at := [];
      assert InOrder(c.issued, [], |c.issued|, []) by {
        NoneInOrder(c.issued);
      }
    } else {
      var c1 := Issue(c, ss[0]);
      IssueOwes(c, ss[0]);
      IssueAllOwes(c1, ss[1..]);
      at := IssuedInOrder(c1, ss[1..]);
      InOrderCons(c1.issued, IssueAll(c, ss).issued, ss, |c.issued|, at);
      at := [|c.issued|] + at;
    }
  }

  lemma NoneInOrder(issued: seq<Spec>)
    ensures InOrder(issued, [], |issued|, [])
  {
  }

  ghost predicate InOrderAfter(issued: seq<Spec>, d: Done, at: seq<nat>) {
    InOrder(issued, Owed(issued, d), d.seqno + 1, at)
  }

  /** Until the worker fails, the calls that a finished call owes have been issued in order
      after it. */
  ghost predicate Placed(c: Client, d: Done) {
    d.seqno < |c.issued| && exists at :: InOrderAfter(c.issued, d, at)
  }

  ghost predicate NewPlaced(c: Client, c': Client) {
    forall i :: |c.finished| <= i < |c'.finished| ==> Placed(c', c'.finished[i])
  }

  lemma PlacedLater(c: Client, c': Client, d: Done)
    requires Placed(c, d) && c.issued <= c'.issued
    ensures Placed(c', d)
  {
    var at :| InOrderAfter(c.issued, d, at);
    assert InOrderAfter(c'.issued, d, at);
  }

  lemma NewPlacedCompose(c: Client, c1: Client, c2: Client)
    requires Extends(c, c1) && Extends(c1, c2) && NewPlaced(c, c1) && NewPlaced(c1, c2)
    ensures NewPlaced(c, c2)
  {
    hide Placed;
    forall i | |c.finished| <= i < |c2.finished|
      ensures Placed(c2, c2.finished[i])
    {
      if i < |c1.finished| {
        PlacedLater(c1, c2, c1.finished[i]);
      }
    }
  }

  lemma {:induction false} MaybeSendPlaces(c: Client)
    requires Orderly(c) && c.running
    ensures NewPlaced(c, MaybeSend(c))
    decreases QueueWeight(c.pending), 1, 0
  {
    hide Orderly, NewPlaced, Extends;
    if c.ready && c.active.None? && c.pending != [] {
      var call := c.pending[0];
      var c1 := AfterWrite(c).(pending := c.pending[1..]);
      HeadTaken(c, c1);
      if WriteOk(c) {
        NoneNew(c, MaybeSend(c));
      } else {
        var c2 := CancelCall(c1, call);
        CancelOwes(c1, call);
        CancelPlaces(c1, call);
        MaybeSendOwes(c2);
        MaybeSendPlaces(c2);
        DroppedExtends(c, c1, call, c2);
        NewPlacedCompose(c, c2, MaybeSend(c2));
      }
    } else {
      NoneNew(c, c);
    }
  }

  lemma NoneNew(c: Client, c1: Client)
    requires c1.finished == c.finished
    ensures NewPlaced(c, c1)
  {
  }

  lemma DroppedExtends(c: Client, c1: Client, call: Call, c2: Client)
    requires c1 == AfterWrite(c).(pending := c1.pending) && Extends(Dropped(c1, call), c2) && NewPlaced(c1, c2)
    ensures Extends(c, c2) && NewPlaced(c, c2)
  {
  }

  lemma {:induction false} CancelPlaces(c: Client, call: Call)
    requires Orderly(Dropped(c, call)) && c.running && call.seqno < |c.issued| && call.spec == c.issued[call.seqno]
    ensures NewPlaced(c, CancelCall(c, call))
    decreases QueueWeight(c.pending) + Weight(call.spec), 0, 0
  {
    hide Orderly, NewPlaced, InOrder;
    var c1, c' := Dropped(c, call), CancelCall(c, call);
    IssueAllOwes(c1, call.spec.onFail);
    IssueAllPlaces(c1, call.spec.onFail);
    var at := IssuedInOrder(c1, call.spec.onFail);
    OnePlaced(c, Done(call.seqno, Cancelled), c', at);
  }

  /** The calls of one callback, after those of the callbacks before. */
  lemma OnePlaced(c: Client, d: Done, c': Client, at: seq<nat>)
    requires d.seqno < |c.issued| && c.issued <= c'.issued && c.finished + [d] <= c'.finished
    requires InOrder(c'.issued, Owed(c.issued, d), |c.issued|, at)
    requires NewPlaced(c.(finished := c.finished + [d]), c')
    ensures NewPlaced(c, c')
  {
    assert InOrderAfter(c'.issued, d, at);
  }

  lemma {:induction false} IssueAllPlaces(c: Client, ss: seq<Spec>)
    requires Orderly(c) && c.running
    ensures NewPlaced(c, IssueAll(c, ss))
    decreases QueueWeight(c.pending) + WeightAll(ss), 3, |ss|
  {
    hide Orderly, NewPlaced;
    if ss == [] {
      NoneNew(c, c);
    } else {
      var c1 := Issue(c, ss[0]);
      IssueOwes(c, ss[0]);
      IssuePlaces(c, ss[0]);
      IssueAllOwes(c1, ss[1..]);
      IssueAllPlaces(c1, ss[1..]);
      NewPlacedCompose(c, c1, IssueAll(c, ss));
    }
  }

  lemma {:induction false} IssuePlaces(c: Client, s: Spec)
    requires Orderly(c) && c.running
    ensures NewPlaced(c, Issue(c, s))
    decreases QueueWeight(c.pending) + Weight(s), 2, 0
  {
    hide Orderly, NewPlaced, MaybeSend, QueueWeight;
    QueueWeightAppend(c.pending, Call(c.nextSeq, s));
    var c1 := Queued(c, s);
    QueuedAdds(c, s);
    NoneNew(c, c1);
    MaybeSendOwes(c1);
    MaybeSendPlaces(c1);
    NewPlacedCompose(c, c1, MaybeSend(c1));
  }

  // ---- One answer

  lemma QuietSend(c: Client)
    requires Orderly(c)
    ensures MaybeSend(c).finished == c.finished ==> MaybeSend(c).issued == c.issued
  {
    hide Orderly;
    if c.ready && c.active.None? && c.pending != [] && !WriteOk(c) {
      var c1 := AfterWrite(c).(pending := c.pending[1..]);
      HeadTaken(c, c1);
      CancelOwes(c1, c.pending[0]);
      MaybeSendOwes(CancelCall(c1, c.pending[0]));
    }
  }

  lemma QuietIssue(c: Client, s: Spec)
    requires Orderly(c) && c.running && Issue(c, s).finished == c.finished
    ensures Issue(c, s).issued == c.issued + [s]
  {
    hide Orderly, MaybeSend;
    QueuedAdds(c, s);
    QuietSend(Queued(c, s));
  }

  lemma Between(c: Client, c1: Client, c2: Client)
    requires Extends(c, c1) && Extends(c1, c2) && c2.finished == c.finished
    ensures c1.finished == c.finished
  {
  }

  lemma HeadBack<T>(a: seq<T>, s: seq<T>)
    requires s != []
    ensures (a + [s[0]]) + s[1..] == a + s
  {
  }

  lemma {:induction false} QuietIssues(c: Client, ss: seq<Spec>)
    requires Orderly(c) && c.running && IssueAll(c, ss).finished == c.finished
    ensures IssueAll(c, ss).issued == c.issued + ss
    decreases |ss|
  {
    hide Orderly;
    if ss == [] {
      assert c.issued + [] == c.issued;
    } else {
      assert IssueAll(c, ss) == IssueAll(Issue(c, ss[0]), ss[1..]);
      hide IssueAll, Issue, Extends, Adds, MaybeSend, CancelCall, QueueWeight, Weight, WeightAll;
      var c1 := Issue(c, ss[0]);
      IssueOwes(c, ss[0]);
      IssueAllOwes(c1, ss[1..]);
      Between(c, c1, IssueAll(c1, ss[1..]));
      QuietIssue(c, ss[0]);
      QuietIssues(c1, ss[1..]);
      HeadBack(c.issued, ss);
    }
  }

  /** An answer makes the calls of the callback in order, the first of them right away; and if
      no call has to be cancelled, exactly these. */
  lemma AnswerIssues(c: Client, m: Message) returns (at: seq<nat>)
    requires Orderly(c) && c.ready && c.running && Answers(c, m)
    ensures m.seqno < |c.issued|
    ensures var c', calls := HandleResponse(c, m), c.issued[m.seqno].onReply;
            && InOrder(c'.issued, calls, |c.issued|, at) && (calls != [] ==> at[0] == |c.issued|)
            && (c'.finished == Answered(c).finished ==> c'.issued == c.issued + calls)
  {
    hide Orderly, MaybeSend, IssueAll, InOrder;
    AnsweredOrderly(c);
    var c2, calls := Answered(c), c.active.value.spec.onReply;
    var c3 := IssueAll(c2, calls);
    at := IssuedInOrder(c2, calls);
    IssueAllOwes(c2, calls);
    MaybeSendOwes(c3);
    QuietSend(c3);
    OrderLater(c3.issued, HandleResponse(c, m).issued, calls, |c.issued|, at);
    if HandleResponse(c, m).finished == c2.finished {
      QuietIssues(c2, calls);
    }
  }

  lemma OrderLater(issued: seq<Spec>, later: seq<Spec>, ss: seq<Spec>, from: nat, at: seq<nat>)
    requires InOrder(issued, ss, from, at) && issued <= later
    ensures InOrder(later, ss, from, at)
  {
  }

  lemma AnswerPlaces(c: Client, m: Message)
    requires Orderly(c) && c.ready && c.running && Answers(c, m)
    ensures NewPlaced(c, HandleResponse(c, m))
  {
    hide Orderly, MaybeSend, IssueAll, InOrder, NewPlaced;
    AnsweredOrderly(c);
    var c2, calls := Answered(c), c.active.value.spec.onReply;
    var c3 := IssueAll(c2, calls);
    IssueAllOwes(c2, calls);
    IssueAllPlaces(c2, calls);
    MaybeSendOwes(c3);
    MaybeSendPlaces(c3);
    NewPlacedCompose(c2, c3, HandleResponse(c, m));
    var at := AnswerIssues(c, m);
    assert c.(finished := c2.finished).finished == c2.finished;
    SameNew(c2, c.(finished := c2.finished), HandleResponse(c, m));
    OnePlaced(c, Done(c.active.value.seqno, Replied), HandleResponse(c, m), at);
  }

  lemma SameNew(c: Client, c1: Client, c': Client)
    requires NewPlaced(c, c') && c1.finished == c.finished
    ensures NewPlaced(c1, c')
  {
  }

  lemma ResponsePlaces(c: Client, m: Message)
    requires Orderly(c) && c.running
    ensures NewPlaced(c, HandleResponse(c, m))
  {
    hide Orderly, NewPlaced, MaybeSend, IssueAll;
    var c1, c0 := Awake(c), c.(ready := true);
    AwakeOwes(c);
    AwakeIsReady(c);
    if c.ready {
      NoneNew(c, c1);
    } else {
      assert Orderly(c0) by {
        ReadyOrderly(c);
      }
      MaybeSendPlaces(c0);
      SameNew(c0, c, c1);
    }
    assert HandleResponse(c, m) == HandleResponse(c1, m);
    if Answers(c1, m) {
      AnswerOwes(c1, m);
      AnswerPlaces(c1, m);
      NewPlacedCompose(c, c1, HandleResponse(c, m));
    } else if m.Reply? {
      var c2 := c1.(ignored := c1.ignored + 1);
      IgnoredPlaces(c, c1);
    }
  }

  lemma ReadyOrderly(c: Client)
    requires Orderly(c)
    ensures Orderly(c.(ready := true))
  {
    assert Open(c.(ready := true)) == Open(c);
  }

  lemma IgnoredPlaces(c: Client, c1: Client)
    requires NewPlaced(c, c1)
    ensures NewPlaced(c, c1.(ignored := c1.ignored + 1))
  {
    var c2 := c1.(ignored := c1.ignored + 1);
    assert forall d :: Placed(c1, d) ==> Placed(c2, d);
  }

  lemma StepPlaces(s: System, e: Event)
    requires Orderly(s.client) && Step(s, e).client.running
    ensures NewPlaced(s.client, Step(s, e).client) && Extends(s.client, Step(s, e).client)
  {
    hide NewPlaced, Issue, HandleResponse, NoticeFailure;
    var c := s.client;
    NoneNew(c, Step(s, e).client.(finished := c.finished));
    match e
    case UserCalls(spec, fate) =>
      var c0 := c.(fate := fate);
      assert Open(c0) == Open(c);
      RunningStays(c0, spec);
      IssueOwes(c0, spec);
      IssuePlaces(c0, spec);
      SameNew(c0, c, Issue(c0, spec));
    case FrontendReads(fate) =>
      if c.running && s.replies != [] {
        var c0 := c.(fate := fate);
        assert Open(c0) == Open(c);
        ResponseOwes(c0, s.replies[0]);
        ResponsePlaces(c0, s.replies[0]);
        SameNew(c0, c, HandleResponse(c0, s.replies[0]));
      }
    case FrontendNoticesFailure =>
      if !s.alive {
        FailureFinishesAll(c);
      }
    case WorkerReads =>
    case UserCancels =>
    case WorkerReports =>
    case WorkerPolls =>
    case WorkerAnswers =>
    case WorkerDies =>
  }

  lemma RunningStays(c: Client, s: Spec)
    ensures Issue(c, s).running == c.running
  {
  }

  lemma FailedStays(s: System, e: Event)
    requires Orderly(s.client) && Step(s, e).client.running
    ensures s.client.running
  {
    hide Issue, HandleResponse, NoticeFailure;
    if e.UserCalls? {
      RunningStays(s.client.(fate := e.fate), e.spec);
    }
    if e.FrontendNoticesFailure? && !s.alive {
      FailureFinishesAll(s.client);
    }
  }

  lemma {:induction false} RunPlaces(s: System, es: seq<Event>)
    requires Orderly(s.client) && Run(s, es).client.running && forall d :: d in s.client.finished ==> Placed(s.client, d)
    ensures forall d :: d in Run(s, es).client.finished ==> Placed(Run(s, es).client, d)
    decreases |es|
  {
    if es != [] {
      hide Orderly, Step, Placed;
      StepOwes(s, es[0]);
      RunningBefore(Step(s, es[0]), es[1..]);
      StepPlaces(s, es[0]);
      forall d | d in Step(s, es[0]).client.finished
        ensures Placed(Step(s, es[0]).client, d)
      {
        var i :| 0 <= i < |Step(s, es[0]).client.finished| && Step(s, es[0]).client.finished[i] == d;
        if i < |s.client.finished| {
          assert s.client.finished[i] == d;
          PlacedLater(s.client, Step(s, es[0]).client, d);
        }
      }
      RunPlaces(Step(s, es[0]), es[1..]);
    }
  }

  lemma {:induction false} RunningBefore(s: System, es: seq<Event>)
    requires Orderly(s.client) && Run(s, es).client.running
    ensures s.client.running
    decreases |es|
  {
    if es != [] {
      hide Orderly, Step;
      StepOwes(s, es[0]);
      RunningBefore(Step(s, es[0]), es[1..]);
      FailedStays(s, es[0]);
    }
  }

  /** In every run, up to a failure, the calls that a finished call owes have been issued
      after it, in their order. */
  lemma CallbacksIssueInOrder(es: seq<Event>, d: Done)
    requires Run(Start, es).client.running && d in Run(Start, es).client.finished
    ensures Placed(Run(Start, es).client, d)
  {
    hide Run, Placed;
    RunPlaces(Start, es);
  }
}