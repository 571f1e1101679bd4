/** The frontend's side of the conversation with the worker: queued calls, at most one
    active call, and callbacks that may issue further calls.  These are the functions;
    `Frontend.Frontend` does the same on its linked queue. */
module WorkerClient {
  import opened Wrappers

  /** A call as issued: its command, and the calls that its callback will issue in turn,
      with a reply and without. */
  datatype Spec = Spec(cmd: nat, onReply: seq<Spec>, onFail: seq<Spec>)

  /** A queued call and the sequence number it was given. */
  datatype Call = Call(seqno: nat, spec: Spec)

  datatype Outcome = Replied | Cancelled

  /** The record of a callback, made when it starts to run. */
  datatype Done = Done(seqno: nat, outcome: Outcome)

  datatype Request = Request(cmd: nat, seqno: nat)

  /** `fate` tells how the writes to come will turn out, as far as that matters; `issued`
      are the calls that got a sequence number, in order, `refused` those that did not for
      want of a running worker, and `ignored` counts the replies dropped for being out of
      sequence. */
  datatype Client = Client(
    pending: seq<Call>,
    active: Option<Call>,
    nextSeq: nat,
    ready: bool,
    running: bool,
    requests: seq<Request>,
    fate: seq<bool>,
    finished: seq<Done>,
    issued: seq<Spec>,
    refused: seq<Spec>,
    ignored: nat)

  datatype Message = Status | Reply(seqno: nat)

  const Fresh := Client([], None, 0, false, true, [], [], [], [], [], 0)

  // ---- A bound on the calls that failures alone can lead to

  function Weight(s: Spec): nat
    decreases s, 1
  {
    1 + WeightAll(s.onFail)
  }

  function WeightAll(ss: seq<Spec>): nat
    decreases ss, 0
  {
    if ss == [] then 0 else Weight(ss[0]) + WeightAll(ss[1..])
  }

  function QueueWeight(calls: seq<Call>): nat {
    if calls == [] then 0 else Weight(calls[0].spec) + QueueWeight(calls[1..])
  }

  lemma {:induction false} QueueWeightAppend(calls: seq<Call>, c: Call)
    ensures QueueWeight(calls + [c]) == QueueWeight(calls) + Weight(c.spec)
  {
    if calls == [] {
      assert calls + [c] == [c];
      assert [c][1..] == [];
    } else {
      assert (calls + [c])[1..] == calls[1..] + [c];
      QueueWeightAppend(calls[1..], c);
    }
  }

  // ---- The steps

  function WriteOk(c: Client): bool {
    c.fate == [] || c.fate[0]
  }

  function AfterWrite(c: Client): Client {
    if c.fate == [] then c else c.(fate := c.fate[1..])
  }

  /** Sends pending calls until one is active, cancelling those that cannot be sent. */
  function MaybeSend(c: Client): (c': Client)
    ensures QueueWeight(c'.pending) <= QueueWeight(c.pending) && c'.ready == c.ready && c'.running == c.running
    decreases QueueWeight(c.pending), 1, 0
  {
    if !c.ready || c.active.Some? || c.pending == [] then c
    else
      var call := c.pending[0];
      var c1 := AfterWrite(c).(pending := c.pending[1..]);
      if WriteOk(c) then
        c1.(active := Some(call), requests := c.requests + [Request(call.spec.cmd, call.seqno)])
      else
        MaybeSend(CancelCall(c1, call))
  }

  /** Runs a call's callback without a reply. */
  function CancelCall(c: Client, call: Call): (c': Client)
    ensures QueueWeight(c'.pending) < QueueWeight(c.pending) + Weight(call.spec)
    ensures c'.ready == c.ready && c'.running == c.running
    decreases QueueWeight(c.pending) + Weight(call.spec), 0, 0
  {
    IssueAll(c.(finished := c.finished + [Done(call.seqno, Cancelled)]), call.spec.onFail)
  }

  function IssueAll(c: Client, ss: seq<Spec>): (c': Client)
    ensures QueueWeight(c'.pending) <= QueueWeight(c.pending) + WeightAll(ss)
    ensures c'.ready == c.ready && c'.running == c.running
    decreases QueueWeight(c.pending) + WeightAll(ss), 3, |ss|
  {
    if ss == [] then c else IssueAll(Issue(c, ss[0]), ss[1..])
  }

  /** Queues a call and tries to send; without a worker its callback runs at once. */
  function Issue(c: Client, s: Spec): (c': Client)
    ensures QueueWeight(c'.pending) <= QueueWeight(c.pending) + Weight(s)
    ensures c'.ready == c.ready && c'.running == c.running
    decreases QueueWeight(c.pending) + Weight(s), 2, 0
  {
    if !c.running then IssueAll(c.(refused := c.refused + [s]), s.onFail)
    else
      QueueWeightAppend(c.pending, Call(c.nextSeq, s));
      MaybeSend(c.(pending := c.pending + [Call(c.nextSeq, s)], nextSeq := c.nextSeq + 1, issued := c.issued + [s]))
  }

  /** Cancels the active call and then all pending ones. */
  function CancelAll(c: Client): Client {
    var c1 := match c.active case Some(call) => CancelCall(c, call).(active := None) case None => c;
    CancelPending(c1)
  }

  function CancelPending(c: Client): Client
    decreases QueueWeight(c.pending)
  {
    if c.pending == [] then c
    else CancelPending(CancelCall(c.(pending := c.pending[1..]), c.pending[0]))
  }

  function NoticeFailure(c: Client): Client {
    CancelAll(c.(running := false))
  }

  /** Handles one message; the first one shows that the worker is ready. */
  function HandleResponse(c: Client, m: Message): Client {
    var c1 := if c.ready then c else MaybeSend(c.(ready := true));
    match m
    case Status => c1
    case Reply(n) =>
      if c1.active.None? || c1.active.value.seqno != n then c1.(ignored := c1.ignored + 1)
      else
        var call := c1.active.value;
        var c2 := c1.(active := None, finished := c1.finished + [Done(call.seqno, Replied)]);
        MaybeSend(IssueAll(c2, call.spec.onReply))
  }

  // ---- First in, first out, exactly once

  ghost function ActiveCalls(c: Client): seq<Call> {
    match c.active case Some(call) => [call] case None => []
  }

  /** The calls not finished yet, in order. */
  ghost function Open(c: Client): seq<Call> {
    ActiveCalls(c) + c.pending
  }

  /** The callbacks have run for exactly the calls 0, 1, 2, ... in this order, and the
      active and the pending calls are the following ones. */
  ghost predicate Fifo(c: Client) {
    && |c.finished| + |Open(c)| == c.nextSeq
    && (forall i :: 0 <= i < |c.finished| ==> c.finished[i].seqno == i)
    && (forall i :: 0 <= i < |Open(c)| ==> Open(c)[i].seqno == |c.finished| + i)
  }

  /** While there is a worker no call waits without another being active. */
  ghost predicate Driven(c: Client) {
    c.ready && c.active.None? ==> c.pending == []
  }

  /** What sending pending calls may do: cancel calls that could not be sent, and make
      one call active, by exactly one request, if there was no active call. */
  ghost predicate Continues(c: Client, c': Client) {
    && c.finished <= c'.finished
    && (forall i :: |c.finished| <= i < |c'.finished| ==> c'.finished[i].outcome.Cancelled?)
    && c'.running == c.running && c'.ready == c.ready && c'.ignored == c.ignored
    && (c.active.Some? || !c.ready ==> c'.active == c.active)
    && c'.requests == c.requests + if c.active == c'.active then [] else RequestsFor(c'.active)
  }

  ghost function RequestsFor(active: Option<Call>): seq<Request> {
    match active case Some(call) => [Request(call.spec.cmd, call.seqno)] case None => []
  }

  /** The active call finished with a reply, before its callback runs. */
  ghost function Answered(c: Client): Client
    requires c.active.Some?
  {
    c.(active := None, finished := c.finished + [Done(c.active.value.seqno, Replied)])
  }

  lemma ContinuesTransitive(c: Client, c1: Client, c2: Client)
    requires Continues(c, c1) && Continues(c1, c2)
    ensures Continues(c, c2)
  {
  }

  /** What a call cancelled for a failed write leaves behind, before its callback runs. */
  ghost function Dropped(c: Client, call: Call): Client {
    c.(finished := c.finished + [Done(call.seqno, Cancelled)])
  }

  lemma {:induction false} MaybeSendFifo(c: Client)
    requires Fifo(c)
    ensures var c' := MaybeSend(c); Fifo(c') && Driven(c') && Continues(c, c')
    decreases QueueWeight(c.pending), 1, 0
  {
    hide Continues;
    if c.ready && c.active.None? && c.pending != [] {
      var call := c.pending[0];
      var c1 := AfterWrite(c).(pending := c.pending[1..]);
      PopHead(c, c1);
      if !WriteOk(c) {
        CancelFifo(c1, call);
        var c2 := CancelCall(c1, call);
        MaybeSendFifo(c2);
        PopContinues(c, c1, call);
        ContinuesTransitive(c, Dropped(c1, call), c2);
        ContinuesTransitive(c, c2, MaybeSend(c));
      } else {
        SendContinues(c, c1, call);
      }
    } else {
      assert Continues(c, c) by { SameContinues(c); }
    }
  }

  lemma ContinuesKeeps(c: Client, c': Client)
    requires Continues(c, c')
    ensures c'.running == c.running && c'.ready == c.ready && c'.ignored == c.ignored
  {
  }

  lemma SameContinues(c: Client)
    ensures Continues(c, c)
  {
  }

  lemma SendContinues(c: Client, c1: Client, call: Call)
    requires c.ready && c.active.None? && c.pending != [] && call == c.pending[0]
    requires c1 == AfterWrite(c).(pending := c.pending[1..])
    ensures Continues(c, c1.(active := Some(call), requests := c.requests + [Request(call.spec.cmd, call.seqno)]))
  {
  }

  lemma PopContinues(c: Client, c1: Client, call: Call)
    requires c1 == AfterWrite(c).(pending := c1.pending)
    ensures Continues(c, Dropped(c1, call))
  {
  }

  /** Taking the head off the queue leaves the rest in order. */
  lemma PopHead(c: Client, c1: Client)
    requires Fifo(c) && c.active.None? && c.pending != [] && c1 == AfterWrite(c).(pending := c.pending[1..])
    ensures Fifo(Dropped(c1, c.pending[0]))
    ensures Fifo(c1.(active := Some(c.pending[0]), requests := c1.requests))
  {
    var call := c.pending[0];
    assert call == Open(c)[0];
    assert Open(Dropped(c1, call)) == Open(c)[1..];
    assert Open(c1.(active := Some(call))) == Open(c);
  }

  lemma {:induction false} CancelFifo(c: Client, call: Call)
    requires Fifo(Dropped(c, call))
    ensures var c' := CancelCall(c, call); Fifo(c') && Continues(Dropped(c, call), c')
    decreases QueueWeight(c.pending) + Weight(call.spec), 0, 0
  {
    IssueAllFifo(Dropped(c, call), call.spec.onFail);
  }

  lemma {:induction false} IssueAllFifo(c: Client, ss: seq<Spec>)
    requires Fifo(c)
    ensures var c' := IssueAll(c, ss); Fifo(c') && Continues(c, c')
    decreases QueueWeight(c.pending) + WeightAll(ss), 3, |ss|
  {
    if ss != [] {
      IssueFifo(c, ss[0]);
      IssueAllFifo(Issue(c, ss[0]), ss[1..]);
      ContinuesTransitive(c, Issue(c, ss[0]), IssueAll(c, ss));
    }
  }

  lemma {:induction false} IssueFifo(c: Client, s: Spec)
    requires Fifo(c)
    ensures var c' := Issue(c, s); Fifo(c') && Continues(c, c')
    ensures c.running ==> Driven(Issue(c, s))
    decreases QueueWeight(c.pending) + Weight(s), 2, 0
  {
    hide Continues;
    if c.running {
      var call := Call(c.nextSeq, s);
      QueueWeightAppend(c.pending, call);
      var c1 := c.(pending := c.pending + [call], nextSeq := c.nextSeq + 1, issued := c.issued + [s]);
      assert Open(c1) == Open(c) + [call];
      MaybeSendFifo(c1);
      QueueContinues(c, c1);
      ContinuesTransitive(c, c1, MaybeSend(c1));
    } else {
      var c1 := c.(refused := c.refused + [s]);
      assert Open(c1) == Open(c);
      IssueAllFifo(c1, s.onFail);
      RefuseContinues(c, s);
      ContinuesTransitive(c, c1, IssueAll(c1, s.onFail));
    }
  }

  lemma QueueContinues(c: Client, c1: Client)
    requires c1 == c.(pending := c1.pending, nextSeq := c1.nextSeq, issued := c1.issued)
    ensures Continues(c, c1)
  {
  }

  lemma RefuseContinues(c: Client, s: Spec)
    ensures Continues(c, c.(refused := c.refused + [s]))
  {
  }

  /** Without a worker nothing is queued, sent or finished. */
  lemma {:induction false} IssueAllRefused(c: Client, ss: seq<Spec>)
    requires !c.running
    ensures var c' := IssueAll(c, ss); c' == c.(refused := c'.refused)
    decreases QueueWeight(c.pending) + WeightAll(ss), |ss|
  {
    if ss != [] {
      var c0 := c.(refused := c.refused + [ss[0]]);
      assert WeightAll(ss) == 1 + WeightAll(ss[0].onFail) + WeightAll(ss[1..]);
      IssueAllRefused(c0, ss[0].onFail);
      IssueAllRefused(Issue(c, ss[0]), ss[1..]);
    }
  }

  lemma {:induction false} CancelPendingFifo(c: Client)
    requires Fifo(c) && c.active.None? && !c.running
    ensures var c' := CancelPending(c);
      && Fifo(c') && c'.pending == [] && c'.active.None? && !c'.running && c'.requests == c.requests
      && c.finished <= c'.finished && c'.nextSeq == c.nextSeq && c'.ignored == c.ignored
      && forall i :: |c.finished| <= i < |c'.finished| ==> c'.finished[i].outcome.Cancelled?
    decreases QueueWeight(c.pending)
  {
    hide Issue, MaybeSend;
    if c.pending != [] {
      var call := c.pending[0];
      var c1 := c.(pending := c.pending[1..]);
      var c2 := CancelCall(c1, call);
      IssueAllRefused(Dropped(c1, call), call.spec.onFail);
      assert call == Open(c)[0];
      assert Open(c2) == Open(c)[1..];
      CancelPendingFifo(c2);
    }
  }

  lemma CancelActiveFifo(c: Client, call: Call)
    requires Fifo(c) && c.active == Some(call) && !c.running
    ensures var c1 := CancelCall(c, call).(active := None);
      && Fifo(c1) && c1.pending == c.pending && !c1.running && c1.requests == c.requests
      && c1.finished == c.finished + [Done(call.seqno, Cancelled)] && c1.nextSeq == c.nextSeq && c1.ignored == c.ignored
  {
    var c1 := CancelCall(c, call).(active := None);
    IssueAllRefused(Dropped(c, call), call.spec.onFail);
    assert call == Open(c)[0];
    assert Open(c1) == Open(c)[1..];
  }

  /** When the worker has failed every call issued so far is finished. */
  lemma FailureFinishesAll(c: Client)
    requires Fifo(c)
    ensures var c' := NoticeFailure(c);
      && Fifo(c') && Open(c') == [] && |c'.finished| == c'.nextSeq == c.nextSeq && !c'.running
      && c'.requests == c.requests && c.finished <= c'.finished && c'.ignored == c.ignored
      && forall i :: |c.finished| <= i < |c'.finished| ==> c'.finished[i].outcome.Cancelled?
  {
    hide CancelPending, CancelCall;
    var c0 := c.(running := false);
    assert Open(c0) == Open(c);
    assert Fifo(c0);
    if c.active.Some? {
      CancelActiveFifo(c0, c.active.value);
      CancelPendingFifo(CancelCall(c0, c.active.value).(active := None));
    } else {
      CancelPendingFifo(c0);
    }
  }

  /** The first message of all shows that the worker is ready, and starts sending. */
  ghost function Awake(c: Client): Client {
    if c.ready then c else MaybeSend(c.(ready := true))
  }

  ghost predicate Answers(c: Client, m: Message) {
    m.Reply? && c.active.Some? && c.active.value.seqno == m.seqno
  }

  lemma AwakeFifo(c: Client)
    requires Fifo(c) && Driven(c) && (c.ready || c.active.None?)
    ensures var c1 := Awake(c); Fifo(c1) && Driven(c1) && c1.ready && Continues(c.(ready := true), c1)
  {
    hide Continues, MaybeSend;
    var c1 := c.(ready := true);
    if c.ready {
      assert c1 == c;
      SameContinues(c);
    } else {
      assert Open(c1) == Open(c);
      MaybeSendFifo(c1);
      ContinuesKeeps(c1, MaybeSend(c1));
    }
  }

  lemma AnswerFifo(c: Client, m: Message)
    requires Fifo(c) && c.ready && Answers(c, m)
    ensures var c' := HandleResponse(c, m); Fifo(c') && Driven(c') && c'.ready && Continues(Answered(c), c')
  {
    hide Continues, MaybeSend, IssueAll;
    var c2 := Answered(c);
    assert c.active.value == Open(c)[0];
    assert Open(c2) == Open(c)[1..];
    IssueAllFifo(c2, c.active.value.spec.onReply);
    MaybeSendFifo(IssueAll(c2, c.active.value.spec.onReply));
    ContinuesTransitive(c2, IssueAll(c2, c.active.value.spec.onReply), HandleResponse(c, m));
    ContinuesKeeps(c2, HandleResponse(c, m));
  }

  /** One message from the worker, whatever it is: a reply finishes just the active call if
      it names that; any other one is counted and ignored; a status finishes none. */
  lemma ResponseFifo(c: Client, m: Message)
    requires Fifo(c) && Driven(c) && (c.ready || c.active.None?)
    ensures Continues(c.(ready := true), Awake(c))
    ensures var c1, c' := Awake(c), HandleResponse(c, m);
      && Fifo(c') && Driven(c') && c'.ready && c'.running == c.running
      && (m.Status? || Answers(c1, m) ==> c'.ignored == c.ignored)
      && (m.Status? ==> c' == c1)
      && (Answers(c1, m) ==> Continues(Answered(c1), c'))
      && (m.Reply? && !Answers(c1, m) ==> c' == c1.(ignored := c.ignored + 1))
  {
    hide Continues, MaybeSend, IssueAll;
    var c1 := Awake(c);
    AwakeFifo(c);
    ContinuesKeeps(c.(ready := true), c1);
    assert HandleResponse(c, m) == HandleResponse(c1, m);
    if Answers(c1, m) {
      AnswerFifo(c1, m);
      ContinuesKeeps(Answered(c1), HandleResponse(c1, m));
    } else {
      assert Open(c1.(ignored := c.ignored + 1)) == Open(c1);
    }
  }
}
