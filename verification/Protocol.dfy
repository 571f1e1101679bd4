/** Frontend, worker and the pipes between them, as a system of steps that may happen in
    any order: what holds in every run. */
module Protocol {
  import opened Wrappers
  import opened WorkerClient

  /** `handling` is the request being worked on and `answered` the requests answered so
      far.  A byte in the cancel pipe carries no information; the model notes for each
      which call was active when it was written, and for each abort the request it hit. */
  datatype System = System(
    client: Client,
    alive: bool,
    handling: Option<nat>,
    replies: seq<Message>,
    cancels: seq<Option<nat>>,
    aborts: seq<Abort>,
    answered: seq<nat>)

  datatype Abort = Abort(request: nat, meant: Option<nat>)

  const Start := System(Fresh, true, None, [], [], [], [])

  datatype Event =
    | UserCalls(spec: Spec, fate: seq<bool>)
    | UserCancels
    | FrontendReads(fate: seq<bool>)
    | FrontendNoticesFailure
    | WorkerReads
    | WorkerReports
    | WorkerPolls
    | WorkerAnswers
    | WorkerDies

  function ActiveSeq(c: Client): Option<nat> {
    match c.active case Some(call) => Some(call.seqno) case None => None
  }

  /** An event that cannot happen in a state leaves it alone. */
  function Step(s: System, e: Event): System {
    match e
    case UserCalls(spec, fate) =>
      s.(client := Issue(s.client.(fate := fate), spec))
    case UserCancels =>
      if s.client.ready && s.client.running then s.(cancels := s.cancels + [ActiveSeq(s.client)]) else s
    case FrontendReads(fate) =>
      if s.client.running && s.replies != [] then
        s.(client := HandleResponse(s.client.(fate := fate), s.replies[0]), replies := s.replies[1..])
      else s
    case FrontendNoticesFailure =>
      if s.alive then s else s.(client := NoticeFailure(s.client))
    case WorkerReads =>
      if s.alive && s.handling.None? && s.client.requests != [] then
        s.(handling := Some(s.client.requests[0].seqno), cancels := [],
           client := s.client.(requests := s.client.requests[1..]))
      else s
    case WorkerReports =>
      if s.alive then s.(replies := s.replies + [Status]) else s
    case WorkerPolls =>
      if s.alive && s.handling.Some? && s.cancels != [] then
        s.(cancels := s.cancels[1..], aborts := s.aborts + [Abort(s.handling.value, s.cancels[0])])
      else s
    case WorkerAnswers =>
      if s.alive && s.handling.Some? then
        s.(handling := None, replies := s.replies + [Reply(s.handling.value)],
           answered := s.answered + [s.handling.value])
      else s
    case WorkerDies =>
      s.(alive := false, handling := None)
  }

  function Run(s: System, es: seq<Event>): System
    decreases |es|
  {
    if es == [] then s else Run(Step(s, es[0]), es[1..])
  }

  // ---- What is under way

  function RequestSeqs(rs: seq<Request>): seq<nat> {
    seq(|rs|, i requires 0 <= i < |rs| => rs[i].seqno)
  }

  function ReplySeqs(ms: seq<Message>): seq<nat> {
    if ms == [] then []
    else (match ms[0] case Status => [] case Reply(n) => [n]) + ReplySeqs(ms[1..])
  }

  function OptionSeq(o: Option<nat>): seq<nat> {
    match o case Some(n) => [n] case None => []
  }

  /** The sequence numbers of the replies on their way, the request being handled and the
      requests on their way, oldest first. */
  function UnderWay(s: System): seq<nat> {
    ReplySeqs(s.replies) + OptionSeq(s.handling) + RequestSeqs(s.client.requests)
  }

  /** The finished calls that got a reply, in order. */
  function RepliedSeqs(ds: seq<Done>): seq<nat> {
    if ds == [] then []
    else RepliedSeqs(ds[..|ds| - 1]) + if ds[|ds| - 1].outcome.Replied? then [ds[|ds| - 1].seqno] else []
  }

  ghost predicate ActiveUnderWay(s: System) {
    UnderWay(s) == OptionSeq(ActiveSeq(s.client))
  }

  /** The frontend's own state: its queue is in order and it never ignored a reply. */
  ghost predicate ClientOk(s: System) {
    && Fifo(s.client)
    && s.client.ignored == 0
    && (s.client.running ==> Driven(s.client))
    && (!s.client.running ==> Open(s.client) == [] && !s.alive)
    && (!s.client.ready ==> s.client.active.None?)
  }

  /** With a live worker exactly the active call is under way; once the worker has died
      it may be lost. */
  ghost predicate PipesOk(s: System) {
    && (s.client.running ==> ActiveUnderWay(s) || (!s.alive && UnderWay(s) == []))
    && (!s.alive ==> s.handling.None?)
    && (s.client.running ==> s.answered == RepliedSeqs(s.client.finished) + ReplySeqs(s.replies))
  }

  /** Every cancel byte that a handled request can see was meant for it. */
  ghost predicate CancelsOk(s: System) {
    && (s.handling.Some? ==> forall b :: b in s.cancels ==> b == s.handling)
    && (forall a :: a in s.aborts ==> a.meant == Some(a.request))
  }

  ghost predicate Invariant(s: System) {
    ClientOk(s) && PipesOk(s) && CancelsOk(s)
  }

  lemma {:induction false} ReplySeqsAppend(ms: seq<Message>, m: Message)
    ensures ReplySeqs(ms + [m]) == ReplySeqs(ms) + ReplySeqs([m])
  {
    if ms == [] {
      assert ms + [m] == [m];
    } else {
      assert (ms + [m])[1..] == ms[1..] + [m];
      ReplySeqsAppend(ms[1..], m);
    }
  }

  lemma {:induction false} RepliedSeqsCancelled(ds: seq<Done>, ds': seq<Done>)
    requires ds <= ds' && forall i :: |ds| <= i < |ds'| ==> ds'[i].outcome.Cancelled?
    ensures RepliedSeqs(ds') == RepliedSeqs(ds)
  {
    if |ds| < |ds'| {
      RepliedSeqsCancelled(ds, ds'[..|ds'| - 1]);
    } else {
      assert ds == ds';
    }
  }

  /** What sending pending calls does to the pipes. */
  lemma ContinuesPipes(s: System, s': System, c: Client)
    requires s' == s.(client := s'.client) && Continues(c, s'.client)
    requires s.client.running && c.running && c.active == s.client.active && c.requests == s.client.requests
    requires s.handling.Some? ==> s.alive
    requires UnderWay(s) == OptionSeq(ActiveSeq(c)) || (!s.alive && UnderWay(s) == [])
    ensures UnderWay(s') == OptionSeq(ActiveSeq(s'.client)) || (!s'.alive && UnderWay(s') == [])
    ensures RepliedSeqs(s'.client.finished) == RepliedSeqs(c.finished)
  {
    RepliedSeqsCancelled(c.finished, s'.client.finished);
    var sent := if c.active == s'.client.active then [] else RequestsFor(s'.client.active);
    assert RequestSeqs(s'.client.requests) == RequestSeqs(c.requests) + RequestSeqs(sent);
  }

  lemma UserCallsOk(s: System, spec: Spec, fate: seq<bool>)
    requires Invariant(s)
    ensures Invariant(Step(s, UserCalls(spec, fate)))
  {
    hide Continues, UnderWay, Issue;
    var c := s.client.(fate := fate);
    assert Open(c) == Open(s.client);
    var s' := Step(s, UserCalls(spec, fate));
    if c.running {
      IssueFifo(c, spec);
      ContinuesKeeps(c, s'.client);
      ContinuesPipes(s, s', c);
      ContinuesActive(c, s'.client);
    } else {
      RefusedOk(c, spec);
    }
  }

  lemma RefusedOk(c: Client, spec: Spec)
    requires !c.running
    ensures Issue(c, spec) == c.(refused := Issue(c, spec).refused)
  {
    IssueAllRefused(c.(refused := c.refused + [spec]), spec.onFail);
  }

  lemma ContinuesActive(c: Client, c': Client)
    requires Continues(c, c')
    ensures !c.ready ==> c'.active == c.active
  {
  }

  lemma FateChangesNothing(c: Client, fate: seq<bool>)
    ensures Fifo(c) ==> Fifo(c.(fate := fate))
    ensures Driven(c) ==> Driven(c.(fate := fate))
  {
    assert Open(c.(fate := fate)) == Open(c);
  }

  lemma FrontendReadsStatusOk(s: System, fate: seq<bool>)
    requires Invariant(s) && s.client.running && s.replies != [] && s.replies[0].Status?
    ensures Invariant(Step(s, FrontendReads(fate)))
  {
    hide Continues, HandleResponse, Fifo, Driven;
    var c := s.client.(fate := fate);
    FateChangesNothing(s.client, fate);
    var s' := Step(s, FrontendReads(fate));
    ResponseFifo(c, Status);
    var s1 := s.(replies := s.replies[1..]);
    assert UnderWay(s1) == UnderWay(s);
    ContinuesPipes(s1, s', c.(ready := true));
  }

  /** Delivering the one reply on its way leaves nothing under way. */
  lemma ReplyDelivered(s: System, s1: System)
    requires PipesOk(s) && s.client.running && s.replies != [] && s.replies[0].Reply?
    requires s.client.active.Some? && s1 == s.(client := s1.client, replies := s.replies[1..])
    requires s1.client == Answered(s.client).(fate := s1.client.fate)
    ensures s.client.active.value.seqno == s.replies[0].seqno && UnderWay(s1) == []
    ensures s.answered == RepliedSeqs(s1.client.finished) + ReplySeqs(s1.replies)
  {
    var n := s.replies[0].seqno;
    assert UnderWay(s)[0] == n;
    assert UnderWay(s) == [n] + UnderWay(s1);
    assert s1.client.finished[..|s1.client.finished| - 1] == s.client.finished;
    assert ReplySeqs(s.replies) == [n] + ReplySeqs(s1.replies);
  }

  lemma SomethingActive(s: System)
    requires PipesOk(s) && s.client.running && s.replies != [] && s.replies[0].Reply?
    ensures s.client.active.Some? && s.client.active.value.seqno == s.replies[0].seqno
  {
    assert UnderWay(s)[0] == s.replies[0].seqno;
  }

  lemma FrontendReadsReplyOk(s: System, fate: seq<bool>)
    requires Invariant(s) && s.client.running && s.replies != [] && s.replies[0].Reply?
    ensures Invariant(Step(s, FrontendReads(fate)))
  {
    hide Continues, HandleResponse, Fifo, Driven, UnderWay, RepliedSeqs;
    var c := s.client.(fate := fate);
    FateChangesNothing(s.client, fate);
    SomethingActive(s);
    var s' := Step(s, FrontendReads(fate));
    ResponseFifo(c, s.replies[0]);
    assert Awake(c) == c;
    var s1 := s.(client := Answered(c), replies := s.replies[1..]);
    ReplyDelivered(s, s1);
    ContinuesPipes(s1, s', Answered(c));
  }

  lemma FailureOk(s: System)
    requires Invariant(s)
    ensures Invariant(Step(s, FrontendNoticesFailure))
  {
    hide NoticeFailure;
    if !s.alive {
      FailureFinishesAll(s.client);
      FailureKeepsReady(s.client);
    }
  }

  lemma FailureKeepsReady(c: Client)
    requires Fifo(c)
    ensures NoticeFailure(c).active.None?
  {
    hide NoticeFailure;
    FailureFinishesAll(c);
    assert Open(NoticeFailure(c)) == [];
  }

  lemma UserCancelsOk(s: System)
    requires Invariant(s)
    ensures Invariant(Step(s, UserCancels))
  {
    if s.handling.Some? && s.client.running {
      assert s.handling.value in UnderWay(s);
    }
    assert UnderWay(Step(s, UserCancels)) == UnderWay(s);
  }

  lemma WorkerReadsOk(s: System)
    requires Invariant(s)
    ensures Invariant(Step(s, WorkerReads))
  {
    hide Driven;
    var s' := Step(s, WorkerReads);
    if s' != s {
      var rs := s.client.requests;
      assert Open(s'.client) == Open(s.client);
      assert RequestSeqs(rs) == [rs[0].seqno] + RequestSeqs(rs[1..]);
      assert UnderWay(s') == UnderWay(s);
      assert Driven(s'.client) == Driven(s.client) by {
        DrivenSame(s.client, s'.client);
      }
    }
  }

  lemma DrivenSame(c: Client, c': Client)
    requires c.ready == c'.ready && c.active == c'.active && c.pending == c'.pending
    ensures Driven(c) == Driven(c')
  {
  }

  lemma WorkerReportsOk(s: System)
    requires Invariant(s)
    ensures Invariant(Step(s, WorkerReports))
  {
    ReplySeqsAppend(s.replies, Status);
    assert s.alive ==> UnderWay(Step(s, WorkerReports)) == UnderWay(s);
  }

  lemma WorkerPollsOk(s: System)
    requires Invariant(s)
    ensures Invariant(Step(s, WorkerPolls))
  {
    var s' := Step(s, WorkerPolls);
    if s' != s {
      assert s.cancels[0] in s.cancels && forall b :: b in s'.cancels ==> b in s.cancels;
      assert UnderWay(s') == UnderWay(s);
    }
  }

  lemma WorkerAnswersOk(s: System)
    requires Invariant(s)
    ensures Invariant(Step(s, WorkerAnswers))
  {
    if s.handling.Some? {
      ReplySeqsAppend(s.replies, Reply(s.handling.value));
      assert s.alive ==> UnderWay(Step(s, WorkerAnswers)) == UnderWay(s);
    }
  }

  lemma WorkerDiesOk(s: System)
    requires Invariant(s)
    ensures Invariant(Step(s, WorkerDies))
  {
    assert |UnderWay(s)| == |ReplySeqs(s.replies)| + |OptionSeq(s.handling)| + |s.client.requests|;
  }

  /** Every step keeps the invariant. */
  lemma StepOk(s: System, e: Event)
    requires Invariant(s)
    ensures Invariant(Step(s, e))
  {
    hide Invariant, Issue, HandleResponse, NoticeFailure;
    match e
    case UserCalls(spec, fate) => UserCallsOk(s, spec, fate);
    case UserCancels => UserCancelsOk(s);
    case FrontendReads(fate) =>
      if s.client.running && s.replies != [] {
        match s.replies[0]
        case Status => FrontendReadsStatusOk(s, fate);
        case Reply(_) => FrontendReadsReplyOk(s, fate);
      }
    case FrontendNoticesFailure => FailureOk(s);
    case WorkerReads => WorkerReadsOk(s);
    case WorkerReports => WorkerReportsOk(s);
    case WorkerPolls => WorkerPollsOk(s);
    case WorkerAnswers => WorkerAnswersOk(s);
    case WorkerDies => WorkerDiesOk(s);
  }

  lemma {:induction false} RunOk(s: System, es: seq<Event>)
    requires Invariant(s)
    ensures Invariant(Run(s, es))
    decreases |es|
  {
    hide Invariant, Step;
    if es != [] {
      StepOk(s, es[0]);
      RunOk(Step(s, es[0]), es[1..]);
    }
  }

  lemma StartOk()
    ensures Invariant(Start)
  {
  }

  // ---- What this means for every run

  /** In every run, while the worker lives, the requests in the pipe, the request being
      handled and the replies on their way are together exactly the active call, and no
      reply was ever ignored. */
  lemma OneRequestUnderWay(es: seq<Event>)
    ensures var s := Run(Start, es);
      (s.client.running && s.alive ==> UnderWay(s) == OptionSeq(ActiveSeq(s.client))) && s.client.ignored == 0
  {
    hide Run;
    StartOk();
    RunOk(Start, es);
  }

  /** In every run the callbacks that have started are those of calls 0, 1, 2, ... in
      order, once each; the others are the active call and then the pending ones. */
  lemma CallbacksExactlyOnce(es: seq<Event>)
    ensures var c := Run(Start, es).client;
      && (forall i :: 0 <= i < |c.finished| ==> c.finished[i].seqno == i)
      && (forall i :: 0 <= i < |Open(c)| ==> Open(c)[i].seqno == |c.finished| + i)
      && |c.finished| + |Open(c)| == c.nextSeq
      && (c.ready && c.active.None? ==> c.pending == [])
      && (!c.running ==> |c.finished| == c.nextSeq)
  {
    hide Run;
    StartOk();
    RunOk(Start, es);
  }

  /** In every run an abort only ever hits the request that was active at the frontend
      when the cancel was written. */
  lemma StaleCancelsHitNothing(es: seq<Event>, a: Abort)
    requires a in Run(Start, es).aborts
    ensures a.meant == Some(a.request)
  {
    hide Run;
    StartOk();
    RunOk(Start, es);
  }

  /** In every run, up to a failure, the calls that got a reply and the replies on their
      way are what the worker answered, in the order in which it answered. */
  lemma AnswersArriveInOrder(es: seq<Event>)
    ensures var s := Run(Start, es);
      s.client.running ==> s.answered == RepliedSeqs(s.client.finished) + ReplySeqs(s.replies)
  {
    hide Run;
    StartOk();
    RunOk(Start, es);
  }

  /** A status message never answers a call: the first message of all may start sending, and
      cancel what cannot be sent, and any later one changes nothing. */
  lemma StatusFinishesNothing(es: seq<Event>, fate: seq<bool>)
    requires var s := Run(Start, es); s.client.running && s.replies != [] && s.replies[0].Status?
    ensures var s := Run(Start, es); var c, c' := s.client, Step(s, FrontendReads(fate)).client;
      && RepliedSeqs(c'.finished) == RepliedSeqs(c.finished) && c.finished <= c'.finished
      && (c.ready ==> c' == c.(fate := fate))
  {
    hide Run;
    StartOk();
    RunOk(Start, es);
    var s := Run(Start, es);
    var c := s.client.(fate := fate);
    FateChangesNothing(s.client, fate);
    ResponseFifo(c, Status);
    RepliedSeqsCancelled(c.finished, HandleResponse(c, Status).finished);
  }

  /** In every run a cancel while a request is being handled aborts that request at the next
      poll; and one before the worker is ready, or after it has failed, has no effect. */
  lemma CancelAborts(es: seq<Event>)
    ensures var s := Run(Start, es); var s1 := Step(s, UserCancels);
      && (s.client.ready && s.client.running && s.handling.Some? ==>
            Step(s1, WorkerPolls).aborts == s.aborts + [Abort(s.handling.value, s.handling)])
      && (!(s.client.ready && s.client.running) ==> s1 == s)
  {
    hide Run, Invariant;
    StartOk();
    RunOk(Start, es);
    var s := Run(Start, es);
    if s.client.ready && s.client.running && s.handling.Some? {
      CancelHits(s);
    }
  }

  lemma HandledIsActive(s: System)
    requires Invariant(s) && s.client.running && s.handling.Some?
    ensures s.alive && ActiveSeq(s.client) == s.handling && forall b :: b in s.cancels ==> b == s.handling
  {
    assert s.handling.value in UnderWay(s);
  }

  lemma CancelHits(s: System)
    requires Invariant(s) && s.client.ready && s.client.running && s.handling.Some?
    ensures Step(Step(s, UserCancels), WorkerPolls).aborts == s.aborts + [Abort(s.handling.value, s.handling)]
  {
    HandledIsActive(s);
    hide Invariant;
    var cancels := s.cancels + [s.handling];
    assert cancels[0] == s.handling by {
      assert s.cancels != [] ==> s.cancels[0] in s.cancels;
    }
  }

  // ---- Progress

  /** The frontend reads as often as there are messages. */
  function Reads(k: nat): seq<Event> {
    if k == 0 then [] else [FrontendReads([])] + Reads(k - 1)
  }

  lemma StatusSkipped(s: System)
    requires s.client.running && s.client.ready && s.replies != [] && s.replies[0].Status?
    ensures Step(s, FrontendReads([])) == s.(client := s.client.(fate := []), replies := s.replies[1..])
    ensures ReplySeqs(s.replies) == ReplySeqs(s.replies[1..])
  {
  }

  lemma ReplyFinishes(s: System)
    requires Invariant(s) && s.client.running && s.client.ready && s.replies != [] && s.replies[0].Reply?
    ensures Done(s.replies[0].seqno, Replied) in Step(s, FrontendReads([])).client.finished
  {
    hide Continues, HandleResponse, Fifo, Driven, UnderWay;
    var c := s.client.(fate := []);
    FateChangesNothing(s.client, []);
    SomethingActive(s);
    ResponseFifo(c, s.replies[0]);
    assert Awake(c) == c;
    ContinuesFinished(Answered(c), HandleResponse(c, s.replies[0]));
  }

  lemma ContinuesFinished(c: Client, c': Client)
    requires Continues(c, c') && c.finished != []
    ensures c.finished[|c.finished| - 1] in c'.finished
  {
    assert c'.finished[|c.finished| - 1] == c.finished[|c.finished| - 1];
  }

  /** Reading gets to the reply that is on its way. */
  lemma {:induction false} ReplyIsRead(s: System, n: nat) returns (k: nat)
    requires Invariant(s) && s.client.running && s.client.ready && ReplySeqs(s.replies) == [n]
    ensures Done(n, Replied) in Run(s, Reads(k)).client.finished
    decreases |s.replies|
  {
    hide Invariant, HandleResponse;
    var s1 := Step(s, FrontendReads([]));
    var rest: nat := 0;
    if s.replies[0].Status? {
      StatusSkipped(s);
      StepOk(s, FrontendReads([]));
      rest := ReplyIsRead(s1, n);
    } else {
      ReplyFinishes(s);
      assert ReplySeqs(s.replies)[0] == s.replies[0].seqno;
      assert Reads(0) == [] && Run(s1, []) == s1;
    }
    k := rest + 1;
    assert Reads(k)[0] == FrontendReads([]) && Reads(k)[1..] == Reads(rest);
    hide Step, Reads;
    assert Run(s, Reads(k)) == Run(s1, Reads(rest));
  }

  /** The worker reads the request, if it has not, and answers it, if it has not. */
  lemma AnswerOnItsWay(s: System)
    requires Invariant(s) && s.alive && s.client.running && s.client.active.Some?
    ensures var s2 := Step(Step(s, WorkerReads), WorkerAnswers);
      && Invariant(s2) && s2.client.running && s2.client.ready
      && ReplySeqs(s2.replies) == [s.client.active.value.seqno]
  {
    var n := s.client.active.value.seqno;
    var s1 := Step(s, WorkerReads);
    var s2 := Step(s1, WorkerAnswers);
    assert |UnderWay(s)| == |ReplySeqs(s.replies)| + |OptionSeq(s.handling)| + |s.client.requests| == 1;
    hide Invariant, ClientOk, CancelsOk;
    assert s.client.ready by {
      ActiveIsReady(s);
    }
    StepOk(s, WorkerReads);
    assert s1.client.requests == [];
    StepOk(s1, WorkerAnswers);
    assert s2.handling.None? && s2.client.requests == [];
    StillUnderWay(s2, n);
  }

  lemma ActiveIsReady(s: System)
    requires Invariant(s) && s.client.active.Some?
    ensures s.client.ready
  {
  }

  lemma StillUnderWay(s: System, n: nat)
    requires Invariant(s) && s.alive && s.client.running && s.client.active.Some? && s.client.active.value.seqno == n
    requires s.handling.None? && s.client.requests == []
    ensures ReplySeqs(s.replies) == [n]
  {
    assert UnderWay(s) == ReplySeqs(s.replies) + [] + [];
  }

  /** In every run with a live worker the active call can still get its reply, by the worker
      reading and answering and the frontend reading; so the conversation never gets stuck. */
  lemma ActiveCallCanFinish(es: seq<Event>) returns (k: nat)
    requires var s := Run(Start, es); s.alive && s.client.running && s.client.active.Some?
    ensures var s := Run(Start, es);
      Done(s.client.active.value.seqno, Replied)
        in Run(Step(Step(s, WorkerReads), WorkerAnswers), Reads(k)).client.finished
  {
    hide Run, Step, Invariant;
    StartOk();
    RunOk(Start, es);
    AnswerOnItsWay(Run(Start, es));
    k := ReplyIsRead(Step(Step(Run(Start, es), WorkerReads), WorkerAnswers), Run(Start, es).client.active.value.seqno);
  }
}
