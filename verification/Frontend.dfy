/** The frontend as it runs: pending calls in a linked queue with a pointer to its tail,
    and callbacks that re-enter it. */
module Frontend {
  import opened Wrappers
  import W = WorkerClient

  class WorkerCall {
    const call: W.Call
    var next: WorkerCall?

    constructor (call: W.Call)
      ensures this.call == call && next == null
    {
      this.call := call;
      next := null;
    }
  }

  /** The list of pending calls. */
  class PendingQueue {
    var head: WorkerCall?
    /** The call whose `next` field the tail pointer refers to; null when the pointer
        refers to `head` itself. */
    var tail: WorkerCall?
    ghost var nodes: seq<WorkerCall>
    ghost var Repr: set<object>

    /** The list runs through `nodes`, each once, and the tail pointer is at its end. */
    ghost predicate Valid()
      reads this, Repr
      ensures Valid() ==> this in Repr
    {
      && this in Repr && (forall i :: 0 <= i < |nodes| ==> nodes[i] in Repr)
      && (forall i, j :: 0 <= i < j < |nodes| ==> nodes[i] != nodes[j])
      && (forall i :: 0 <= i < |nodes| - 1 ==> nodes[i].next == nodes[i + 1])
      && (nodes != [] ==> nodes[|nodes| - 1].next == null)
      && head == (if nodes == [] then null else nodes[0])
      && tail == (if nodes == [] then null else nodes[|nodes| - 1])
    }

    ghost function Calls(): (cs: seq<W.Call>)
      reads this
      ensures |cs| == |nodes|
    {
      seq(|nodes|, i requires 0 <= i < |nodes| reads this => nodes[i].call)
    }

    constructor ()
      ensures Valid() && Calls() == [] && fresh(Repr)
    {
      head, tail, nodes := null, null, [];
      Repr := {this};
    }

    /** Unlinks the first pending call. */
    method GetNext() returns (c: WorkerCall?)
      requires Valid()
      modifies Repr
      ensures Valid() && Repr <= old(Repr)
      ensures old(Calls()) == [] ==> c == null && Calls() == []
      ensures old(Calls()) != [] ==> c != null && c.call == old(Calls())[0] && c.next == null && Calls() == old(Calls())[1..]
    {
      c := head;
      if c != null {
        head := c.next;
        c.next := null;
        if tail == c {
          tail := null;
        }
        nodes := nodes[1..];
      }
    }

    /** Links a call in at the tail. */
    method Append(c: WorkerCall)
      requires Valid() && c.next == null && c !in Repr
      modifies Repr
      ensures Valid() && Repr == old(Repr) + {c}
      ensures Calls() == old(Calls()) + [c.call]
    {
      if tail == null {
        head := c;
      } else {
        tail.next := c;
      }
      tail := c;
      nodes := nodes + [c];
      Repr := Repr + {c};
    }
  }

  class Frontend {
    const queue: PendingQueue
    var activeCall: WorkerCall?
    var nextSeq: nat
    var ready: bool
    var running: bool
    var requests: seq<W.Request>
    var fate: seq<bool>
    var finished: seq<W.Done>
    var issued: seq<W.Spec>
    var refused: seq<W.Spec>
    var ignored: nat

    ghost predicate Valid()
      reads this, queue, queue.Repr
    {
      queue.Valid() && this !in queue.Repr
    }

    ghost function View(): W.Client
      reads this, queue
    {
      W.Client(queue.Calls(), if activeCall == null then None else Some(activeCall.call),
        nextSeq, ready, running, requests, fate, finished, issued, refused, ignored)
    }

    constructor ()
      ensures Valid() && View() == W.Fresh
    {
      queue := new PendingQueue();
      activeCall := null;
      nextSeq, ready, running, requests, fate := 0, false, true, [], [];
      finished, issued, refused, ignored := [], [], [], 0;
    }

    method MustWrite(r: W.Request) returns (ok: bool)
      modifies this`fate, this`requests
      ensures ok == W.WriteOk(old(View()))
      ensures View() == W.AfterWrite(old(View())).(requests := if ok then old(requests) + [r] else old(requests))
    {
      ok := fate == [] || fate[0];
      if fate != [] {
        fate := fate[1..];
      }
      if ok {
        requests := requests + [r];
      }
    }

    method MaybeSendOneWorkerCall()
      requires Valid()
      modifies this, queue.Repr
      ensures Valid() && View() == W.MaybeSend(old(View())) && fresh(queue.Repr - old(queue.Repr))
      decreases W.QueueWeight(View().pending), 1, 0
    {
      hide PendingQueue.Valid, PendingQueue.Calls, W.CancelCall;
      if !ready {
        return;
      }
      while activeCall == null
        invariant Valid() && ready && fresh(queue.Repr - old(queue.Repr))
        invariant W.MaybeSend(View()) == W.MaybeSend(old(View()))
        invariant W.QueueWeight(View().pending) <= old(W.QueueWeight(View().pending))
        decreases W.QueueWeight(View().pending), activeCall == null
      {
        ghost var before := View();
        var c := queue.GetNext();
        if c == null {
          return;
        }
        assert W.QueueWeight(before.pending) == W.Weight(c.call.spec) + W.QueueWeight(before.pending[1..]);
        var ok := MustWrite(W.Request(c.call.spec.cmd, c.call.seqno));
        if !ok {
          CancelWorkerCall(c.call);
        } else {
          activeCall := c;
        }
      }
    }

    /** Runs the callback of a call that gets no reply. */
    method CancelWorkerCall(call: W.Call)
      requires Valid()
      modifies this, queue.Repr
      ensures Valid() && View() == W.CancelCall(old(View()), call) && fresh(queue.Repr - old(queue.Repr))
      decreases W.QueueWeight(View().pending) + W.Weight(call.spec), 0, 0
    {
      hide PendingQueue.Valid, PendingQueue.Calls, W.IssueAll;
      finished := finished + [W.Done(call.seqno, W.Cancelled)];
      RunCallback(call.spec.onFail);
    }

    /** A callback issues its calls one after the other. */
    method RunCallback(specs: seq<W.Spec>)
      requires Valid()
      modifies this, queue.Repr
      ensures Valid() && View() == W.IssueAll(old(View()), specs) && fresh(queue.Repr - old(queue.Repr))
      decreases W.QueueWeight(View().pending) + W.WeightAll(specs), 3, |specs|
    {
      if specs != [] {
        CallAptWorker(specs[0]);
        RunCallback(specs[1..]);
      }
    }

    method CallAptWorker(spec: W.Spec)
      requires Valid()
      modifies this, queue.Repr
      ensures Valid() && View() == W.Issue(old(View()), spec) && fresh(queue.Repr - old(queue.Repr))
      decreases W.QueueWeight(View().pending) + W.Weight(spec), 2, 0
    {
      hide PendingQueue.Valid, PendingQueue.Calls, W.IssueAll, W.MaybeSend;
      if !running {
        refused := refused + [spec];
        RunCallback(spec.onFail);
        return;
      }
      W.QueueWeightAppend(View().pending, W.Call(nextSeq, spec));
      var c := new WorkerCall(W.Call(nextSeq, spec));
      nextSeq, issued := nextSeq + 1, issued + [spec];
      queue.Append(c);
      MaybeSendOneWorkerCall();
    }

    method CancelAllPendingWorkerCalls()
      requires Valid() && !running
      modifies this, queue.Repr
      ensures Valid() && View() == W.CancelAll(old(View())) && fresh(queue.Repr - old(queue.Repr))
    {
      hide PendingQueue.Valid, PendingQueue.Calls, W.CancelCall;
      if activeCall != null {
        CancelWorkerCall(activeCall.call);
        activeCall := null;
      }
      ghost var start := View();
      while true
        invariant Valid() && fresh(queue.Repr - old(queue.Repr))
        invariant W.CancelPending(View()) == W.CancelPending(start)
        decreases W.QueueWeight(View().pending)
      {
        ghost var before := View();
        var c := queue.GetNext();
        if c == null {
          return;
        }
        assert W.QueueWeight(before.pending) == W.Weight(c.call.spec) + W.QueueWeight(before.pending[1..]);
        CancelWorkerCall(c.call);
      }
    }

    method NoticeAptWorkerFailure()
      requires Valid()
      modifies this, queue.Repr
      ensures Valid() && View() == W.NoticeFailure(old(View())) && fresh(queue.Repr - old(queue.Repr))
    {
      running := false;
      CancelAllPendingWorkerCalls();
    }

    method HandleOneAptWorkerResponse(m: W.Message)
      requires Valid()
      modifies this, queue.Repr
      ensures Valid() && View() == W.HandleResponse(old(View()), m) && fresh(queue.Repr - old(queue.Repr))
    {
      hide PendingQueue.Valid, PendingQueue.Calls, W.IssueAll, W.MaybeSend;
      if !ready {
        ready := true;
        MaybeSendOneWorkerCall();
      }
      match m {
        case Status =>
        case Reply(n) =>
          if activeCall == null || activeCall.call.seqno != n {
            ignored := ignored + 1;
            return;
          }
          var c := activeCall;
          activeCall := null;
          finished := finished + [W.Done(c.call.seqno, W.Replied)];
          RunCallback(c.call.spec.onReply);
          MaybeSendOneWorkerCall();
      }
    }
  }
}
