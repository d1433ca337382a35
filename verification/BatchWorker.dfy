// cluster/replication_batch.go: the worker that batches replication tasks for
// one node and matches the replies of a stream to the batches it sent.
module BatchWorker {
  import opened Commands

  const BATCH_SIZE: nat := 512

  // A task is known by the channel its result goes to.
  type Task = nat
  type Batch = seq<Task>

  datatype Mark = Mark(task: Task, ok: bool)
  datatype Reply = Acked | Refused | Broken

  // How the next attempts to open a stream and to send on it would end.
  datatype Link = Link(opens: bool, sends: bool)

  // The worker: its variables, the results it has delivered, the receivers it
  // has started and what it has sent on each stream.
  datatype Worker = Worker(
    pending: seq<Task>,
    inFlight: seq<Batch>,
    stream: Option<nat>,
    recvActive: bool,
    done: seq<Mark>,
    streams: nat,
    receivers: multiset<nat>,
    sent: map<nat, seq<Batch>>)

  // ---------- What each handler does ----------

  function Marks(tasks: seq<Task>, ok: bool): seq<Mark> {
    seq(|tasks|, i requires 0 <= i < |tasks| => Mark(tasks[i], ok))
  }

  function MarksAll(batches: seq<Batch>, ok: bool): seq<Mark> {
    if batches == [] then [] else MarksAll(batches[..|batches| - 1], ok) + Marks(batches[|batches| - 1], ok)
  }

  function Finish(w: Worker, tasks: seq<Task>, ok: bool): Worker {
    w.(done := w.done + Marks(tasks, ok))
  }

  // Fails everything the worker still has.
  function FailAll(w: Worker): Worker {
    w.(done := w.done + Marks(w.pending, false) + MarksAll(w.inFlight, false), pending := [], inFlight := [])
  }

  function Close(w: Worker): Worker {
    w.(stream := None, recvActive := false)
  }

  function StartRecv(w: Worker): Worker {
    if w.stream.None? || w.recvActive || w.inFlight == [] then w
    else w.(recvActive := true, receivers := w.receivers + multiset{w.stream.value})
  }

  function SentOn(w: Worker, s: nat): seq<Batch> {
    if s in w.sent then w.sent[s] else []
  }

  function Opened(w: Worker): Worker {
    if w.stream.Some? then w
    else w.(stream := Some(w.streams), streams := w.streams + 1, recvActive := false)
  }

  function Send(w: Worker, batch: Batch): Worker
    requires w.stream.Some?
  {
    var s := w.stream.value;
    StartRecv(w.(inFlight := w.inFlight + [batch], sent := w.sent[s := SentOn(w, s) + [batch]]))
  }

  predicate Fails(w: Worker, link: Link) {
    (w.stream.None? && !link.opens) || !link.sends
  }

  function Flush(w: Worker, link: Link): Worker {
    if w.pending == [] then w else
      var batch, w1 := w.pending, w.(pending := []);
      if w.stream.None? && !link.opens then Finish(Close(w1), batch, false)
      else if !link.sends then Finish(Close(Opened(w1)), batch, false)
      else Send(Opened(w1), batch)
  }

  function OnTask(w: Worker, t: Task, link: Link): Worker {
    var w1 := w.(pending := w.pending + [t]);
    if |w1.pending| >= BATCH_SIZE then Flush(w1, link) else w1
  }

  // The oldest batch is answered; when the stream is gone everything fails.
  function Answer(w: Worker, batch: Batch, reply: Reply): Worker {
    if reply.Broken? then FailAll(Finish(Close(w), batch, false))
    else StartRecv(Finish(w, batch, reply.Acked?))
  }

  function Received(w: Worker, s: nat): Worker {
    w.(recvActive := false, receivers := w.receivers - multiset{s})
  }

  function OnReply(w: Worker, s: nat, reply: Reply): Worker {
    var w1 := Received(w, s);
    if w.inFlight == [] then Close(w1) else Answer(w1.(inFlight := w.inFlight[1..]), w.inFlight[0], reply)
  }

  function OnStop(w: Worker): Worker {
    FailAll(Close(w))
  }

  // ---------- The worker as an object ----------

  class ReplicationBatchWorker {
    var pending: seq<Task>
    var inFlight: seq<Batch>
    var stream: Option<nat>
    var recvActive: bool
    var done: seq<Mark>
    var streams: nat
    var receivers: multiset<nat>
    var sent: map<nat, seq<Batch>>

    function View(): Worker
      reads this
    {
      Worker(pending, inFlight, stream, recvActive, done, streams, receivers, sent)
    }

    constructor ()
      ensures View() == Worker([], [], None, false, [], 0, multiset{}, map[])
    {
      pending, inFlight, stream, recvActive := [], [], None, false;
      done, streams, receivers, sent := [], 0, multiset{}, map[];
    }

    method FailTasks(tasks: seq<Task>, ok: bool)
      modifies `done
      ensures View() == Finish(old(View()), tasks, ok)
    {
      for i := 0 to |tasks|
        invariant done == old(done) + Marks(tasks[..i], ok)
      {
        done := done + [Mark(tasks[i], ok)];
        assert Marks(tasks[..i + 1], ok) == Marks(tasks[..i], ok) + [Mark(tasks[i], ok)];
      }
      assert tasks[..|tasks|] == tasks;
    }

    method FailBatches(batches: seq<Batch>)
      modifies `done
      ensures done == old(done) + MarksAll(batches, false)
    {
      for i := 0 to |batches|
        invariant done == old(done) + MarksAll(batches[..i], false)
      {
        FailTasks(batches[i], false);
        assert batches[..i + 1][..i] == batches[..i];
      }
      assert batches[..|batches|] == batches;
    }

    method FailEverything()
      modifies this
      ensures View() == FailAll(old(View()))
    {
      FailTasks(pending, false);
      FailBatches(inFlight);
      pending, inFlight := [], [];
    }

    method CloseStream()
      modifies `stream, `recvActive
      ensures View() == Close(old(View()))
    {
      stream, recvActive := None, false;
    }

    method BeginRecv()
      modifies `recvActive, `receivers
      ensures View() == StartRecv(old(View()))
    {
      if stream.None? || recvActive || |inFlight| == 0 {
        return;
      }
      recvActive := true;
      receivers := receivers + multiset{stream.value};
    }

    // Returns whether the batch went out.
    method SendBatch(batch: Batch, link: Link) returns (ok: bool)
      modifies this
      ensures ok <==> !old(Fails(View(), link))
      ensures ok ==> View() == Send(Opened(old(View())), batch)
      ensures !ok ==> View() == if old(stream).None? && !link.opens then old(View()) else Opened(old(View()))
    {
      if stream.None? {
        if !link.opens {
          return false;
        }
        stream, streams, recvActive := Some(streams), streams + 1, false;
      }
      if !link.sends {
        return false;
      }
      sent := sent[stream.value := (if stream.value in sent then sent[stream.value] else []) + [batch]];
      inFlight := inFlight + [batch];
      BeginRecv();
      ok := true;
    }

    method FlushPending(link: Link)
      modifies this
      ensures View() == Flush(old(View()), link)
    {
      if |pending| == 0 {
        return;
      }
      var batch := pending;
      pending := [];
      var ok := SendBatch(batch, link);
      if !ok {
        CloseStream();
        FailTasks(batch, false);
      }
    }

    method TakeTask(t: Task, link: Link)
      modifies this
      ensures View() == OnTask(old(View()), t, link)
    {
      pending := pending + [t];
      if |pending| >= BATCH_SIZE {
        FlushPending(link);
      }
    }

    method AnswerBatch(batch: Batch, reply: Reply)
      modifies this
      ensures View() == Answer(old(View()), batch, reply)
    {
      if reply.Broken? {
        CloseStream();
        FailTasks(batch, false);
        FailEverything();
      } else {
        FailTasks(batch, reply.Acked?);
        BeginRecv();
      }
    }

    method EndRecv(s: nat)
      modifies `receivers, `recvActive
      ensures View() == Received(old(View()), s)
    {
      receivers, recvActive := receivers - multiset{s}, false;
    }

    method TakeReply(s: nat, reply: Reply)
      modifies this
      ensures View() == OnReply(old(View()), s, reply)
    {
      EndRecv(s);
      if |inFlight| == 0 {
        CloseStream();
      } else {
        var batch := inFlight[0];
        inFlight := inFlight[1..];
        AnswerBatch(batch, reply);
      }
    }

    method Stop()
      modifies this
      ensures View() == OnStop(old(View()))
    {
      CloseStream();
      FailEverything();
    }
  }

  // ---------- The worker among submitters and a replica ----------

  datatype Sys = Sys(
    w: Worker,
    queue: seq<Task>,
    submitted: set<Task>,
    got: map<nat, nat>,
    acked: set<Task>,
    stopped: bool)

  datatype Event =
    | Submit(task: Task)
    | Take(link: Link)
    | Tick(link: Link)
    | Receive(s: nat, reply: Reply)
    | Halt

  function Count(got: map<nat, nat>, s: nat): nat {
    if s in got then got[s] else 0
  }

  function GotOn(y: Sys, s: nat): nat {
    Count(y.got, s)
  }

  function TaskSet(b: Batch): set<Task> {
    set t | t in b
  }

  ghost predicate Start(y: Sys) {
    y == Sys(Worker([], [], None, false, [], 0, multiset{}, map[]), [], {}, map[], {}, false)
  }

  // The replica answers the batches of a stream in the order they were sent, so
  // the next answer is about the first one not yet answered.
  ghost predicate Next(y: Sys, e: Event, z: Sys) {
    match e
    case Submit(t) =>
      && t !in y.submitted
      && z == y.(queue := y.queue + [t], submitted := y.submitted + {t})
    case Take(link) =>
      && !y.stopped && y.queue != []
      && z == y.(queue := y.queue[1..], w := OnTask(y.w, y.queue[0], link))
    case Tick(link) =>
      && !y.stopped
      && z == y.(w := Flush(y.w, link))
    case Receive(s, reply) =>
      && !y.stopped && s in y.w.receivers
      && (!reply.Broken? ==> GotOn(y, s) < |SentOn(y.w, s)|)
      && z == y.(w := OnReply(y.w, s, reply),
                 got := if reply.Broken? then y.got else y.got[s := GotOn(y, s) + 1],
                 acked := if reply.Acked? then y.acked + TaskSet(SentOn(y.w, s)[GotOn(y, s)]) else y.acked)
    case Halt =>
      && !y.stopped
      && z == y.(w := OnStop(y.w), stopped := true)
  }

  ghost predicate Path(ys: seq<Sys>, es: seq<Event>) {
    |ys| == |es| + 1 && forall i :: 0 <= i < |es| ==> Next(ys[i], es[i], ys[i + 1])
  }

  ghost predicate Run(ys: seq<Sys>, es: seq<Event>) {
    Path(ys, es) && Start(ys[0])
  }

  lemma {:induction false} PathSnoc(ys: seq<Sys>, es: seq<Event>, e: Event, z: Sys)
    requires Path(ys, es) && Next(ys[|es|], e, z)
    ensures Path(ys + [z], es + [e])
  {
    var zs, fs := ys + [z], es + [e];
    forall i | 0 <= i < |fs| ensures Next(zs[i], fs[i], zs[i + 1]) {
      if i < |es| {
        assert zs[i] == ys[i] && fs[i] == es[i] && zs[i + 1] == ys[i + 1];
      }
    }
  }

  // ---------- Conservation ----------

  ghost function InBatches(bs: seq<Batch>): multiset<Task> {
    if bs == [] then multiset{} else InBatches(bs[..|bs| - 1]) + multiset(bs[|bs| - 1])
  }

  ghost function Finished(ms: seq<Mark>): multiset<Task> {
    multiset(seq(|ms|, i requires 0 <= i < |ms| => ms[i].task))
  }

  ghost function Within(w: Worker): multiset<Task> {
    multiset(w.pending) + InBatches(w.inFlight) + Finished(w.done)
  }

  lemma {:induction false} FinishedConcat(a: seq<Mark>, b: seq<Mark>)
    ensures Finished(a + b) == Finished(a) + Finished(b)
  {
    assert seq(|a + b|, i requires 0 <= i < |a + b| => (a + b)[i].task) ==
           seq(|a|, i requires 0 <= i < |a| => a[i].task) + seq(|b|, i requires 0 <= i < |b| => b[i].task);
  }

  lemma {:induction false} FinishedMarks(tasks: seq<Task>, ok: bool)
    ensures Finished(Marks(tasks, ok)) == multiset(tasks)
  {
    var ms := Marks(tasks, ok);
    assert seq(|ms|, i requires 0 <= i < |ms| => ms[i].task) == tasks;
  }

  lemma {:induction false} FinishedAll(bs: seq<Batch>, ok: bool)
    ensures Finished(MarksAll(bs, ok)) == InBatches(bs)
  {
    if bs != [] {
      var n := |bs| - 1;
      FinishedAll(bs[..n], ok);
      FinishedConcat(MarksAll(bs[..n], ok), Marks(bs[n], ok));
      FinishedMarks(bs[n], ok);
    }
  }

  lemma {:induction false} InBatchesHead(bs: seq<Batch>)
    requires bs != []
    ensures InBatches(bs) == multiset(bs[0]) + InBatches(bs[1..])
  {
    var n := |bs| - 1;
    if n > 0 {
      InBatchesHead(bs[..n]);
      assert bs[..n][1..] == bs[1..][..n - 1];
    }
  }

  lemma {:induction false} FinishAdds(w: Worker, tasks: seq<Task>, ok: bool)
    ensures Within(Finish(w, tasks, ok)) == Within(w) + multiset(tasks)
  {
    FinishedConcat(w.done, Marks(tasks, ok));
    FinishedMarks(tasks, ok);
  }

  lemma {:induction false} FailAllKeeps(w: Worker)
    ensures Within(FailAll(w)) == Within(w)
  {
    FinishedConcat(w.done, Marks(w.pending, false));
    FinishedConcat(w.done + Marks(w.pending, false), MarksAll(w.inFlight, false));
    FinishedMarks(w.pending, false);
    FinishedAll(w.inFlight, false);
  }

  lemma {:induction false} SendAdds(w: Worker, batch: Batch)
    requires w.stream.Some?
    ensures Within(Send(w, batch)) == Within(w) + multiset(batch)
  {
    assert (w.inFlight + [batch])[..|w.inFlight|] == w.inFlight;
  }

  lemma {:induction false} FlushKeeps(w: Worker, link: Link)
    ensures Within(Flush(w, link)) == Within(w)
  {
    if w.pending != [] {
      var batch, w1 := w.pending, w.(pending := []);
      assert Within(w) == Within(w1) + multiset(batch);
      if w.stream.None? && !link.opens {
        FinishAdds(Close(w1), batch, false);
      } else if !link.sends {
        FinishAdds(Close(Opened(w1)), batch, false);
      } else {
        SendAdds(Opened(w1), batch);
      }
    }
  }

  lemma {:induction false} ReplyKeeps(w: Worker, s: nat, reply: Reply)
    ensures Within(OnReply(w, s, reply)) == Within(w)
  {
    if w.inFlight != [] {
      var w2 := w.(recvActive := false, receivers := w.receivers - multiset{s}, inFlight := w.inFlight[1..]);
      InBatchesHead(w.inFlight);
      assert Within(w) == Within(w2) + multiset(w.inFlight[0]);
      if reply.Broken? {
        BrokenKeeps(Close(w2), w.inFlight[0]);
      } else {
        FinishAdds(w2, w.inFlight[0], reply.Acked?);
      }
    }
  }

  lemma {:induction false} BrokenKeeps(w: Worker, batch: Batch)
    ensures Within(FailAll(Finish(w, batch, false))) == Within(w) + multiset(batch)
  {
    FinishAdds(w, batch, false);
    FailAllKeeps(Finish(w, batch, false));
  }

  // Every accepted task is in exactly one place.
  ghost predicate Conserved(y: Sys) {
    && multiset(y.queue) + Within(y.w) == multiset(y.submitted)
    && (y.stopped ==> y.w.pending == [] && y.w.inFlight == [])
  }

  lemma {:induction false} SubmitConserves(queue: seq<Task>, w: Worker, submitted: set<Task>, t: Task)
    requires multiset(queue) + Within(w) == multiset(submitted) && t !in submitted
    ensures multiset(queue + [t]) + Within(w) == multiset(submitted + {t})
  {
    assert multiset(submitted + {t}) == multiset(submitted) + multiset{t};
  }

  lemma {:induction false} TakeKeeps(queue: seq<Task>, w: Worker, link: Link)
    requires queue != []
    ensures multiset(queue[1..]) + Within(OnTask(w, queue[0], link)) == multiset(queue) + Within(w)
  {
    var w1 := w.(pending := w.pending + [queue[0]]);
    assert queue == [queue[0]] + queue[1..];
    assert Within(w1) == Within(w) + multiset{queue[0]};
    if |w1.pending| >= BATCH_SIZE {
      FlushKeeps(w1, link);
    }
  }

  lemma {:induction false} HaltKeeps(w: Worker)
    ensures Within(OnStop(w)) == Within(w)
  {
    FailAllKeeps(Close(w));
    assert Within(Close(w)) == Within(w);
  }

  lemma {:induction false} NextConserves(y: Sys, e: Event, z: Sys)
    requires Conserved(y) && Next(y, e, z)
    ensures Conserved(z)
  {
    match e
    case Submit(t) => SubmitConserves(y.queue, y.w, y.submitted, t);
    case Take(link) => TakeKeeps(y.queue, y.w, link);
    case Tick(link) => FlushKeeps(y.w, link);
    case Receive(s, reply) => ReplyKeeps(y.w, s, reply);
    case Halt => HaltKeeps(y.w);
  }

  lemma {:induction false} RunConserves(ys: seq<Sys>, es: seq<Event>, i: nat)
    requires Run(ys, es) && i < |ys|
    ensures Conserved(ys[i])
  {
    if i > 0 {
      RunConserves(ys, es, i - 1);
      assert Next(ys[i - 1], es[i - 1], ys[i]);
      NextConserves(ys[i - 1], es[i - 1], ys[i]);
    }
  }

  // In every run: no task is finished twice, and once the worker has stopped
  // each task is finished exactly when it had been taken from the queue.
  lemma {:induction false} FinishedOnce(ys: seq<Sys>, es: seq<Event>, i: nat, t: Task)
    requires Run(ys, es) && i < |ys|
    ensures Finished(ys[i].w.done)[t] <= 1
    ensures t !in ys[i].submitted ==> Finished(ys[i].w.done)[t] == 0
    ensures ys[i].stopped && t in ys[i].submitted ==> (Finished(ys[i].w.done)[t] == 1 <==> t !in ys[i].queue)
  {
    RunConserves(ys, es, i);
    var y := ys[i];
    assert (multiset(y.queue) + Within(y.w))[t] == multiset(y.submitted)[t];
    assert t in y.queue <==> multiset(y.queue)[t] > 0;
    if y.stopped {
      assert Within(y.w)[t] == Finished(y.w.done)[t];
    }
  }

  // ---------- Replies are matched to their own batches ----------

  // A failed attempt to send leaves batches of the closed stream in flight.
  predicate Safe(y: Sys, e: Event) {
    match e
    case Tick(link) => y.w.pending != [] && Fails(y.w, link) ==> y.w.inFlight == []
    case Take(link) => |y.w.pending| + 1 >= BATCH_SIZE && Fails(y.w, link) ==> y.w.inFlight == []
    case _ => true
  }

  // What is in flight is what was sent on the open stream and not yet answered,
  // in that order, with one receiver waiting for the next answer.
  ghost predicate Matched(w: Worker, got: map<nat, nat>) {
    && (forall s :: s in w.sent || s in got ==> s < w.streams)
    && NoneEmpty(w.inFlight)
    && (w.recvActive <==> w.inFlight != [])
    && if w.stream.None? then w.inFlight == [] && w.receivers == multiset{}
       else
         && w.stream.value < w.streams
         && Unanswered(w.inFlight, SentOn(w, w.stream.value), Count(got, w.stream.value))
         && w.receivers == if w.recvActive then multiset{w.stream.value} else multiset{}
  }

  ghost predicate NoneEmpty(bs: seq<Batch>) {
    forall i :: 0 <= i < |bs| ==> bs[i] != []
  }

  ghost predicate Unanswered(inFlight: seq<Batch>, all: seq<Batch>, n: nat) {
    n <= |all| && inFlight == all[n..]
  }

  lemma {:induction false} UnansweredSend(inFlight: seq<Batch>, all: seq<Batch>, n: nat, batch: Batch)
    requires Unanswered(inFlight, all, n) && NoneEmpty(inFlight) && batch != []
    ensures Unanswered(inFlight + [batch], all + [batch], n) && NoneEmpty(inFlight + [batch])
  {}

  lemma {:induction false} UnansweredReply(inFlight: seq<Batch>, all: seq<Batch>, n: nat)
    requires Unanswered(inFlight, all, n) && NoneEmpty(inFlight) && inFlight != []
    ensures n < |all| && inFlight[0] == all[n] && Unanswered(inFlight[1..], all, n + 1) && NoneEmpty(inFlight[1..])
  {
    assert all[n..][1..] == all[n + 1..];
  }

  // Success was reported for exactly the tasks the replica acknowledged.
  ghost predicate Truthful(y: Sys) {
    forall t :: Mark(t, true) in y.w.done <==> t in y.acked
  }

  ghost predicate Clean(y: Sys) {
    Truthful(y) && (!y.stopped ==> Matched(y.w, y.got))
  }

  lemma {:induction false} MarksFalse(tasks: seq<Task>, t: Task)
    ensures Mark(t, true) !in Marks(tasks, false)
  {}

  lemma {:induction false} MarksTrue(tasks: seq<Task>, t: Task)
    ensures Mark(t, true) in Marks(tasks, true) <==> t in tasks
  {
    var ms := Marks(tasks, true);
    if t in tasks {
      var i :| 0 <= i < |tasks| && tasks[i] == t;
      assert ms[i] == Mark(t, true);
    }
  }

  lemma {:induction false} MarksAllFalse(bs: seq<Batch>, t: Task)
    ensures Mark(t, true) !in MarksAll(bs, false)
  {
    if bs != [] {
      MarksAllFalse(bs[..|bs| - 1], t);
    }
  }

  // Reporting failures adds no success.
  lemma {:induction false} FailuresAreTruthful(w: Worker, batch: Batch)
    ensures forall t :: Mark(t, true) in Finish(w, batch, false).done <==> Mark(t, true) in w.done
    ensures forall t :: Mark(t, true) in FailAll(w).done <==> Mark(t, true) in w.done
  {
    forall t ensures Mark(t, true) !in MarksAll(w.inFlight, false) { MarksAllFalse(w.inFlight, t); }
  }

  lemma {:induction false} FlushMatched(w: Worker, got: map<nat, nat>, link: Link)
    requires Matched(w, got) && (w.pending != [] && Fails(w, link) ==> w.inFlight == [])
    ensures Matched(Flush(w, link), got)
    ensures forall t :: Mark(t, true) in Flush(w, link).done <==> Mark(t, true) in w.done
  {
    if w.pending != [] {
      var batch, w1 := w.pending, w.(pending := []);
      if w.stream.None? && !link.opens {
        FailuresAreTruthful(Close(w1), batch);
      } else if !link.sends {
        FailuresAreTruthful(Close(Opened(w1)), batch);
      } else {
        SendMatched(Opened(w1), got, batch);
      }
    }
  }

  lemma {:induction false} SendMatched(w: Worker, got: map<nat, nat>, batch: Batch)
    requires Matched(w, got) && w.stream.Some? && batch != []
    ensures Matched(Send(w, batch), got) && Send(w, batch).done == w.done
  {
    var s := w.stream.value;
    UnansweredSend(w.inFlight, SentOn(w, s), Count(got, s), batch);
    assert multiset{} + multiset{s} == multiset{s};
  }

  // The answer to the oldest batch in flight is about that batch.
  lemma {:induction false} ReplyMatched(w: Worker, got: map<nat, nat>, s: nat, reply: Reply)
    requires Matched(w, got) && s in w.receivers
    ensures w.stream == Some(s) && w.inFlight != []
    ensures reply.Broken? ==> Matched(OnReply(w, s, reply), got)
    ensures Count(got, s) < |SentOn(w, s)| && w.inFlight[0] == SentOn(w, s)[Count(got, s)]
    ensures !reply.Broken? ==> Matched(OnReply(w, s, reply), got[s := Count(got, s) + 1])
  {
    UnansweredReply(w.inFlight, SentOn(w, s), Count(got, s));
  }

  lemma {:induction false} ReplyTruthful(w: Worker, s: nat, reply: Reply)
    requires w.inFlight != []
    ensures forall t :: Mark(t, true) in OnReply(w, s, reply).done <==>
              Mark(t, true) in w.done || (reply.Acked? && t in w.inFlight[0])
  {
    var batch, w2 := w.inFlight[0], Received(w, s).(inFlight := w.inFlight[1..]);
    if reply.Broken? {
      FailuresAreTruthful(Close(w2), batch);
      FailuresAreTruthful(Finish(Close(w2), batch, false), batch);
    } else {
      forall t ensures Mark(t, true) in Marks(batch, reply.Acked?) <==> reply.Acked? && t in batch {
        if reply.Acked? {
          MarksTrue(batch, t);
        } else {
          MarksFalse(batch, t);
        }
      }
    }
  }

  lemma {:induction false} NextStaysClean(y: Sys, e: Event, z: Sys)
    requires Clean(y) && Next(y, e, z) && Safe(y, e)
    ensures Clean(z)
  {
    match e
    case Submit(t) =>
    case Take(link) =>
      var w1 := y.w.(pending := y.w.pending + [y.queue[0]]);
      assert Matched(w1, y.got);
      if |w1.pending| >= BATCH_SIZE {
        FlushMatched(w1, y.got, link);
      }
    case Tick(link) => FlushMatched(y.w, y.got, link);
    case Receive(s, reply) =>
      ReplyMatched(y.w, y.got, s, reply);
      ReplyTruthful(y.w, s, reply);
    case Halt => FailuresAreTruthful(Close(y.w), []);
  }

  // In every run in which no send fails while a batch is in flight, success is
  // reported for exactly the tasks of the batches the replica acknowledged.
  lemma {:induction false} SuccessMeansAcked(ys: seq<Sys>, es: seq<Event>, i: nat)
    requires Run(ys, es) && i < |ys|
    requires forall k :: 0 <= k < i ==> Safe(ys[k], es[k])
    ensures Clean(ys[i])
  {
    if i > 0 {
      SuccessMeansAcked(ys, es, i - 1);
      assert Next(ys[i - 1], es[i - 1], ys[i]);
      NextStaysClean(ys[i - 1], es[i - 1], ys[i]);
    }
  }

  // ---------- A failed send with a batch in flight ----------

  // A failed send closes the stream and leaves its batches in flight, whether the
  // clock or a full batch caused it.
  lemma {:induction false} UnsafeLeaves(y: Sys, e: Event, z: Sys)
    requires Clean(y) && Next(y, e, z) && !Safe(y, e)
    ensures !z.stopped && z.w.inFlight == y.w.inFlight != [] && NoneEmpty(z.w.inFlight)
    ensures z.w.pending == [] && z.w.stream == None && !z.w.recvActive
    ensures z.acked == y.acked && z.submitted == y.submitted && forall t :: t in z.queue ==> t in y.queue
    ensures forall s :: s in z.w.sent || s in z.got ==> s < z.w.streams
  {}

  // Whatever is taken next goes out alone on a new stream, last in flight.
  lemma {:induction false} NewStream(y: Sys) returns (z: Sys, s: nat)
    requires !y.stopped && y.w.stream == None && !y.w.recvActive && |y.w.pending| == 1
    requires forall k :: k in y.w.sent || k in y.got ==> k < y.w.streams
    ensures Next(y, Tick(Link(true, true)), z) && z == y.(w := z.w)
    ensures z.w.inFlight == y.w.inFlight + [y.w.pending] && s in z.w.receivers
    ensures SentOn(z.w, s) == [y.w.pending] && GotOn(z, s) == 0
  {
    s := y.w.streams;
    z := y.(w := Flush(y.w, Link(true, true)));
    assert SentOn(Opened(y.w.(pending := [])), s) == [];
  }

  // The acknowledgement of that batch is reported to the oldest one.
  lemma {:induction false} WrongBatch(y: Sys, s: nat, x: Task, h: Task) returns (z: Sys)
    requires !y.stopped && s in y.w.receivers && SentOn(y.w, s) == [[h]] && GotOn(y, s) == 0
    requires y.w.inFlight != [] && x in y.w.inFlight[0] && x != h && x !in y.acked
    ensures Next(y, Receive(s, Acked), z) && Mark(x, true) in z.w.done && x !in z.acked
  {
    z := y.(w := OnReply(y.w, s, Acked), got := y.got[s := 1], acked := y.acked + TaskSet(SentOn(y.w, s)[0]));
    ReplyTruthful(y.w, s, Acked);
  }

  lemma {:induction false} InBatchesHas(bs: seq<Batch>, x: Task)
    requires bs != [] && x in bs[0]
    ensures InBatches(bs)[x] > 0
  {
    InBatchesHead(bs);
    assert multiset(bs[0])[x] > 0;
  }

  lemma {:induction false} FinishedHas(ms: seq<Mark>, x: Task)
    requires Mark(x, true) in ms
    ensures Finished(ms)[x] > 0
  {
    var i :| 0 <= i < |ms| && ms[i] == Mark(x, true);
    var ts := seq(|ms|, i requires 0 <= i < |ms| => ms[i].task);
    assert ts[i] == x;
    assert x in multiset(ts);
  }

  // A task in flight has not been acknowledged and is not in the queue.
  lemma {:induction false} InFlightIsOpen(y: Sys, x: Task)
    requires Clean(y) && Conserved(y) && y.w.inFlight != [] && x in y.w.inFlight[0]
    ensures x !in y.acked && x !in y.queue && x in y.submitted
  {
    InBatchesHas(y.w.inFlight, x);
    assert (multiset(y.queue) + Within(y.w))[x] == multiset(y.submitted)[x];
    if x in y.acked {
      FinishedHas(y.w.done, x);
    }
  }

  // After every unsafe event of every run that was safe until then, there are
  // steps after which a task in flight is reported successful although the
  // replica never acknowledged it.
  lemma {:induction false} FailedSendMisreports(y: Sys, e: Event, z: Sys, t: Task) returns (zs: seq<Sys>, es: seq<Event>, x: Task)
    requires Clean(y) && Conserved(y) && Next(y, e, z) && !Safe(y, e) && t !in y.submitted
    ensures Path(zs, es) && |es| == 4 && zs[0] == z
    ensures y.w.inFlight != [] && x in y.w.inFlight[0] && Mark(x, true) in zs[4].w.done && x !in zs[4].acked
  {
    UnsafeLeaves(y, e, z);
    x := z.w.inFlight[0][0];
    InFlightIsOpen(y, x);
    var y1 := z.(queue := z.queue + [t], submitted := z.submitted + {t});
    var h := y1.queue[0];
    assert h in z.queue || h == t;
    var y2 := TakeOne(y1);
    var y3, s := NewStream(y2);
    var y4 := WrongBatch(y3, s, x, h);
    zs, es := FourMore(z, Submit(t), y1, Take(Link(true, true)), y2, Tick(Link(true, true)), y3, Receive(s, Acked), y4);
  }

  ghost predicate AllSafe(ys: seq<Sys>, es: seq<Event>)
    requires |ys| == |es| + 1
  {
    forall i :: 0 <= i < |es| ==> Safe(ys[i], es[i])
  }

  lemma {:induction false} Extend(ys: seq<Sys>, es: seq<Event>, e: Event, z: Sys) returns (zs: seq<Sys>, fs: seq<Event>)
    requires Path(ys, es) && Next(ys[|es|], e, z)
    ensures Path(zs, fs) && |fs| == |es| + 1 && zs[0] == ys[0] && zs[|fs|] == z
    ensures AllSafe(ys, es) && Safe(ys[|es|], e) ==> AllSafe(zs, fs)
  {
    PathSnoc(ys, es, e, z);
    zs, fs := ys + [z], es + [e];
    if AllSafe(ys, es) && Safe(ys[|es|], e) {
      forall i | 0 <= i < |fs| ensures Safe(zs[i], fs[i]) {
        if i < |es| {
          assert zs[i] == ys[i] && fs[i] == es[i];
        }
      }
    }
  }

  lemma {:induction false} FourMore(y0: Sys, e0: Event, y1: Sys, e1: Event, y2: Sys, e2: Event, y3: Sys, e3: Event, y4: Sys)
    returns (zs: seq<Sys>, es: seq<Event>)
    requires Next(y0, e0, y1) && Next(y1, e1, y2) && Next(y2, e2, y3) && Next(y3, e3, y4)
    ensures Path(zs, es) && |es| == 4 && zs[0] == y0 && zs[4] == y4
    ensures Safe(y0, e0) && Safe(y1, e1) && Safe(y2, e2) && Safe(y3, e3) ==> AllSafe(zs, es)
  {
    zs, es := [y0], [];
    zs, es := Extend(zs, es, e0, y1);
    zs, es := Extend(zs, es, e1, y2);
    zs, es := Extend(zs, es, e2, y3);
    zs, es := Extend(zs, es, e3, y4);
  }

  // Such events happen: a run from the start with one task in flight and another
  // pending, after which a failed send is unsafe.
  lemma {:induction false} UnsafeIsReachable(a: Task, b: Task) returns (ys: seq<Sys>, es: seq<Event>)
    requires a != b
    ensures Run(ys, es) && |es| == 5 && AllSafe(ys, es)
    ensures !ys[5].stopped && ys[5].w.inFlight == [[a]] && ys[5].w.pending == [b] && ys[5].submitted == {a, b}
  {
    var y0 := Sys(Worker([], [], None, false, [], 0, multiset{}, map[]), [], {}, map[], {}, false);
    var y1 := y0.(queue := y0.queue + [a], submitted := y0.submitted + {a});
    var y2 := TakeOne(y1);
    var y3, s := NewStream(y2);
    var y4 := y3.(queue := y3.queue + [b], submitted := y3.submitted + {b});
    var link := Link(true, true);
    ys, es := FourMore(y0, Submit(a), y1, Take(link), y2, Tick(link), y3, Submit(b), y4);
    var y5 := TakeOne(y4);
    ys, es := Extend(ys, es, Take(link), y5);
    assert y3.w.inFlight == [[a]];
  }

  // So the whole of it happens in one run from the start.
  lemma {:induction false} MisreportHappens(a: Task, b: Task, t: Task) returns (ys: seq<Sys>, es: seq<Event>, x: Task)
    requires a != b && t != a && t != b
    ensures Run(ys, es) && |es| == 10
    ensures Mark(x, true) in ys[10].w.done && x !in ys[10].acked
  {
    ys, es := UnsafeIsReachable(a, b);
    var y, e := ys[5], Tick(Link(true, false));
    SuccessMeansAcked(ys, es, 5);
    RunConserves(ys, es, 5);
    var z := y.(w := Flush(y.w, Link(true, false)));
    var zs, fs;
    zs, fs, x := FailedSendMisreports(y, e, z, t);
    ys, es := Extend(ys, es, e, z);
    ys, es := JoinPaths(ys, es, zs, fs);
  }

  lemma {:induction false} JoinPaths(ys: seq<Sys>, es: seq<Event>, zs: seq<Sys>, fs: seq<Event>) returns (ws: seq<Sys>, gs: seq<Event>)
    requires Path(ys, es) && Path(zs, fs) && zs[0] == ys[|es|]
    ensures Path(ws, gs) && |gs| == |es| + |fs| && ws[0] == ys[0] && ws[|gs|] == zs[|fs|]
  {
    ws, gs := ys + zs[1..], es + fs;
    forall i | 0 <= i < |gs| ensures Next(ws[i], gs[i], ws[i + 1]) {
      if i < |es| {
        assert ws[i] == ys[i] && gs[i] == es[i] && ws[i + 1] == ys[i + 1];
      } else {
        var j := i - |es|;
        assert ws[i] == zs[j] && gs[i] == fs[j] && ws[i + 1] == zs[j + 1];
      }
    }
  }

  lemma {:induction false} TakeOne(y: Sys) returns (z: Sys)
    requires !y.stopped && y.queue != [] && y.w.pending == []
    ensures Next(y, Take(Link(true, true)), z)
    ensures z == y.(queue := y.queue[1..], w := y.w.(pending := [y.queue[0]]))
  {
    z := y.(queue := y.queue[1..], w := y.w.(pending := [y.queue[0]]));
    assert y.w.pending + [y.queue[0]] == [y.queue[0]];
  }

  // ---------- What is sent and acknowledged is reported ----------

  lemma {:induction false} MarksAllConcat(a: seq<Batch>, b: seq<Batch>, ok: bool)
    ensures MarksAll(a + b, ok) == MarksAll(a, ok) + MarksAll(b, ok)
  {
    if b == [] {
      assert a + b == a;
    } else {
      var n := |b| - 1;
      MarksAllConcat(a, b[..n], ok);
      assert (a + b)[..|a + b| - 1] == a + b[..n] && (a + b)[|a + b| - 1] == b[n];
      assert MarksAll(a, ok) + MarksAll(b[..n], ok) + Marks(b[n], ok) == MarksAll(a, ok) + (MarksAll(b[..n], ok) + Marks(b[n], ok));
    }
  }

  lemma {:induction false} MarksAllHead(bs: seq<Batch>, ok: bool)
    requires bs != []
    ensures MarksAll(bs, ok) == Marks(bs[0], ok) + MarksAll(bs[1..], ok)
  {
    assert bs == [bs[0]] + bs[1..];
    MarksAllConcat([bs[0]], bs[1..], ok);
    var first := bs[..1];
    assert first == [bs[0]] && first[..0] == [] && MarksAll(first[..0], ok) == [];
  }

  // The state once everything in flight has been acknowledged.
  ghost predicate Settled(y: Sys, z: Sys) {
    && !z.stopped && z.queue == y.queue && z.w.pending == y.w.pending && z.w.inFlight == []
    && z.w.done == y.w.done + MarksAll(y.w.inFlight, true)
  }

  // An acknowledgement reports success for each task of the oldest batch.
  lemma {:induction false} AckFinishesOldest(y: Sys) returns (e: Event, z: Sys)
    requires !y.stopped && Matched(y.w, y.got) && y.w.inFlight != []
    ensures e.Receive? && e.reply.Acked? && Next(y, e, z) && !z.stopped && Matched(z.w, z.got)
    ensures z.queue == y.queue && z.w.pending == y.w.pending && z.w.inFlight == y.w.inFlight[1..]
    ensures z.w.done == y.w.done + Marks(y.w.inFlight[0], true)
  {
    var s := y.w.stream.value;
    ReplyMatched(y.w, y.got, s, Acked);
    e := Receive(s, Acked);
    z := y.(w := OnReply(y.w, s, Acked), got := y.got[s := GotOn(y, s) + 1],
            acked := y.acked + TaskSet(SentOn(y.w, s)[GotOn(y, s)]));
  }

  // Answers never lack a receiver: from any state with replies matched, the
  // replica's acknowledgements report success for everything in flight, in order.
  lemma {:induction false} AcksSettle(y: Sys) returns (ys: seq<Sys>, es: seq<Event>)
    requires !y.stopped && Matched(y.w, y.got)
    ensures Path(ys, es) && ys[0] == y && |es| == |y.w.inFlight| && Settled(y, ys[|es|])
    ensures forall i :: 0 <= i < |es| ==> es[i].Receive? && es[i].reply.Acked?
    decreases |y.w.inFlight|
  {
    if y.w.inFlight == [] {
      ys, es := [y], [];
      assert y.w.done + [] == y.w.done;
    } else {
      var e, z := AckFinishesOldest(y);
      var zs, fs := AcksSettle(z);
      PathCons(y, e, zs, fs);
      SettledStep(y, z, zs[|fs|]);
      ys, es := [y] + zs, [e] + fs;
    }
  }

  lemma {:induction false} PathCons(y: Sys, e: Event, zs: seq<Sys>, fs: seq<Event>)
    requires Path(zs, fs) && Next(y, e, zs[0])
    ensures Path([y] + zs, [e] + fs)
  {
    var ys, es := [y] + zs, [e] + fs;
    forall i | 0 <= i < |es| ensures Next(ys[i], es[i], ys[i + 1]) {
      if i > 0 {
        assert ys[i] == zs[i - 1] && es[i] == fs[i - 1] && ys[i + 1] == zs[i];
      }
    }
  }

  lemma {:induction false} SettledStep(y: Sys, z: Sys, end: Sys)
    requires y.w.inFlight != [] && z.queue == y.queue && z.w.pending == y.w.pending && z.w.inFlight == y.w.inFlight[1..]
    requires z.w.done == y.w.done + Marks(y.w.inFlight[0], true) && Settled(z, end)
    ensures Settled(y, end)
  {
    MarksAllHead(y.w.inFlight, true);
    var m, rest := Marks(y.w.inFlight[0], true), MarksAll(y.w.inFlight[1..], true);
    assert y.w.done + m + rest == y.w.done + (m + rest);
  }

  // A tick with a working link sends everything collected as one batch.
  lemma {:induction false} TickSends(y: Sys, link: Link) returns (z: Sys)
    requires !y.stopped && Matched(y.w, y.got) && link.opens && link.sends
    ensures Next(y, Tick(link), z) && !z.stopped && Matched(z.w, z.got)
    ensures z.queue == y.queue && z.w.pending == [] && z.w.done == y.w.done
    ensures z.w.inFlight == y.w.inFlight + if y.w.pending == [] then [] else [y.w.pending]
  {
    z := y.(w := Flush(y.w, link));
    FlushMatched(y.w, y.got, link);
    assert y.w.inFlight + [] == y.w.inFlight;
  }

  // A task is sent with the 512th of its batch and not before; until then it only
  // waits.
  lemma {:induction false} FullAt512(w: Worker, t: Task, link: Link)
    ensures |w.pending| < 511 ==> OnTask(w, t, link) == w.(pending := w.pending + [t])
    ensures |w.pending| >= 511 && link.opens && link.sends ==>
              && OnTask(w, t, link).pending == [] && OnTask(w, t, link).done == w.done
              && OnTask(w, t, link).inFlight == w.inFlight + [w.pending + [t]]
  {}
}
