// core/loop.go and core/wal.go together: the event loop, the log writer and
// the acknowledgement goroutine as one machine whose steps interleave freely,
// in the flush and fsync acknowledgement modes.
module EventLoop {
  import opened Commands
  import opened LastWriterWins
  import opened WalCodec
  import opened Drops
  import S = Store

  // What a run is started with: the store before any replay (empty in a fresh
  // process), the commands already in the log file, whether acknowledgements
  // wait for fsync, the batch size, the vnode of each key, and how many bytes of
  // the file are known to be on the disk.
  datatype Config = Config(start: Table, base: seq<Command>, fsync: bool, batchSize: nat, home: Blob -> U16, durable: nat)

  datatype Batch = Batch(id: nat, cmds: seq<Command>)

  // The event loop collects requests, applies a batch command by command,
  // appends it to the log channel, and hands it to the acknowledger.
  datatype LoopPhase =
    | Collecting(batch: seq<Command>)
    | Applying(batch: seq<Command>, done: nat)
    | Appended(batch: seq<Command>, id: nat)

  // The writer encodes a batch, may flush in between, and publishes the batch id
  // after the final flush. publish tells the final flush from the others.
  datatype WriterPhase =
    | Idle
    | Encoding(id: nat, todo: seq<Command>)
    | Writing(id: nat, todo: seq<Command>, publish: bool)
    | Syncing(id: nat, todo: seq<Command>, publish: bool)
    | Publishing(id: nat)
    | Stopped

  // encoded counts the commands encoded so far (history only).
  datatype Writer = Writer(
    phase: WriterPhase, file: seq<Byte>, held: seq<Byte>, synced: nat, flushedID: nat, failed: bool, encoded: nat)

  datatype AckPhase =
    | Resting
    | Waiting(ack: Batch)
    | Replying(next: int, reqs: seq<Command>, ok: bool)

  // A response to a client; next and at are positions of commands in the log
  // (history only).
  datatype Reply = Reply(cmd: Command, ok: bool, at: int)

  // log is every command appended in this run, done everything that happened to
  // the table (history only).
  datatype Sys = Sys(
    loop: LoopPhase, table: Table, nextID: nat, ch: seq<Batch>, w: Writer,
    ackCh: seq<Batch>, acker: AckPhase, replies: seq<Reply>, log: seq<Command>, done: seq<S.Event>)

  function StartSynced(cfg: Config): nat {
    if cfg.durable < |EncodeAll(cfg.base)| then cfg.durable else |EncodeAll(cfg.base)|
  }

  function Init(cfg: Config): Sys {
    Sys(Collecting([]), ApplyAll(cfg.start, cfg.base), 0, [],
        Writer(Idle, EncodeAll(cfg.base), [], StartSynced(cfg), 0, false, 0), [], Resting, [], [], [])
  }

  // ---------- Event loop steps ----------

  datatype Step =
    // event loop
    | Receive(c: Command) | Tick | ApplyNext | Append | HandOff
    // log writer; the arguments are the disk's answers
    | TakeBatch | EncodeNext | BeginFlush | EndBatch | Write(ok: bool, partial: nat) | Sync(ok: bool) | Publish
    | Close(written: nat)
    // acknowledger
    | TakeAck | Wake | Respond
    // a migration deletes a vnode's data beside the loop, unlogged
    | DropVNode(v: U16)

  function LoopStep(cfg: Config, s: Sys, step: Step): Sys {
    match step
    case Receive(c) =>
      if !s.loop.Collecting? || c.op == OP_GET then s else
        var batch := s.loop.batch + [c];
        s.(loop := if |batch| >= cfg.batchSize then Applying(batch, 0) else Collecting(batch))
    case Tick =>
      if s.loop.Collecting? && s.loop.batch != [] then s.(loop := Applying(s.loop.batch, 0)) else s
    case ApplyNext =>
      if s.loop.Applying? && s.loop.done < |s.loop.batch| then
        var c := s.loop.batch[s.loop.done];
        s.(table := Apply(s.table, c), done := s.done + [S.Write(c)], loop := Applying(s.loop.batch, s.loop.done + 1))
      else s
    case Append =>
      if s.loop.Applying? && s.loop.done >= |s.loop.batch| then
        var batch := s.loop.batch;
        var id := s.nextID + |batch|;
        s.(nextID := id, ch := s.ch + [Batch(id, batch)], log := s.log + batch, loop := Appended(batch, id))
      else s
    case HandOff =>
      if s.loop.Appended? then
        s.(ackCh := s.ackCh + [Batch(s.loop.id, s.loop.batch)], loop := Collecting([]))
      else s
    case _ => s
  }

  // ---------- Writer steps ----------

  function AfterFlush(w: Writer, id: nat, todo: seq<Command>, publish: bool): Writer {
    w.(phase := if publish then Publishing(id) else Encoding(id, todo))
  }

  function Fail(w: Writer, partial: nat): Writer {
    var n := if partial < |w.held| then partial else |w.held|;
    w.(phase := Stopped, failed := true, file := w.file + w.held[..n], held := [])
  }

  function WriteStep(cfg: Config, w: Writer, ok: bool, partial: nat): Writer
    requires w.phase.Writing?
  {
    var Writing(id, todo, publish) := w.phase;
    if w.held == [] then AfterFlush(w, id, todo, publish)
    else if !ok then Fail(w, partial)
    else
      var written := w.(file := w.file + w.held, held := []);
      if cfg.fsync then written.(phase := Syncing(id, todo, publish)) else AfterFlush(written, id, todo, publish)
  }

  function SyncStep(w: Writer, ok: bool): Writer
    requires w.phase.Syncing?
  {
    if ok then AfterFlush(w.(synced := |w.file|), w.phase.id, w.phase.todo, w.phase.publish) else Fail(w, 0)
  }

  function EncodeStep(w: Writer): Writer
    requires w.phase.Encoding? && w.phase.todo != []
  {
    w.(held := w.held + Encode(w.phase.todo[0]), encoded := w.encoded + 1,
       phase := Encoding(w.phase.id, w.phase.todo[1..]))
  }

  function WriterStep(cfg: Config, s: Sys, step: Step): Sys {
    var w := s.w;
    match step
    case TakeBatch =>
      if w.phase.Idle? && s.ch != [] then
        s.(ch := s.ch[1..], w := w.(phase := Encoding(s.ch[0].id, s.ch[0].cmds)))
      else s
    case EncodeNext =>
      if w.phase.Encoding? && w.phase.todo != [] then s.(w := EncodeStep(w)) else s
    case BeginFlush =>
      if w.phase.Encoding? && w.phase.todo != [] then s.(w := w.(phase := Writing(w.phase.id, w.phase.todo, false))) else s
    case EndBatch =>
      if w.phase.Encoding? && w.phase.todo == [] then
        s.(w := w.(phase := if s.ch == [] then Writing(w.phase.id, [], true) else Idle))
      else s
    case Write(ok, partial) =>
      if w.phase.Writing? then s.(w := WriteStep(cfg, w, ok, partial)) else s
    case Sync(ok) =>
      if w.phase.Syncing? then s.(w := SyncStep(w, ok)) else s
    case Publish =>
      if w.phase.Publishing? then s.(w := w.(flushedID := w.phase.id, phase := Idle)) else s
    case Close(written) =>
      if w.phase.Idle? then s.(w := Fail(w, written).(failed := w.failed)) else s
    case _ => s
  }

  // ---------- Acknowledger steps ----------

  function AckStep(s: Sys, step: Step): Sys {
    match step
    case TakeAck =>
      if s.acker.Resting? && s.ackCh != [] then s.(ackCh := s.ackCh[1..], acker := Waiting(s.ackCh[0])) else s
    case Wake =>
      if s.acker.Waiting? && (s.w.flushedID >= s.acker.ack.id || s.w.failed) then
        var ack := s.acker.ack;
        s.(acker := Replying(ack.id - |ack.cmds|, ack.cmds, !s.w.failed))
      else s
    case Respond =>
      if !s.acker.Replying? then s
      else if s.acker.reqs == [] then s.(acker := Resting)
      else
        var Replying(next, reqs, ok) := s.acker;
        s.(acker := Replying(next + 1, reqs[1..], ok), replies := s.replies + [Reply(reqs[0], ok, next)])
    case _ => s
  }

  function DropStep(cfg: Config, s: Sys, v: U16): Sys {
    s.(table := S.Without(s.table, cfg.home, v), done := s.done + [S.Drop(v)])
  }

  function Next(cfg: Config, s: Sys, step: Step): Sys {
    match step
    case Receive(_) => LoopStep(cfg, s, step)
    case Tick => LoopStep(cfg, s, step)
    case ApplyNext => LoopStep(cfg, s, step)
    case Append => LoopStep(cfg, s, step)
    case HandOff => LoopStep(cfg, s, step)
    case TakeAck => AckStep(s, step)
    case Wake => AckStep(s, step)
    case Respond => AckStep(s, step)
    case DropVNode(v) => DropStep(cfg, s, v)
    case _ => WriterStep(cfg, s, step)
  }

  // A step that is not enabled leaves the machine unchanged, so every sequence
  // of steps is one interleaving.
  function RunFrom(cfg: Config, s: Sys, steps: seq<Step>): Sys {
    if steps == [] then s else Next(cfg, RunFrom(cfg, s, steps[..|steps| - 1]), steps[|steps| - 1])
  }

  function Run(cfg: Config, steps: seq<Step>): Sys {
    RunFrom(cfg, Init(cfg), steps)
  }

  lemma {:induction false} RunFromConcat(cfg: Config, s: Sys, a: seq<Step>, b: seq<Step>)
    ensures RunFrom(cfg, s, a + b) == RunFrom(cfg, RunFrom(cfg, s, a), b)
  {
    if b == [] {
      assert a + b == a;
    } else {
      RunFromConcat(cfg, s, a, b[..|b| - 1]);
      assert (a + b)[..|a + b| - 1] == a + b[..|b| - 1];
    }
  }

  // ---------- A whole batch ----------

  lemma {:induction false} ApplyingRounds(cfg: Config, s: Sys, n: nat)
    requires s.loop.Applying? && s.loop.done == 0 && n <= |s.loop.batch|
    ensures RunFrom(cfg, s, seq(n, _ => ApplyNext))
            == s.(table := ApplyAll(s.table, s.loop.batch[..n]), loop := Applying(s.loop.batch, n),
                  done := s.done + S.Writing(s.loop.batch[..n]))
  {
    if n > 0 {
      ApplyingRounds(cfg, s, n - 1);
      assert seq(n, _ => ApplyNext)[..n - 1] == seq(n - 1, _ => ApplyNext);
      var part := s.loop.batch[..n];
      assert part[..n - 1] == s.loop.batch[..n - 1];
      assert S.Writing(part) == S.Writing(part[..n - 1]) + [S.Write(s.loop.batch[n - 1])];
    } else {
      assert s.done + [] == s.done;
    }
  }

  // processBatch, run without interruption: the batch is executed, appended
  // under the next id, queued for acknowledgement, and cleared.
  lemma {:induction false} ProcessBatchRound(cfg: Config, s: Sys)
    requires s.loop.Applying? && s.loop.done == 0
    ensures var batch := s.loop.batch;
            var id := s.nextID + |batch|;
            RunFrom(cfg, s, seq(|batch|, _ => ApplyNext) + [Append, HandOff])
            == s.(table := ApplyAll(s.table, batch), nextID := id, ch := s.ch + [Batch(id, batch)],
                  log := s.log + batch, ackCh := s.ackCh + [Batch(id, batch)], loop := Collecting([]),
                  done := s.done + S.Writing(batch))
  {
    var batch := s.loop.batch;
    var applies := seq(|batch|, _ => ApplyNext);
    ApplyingRounds(cfg, s, |batch|);
    assert batch[..|batch|] == batch;
    assert (applies + [Append, HandOff])[..|batch| + 1] == applies + [Append];
    assert (applies + [Append])[..|batch|] == applies;
  }

  // ---------- Invariants ----------

  function Todo(phase: WriterPhase): seq<Command> {
    match phase
    case Encoding(_, todo) => todo
    case Writing(_, todo, _) => todo
    case Syncing(_, todo, _) => todo
    case _ => []
  }

  function Flatten(ch: seq<Batch>): seq<Command> {
    if ch == [] then [] else ch[0].cmds + Flatten(ch[1..])
  }

  // Batch ids count the commands up to the end of the batch, starting at n.
  ghost predicate IdsFrom(ch: seq<Batch>, n: nat) {
    ch == [] || (ch[0].id == n + |ch[0].cmds| && ch[0].cmds != [] && IdsFrom(ch[1..], ch[0].id))
  }

  // The batch the writer is busy with, by id.
  ghost predicate BusyWith(w: Writer) {
    match w.phase
    case Encoding(id, todo) => id == w.encoded + |todo| && w.encoded + |todo| > 0
    case Writing(id, todo, publish) => id == w.encoded + |todo| && id > 0 && (publish ==> todo == [])
    case Syncing(id, todo, publish) => id == w.encoded + |todo| && id > 0 && (publish ==> todo == [])
    case Publishing(id) => id == w.encoded && id > 0
    case _ => true
  }

  // Everything appended is encoded, in the writer's hands, or in the channel.
  ghost predicate InvQueue(s: Sys) {
    && s.nextID == |s.log|
    && s.w.encoded <= |s.log|
    && (!s.w.phase.Stopped? ==>
          && s.log[s.w.encoded..] == Todo(s.w.phase) + Flatten(s.ch)
          && IdsFrom(s.ch, s.w.encoded + |Todo(s.w.phase)|)
          && BusyWith(s.w))
  }

  function Durable(cfg: Config, w: Writer): nat {
    if cfg.fsync then w.synced else |w.file|
  }

  // The bytes of the first n commands appended in this run, after the old log.
  ghost function Bytes(cfg: Config, log: seq<Command>, n: nat): seq<Byte>
    requires n <= |log|
  {
    EncodeAll(cfg.base + log[..n])
  }

  ghost predicate InvDisk(cfg: Config, w: Writer, log: seq<Command>) {
    && w.encoded <= |log|
    && (if w.phase.Stopped? then w.file <= EncodeAll(cfg.base + log)
        else w.file + w.held == Bytes(cfg, log, w.encoded))
    && StartSynced(cfg) <= w.synced <= |w.file|
    && (w.phase.Syncing? ==> w.held == [] && cfg.fsync)
    && |EncodeAll(cfg.base)| <= |w.file|
    && (cfg.fsync && !w.phase.Syncing? && !w.phase.Stopped? && |w.file| > |EncodeAll(cfg.base)| ==> w.synced == |w.file|)
    && (w.phase.Publishing? ==> |Bytes(cfg, log, w.encoded)| <= Durable(cfg, w))
    && w.flushedID <= w.encoded
    && (w.flushedID > 0 ==> |Bytes(cfg, log, w.flushedID)| <= Durable(cfg, w))
  }

  // An acknowledgement names the last commands up to its id.
  ghost predicate AckMatches(log: seq<Command>, ack: Batch) {
    |ack.cmds| <= ack.id <= |log| && log[ack.id - |ack.cmds|..ack.id] == ack.cmds
  }

  ghost predicate InvAcks(s: Sys) {
    && (forall i :: 0 <= i < |s.ackCh| ==> AckMatches(s.log, s.ackCh[i]))
    && (s.loop.Appended? ==> AckMatches(s.log, Batch(s.loop.id, s.loop.batch)))
    && (s.acker.Waiting? ==> AckMatches(s.log, s.acker.ack))
    && (s.acker.Replying? && s.acker.ok ==>
          && 0 <= s.acker.next
          && s.acker.next + |s.acker.reqs| <= s.w.flushedID <= |s.log|
          && s.log[s.acker.next..s.acker.next + |s.acker.reqs|] == s.acker.reqs)
    && (forall i :: 0 <= i < |s.replies| && s.replies[i].ok ==>
          && 0 <= s.replies[i].at < s.w.flushedID <= |s.log|
          && s.log[s.replies[i].at] == s.replies[i].cmd)
  }

  function AppliedPart(loop: LoopPhase): seq<Command> {
    if loop.Applying? && loop.done <= |loop.batch| then loop.batch[..loop.done] else []
  }

  // Everything that ever happened to the table: the replayed log, and then the
  // writes and drops of this run.
  ghost function History(cfg: Config, s: Sys): seq<S.Event> {
    S.Writing(cfg.base) + s.done
  }

  // The store has executed everything appended plus the applied part of the
  // batch in progress, with vnodes dropped in between.
  ghost predicate InvTable(cfg: Config, s: Sys) {
    && (s.loop.Applying? ==> s.loop.done <= |s.loop.batch| && s.loop.batch != [])
    && WritesOf(s.done) == s.log + AppliedPart(s.loop)
    && s.table == S.RunTable(cfg.start, cfg.home, History(cfg, s))
  }

  ghost predicate Inv(cfg: Config, s: Sys) {
    InvQueue(s) && InvDisk(cfg, s.w, s.log) && InvAcks(s) && InvTable(cfg, s)
  }

  lemma {:induction false} InitInv(cfg: Config)
    ensures Inv(cfg, Init(cfg))
  {
    assert S.Writing(cfg.base) + [] == S.Writing(cfg.base);
    S.RunTableOfWrites(cfg.start, cfg.home, cfg.base);
    assert cfg.base + [] == cfg.base;
  }

  // ---------- Event loop steps keep the invariant ----------

  lemma {:induction false} FlattenSnoc(ch: seq<Batch>, b: Batch)
    ensures Flatten(ch + [b]) == Flatten(ch) + b.cmds
  {
    if ch == [] {
      assert Flatten([b]) == b.cmds + Flatten([]);
    } else {
      FlattenSnoc(ch[1..], b);
      assert (ch + [b])[1..] == ch[1..] + [b];
    }
  }

  lemma {:induction false} IdsSnoc(ch: seq<Batch>, n: nat, b: Batch)
    requires IdsFrom(ch, n) && b.cmds != [] && b.id == n + |Flatten(ch)| + |b.cmds|
    ensures IdsFrom(ch + [b], n)
    decreases |ch|
  {
    if ch != [] {
      IdsSnoc(ch[1..], ch[0].id, b);
      assert (ch + [b])[1..] == ch[1..] + [b];
    }
  }

  lemma {:induction false} BytesStable(cfg: Config, log: seq<Command>, more: seq<Command>, n: nat)
    requires n <= |log|
    ensures Bytes(cfg, log + more, n) == Bytes(cfg, log, n)
    ensures EncodeAll(cfg.base + log) <= EncodeAll(cfg.base + (log + more))
  {
    assert (log + more)[..n] == log[..n];
    assert cfg.base + (log + more) == (cfg.base + log) + more;
    EncodeAllConcat(cfg.base + log, more);
  }

  lemma {:induction false} AppendKeepsQueue(s: Sys, s': Sys, batch: seq<Command>)
    requires InvQueue(s) && batch != [] && s'.w == s.w
    requires s'.nextID == s.nextID + |batch| && s'.log == s.log + batch
    requires s'.ch == s.ch + [Batch(s'.nextID, batch)]
    ensures InvQueue(s')
  {
    if !s.w.phase.Stopped? {
      var n := s.w.encoded;
      FlattenSnoc(s.ch, Batch(s'.nextID, batch));
      assert |s.log[n..]| == |s.log| - n;
      IdsSnoc(s.ch, n + |Todo(s.w.phase)|, Batch(s'.nextID, batch));
      assert s'.log[n..] == s.log[n..] + batch;
    }
  }

  lemma {:induction false} LoopKeepsQueue(cfg: Config, s: Sys, step: Step)
    requires InvQueue(s) && (s.loop.Applying? ==> s.loop.batch != [])
    ensures InvQueue(LoopStep(cfg, s, step))
  {
    if step.Append? && s.loop.Applying? && s.loop.done >= |s.loop.batch| {
      AppendKeepsQueue(s, LoopStep(cfg, s, step), s.loop.batch);
    }
  }

  lemma {:induction false} LoopKeepsDisk(cfg: Config, s: Sys, step: Step)
    requires InvDisk(cfg, s.w, s.log)
    ensures var s' := LoopStep(cfg, s, step); s'.w == s.w && InvDisk(cfg, s'.w, s'.log)
  {
    var s' := LoopStep(cfg, s, step);
    if s'.log != s.log {
      BytesStable(cfg, s.log, s.loop.batch, s.w.encoded);
      BytesStable(cfg, s.log, s.loop.batch, s.w.flushedID);
    }
  }

  lemma {:induction false} AckStable(log: seq<Command>, more: seq<Command>, ack: Batch)
    requires AckMatches(log, ack)
    ensures AckMatches(log + more, ack)
  {
    assert (log + more)[ack.id - |ack.cmds|..ack.id] == log[ack.id - |ack.cmds|..ack.id];
  }

  lemma {:induction false} AppendKeepsAcks(s: Sys, s': Sys, batch: seq<Command>)
    requires InvAcks(s) && s'.log == s.log + batch
    requires s'.ackCh == s.ackCh && s'.acker == s.acker && s'.replies == s.replies && s'.w == s.w
    requires s'.loop == Appended(batch, |s.log| + |batch|)
    ensures InvAcks(s')
  {
    forall i | 0 <= i < |s.ackCh| ensures AckMatches(s'.log, s'.ackCh[i]) {
      AckStable(s.log, batch, s.ackCh[i]);
    }
    assert s'.log[|s.log|..] == batch;
    if s.acker.Waiting? { AckStable(s.log, batch, s.acker.ack); }
    if s.acker.Replying? && s.acker.ok {
      var n, m := s.acker.next, s.acker.next + |s.acker.reqs|;
      assert s'.log[n..m] == s.log[n..m];
    }
  }

  lemma {:induction false} LoopKeepsAcks(cfg: Config, s: Sys, step: Step)
    requires InvAcks(s) && s.nextID == |s.log|
    ensures InvAcks(LoopStep(cfg, s, step))
  {
    if step.Append? && s.loop.Applying? && s.loop.done >= |s.loop.batch| {
      AppendKeepsAcks(s, LoopStep(cfg, s, step), s.loop.batch);
    }
  }

  lemma {:induction false} DoneGrows(cfg: Config, s: Sys, e: S.Event)
    requires InvTable(cfg, s)
    ensures WritesOf(s.done + [e]) == s.log + AppliedPart(s.loop) + if e.Write? then [e.c] else []
    ensures S.RunTable(cfg.start, cfg.home, S.Writing(cfg.base) + (s.done + [e])) ==
              match e case Write(c) => Apply(s.table, c) case Drop(v) => S.Without(s.table, cfg.home, v)
  {
    WritesOfSnoc(s.done, e);
    assert S.Writing(cfg.base) + (s.done + [e]) == History(cfg, s) + [e];
    RunTableSnoc(cfg.start, cfg.home, History(cfg, s), e);
  }

  lemma {:induction false} PrefixSnoc(log: seq<Command>, batch: seq<Command>, n: nat)
    requires n < |batch|
    ensures log + batch[..n] + [batch[n]] == log + batch[..n + 1]
  {
    assert batch[..n + 1] == batch[..n] + [batch[n]];
  }

  lemma {:induction false} ApplyKeepsTable(cfg: Config, s: Sys)
    requires InvTable(cfg, s) && s.loop.Applying? && s.loop.done < |s.loop.batch|
    ensures InvTable(cfg, LoopStep(cfg, s, ApplyNext))
  {
    var s', batch, n := LoopStep(cfg, s, ApplyNext), s.loop.batch, s.loop.done;
    DoneGrows(cfg, s, S.Write(batch[n]));
    assert WritesOf(s'.done) == s'.log + AppliedPart(s'.loop) by { PrefixSnoc(s.log, batch, n); }
  }

  lemma {:induction false} AppendKeepsTable(cfg: Config, s: Sys)
    requires InvTable(cfg, s) && s.loop.Applying? && s.loop.done == |s.loop.batch|
    ensures InvTable(cfg, LoopStep(cfg, s, Append))
  {
    var s', batch := LoopStep(cfg, s, Append), s.loop.batch;
    assert WritesOf(s'.done) == s'.log + AppliedPart(s'.loop) by {
      assert batch[..s.loop.done] == batch;
      assert s'.log + [] == s.log + batch;
    }
  }

  lemma {:induction false} LoopKeepsTable(cfg: Config, s: Sys, step: Step)
    requires InvTable(cfg, s)
    ensures InvTable(cfg, LoopStep(cfg, s, step))
  {
    if s.loop.Applying? && step.ApplyNext? && s.loop.done < |s.loop.batch| {
      ApplyKeepsTable(cfg, s);
    } else if s.loop.Applying? && step.Append? && s.loop.done == |s.loop.batch| {
      AppendKeepsTable(cfg, s);
    } else {
      var s' := LoopStep(cfg, s, step);
      assert (s'.log, s'.done, s'.table) == (s.log, s.done, s.table) && AppliedPart(s'.loop) == AppliedPart(s.loop);
    }
  }

  lemma {:induction false} DropKeepsInv(cfg: Config, s: Sys, v: U16)
    requires Inv(cfg, s)
    ensures Inv(cfg, DropStep(cfg, s, v))
  {
    DoneGrows(cfg, s, S.Drop(v));
    var s' := DropStep(cfg, s, v);
    assert s.log + AppliedPart(s.loop) + [] == s.log + AppliedPart(s.loop);
    assert (s'.loop, s'.nextID, s'.ch, s'.w, s'.ackCh, s'.acker, s'.replies, s'.log)
        == (s.loop, s.nextID, s.ch, s.w, s.ackCh, s.acker, s.replies, s.log);
  }

  lemma {:induction false} LoopKeepsInv(cfg: Config, s: Sys, step: Step)
    requires Inv(cfg, s)
    ensures Inv(cfg, LoopStep(cfg, s, step))
  {
    LoopKeepsQueue(cfg, s, step);
    LoopKeepsDisk(cfg, s, step);
    LoopKeepsAcks(cfg, s, step);
    LoopKeepsTable(cfg, s, step);
  }

  // ---------- Writer steps keep the invariant ----------

  lemma {:induction false} EncodeKeepsQueue(s: Sys)
    requires InvQueue(s) && s.w.phase.Encoding? && s.w.phase.todo != []
    ensures InvQueue(s.(w := EncodeStep(s.w)))
  {
    var n := s.w.encoded;
    assert s.log[n..][1..] == s.log[n + 1..];
    assert s.log[n..][1..] == s.w.phase.todo[1..] + Flatten(s.ch);
  }

  lemma {:induction false} TakeKeepsQueue(s: Sys)
    requires InvQueue(s) && s.w.phase.Idle? && s.ch != []
    ensures InvQueue(s.(ch := s.ch[1..], w := s.w.(phase := Encoding(s.ch[0].id, s.ch[0].cmds))))
  {
    assert Todo(s.w.phase) + Flatten(s.ch) == Flatten(s.ch);
  }

  // A step that only moves the writer on to another phase of the same batch.
  lemma {:induction false} PhaseKeepsQueue(s: Sys, w: Writer)
    requires InvQueue(s) && !s.w.phase.Stopped? && w.encoded == s.w.encoded
    requires w.phase.Stopped? || (Todo(w.phase) == Todo(s.w.phase) && BusyWith(w))
    ensures InvQueue(s.(w := w))
  {}

  lemma {:induction false} PhaseMoves(cfg: Config, s: Sys, step: Step)
    requires BusyWith(s.w) && !step.EncodeNext? && !step.TakeBatch?
    ensures var w := WriterStep(cfg, s, step).w;
            && WriterStep(cfg, s, step) == s.(w := w)
            && w.encoded == s.w.encoded
            && (w.phase.Stopped? || (Todo(w.phase) == Todo(s.w.phase) && BusyWith(w)))
            && (s.w.phase.Stopped? ==> w == s.w)
  {}

  lemma {:induction false} WriterKeepsQueue(cfg: Config, s: Sys, step: Step)
    requires InvQueue(s)
    ensures InvQueue(WriterStep(cfg, s, step))
  {
    if s.w.phase.Stopped? {
      assert WriterStep(cfg, s, step) == s;
    } else if step.EncodeNext? {
      if s.w.phase.Encoding? && s.w.phase.todo != [] { EncodeKeepsQueue(s); }
    } else if step.TakeBatch? {
      if s.w.phase.Idle? && s.ch != [] { TakeKeepsQueue(s); }
    } else {
      PhaseMoves(cfg, s, step);
      PhaseKeepsQueue(s, WriterStep(cfg, s, step).w);
    }
  }

  // Encoding the next command of the log extends the image by its bytes.
  lemma {:induction false} BytesSnoc(cfg: Config, log: seq<Command>, n: nat)
    requires n < |log|
    ensures Bytes(cfg, log, n + 1) == Bytes(cfg, log, n) + Encode(log[n])
  {
    assert cfg.base + log[..n + 1] == (cfg.base + log[..n]) + [log[n]];
    EncodeAllConcat(cfg.base + log[..n], [log[n]]);
    assert EncodeAll([log[n]]) == Encode(log[n]) + EncodeAll([]);
    assert Encode(log[n]) + [] == Encode(log[n]);
  }

  lemma {:induction false} BytesWithin(cfg: Config, log: seq<Command>, n: nat)
    requires n <= |log|
    ensures Bytes(cfg, log, n) <= EncodeAll(cfg.base + log)
    ensures n > 0 ==> |Bytes(cfg, log, n)| > |EncodeAll(cfg.base)|
  {
    assert cfg.base + log == (cfg.base + log[..n]) + log[n..];
    EncodeAllConcat(cfg.base + log[..n], log[n..]);
    EncodeAllConcat(cfg.base, log[..n]);
  }

  lemma {:induction false} EncodeKeepsDisk(cfg: Config, w: Writer, log: seq<Command>)
    requires InvDisk(cfg, w, log) && w.phase.Encoding? && w.phase.todo != []
    requires w.encoded < |log| && log[w.encoded] == w.phase.todo[0]
    ensures InvDisk(cfg, EncodeStep(w), log)
  {
    BytesSnoc(cfg, log, w.encoded);
    Assoc(w.file, w.held, Encode(w.phase.todo[0]));
  }

  lemma {:induction false} FailKeepsDisk(cfg: Config, w: Writer, log: seq<Command>, partial: nat, failed: bool)
    requires InvDisk(cfg, w, log) && !w.phase.Stopped?
    ensures InvDisk(cfg, Fail(w, partial).(failed := failed), log)
  {
    var n := if partial < |w.held| then partial else |w.held|;
    BytesWithin(cfg, log, w.encoded);
    assert w.file + w.held[..n] <= w.file + w.held;
  }

  lemma {:induction false} WriteKeepsDisk(cfg: Config, w: Writer, log: seq<Command>, ok: bool, partial: nat)
    requires InvDisk(cfg, w, log) && w.phase.Writing?
    requires w.phase.publish ==> w.encoded > 0
    ensures InvDisk(cfg, WriteStep(cfg, w, ok, partial), log)
  {
    if w.held == [] {
      assert w.file + [] == w.file;
      BytesWithin(cfg, log, w.encoded);
    } else if ok {
      assert (w.file + w.held) + [] == w.file + w.held;
    } else {
      FailKeepsDisk(cfg, w, log, partial, true);
    }
  }

  lemma {:induction false} SyncKeepsDisk(cfg: Config, w: Writer, log: seq<Command>, ok: bool)
    requires InvDisk(cfg, w, log) && w.phase.Syncing?
    ensures InvDisk(cfg, SyncStep(w, ok), log)
  {
    if ok {
      assert w.file + [] == w.file;
    } else {
      FailKeepsDisk(cfg, w, log, 0, true);
    }
  }

  // Steps that change neither the file nor the buffer.
  lemma {:induction false} QuietKeepsDisk(cfg: Config, s: Sys, step: Step)
    requires InvDisk(cfg, s.w, s.log) && BusyWith(s.w)
    requires step.TakeBatch? || step.BeginFlush? || step.EndBatch? || step.Publish?
    ensures InvDisk(cfg, WriterStep(cfg, s, step).w, s.log)
  {}

  lemma {:induction false} WriterKeepsDisk(cfg: Config, s: Sys, step: Step)
    requires InvQueue(s) && InvDisk(cfg, s.w, s.log)
    ensures InvDisk(cfg, WriterStep(cfg, s, step).w, s.log)
  {
    var w := s.w;
    if w.phase.Stopped? {
      assert WriterStep(cfg, s, step) == s;
    } else {
      match step
      case EncodeNext =>
        if w.phase.Encoding? && w.phase.todo != [] {
          assert s.log[w.encoded..][0] == w.phase.todo[0];
          EncodeKeepsDisk(cfg, w, s.log);
        }
      case Write(ok, partial) =>
        if w.phase.Writing? { WriteKeepsDisk(cfg, w, s.log, ok, partial); }
      case Sync(ok) =>
        if w.phase.Syncing? { SyncKeepsDisk(cfg, w, s.log, ok); }
      case Close(written) =>
        if w.phase.Idle? { FailKeepsDisk(cfg, w, s.log, written, w.failed); }
      case TakeBatch => QuietKeepsDisk(cfg, s, step);
      case BeginFlush => QuietKeepsDisk(cfg, s, step);
      case EndBatch => QuietKeepsDisk(cfg, s, step);
      case Publish => QuietKeepsDisk(cfg, s, step);
      case _ =>
    }
  }

  // The watermark never falls, so earlier promises stand.
  lemma {:induction false} WriterKeepsAcks(cfg: Config, s: Sys, step: Step)
    requires InvQueue(s) && InvAcks(s) && s.w.flushedID <= s.w.encoded
    ensures InvAcks(WriterStep(cfg, s, step))
  {}

  lemma {:induction false} WriterKeepsInv(cfg: Config, s: Sys, step: Step)
    requires Inv(cfg, s)
    ensures Inv(cfg, WriterStep(cfg, s, step))
  {
    WriterKeepsQueue(cfg, s, step);
    WriterKeepsDisk(cfg, s, step);
    WriterKeepsAcks(cfg, s, step);
  }

  // ---------- Acknowledger steps keep the invariant ----------

  lemma {:induction false} AckKeepsAcks(s: Sys, step: Step)
    requires InvAcks(s) && s.w.flushedID <= |s.log|
    ensures InvAcks(AckStep(s, step))
  {
    if step.Respond? && s.acker.Replying? && s.acker.reqs != [] && s.acker.ok {
      var Replying(next, reqs, _) := s.acker;
      var m := next + |reqs|;
      assert s.log[next..m][0] == s.log[next] && s.log[next..m][1..] == s.log[next + 1..m];
    }
  }

  lemma {:induction false} AckKeepsInv(cfg: Config, s: Sys, step: Step)
    requires Inv(cfg, s)
    ensures Inv(cfg, AckStep(s, step))
  {
    AckKeepsAcks(s, step);
    var s' := AckStep(s, step);
    assert (s'.loop, s'.table, s'.nextID, s'.ch, s'.w, s'.log, s'.done)
        == (s.loop, s.table, s.nextID, s.ch, s.w, s.log, s.done);
  }

  lemma {:induction false} RunInv(cfg: Config, steps: seq<Step>)
    ensures Inv(cfg, Run(cfg, steps))
    decreases |steps|
  {
    if steps == [] {
      InitInv(cfg);
    } else {
      var s, step := Run(cfg, steps[..|steps| - 1]), steps[|steps| - 1];
      RunInv(cfg, steps[..|steps| - 1]);
      LoopKeepsInv(cfg, s, step);
      WriterKeepsInv(cfg, s, step);
      AckKeepsInv(cfg, s, step);
      if step.DropVNode? {
        DropKeepsInv(cfg, s, step.v);
      }
    }
  }

  // ---------- Requests ----------

  // A request is taken when the loop collects; a read is answered at once and
  // otherwise it waits in the channel.
  predicate Takes(s: Sys, step: Step) {
    step.Receive? && s.loop.Collecting? && step.c.op != OP_GET
  }

  // The write requests a run has taken, in order.
  function Taken(cfg: Config, steps: seq<Step>): seq<Command> {
    if steps == [] then [] else
      var front, last := steps[..|steps| - 1], steps[|steps| - 1];
      Taken(cfg, front) + if Takes(Run(cfg, front), last) then [last.c] else []
  }

  function Unlogged(loop: LoopPhase): seq<Command> {
    match loop
    case Collecting(batch) => batch
    case Applying(batch, _) => batch
    case Appended(_, _) => []
  }

  // No batch is longer than the limit, or one if there is none, and one that is
  // still collected is shorter.
  ghost predicate WithinLimit(cfg: Config, loop: LoopPhase) {
    match loop
    case Collecting(batch) => batch == [] || |batch| < cfg.batchSize
    case Applying(batch, _) => |batch| == 1 || |batch| <= cfg.batchSize
    case Appended(batch, _) => |batch| == 1 || |batch| <= cfg.batchSize
  }

  // In every run the requests taken are the log and the batch in progress, and no
  // batch outgrows the limit.
  lemma {:induction false} EveryRequestIsLogged(cfg: Config, steps: seq<Step>)
    ensures Taken(cfg, steps) == Run(cfg, steps).log + Unlogged(Run(cfg, steps).loop)
    ensures WithinLimit(cfg, Run(cfg, steps).loop)
    decreases |steps|
  {
    if steps != [] {
      var s, step := Run(cfg, steps[..|steps| - 1]), steps[|steps| - 1];
      EveryRequestIsLogged(cfg, steps[..|steps| - 1]);
      RequestStep(cfg, s, step);
    }
  }

  lemma {:induction false} RequestStep(cfg: Config, s: Sys, step: Step)
    requires WithinLimit(cfg, s.loop)
    ensures var t := Next(cfg, s, step);
            && WithinLimit(cfg, t.loop)
            && t.log + Unlogged(t.loop) == s.log + Unlogged(s.loop) + if Takes(s, step) then [step.c] else []
  {
    var t, all := Next(cfg, s, step), s.log + Unlogged(s.loop);
    if Takes(s, step) {
      assert s.log + (s.loop.batch + [step.c]) == all + [step.c];
    } else {
      assert all + [] == all;
      if step.Append? && s.loop.Applying? && s.loop.done >= |s.loop.batch| {
        assert (s.log + s.loop.batch) + [] == all;
      }
    }
  }

  // ---------- Answers ----------

  // What the acknowledger has taken and not yet answered.
  function InHand(acker: AckPhase): seq<Command> {
    match acker
    case Resting => []
    case Waiting(ack) => ack.cmds
    case Replying(_, reqs, _) => reqs
  }

  // Appended, but not yet handed to the acknowledger.
  function Handing(loop: LoopPhase): seq<Command> {
    if loop.Appended? then loop.batch else []
  }

  // Every command appended so far is answered, in hand, queued or about to be, in
  // the order of the log; reply i answers command i.
  ghost predicate InvAnswers(s: Sys) {
    && |s.replies| <= |s.log|
    && (forall i :: 0 <= i < |s.replies| ==> s.replies[i].cmd == s.log[i] && s.replies[i].at == i)
    && s.log[|s.replies|..] == InHand(s.acker) + Flatten(s.ackCh) + Handing(s.loop)
  }

  // Positions in the log are counted right all the way to the client.
  ghost predicate InvPlaces(s: Sys) {
    && (s.acker.Waiting? ==> s.acker.ack.id == |s.replies| + |s.acker.ack.cmds|)
    && (s.acker.Replying? ==> s.acker.next == |s.replies|)
    && IdsFrom(s.ackCh, |s.replies| + |InHand(s.acker)|)
    && (s.loop.Appended? ==> s.loop.id == |s.log| && s.loop.batch != [])
    && (s.loop.Applying? ==> s.loop.batch != [])
    && s.nextID == |s.log|
  }

  // A client is told of an error only if the log writer failed, and then so is
  // every later one.
  ghost predicate InvFailures(s: Sys) {
    && (s.acker.Replying? && !s.acker.ok ==> s.w.failed)
    && (forall i :: 0 <= i < |s.replies| && !s.replies[i].ok ==> s.w.failed)
    && (forall i :: 0 <= i < |s.replies| && s.acker.Replying? && s.acker.ok ==> s.replies[i].ok)
    && (forall i, j :: 0 <= i < j < |s.replies| && s.replies[j].ok ==> s.replies[i].ok)
  }

  // What the answers depend on stays as it is.
  lemma {:induction false} SameAnswers(s: Sys, t: Sys)
    requires InvAnswers(s) && InvPlaces(s)
    requires (t.nextID, t.log, t.ackCh, t.acker, t.replies) == (s.nextID, s.log, s.ackCh, s.acker, s.replies)
    requires t.loop == s.loop || (!s.loop.Appended? && !t.loop.Appended? && (t.loop.Applying? ==> t.loop.batch != []))
    ensures InvAnswers(t) && InvPlaces(t)
  {}

  lemma {:induction false} AppendKeepsAnswers(s: Sys, t: Sys)
    requires InvAnswers(s) && InvPlaces(s) && s.loop.Applying?
    requires var batch, id := s.loop.batch, s.nextID + |s.loop.batch|;
             t == s.(nextID := id, ch := s.ch + [Batch(id, batch)], log := s.log + batch, loop := Appended(batch, id))
    ensures InvAnswers(t) && InvPlaces(t)
  {
    assert t.log[|s.replies|..] == s.log[|s.replies|..] + s.loop.batch;
    assert InHand(s.acker) + Flatten(s.ackCh) + [] == InHand(s.acker) + Flatten(s.ackCh);
  }

  lemma {:induction false} LoopKeepsAnswers(cfg: Config, s: Sys, step: Step)
    requires InvAnswers(s) && InvPlaces(s)
    ensures InvAnswers(LoopStep(cfg, s, step)) && InvPlaces(LoopStep(cfg, s, step))
  {
    var t := LoopStep(cfg, s, step);
    if step.Append? && s.loop.Applying? && s.loop.done >= |s.loop.batch| {
      AppendKeepsAnswers(s, t);
    } else if step.HandOff? && s.loop.Appended? {
      HandOffKeepsAnswers(s, t);
    } else {
      SameAnswers(s, t);
    }
  }

  lemma {:induction false} HandOffKeepsAnswers(s: Sys, s': Sys)
    requires InvAnswers(s) && InvPlaces(s) && s.loop.Appended?
    requires s' == s.(ackCh := s.ackCh + [Batch(s.loop.id, s.loop.batch)], loop := Collecting([]))
    ensures InvAnswers(s') && InvPlaces(s')
  {
    var b := Batch(s.loop.id, s.loop.batch);
    FlattenSnoc(s.ackCh, b);
    assert |s.log[|s.replies|..]| == |s.log| - |s.replies|;
    IdsSnoc(s.ackCh, |s.replies| + |InHand(s.acker)|, b);
    assert InHand(s.acker) + Flatten(s.ackCh) + b.cmds == InHand(s.acker) + (Flatten(s.ackCh) + b.cmds) + [];
  }

  lemma {:induction false} TakeKeepsAnswers(s: Sys, s': Sys)
    requires InvAnswers(s) && InvPlaces(s) && s.acker.Resting? && s.ackCh != []
    requires s' == s.(ackCh := s.ackCh[1..], acker := Waiting(s.ackCh[0]))
    ensures InvAnswers(s') && InvPlaces(s')
  {
    assert [] + (s.ackCh[0].cmds + Flatten(s.ackCh[1..])) == s.ackCh[0].cmds + Flatten(s.ackCh[1..]);
  }

  lemma {:induction false} RespondKeepsAnswers(s: Sys, s': Sys)
    requires InvAnswers(s) && InvPlaces(s) && s.acker.Replying? && s.acker.reqs != []
    requires s' == s.(acker := Replying(s.acker.next + 1, s.acker.reqs[1..], s.acker.ok),
                      replies := s.replies + [Reply(s.acker.reqs[0], s.acker.ok, s.acker.next)])
    ensures InvAnswers(s') && InvPlaces(s')
  {
    AnsweredTail(s.log, |s.replies|, s.acker.reqs, Flatten(s.ackCh), Handing(s.loop));
  }

  lemma {:induction false} AnsweredTail(log: seq<Command>, n: nat, reqs: seq<Command>, queued: seq<Command>, handing: seq<Command>)
    requires n <= |log| && reqs != [] && log[n..] == reqs + queued + handing
    ensures n < |log| && log[n] == reqs[0] && log[n + 1..] == reqs[1..] + queued + handing
  {
    assert |log[n..]| > 0;
    assert log[n] == log[n..][0] && log[n + 1..] == log[n..][1..];
  }

  lemma {:induction false} AckKeepsAnswers(s: Sys, step: Step)
    requires InvAnswers(s) && InvPlaces(s)
    ensures InvAnswers(AckStep(s, step)) && InvPlaces(AckStep(s, step))
  {
    var s' := AckStep(s, step);
    if step.TakeAck? && s.acker.Resting? && s.ackCh != [] {
      TakeKeepsAnswers(s, s');
    } else if step.Respond? && s.acker.Replying? && s.acker.reqs != [] {
      RespondKeepsAnswers(s, s');
    } else {
      assert s' == s.(acker := s'.acker) && InHand(s'.acker) == InHand(s.acker);
    }
  }

  lemma {:induction false} NextKeepsFailures(cfg: Config, s: Sys, step: Step)
    requires InvFailures(s)
    ensures InvFailures(Next(cfg, s, step))
  {
    var s' := Next(cfg, s, step);
    assert s.w.failed ==> s'.w.failed;
    if !step.Wake? && !step.Respond? {
      assert s'.replies == s.replies && (s'.acker == s.acker || !s'.acker.Replying?);
    }
  }

  // In every run the answers are those of the log in its order, one for each
  // command, and errors come only from a writer that failed.
  lemma {:induction false} EveryCommandIsAnswered(cfg: Config, steps: seq<Step>)
    ensures var s := Run(cfg, steps); InvAnswers(s) && InvPlaces(s) && InvFailures(s)
    decreases |steps|
  {
    if steps != [] {
      var s, step := Run(cfg, steps[..|steps| - 1]), steps[|steps| - 1];
      EveryCommandIsAnswered(cfg, steps[..|steps| - 1]);
      NextKeepsAnswers(cfg, s, step);
      NextKeepsFailures(cfg, s, step);
    }
  }

  lemma {:induction false} NextKeepsAnswers(cfg: Config, s: Sys, step: Step)
    requires InvAnswers(s) && InvPlaces(s)
    ensures var t := Next(cfg, s, step); InvAnswers(t) && InvPlaces(t)
  {
    if step.TakeAck? || step.Wake? || step.Respond? {
      AckKeepsAnswers(s, step);
    } else if step.Receive? || step.Tick? || step.ApplyNext? || step.Append? || step.HandOff? {
      LoopKeepsAnswers(cfg, s, step);
    } else if step.DropVNode? {
      SameAnswers(s, DropStep(cfg, s, step.v));
    } else {
      WriterLeavesAnswers(cfg, s, step);
    }
  }

  lemma {:induction false} WriterLeavesAnswers(cfg: Config, s: Sys, step: Step)
    requires InvAnswers(s) && InvPlaces(s)
    ensures var t := WriterStep(cfg, s, step); InvAnswers(t) && InvPlaces(t)
  {
    var t := WriterStep(cfg, s, step);
    WriterWrites(cfg, s, step);
    SameAnswers(s, t);
  }

  // The writer touches its own state and the channel to it.
  lemma {:induction false} WriterWrites(cfg: Config, s: Sys, step: Step)
    ensures var t := WriterStep(cfg, s, step); t == s.(w := t.w, ch := t.ch)
  {}

  function Answers(cmds: seq<Command>, ok: bool, at: int): seq<Reply> {
    seq(|cmds|, i requires 0 <= i < |cmds| => Reply(cmds[i], ok, at + i))
  }

  lemma {:induction false} AnswersSnoc(cmds: seq<Command>, ok: bool, at: int, n: nat)
    requires n < |cmds|
    ensures Answers(cmds[..n + 1], ok, at) == Answers(cmds[..n], ok, at) + [Reply(cmds[n], ok, at + n)]
    ensures cmds[n..][0] == cmds[n] && cmds[n..][1..] == cmds[n + 1..]
  {}

  // The state after n responses.
  function Responded(s: Sys, n: nat): Sys
    requires s.acker.Replying? && n <= |s.acker.reqs|
  {
    var Replying(next, reqs, ok) := s.acker;
    s.(acker := Replying(next + n, reqs[n..], ok), replies := s.replies + Answers(reqs[..n], ok, next))
  }

  lemma {:induction false} RespondOnce(cfg: Config, s: Sys, n: nat)
    requires s.acker.Replying? && n < |s.acker.reqs|
    ensures Next(cfg, Responded(s, n), Respond) == Responded(s, n + 1)
  {
    var Replying(next, reqs, ok) := s.acker;
    AnswersSnoc(reqs, ok, next, n);
    var before := Answers(reqs[..n], ok, next);
    assert s.replies + before + [Reply(reqs[n], ok, next + n)] == s.replies + (before + [Reply(reqs[n], ok, next + n)]);
  }

  lemma {:induction false} Responses(cfg: Config, s: Sys, n: nat)
    requires s.acker.Replying? && n <= |s.acker.reqs|
    ensures RunFrom(cfg, s, seq(n, _ => Respond)) == Responded(s, n)
  {
    if n > 0 {
      Responses(cfg, s, n - 1);
      RespondOnce(cfg, s, n - 1);
      assert seq(n, _ => Respond)[..n - 1] == seq(n - 1, _ => Respond);
    } else {
      assert s.acker.reqs[0..] == s.acker.reqs && s.replies + [] == s.replies;
    }
  }

  // What waking up does: nothing while the batch is neither flushed nor given up.
  lemma {:induction false} Wakes(cfg: Config, s: Sys)
    requires s.acker.Waiting?
    ensures RunFrom(cfg, s, [Wake])
            == if s.w.flushedID < s.acker.ack.id && !s.w.failed then s
               else s.(acker := Replying(s.acker.ack.id - |s.acker.ack.cmds|, s.acker.ack.cmds, !s.w.failed))
  {
    assert [Wake][..0] == [];
  }

  lemma {:induction false} AllResponses(cfg: Config, s: Sys)
    requires s.acker.Replying?
    ensures RunFrom(cfg, s, seq(|s.acker.reqs|, _ => Respond) + [Respond])
            == s.(acker := Resting, replies := s.replies + Answers(s.acker.reqs, s.acker.ok, s.acker.next))
  {
    var reqs := s.acker.reqs;
    var rounds := seq(|reqs|, _ => Respond);
    Responses(cfg, s, |reqs|);
    assert reqs[..|reqs|] == reqs && reqs[|reqs|..] == [];
    assert (rounds + [Respond])[..|rounds|] == rounds;
  }

  // The acknowledger waits while a batch is neither flushed nor given up, and then
  // gives each of its commands one answer in order: success if it was flushed and
  // the writer has not failed.
  lemma {:induction false} BatchIsAnswered(cfg: Config, s: Sys, id: nat, cmds: seq<Command>)
    requires s.acker == Waiting(Batch(id, cmds))
    ensures s.w.flushedID < id && !s.w.failed ==> RunFrom(cfg, s, [Wake]) == s
    ensures s.w.flushedID >= id || s.w.failed ==>
              RunFrom(cfg, s, [Wake] + (seq(|cmds|, _ => Respond) + [Respond]))
              == s.(acker := Resting, replies := s.replies + Answers(cmds, !s.w.failed, id - |cmds|))
  {
    Wakes(cfg, s);
    if s.w.flushedID >= id || s.w.failed {
      RunFromConcat(cfg, s, [Wake], seq(|cmds|, _ => Respond) + [Respond]);
      AllResponses(cfg, RunFrom(cfg, s, [Wake]));
    }
  }

  // ---------- Crash safety ----------

  // What a crash can leave in the log file: everything durable, possibly more,
  // possibly part of a write in progress, cut at any byte.
  ghost predicate CrashImage(cfg: Config, w: Writer, image: seq<Byte>) {
    var written := if w.phase.Writing? then w.file + w.held else w.file;
    Durable(cfg, w) <= |image| && image <= written
  }

  lemma {:induction false} ImageIsLogPrefix(cfg: Config, s: Sys, image: seq<Byte>)
    requires InvDisk(cfg, s.w, s.log) && CrashImage(cfg, s.w, image)
    ensures image <= EncodeAll(cfg.base + s.log)
  {
    if !s.w.phase.Stopped? {
      BytesWithin(cfg, s.log, s.w.encoded);
      assert s.w.file <= s.w.file + s.w.held;
    }
  }

  lemma {:induction false} ImageReadsBack(cfg: Config, s: Sys, image: seq<Byte>)
    requires InvDisk(cfg, s.w, s.log) && CrashImage(cfg, s.w, image)
    ensures var read := DecodeAll(image).cmds;
            && read <= cfg.base + s.log
            && (s.w.flushedID > 0 ==> |cfg.base| + s.w.flushedID <= |read|)
  {
    var all := cfg.base + s.log;
    ImageIsLogPrefix(cfg, s, image);
    if s.w.flushedID > 0 {
      assert all[..|cfg.base| + s.w.flushedID] == cfg.base + s.log[..s.w.flushedID];
      ReadsBack(all, image, |cfg.base| + s.w.flushedID);
    } else {
      ReadsBack(all, image, 0);
    }
  }

  // Every command answered with success is in `read`, where it was appended.
  ghost predicate Covers(cfg: Config, replies: seq<Reply>, read: seq<Command>) {
    forall i :: 0 <= i < |replies| && replies[i].ok ==>
      && 0 <= replies[i].at < |read| - |cfg.base|
      && read[|cfg.base| + replies[i].at] == replies[i].cmd
  }

  lemma {:induction false} PromisesCovered(cfg: Config, s: Sys, read: seq<Command>)
    requires InvAcks(s) && read <= cfg.base + s.log
    requires s.w.flushedID > 0 ==> |cfg.base| + s.w.flushedID <= |read|
    ensures Covers(cfg, s.replies, read)
  {
    forall i | 0 <= i < |s.replies| && s.replies[i].ok
      ensures 0 <= s.replies[i].at < |read| - |cfg.base|
      ensures read[|cfg.base| + s.replies[i].at] == s.replies[i].cmd
    {
      assert read[|cfg.base| + s.replies[i].at] == (cfg.base + s.log)[|cfg.base| + s.replies[i].at];
    }
  }

  // At every crash point of every interleaving, what the log file still holds
  // reads back as a prefix of the commands appended, and that prefix contains
  // every command already answered with success.
  lemma {:induction false} CrashSafe(cfg: Config, steps: seq<Step>, image: seq<Byte>)
    requires CrashImage(cfg, Run(cfg, steps).w, image)
    ensures var s, read := Run(cfg, steps), DecodeAll(image).cmds;
            read <= cfg.base + s.log && Covers(cfg, s.replies, read)
  {
    RunInv(cfg, steps);
    var s := Run(cfg, steps);
    ImageReadsBack(cfg, s, image);
    PromisesCovered(cfg, s, DecodeAll(image).cmds);
  }

  // Every acknowledged write survives the crash with its version or a newer one.
  lemma {:induction false} AcknowledgedWritesSurvive(cfg: Config, steps: seq<Step>, s: Sys, image: seq<Byte>, i: nat)
    requires s == Run(cfg, steps) && CrashImage(cfg, s.w, image)
    requires i < |s.replies| && s.replies[i].ok && Writes(s.replies[i].cmd)
    requires NoWraps(cfg.start, DecodeAll(image).cmds)
    ensures var c := s.replies[i].cmd;
            VersionOf(ApplyAll(cfg.start, DecodeAll(image).cmds), c.key) >= c.version
  {
    CrashSafe(cfg, steps, image);
    CoveredVersion(cfg, s.replies, DecodeAll(image).cmds, i);
  }

  lemma {:induction false} CoveredVersion(cfg: Config, replies: seq<Reply>, read: seq<Command>, i: nat)
    requires Covers(cfg, replies, read) && i < |replies| && replies[i].ok && Writes(replies[i].cmd) && NoWraps(cfg.start, read)
    ensures VersionOf(ApplyAll(cfg.start, read), replies[i].cmd.key) >= replies[i].cmd.version
  {
    RecoveredVersion(cfg.start, read, |cfg.base| + replies[i].at, replies[i].cmd);
  }

  lemma {:induction false} RecoveredVersion(t: Table, read: seq<Cmd>, at: nat, c: Cmd)
    requires NoWraps(t, read) && at < |read| && read[at] == c && Writes(c)
    ensures VersionOf(ApplyAll(t, read), c.key) >= c.version
  {
    RunKeepsVersions(t, read, at);
  }
}
