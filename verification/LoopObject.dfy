// core/loop.go: the event loop object itself, one request at a time, and how it
// follows the steps of the machine in EventLoop.
module LoopObject {
  import opened Commands
  import opened LastWriterWins
  import opened Replay
  import S = Store
  import E = EventLoop
  import R = WriterRefines

  // The machine steps of processing a batch; none of them is enabled when the
  // batch is empty.
  function BatchSteps(batch: seq<Command>): seq<E.Step> {
    [E.Tick] + (seq(|batch|, _ => E.ApplyNext) + [E.Append, E.HandOff])
  }

  // The machine is about to process this batch, or is still collecting it.
  predicate Has(loop: E.LoopPhase, batch: seq<Command>) {
    loop == E.Collecting(batch) || (loop == E.Applying(batch, 0) && batch != [])
  }

  // What those steps do to the machine.
  lemma {:induction false} BatchRuns(cfg: E.Config, s: E.Sys, batch: seq<Command>)
    requires Has(s.loop, batch)
    ensures var z := E.RunFrom(cfg, s, BatchSteps(batch));
            && z.loop == E.Collecting([]) && z.table == ApplyAll(s.table, batch) && z.nextID == s.nextID + |batch|
            && z.ch == s.ch + (if batch == [] then [] else [E.Batch(z.nextID, batch)])
            && z.ackCh == s.ackCh + (if batch == [] then [] else [E.Batch(z.nextID, batch)])
  {
    var s1, rest := E.Next(cfg, s, E.Tick), seq(|batch|, _ => E.ApplyNext) + [E.Append, E.HandOff];
    R.RunFromOne(cfg, s, E.Tick);
    E.RunFromConcat(cfg, s, [E.Tick], rest);
    if batch == [] {
      assert rest == [E.Append, E.HandOff];
      R.RunFromTwo(cfg, s1, E.Append, E.HandOff);
      assert s.ch + [] == s.ch && s.ackCh + [] == s.ackCh;
    } else {
      assert s1.loop == E.Applying(batch, 0);
      E.ProcessBatchRound(cfg, s1);
    }
  }

  // The machine's table follows the store.
  lemma {:induction false} BatchFollows(st: S.State, t: Table, home: Blob -> U16, leaked: int, batch: seq<Command>)
    requires S.Agrees(st, t, home, leaked) && Filed(home, batch)
    ensures S.Agrees(S.RunState(st, S.Writing(batch)), ApplyAll(t, batch), home, leaked)
  {
    S.RunAgrees(st, t, home, leaked, S.Writing(batch));
    S.RunTableOfWrites(t, home, batch);
  }

  class EventLoop {
    const store: S.Store
    const batchSize: nat
    var writeBatch: seq<Command>
    var nextID: nat
    var appendCh: seq<E.Batch>
    var ackCh: seq<E.Batch>

    // The machine state s is this loop: same batch, ids and channels, and a table
    // that the store agrees with.
    ghost predicate Shows(s: E.Sys, home: Blob -> U16, leaked: int)
      reads this, store
    {
      && Has(s.loop, writeBatch) && s.nextID == nextID && s.ch == appendCh && s.ackCh == ackCh
      && S.Agrees(store.View(), s.table, home, leaked)
    }

    constructor (store: S.Store, batchSize: nat)
      ensures this.store == store && this.batchSize == batchSize
      ensures writeBatch == [] && nextID == 0 && appendCh == [] && ackCh == []
    {
      this.store, this.batchSize := store, batchSize;
      writeBatch, nextID, appendCh, ackCh := [], 0, [], [];
    }

    // Wal.Append: ids count commands.
    method Append(cmds: seq<Command>) returns (id: nat)
      modifies `nextID, `appendCh
      ensures id == nextID == old(nextID) + |cmds|
      ensures appendCh == old(appendCh) + [E.Batch(id, cmds)]
    {
      nextID := nextID + |cmds|;
      appendCh := appendCh + [E.Batch(nextID, cmds)];
      id := nextID;
    }

    // Executes, logs and queues the collected batch, in that order.
    method Process()
      requires store as object != this
      modifies this, store
      ensures writeBatch == []
      ensures store.View() == S.RunState(old(store.View()), S.Writing(old(writeBatch)))
      ensures old(writeBatch) == [] ==> nextID == old(nextID) && appendCh == old(appendCh) && ackCh == old(ackCh)
      ensures old(writeBatch) != [] ==>
                && nextID == old(nextID) + |old(writeBatch)|
                && appendCh == old(appendCh) + [E.Batch(nextID, old(writeBatch))]
                && ackCh == old(ackCh) + [E.Batch(nextID, old(writeBatch))]
    {
      if |writeBatch| == 0 {
        return;
      }
      var batch := writeBatch;
      for i := 0 to |batch|
        invariant writeBatch == batch && nextID == old(nextID) && appendCh == old(appendCh) && ackCh == old(ackCh)
        invariant store.View() == S.RunState(old(store.View()), S.Writing(batch[..i]))
      {
        var verdict := store.Apply(batch[i]);
        assert S.Writing(batch[..i + 1])[..i] == S.Writing(batch[..i]);
      }
      assert batch[..|batch|] == batch;
      var id := Append(batch);
      ackCh := ackCh + [E.Batch(id, batch)];
      writeBatch := [];
    }

    // processBatch takes the machine through the steps of that batch.
    method ProcessBatch(ghost cfg: E.Config, ghost s: E.Sys, ghost leaked: int)
      requires store as object != this
      modifies this, store
      ensures writeBatch == [] && store.View() == S.RunState(old(store.View()), S.Writing(old(writeBatch)))
      ensures old(writeBatch) == [] ==> nextID == old(nextID) && appendCh == old(appendCh) && ackCh == old(ackCh)
      ensures old(writeBatch) != [] ==>
                && nextID == old(nextID) + |old(writeBatch)|
                && appendCh == old(appendCh) + [E.Batch(nextID, old(writeBatch))]
                && ackCh == old(ackCh) + [E.Batch(nextID, old(writeBatch))]
      ensures old(Shows(s, cfg.home, leaked)) && Filed(cfg.home, old(writeBatch)) ==>
                Shows(E.RunFrom(cfg, s, BatchSteps(old(writeBatch))), cfg.home, leaked)
    {
      ghost var st, batch := store.View(), writeBatch;
      if Shows(s, cfg.home, leaked) && Filed(cfg.home, batch) {
        BatchRuns(cfg, s, batch);
        BatchFollows(st, s.table, cfg.home, leaked, batch);
      }
      Process();
    }

    // A read request answers from the store at once, which is what the machine's
    // table holds, acknowledged or not.
    method Read(key: Blob, ghost s: E.Sys, ghost home: Blob -> U16, ghost leaked: int) returns (r: Option<(Blob, U64)>)
      ensures Shows(s, home, leaked) ==> r == Lookup(s.table, key)
    {
      r := store.GetWithVersion(key, s.table, home, leaked);
    }

    // A write in the enqueue mode: logged, executed, and answered immediately.
    method WriteNow(c: Command) returns (verdict: Verdict)
      requires store as object != this
      modifies `nextID, `appendCh, store
      ensures (store.View(), verdict) == S.Step(old(store.View()), c)
      ensures nextID == old(nextID) + 1 && appendCh == old(appendCh) + [E.Batch(nextID, [c])]
    {
      var id := Append([c]);
      verdict := store.Apply(c);
    }

    // A write in the flush and fsync modes joins the batch, and a full batch is
    // processed at once: the machine receives the command and, if it fills the
    // batch, takes the steps of the batch.
    method Collect(c: Command, ghost cfg: E.Config, ghost s: E.Sys, ghost leaked: int)
      requires store as object != this && c.op != OP_GET
      modifies this, store
      ensures var batch := old(writeBatch) + [c];
              if |batch| < batchSize then
                && writeBatch == batch && store.View() == old(store.View())
                && nextID == old(nextID) && appendCh == old(appendCh) && ackCh == old(ackCh)
              else
                && writeBatch == [] && store.View() == S.RunState(old(store.View()), S.Writing(batch))
                && nextID == old(nextID) + |batch|
                && appendCh == old(appendCh) + [E.Batch(nextID, batch)]
                && ackCh == old(ackCh) + [E.Batch(nextID, batch)]
      ensures var batch := old(writeBatch) + [c];
              old(Shows(s, cfg.home, leaked)) && s.loop.Collecting? && cfg.batchSize == batchSize && Filed(cfg.home, batch) ==>
                Shows(E.RunFrom(cfg, s, CollectSteps(c, batch, batchSize)), cfg.home, leaked)
    {
      ghost var s1 := E.Next(cfg, s, E.Receive(c));
      R.RunFromOne(cfg, s, E.Receive(c));
      E.RunFromConcat(cfg, s, [E.Receive(c)], BatchSteps(writeBatch + [c]));
      writeBatch := writeBatch + [c];
      if |writeBatch| >= batchSize {
        ProcessBatch(cfg, s1, leaked);
      }
    }
  }

  function CollectSteps(c: Command, batch: seq<Command>, batchSize: nat): seq<E.Step> {
    if |batch| < batchSize then [E.Receive(c)] else [E.Receive(c)] + BatchSteps(batch)
  }
}
