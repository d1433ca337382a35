// The writer object does what the writer of the step machine does: each of its
// rounds is a run of machine steps, so what is proved of every run of the
// machine holds of it.
module WriterRefines {
  import opened Commands
  import opened WalCodec
  import W = WalWriter
  import E = EventLoop

  // The machine's writer has the object's file, buffer and marks.
  ghost predicate Shows(w: E.Writer, d: W.Disk) {
    w.file == d.file && w.held == d.held && w.synced == d.synced && w.flushedID == d.flushedID && w.failed == d.failed
  }

  lemma {:induction false} StartShows(cfg: E.Config)
    ensures Shows(E.Init(cfg).w, W.Disk(EncodeAll(cfg.base), [], E.StartSynced(cfg), 0, false))
  {}

  lemma {:induction false} RunFromOne(cfg: E.Config, s: E.Sys, x: E.Step)
    ensures E.RunFrom(cfg, s, [x]) == E.Next(cfg, s, x)
  {
    assert [x][..0] == [];
  }

  lemma {:induction false} RunFromTwo(cfg: E.Config, s: E.Sys, x: E.Step, y: E.Step)
    ensures E.RunFrom(cfg, s, [x, y]) == E.Next(cfg, E.Next(cfg, s, x), y)
  {
    assert [x, y][..1] == [x];
    RunFromOne(cfg, s, x);
  }

  // ---------- The steps of a round ----------

  function FlushSteps(fate: W.Fate): seq<E.Step> {
    [E.Write(fate.writeOk, fate.partial), E.Sync(fate.syncOk)]
  }

  function PutSteps(flush: bool, fate: W.Fate): seq<E.Step> {
    (if flush then [E.BeginFlush] + FlushSteps(fate) else []) + [E.EncodeNext]
  }

  function AllPutSteps(flushes: seq<bool>, fates: nat -> W.Fate): seq<E.Step> {
    if flushes == [] then [] else
      var n := |flushes| - 1;
      AllPutSteps(flushes[..n], fates) + PutSteps(flushes[n], fates(n))
  }

  function EndSteps(fate: W.Fate): seq<E.Step> {
    FlushSteps(fate) + [E.Publish]
  }

  // ---------- Each part of a round ----------

  lemma {:induction false} FlushIsRun(cfg: E.Config, s: E.Sys, d: W.Disk, fate: W.Fate)
    requires s.w.phase.Writing? && Shows(s.w, d) && !d.failed
    ensures var z, f := E.RunFrom(cfg, s, FlushSteps(fate)), W.Flushed(d, cfg.fsync, fate);
            && z == s.(w := z.w) && Shows(z.w, f) && z.w.encoded == s.w.encoded
            && z.w.phase == (if f.failed then E.Stopped
                             else if s.w.phase.publish then E.Publishing(s.w.phase.id)
                             else E.Encoding(s.w.phase.id, s.w.phase.todo))
  {
    RunFromTwo(cfg, s, E.Write(fate.writeOk, fate.partial), E.Sync(fate.syncOk));
    assert (d.file + d.held) + [] == d.file + d.held;
  }

  lemma {:induction false} PutIsRun(cfg: E.Config, s: E.Sys, d: W.Disk, flush: bool, fate: W.Fate)
    requires s.w.phase.Encoding? && s.w.phase.todo != [] && Shows(s.w, d) && !d.failed
    ensures var z, f := E.RunFrom(cfg, s, PutSteps(flush, fate)), W.Took(d, cfg.fsync, s.w.phase.todo[0], flush, fate);
            && z == s.(w := z.w) && Shows(z.w, f)
            && z.w.encoded == s.w.encoded + (if f.failed then 0 else 1)
            && z.w.phase == if f.failed then E.Stopped else E.Encoding(s.w.phase.id, s.w.phase.todo[1..])
  {
    if flush {
      var s1 := E.Next(cfg, s, E.BeginFlush);
      RunFromOne(cfg, s, E.BeginFlush);
      FlushIsRun(cfg, s1, d, fate);
      E.RunFromConcat(cfg, s, [E.BeginFlush], FlushSteps(fate));
      E.RunFromConcat(cfg, s, [E.BeginFlush] + FlushSteps(fate), [E.EncodeNext]);
      RunFromOne(cfg, E.RunFrom(cfg, s1, FlushSteps(fate)), E.EncodeNext);
    } else {
      assert [] + [E.EncodeNext] == [E.EncodeNext];
      RunFromOne(cfg, s, E.EncodeNext);
    }
  }

  lemma {:induction false} StoppedStays(cfg: E.Config, s: E.Sys, steps: seq<E.Step>)
    requires s.w.phase.Stopped? && forall i :: 0 <= i < |steps| ==> OfWriter(steps[i])
    ensures E.RunFrom(cfg, s, steps) == s
  {
    if steps != [] {
      StoppedStays(cfg, s, steps[..|steps| - 1]);
    }
  }

  predicate OfWriter(x: E.Step) {
    x.TakeBatch? || x.EncodeNext? || x.BeginFlush? || x.EndBatch? || x.Write? || x.Sync? || x.Publish?
  }

  // z is s with n commands of the batch taken, or stopped on the way.
  ghost predicate InRound(s: E.Sys, z: E.Sys, f: W.Disk, id: nat, cmds: seq<Command>, n: nat)
    requires n <= |cmds|
  {
    && z == s.(w := z.w) && Shows(z.w, f)
    && z.w.phase == if f.failed then E.Stopped else E.Encoding(id, cmds[n..])
  }

  lemma {:induction false} OneMorePut(cfg: E.Config, s: E.Sys, z: E.Sys, f: W.Disk, id: nat, cmds: seq<Command>, n: nat,
                                      flush: bool, fate: W.Fate)
    requires n < |cmds| && InRound(s, z, f, id, cmds, n)
    ensures InRound(s, E.RunFrom(cfg, z, PutSteps(flush, fate)),
                    if f.failed then f else W.Took(f, cfg.fsync, cmds[n], flush, fate), id, cmds, n + 1)
  {
    if f.failed {
      StoppedStays(cfg, z, PutSteps(flush, fate));
    } else {
      assert cmds[n..][0] == cmds[n] && cmds[n..][1..] == cmds[n + 1..];
      PutIsRun(cfg, z, f, flush, fate);
    }
  }

  lemma {:induction false} AllPutsAreRun(cfg: E.Config, s: E.Sys, d: W.Disk, id: nat, cmds: seq<Command>, flushes: seq<bool>,
                                         fates: nat -> W.Fate)
    requires s.w.phase == E.Encoding(id, cmds) && Shows(s.w, d) && !d.failed && |flushes| <= |cmds|
    ensures InRound(s, E.RunFrom(cfg, s, AllPutSteps(flushes, fates)), W.TookAll(d, cfg.fsync, cmds, flushes, fates),
                    id, cmds, |flushes|)
  {
    if flushes == [] {
      assert cmds[0..] == cmds;
    } else {
      var n := |flushes| - 1;
      var front := flushes[..n];
      AllPutsAreRun(cfg, s, d, id, cmds, front, fates);
      E.RunFromConcat(cfg, s, AllPutSteps(front, fates), PutSteps(flushes[n], fates(n)));
      OneMorePut(cfg, s, E.RunFrom(cfg, s, AllPutSteps(front, fates)), W.TookAll(d, cfg.fsync, cmds, front, fates),
                 id, cmds, n, flushes[n], fates(n));
    }
  }

  // The end of a round: publish after a last flush, or leave the rest buffered
  // when another batch is waiting.
  lemma {:induction false} EndIsRun(cfg: E.Config, s: E.Sys, d: W.Disk, id: nat, fate: W.Fate)
    requires s.w.phase == E.Encoding(id, []) && Shows(s.w, d) && !d.failed
    ensures var z := E.RunFrom(cfg, E.Next(cfg, s, E.EndBatch), EndSteps(fate));
            && Shows(z.w, W.Ended(d, cfg.fsync, id, s.ch == [], fate))
            && z.w.phase == if z.w.failed then E.Stopped else E.Idle
  {
    var s1 := E.Next(cfg, s, E.EndBatch);
    E.RunFromConcat(cfg, s1, FlushSteps(fate), [E.Publish]);
    if s.ch == [] {
      FlushIsRun(cfg, s1, d, fate);
    } else {
      RunFromTwo(cfg, s1, E.Write(fate.writeOk, fate.partial), E.Sync(fate.syncOk));
    }
    RunFromOne(cfg, E.RunFrom(cfg, s1, FlushSteps(fate)), E.Publish);
  }

  // ---------- A round among the steps of the others ----------

  // Writer steps that look at nothing but the writer.
  predicate Local(x: E.Step) {
    x.EncodeNext? || x.BeginFlush? || x.Write? || x.Sync? || x.Publish?
  }

  // Steps of the event loop, the acknowledger and a migration.
  predicate Elsewhere(x: E.Step) {
    !OfWriter(x) && !x.Close?
  }

  ghost predicate Mixed(mix: seq<E.Step>) {
    forall i :: 0 <= i < |mix| ==> Local(mix[i]) || Elsewhere(mix[i])
  }

  function WriterPart(mix: seq<E.Step>): seq<E.Step> {
    if mix == [] then [] else
      var front, last := WriterPart(mix[..|mix| - 1]), mix[|mix| - 1];
      if Local(last) then front + [last] else front
  }

  lemma {:induction false} OneStep(cfg: E.Config, s: E.Sys, t: E.Sys, x: E.Step)
    requires s.w == t.w
    ensures Local(x) ==> E.Next(cfg, s, x).w == E.Next(cfg, t, x).w
    ensures Elsewhere(x) ==> E.Next(cfg, s, x).w == s.w
  {}

  // What happens elsewhere does not touch the writer.
  lemma {:induction false} WriterAlone(cfg: E.Config, s: E.Sys, mix: seq<E.Step>)
    requires Mixed(mix)
    ensures E.RunFrom(cfg, s, mix).w == E.RunFrom(cfg, s, WriterPart(mix)).w
  {
    if mix != [] {
      var n := |mix| - 1;
      var front := mix[..n];
      WriterAlone(cfg, s, front);
      OneStep(cfg, E.RunFrom(cfg, s, front), E.RunFrom(cfg, s, WriterPart(front)), mix[n]);
      if Local(mix[n]) {
        assert (WriterPart(front) + [mix[n]])[..|WriterPart(front)|] == WriterPart(front);
      }
    }
  }

  // The machine when the writer has taken the batch, and while others run.
  function Middle(cfg: E.Config, s: E.Sys, during: seq<E.Step>): E.Sys {
    E.RunFrom(cfg, E.Next(cfg, s, E.TakeBatch), during)
  }

  function AfterRound(cfg: E.Config, s: E.Sys, during: seq<E.Step>, ending: seq<E.Step>): E.Sys {
    E.RunFrom(cfg, E.Next(cfg, Middle(cfg, s, during), E.EndBatch), ending)
  }

  // The steps of a round, with any steps of the others in between: during before
  // the channel is tested, ending after.
  ghost predicate RoundAmong(during: seq<E.Step>, ending: seq<E.Step>, n: nat, flushes: seq<bool>, fates: nat -> W.Fate) {
    && Mixed(during) && WriterPart(during) == AllPutSteps(flushes, fates)
    && Mixed(ending) && WriterPart(ending) == EndSteps(fates(n))
  }

  // A whole round of the object is a run of the machine's writer from the
  // corresponding state, whatever the others do meanwhile, and ends in the
  // corresponding state. The object finds the channel empty exactly when the
  // machine's channel is empty at that point.
  lemma {:induction false} RoundIsRun(cfg: E.Config, s: E.Sys, d: W.Disk, id: nat, cmds: seq<Command>, flushes: seq<bool>,
                                      fates: nat -> W.Fate, during: seq<E.Step>, ending: seq<E.Step>)
    requires s.w.phase.Idle? && s.ch != [] && s.ch[0] == E.Batch(id, cmds) && Shows(s.w, d) && !d.failed
    requires |flushes| <= |cmds| && (|flushes| < |cmds| ==> W.TookAll(d, cfg.fsync, cmds, flushes, fates).failed)
    requires RoundAmong(during, ending, |cmds|, flushes, fates)
    ensures var z := AfterRound(cfg, s, during, ending);
            && Shows(z.w, W.Handled(d, cfg.fsync, id, cmds, flushes, Middle(cfg, s, during).ch == [], fates))
            && z.w.phase == if z.w.failed then E.Stopped else E.Idle
  {
    var p := W.TookAll(d, cfg.fsync, cmds, flushes, fates);
    MiddleShows(cfg, s, d, id, cmds, flushes, fates, during);
    assert !p.failed ==> cmds[|flushes|..] == [];
    EndAmong(cfg, Middle(cfg, s, during), p, id, fates(|cmds|), ending);
  }

  lemma {:induction false} MiddleShows(cfg: E.Config, s: E.Sys, d: W.Disk, id: nat, cmds: seq<Command>, flushes: seq<bool>,
                                       fates: nat -> W.Fate, during: seq<E.Step>)
    requires s.w.phase.Idle? && s.ch != [] && s.ch[0] == E.Batch(id, cmds) && Shows(s.w, d) && !d.failed
    requires |flushes| <= |cmds| && Mixed(during) && WriterPart(during) == AllPutSteps(flushes, fates)
    ensures var m, p := Middle(cfg, s, during), W.TookAll(d, cfg.fsync, cmds, flushes, fates);
            Shows(m.w, p) && m.w.phase == if p.failed then E.Stopped else E.Encoding(id, cmds[|flushes|..])
  {
    var s1 := E.Next(cfg, s, E.TakeBatch);
    AllPutsAreRun(cfg, s1, d, id, cmds, flushes, fates);
    WriterAlone(cfg, s1, during);
  }

  lemma {:induction false} EndAmong(cfg: E.Config, m: E.Sys, p: W.Disk, id: nat, fate: W.Fate, ending: seq<E.Step>)
    requires Shows(m.w, p) && m.w.phase == (if p.failed then E.Stopped else E.Encoding(id, []))
    requires Mixed(ending) && WriterPart(ending) == EndSteps(fate)
    ensures var z := E.RunFrom(cfg, E.Next(cfg, m, E.EndBatch), ending);
            && Shows(z.w, W.Ended(p, cfg.fsync, id, m.ch == [], fate))
            && z.w.phase == if z.w.failed then E.Stopped else E.Idle
  {
    var e := E.Next(cfg, m, E.EndBatch);
    WriterAlone(cfg, e, ending);
    if p.failed {
      StoppedStays(cfg, e, EndSteps(fate));
    } else {
      EndIsRun(cfg, m, p, id, fate);
    }
  }

  // So crash safety holds of the object: after any run that ends in a round of
  // it, whatever a crash leaves of its file reads back as a prefix of the log
  // with every command answered so far.
  lemma {:induction false} RoundIsCrashSafe(cfg: E.Config, steps: seq<E.Step>, s: E.Sys, d: W.Disk, id: nat, cmds: seq<Command>,
                                            flushes: seq<bool>, fates: nat -> W.Fate, during: seq<E.Step>, ending: seq<E.Step>,
                                            f: W.Disk, image: seq<Byte>)
    requires s == E.Run(cfg, steps) && s.w.phase.Idle? && s.ch != [] && s.ch[0] == E.Batch(id, cmds) && Shows(s.w, d) && !d.failed
    requires |flushes| <= |cmds| && (|flushes| < |cmds| ==> W.TookAll(d, cfg.fsync, cmds, flushes, fates).failed)
    requires RoundAmong(during, ending, |cmds|, flushes, fates)
    requires f == W.Handled(d, cfg.fsync, id, cmds, flushes, Middle(cfg, s, during).ch == [], fates)
    requires W.DurableLength(f, cfg.fsync) <= |image| && image <= f.file
    ensures var z, read := AfterRound(cfg, s, during, ending), DecodeAll(image).cmds;
            read <= cfg.base + z.log && E.Covers(cfg, z.replies, read)
  {
    RoundIsRun(cfg, s, d, id, cmds, flushes, fates, during, ending);
    var all := steps + ([E.TakeBatch] + during + ([E.EndBatch] + ending));
    RoundSteps(cfg, steps, during, ending);
    E.CrashSafe(cfg, all, image);
  }

  lemma {:induction false} RoundSteps(cfg: E.Config, steps: seq<E.Step>, during: seq<E.Step>, ending: seq<E.Step>)
    ensures E.Run(cfg, steps + ([E.TakeBatch] + during + ([E.EndBatch] + ending)))
            == AfterRound(cfg, E.Run(cfg, steps), during, ending)
  {
    var s := E.Run(cfg, steps);
    E.RunFromConcat(cfg, E.Init(cfg), steps, [E.TakeBatch] + during + ([E.EndBatch] + ending));
    E.RunFromConcat(cfg, s, [E.TakeBatch] + during, [E.EndBatch] + ending);
    E.RunFromConcat(cfg, s, [E.TakeBatch], during);
    RunFromOne(cfg, s, E.TakeBatch);
    E.RunFromConcat(cfg, Middle(cfg, s, during), [E.EndBatch], ending);
    RunFromOne(cfg, Middle(cfg, s, during), E.EndBatch);
  }
}
