// Crash and restart together: the event loop's log, cut by a crash, replayed
// into a fresh store.
module Recovery {
  import opened Commands
  import opened LastWriterWins
  import opened WalCodec
  import opened Replay
  import opened Drops
  import S = Store
  import E = EventLoop

  // Whatever the interleaving and wherever the crash cuts the file, replay
  // executes a prefix of the log holding every acknowledged command, rejects
  // none of it, and leaves indexes, counters and metadata in agreement.
  lemma {:induction false} RestartAfterCrash(cfg: E.Config, steps: seq<E.Step>, sys: E.Sys, image: seq<Byte>,
                          s: S.State, home: Blob -> U16, leaked: int)
    requires sys == E.Run(cfg, steps) && E.CrashImage(cfg, sys.w, image)
    requires S.Agrees(s, cfg.start, home, leaked)
    requires AllWrites(cfg.base + sys.log) && Filed(home, cfg.base + sys.log)
    ensures var read := DecodeAll(image).cmds;
            && read <= cfg.base + sys.log && E.Covers(cfg, sys.replies, read)
            && ReplayState(s, read).1
            && S.Agrees(ReplayState(s, read).0, ApplyAll(cfg.start, read), home, leaked)
  {
    E.CrashSafe(cfg, steps, image);
    RestoredFromPrefix(s, cfg.start, home, leaked, cfg.base + sys.log, DecodeAll(image).cmds);
  }

  // Whatever a crash leaves of the log, a restart gives key k what the live store
  // had exactly when the newest write of k read back leaves the same cell as the
  // newest one since the last drop of its vnode.
  lemma {:induction false} RestartGivesBackExactly(cfg: E.Config, steps: seq<E.Step>, sys: E.Sys, image: seq<Byte>, k: Blob)
    requires sys == E.Run(cfg, steps) && E.CrashImage(cfg, sys.w, image)
    requires Versioned(WritesOf(E.History(cfg, sys)))
    ensures var es, read := E.History(cfg, sys), DecodeAll(image).cmds;
            && read <= WritesOf(es)
            && (SameAt(ApplyAll(cfg.start, read), sys.table, k) <==>
                  Newest(cfg.start, read, k)
                  == Newest(Before(cfg.start, es, cfg.home, k), WritesOf(es)[Cut(es, cfg.home(k))..], k))
  {
    var es, read := E.History(cfg, sys), DecodeAll(image).cmds;
    E.RunInv(cfg, steps);
    E.CrashSafe(cfg, steps, image);
    Executed(cfg, sys);
    assert WritesOf(es)[..|read|] == read;
    PrefixIsLiveExactly(cfg.start, cfg.home, es, |read|, k);
  }

  lemma {:induction false} Executed(cfg: E.Config, sys: E.Sys)
    requires E.InvTable(cfg, sys)
    ensures WritesOf(E.History(cfg, sys)) == cfg.base + sys.log + E.AppliedPart(sys.loop)
  {
    WritesOfConcat(S.Writing(cfg.base), sys.done);
    WritesOfWriting(cfg.base);
    assert cfg.base + (sys.log + E.AppliedPart(sys.loop)) == cfg.base + sys.log + E.AppliedPart(sys.loop);
  }

  // When the whole log is read back, a restart gives key k what the live store
  // had exactly when the vnode of k was never dropped, or its newest write came
  // after the last drop.
  lemma {:induction false} WholeLogGivesBackExactly(cfg: E.Config, steps: seq<E.Step>, sys: E.Sys, image: seq<Byte>, k: Blob)
    requires sys == E.Run(cfg, steps) && !sys.loop.Applying?
    requires DecodeAll(image).cmds == cfg.base + sys.log && Versioned(cfg.base + sys.log)
    ensures var es, read := E.History(cfg, sys), DecodeAll(image).cmds;
            SameAt(ApplyAll(cfg.start, read), sys.table, k) <==>
              !Dropped(es, cfg.home(k)) || NewestSince(cfg.start, read, Cut(es, cfg.home(k)), k)
  {
    E.RunInv(cfg, steps);
    Executed(cfg, sys);
    assert cfg.base + sys.log + [] == cfg.base + sys.log;
    ReplayIsLiveExactly(cfg.start, cfg.home, E.History(cfg, sys), k);
  }

  lemma {:induction false} RestoredFromPrefix(s: S.State, t: Table, home: Blob -> U16, leaked: int, log: seq<Command>, read: seq<Command>)
    requires S.Agrees(s, t, home, leaked) && AllWrites(log) && Filed(home, log) && read <= log
    ensures ReplayState(s, read).1
    ensures S.Agrees(ReplayState(s, read).0, ApplyAll(t, read), home, leaked)
  {
    assert AllWrites(read) && Filed(home, read);
    ReplayAgrees(s, t, home, leaked, read);
  }

  // A file with a clean end is exactly the log of the commands read back.
  lemma {:induction false} CleanImageIsLog(cfg: E.Config, steps: seq<E.Step>, image: seq<Byte>)
    requires E.CrashImage(cfg, E.Run(cfg, steps).w, image) && DecodeAll(image).clean
    ensures image == EncodeAll(DecodeAll(image).cmds)
  {
    var sys := E.Run(cfg, steps);
    E.RunInv(cfg, steps);
    E.ImageIsLogPrefix(cfg, sys, image);
    CleanPrefix(cfg.base + sys.log, image);
  }

  lemma {:induction false} CleanPrefix(cs: seq<Command>, image: seq<Byte>)
    requires image <= EncodeAll(cs) && DecodeAll(image).clean
    ensures image == EncodeAll(DecodeAll(image).cmds)
  {
    assert image == EncodeAll(cs)[..|image|];
    TornLog(cs, |image|);
    EncodeAllPrefix(cs, Complete(cs, |image|));
  }

  // ---------- Crash after crash ----------

  // One life of a node: where its run got to, and the commands read back from
  // what the crash left of the log.
  datatype Life = Life(cfg: E.Config, end: E.Sys, read: seq<Command>)

  ghost predicate Reached(cfg: E.Config, sys: E.Sys) {
    exists steps :: sys == E.Run(cfg, steps)
  }

  ghost predicate LeftBehind(l: Life, image: seq<Byte>) {
    E.CrashImage(l.cfg, l.end.w, image) && l.read == DecodeAll(image).cmds
  }

  ghost predicate Lived(l: Life) {
    Reached(l.cfg, l.end) && exists image :: LeftBehind(l, image)
  }

  // The next life starts from what is read back, and what was on the disk still
  // is. (A file with an unclean end is refused until its tail is cut off.)
  ghost predicate Restarts(a: Life, b: Life) {
    b.cfg.base == a.read && b.cfg.fsync == a.cfg.fsync && b.cfg.durable >= E.Durable(a.cfg, a.end.w)
  }

  ghost predicate Linked(ls: seq<Life>, i: nat) {
    0 < i < |ls| ==> Restarts(ls[i - 1], ls[i])
  }

  ghost predicate Lives(ls: seq<Life>) {
    (forall i :: 0 <= i < |ls| ==> Lived(ls[i])) && forall i: nat :: Linked(ls, i)
  }

  function Log(l: Life): seq<Command> {
    l.cfg.base + l.end.log
  }

  // The first m commands of the log are on the disk.
  ghost predicate OnDisk(l: Life, m: nat) {
    m <= |Log(l)| && |EncodeAll(Log(l)[..m])| <= E.Durable(l.cfg, l.end.w)
  }

  ghost predicate Recalls(l: Life, m: nat) {
    OnDisk(l, m) ==> m <= |l.read|
  }

  ghost predicate Sound(l: Life) {
    E.InvDisk(l.cfg, l.end.w, l.end.log) && l.read <= Log(l) && forall m: nat :: Recalls(l, m)
  }

  lemma {:induction false} LivedInv(l: Life)
    requires Lived(l)
    ensures E.Inv(l.cfg, l.end)
  {
    var steps :| l.end == E.Run(l.cfg, steps);
    E.RunInv(l.cfg, steps);
  }

  lemma {:induction false} LivedIsSound(l: Life)
    requires Lived(l)
    ensures Sound(l)
  {
    LivedInv(l);
    var image :| LeftBehind(l, image);
    E.ImageReadsBack(l.cfg, l.end, image);
    forall m: nat ensures Recalls(l, m) {
      if OnDisk(l, m) {
        OnDiskIsRead(l, image, m);
      }
    }
  }

  lemma {:induction false} OnDiskIsRead(l: Life, image: seq<Byte>, m: nat)
    requires E.InvDisk(l.cfg, l.end.w, l.end.log) && LeftBehind(l, image) && OnDisk(l, m)
    ensures m <= |l.read|
  {
    E.ImageIsLogPrefix(l.cfg, l.end, image);
    ReadsBack(Log(l), image, m);
  }

  ghost predicate Kept(a: Life, b: Life, m: nat) {
    OnDisk(a, m) ==> OnDisk(b, m) && Log(b)[..m] == Log(a)[..m]
  }

  // b has all that a has on the disk, in the same places.
  ghost predicate Inherits(a: Life, b: Life) {
    forall m: nat :: Kept(a, b, m)
  }

  lemma {:induction false} KeptInNextLife(a: Life, b: Life, m: nat)
    requires Sound(a) && Sound(b) && Restarts(a, b) && OnDisk(a, m)
    ensures Kept(a, b, m)
  {
    assert Recalls(a, m);
    assert Log(b)[..m] == b.cfg.base[..m] == Log(a)[..m];
    EncodeAllPrefix(b.cfg.base, m);
  }

  lemma {:induction false} NextLifeInherits(a: Life, b: Life)
    requires Sound(a) && Sound(b) && Restarts(a, b)
    ensures Inherits(a, b)
  {
    forall m: nat ensures Kept(a, b, m) {
      if OnDisk(a, m) {
        KeptInNextLife(a, b, m);
      }
    }
  }

  lemma {:induction false} InheritsTransitive(a: Life, b: Life, c: Life)
    requires Inherits(a, b) && Inherits(b, c)
    ensures Inherits(a, c)
  {
    forall m: nat ensures Kept(a, c, m) {
      assert Kept(a, b, m) && Kept(b, c, m);
    }
  }

  ghost predicate NextInherits(ls: seq<Life>, k: nat) {
    0 < k < |ls| ==> Inherits(ls[k - 1], ls[k])
  }

  lemma {:induction false} LaterLivesInherit(ls: seq<Life>, i: nat, k: nat)
    requires i < k < |ls| && forall j: nat :: NextInherits(ls, j)
    ensures Inherits(ls[i], ls[k])
    decreases k
  {
    assert NextInherits(ls, k);
    if i < k - 1 {
      LaterLivesInherit(ls, i, k - 1);
      InheritsTransitive(ls[i], ls[k - 1], ls[k]);
    }
  }

  lemma {:induction false} EachLifeInherits(ls: seq<Life>, k: nat)
    requires Lives(ls)
    ensures NextInherits(ls, k)
  {
    if 0 < k < |ls| {
      LivedIsSound(ls[k - 1]);
      LivedIsSound(ls[k]);
      assert Linked(ls, k);
      NextLifeInherits(ls[k - 1], ls[k]);
    }
  }

  // What a has published is read back after the crash of b.
  ghost predicate ReadsPublished(a: Life, b: Life) {
    var m := |a.cfg.base| + a.end.w.flushedID;
    a.end.w.flushedID > 0 ==> m <= |b.read| && m <= |Log(a)| && b.read[..m] == Log(a)[..m]
  }

  lemma {:induction false} PublishedIsOnDisk(l: Life)
    requires E.InvDisk(l.cfg, l.end.w, l.end.log)
    ensures l.end.w.flushedID > 0 ==> OnDisk(l, |l.cfg.base| + l.end.w.flushedID)
  {
    var n := l.end.w.flushedID;
    assert Log(l)[..|l.cfg.base| + n] == l.cfg.base + l.end.log[..n];
  }

  lemma {:induction false} KeptIsRead(a: Life, b: Life, m: nat)
    requires OnDisk(a, m) && Kept(a, b, m) && Recalls(b, m) && b.read <= Log(b)
    ensures m <= |b.read| && m <= |Log(a)| && b.read[..m] == Log(a)[..m]
  {
    assert b.read[..m] == Log(b)[..m];
  }

  lemma {:induction false} PublishedIsRead(a: Life, b: Life)
    requires a.end.w.flushedID > 0 ==> OnDisk(a, |a.cfg.base| + a.end.w.flushedID)
    requires b.read <= Log(b) && Inherits(a, b) && forall m: nat :: Recalls(b, m)
    ensures ReadsPublished(a, b)
  {
    if a.end.w.flushedID > 0 {
      var m := |a.cfg.base| + a.end.w.flushedID;
      assert Kept(a, b, m) && Recalls(b, m);
      KeptIsRead(a, b, m);
    }
  }

  lemma {:induction false} HeirReadsPublished(a: Life, b: Life)
    requires Sound(a) && Sound(b) && Inherits(a, b)
    ensures ReadsPublished(a, b)
  {
    PublishedIsOnDisk(a);
    PublishedIsRead(a, b);
  }

  lemma {:induction false} AnswersAreRead(a: Life, b: Life)
    requires E.InvAcks(a.end) && ReadsPublished(a, b)
    ensures E.Covers(a.cfg, a.end.replies, b.read)
  {
    var m := |a.cfg.base| + a.end.w.flushedID;
    forall j | 0 <= j < |a.end.replies| && a.end.replies[j].ok
      ensures 0 <= a.end.replies[j].at < |b.read| - |a.cfg.base|
      ensures b.read[|a.cfg.base| + a.end.replies[j].at] == a.end.replies[j].cmd
    {
      var p := |a.cfg.base| + a.end.replies[j].at;
      assert b.read[p] == b.read[..m][p] == Log(a)[..m][p];
    }
  }

  // Over any number of crashes and restarts, a command answered with success in
  // some life is read back, in its place, after that crash and every later one.
  lemma {:induction false} AcknowledgedInEveryLife(ls: seq<Life>, i: nat, k: nat)
    requires Lives(ls) && i <= k < |ls|
    ensures E.Covers(ls[i].cfg, ls[i].end.replies, ls[k].read)
  {
    if i < k {
      forall j: nat ensures NextInherits(ls, j) { EachLifeInherits(ls, j); }
      LaterLivesInherit(ls, i, k);
    }
    LivedInv(ls[i]);
    LivedIsSound(ls[i]);
    LivedIsSound(ls[k]);
    HeirReadsPublished(ls[i], ls[k]);
    AnswersAreRead(ls[i], ls[k]);
  }

  // So the key it wrote is recovered with its version or a newer one each time.
  lemma {:induction false} VersionInEveryLife(ls: seq<Life>, i: nat, k: nat, r: E.Reply, start: Table)
    requires Lives(ls) && i <= k < |ls| && r in ls[i].end.replies
    requires r.ok && Writes(r.cmd) && NoWraps(start, ls[k].read)
    ensures VersionOf(ApplyAll(start, ls[k].read), r.cmd.key) >= r.cmd.version
  {
    AcknowledgedInEveryLife(ls, i, k);
    E.RecoveredVersion(start, ls[k].read, |ls[i].cfg.base| + r.at, r.cmd);
  }
}
