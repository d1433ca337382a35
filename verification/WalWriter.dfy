// core/wal.go: the writer goroutine's growable buffer. Whatever the buffer
// size and wherever flushes fall, the file followed by the buffered bytes is
// the old file followed by the encodings of the commands taken so far.
module WalWriter {
  import opened Commands
  import opened WalCodec
  import opened WalFormat

  // Outcome of one flush: how much of the buffer reached the file when the
  // write fails, and whether the write and the sync succeed.
  datatype Fate = Fate(partial: nat, writeOk: bool, syncOk: bool)

  const MAX_VARINT_LEN: nat := 10

  // The space writerLoop reserves for one command.
  function Needed(c: Command): nat {
    1 + 2 + 8 + 2 * MAX_VARINT_LEN + |c.key| + |c.value|
  }

  lemma {:induction false} EncodingFits(c: Command)
    ensures |Encode(c)| <= Needed(c)
  {
    RoomAtStart();
    UvarintLength(|c.key|, 0);
    UvarintLength(|c.value|, 0);
  }

  // ---------- Encoding into the buffer ----------

  method PutBigEndian(buf: array<Byte>, pos: nat, x: nat, n: nat)
    requires pos + n <= buf.Length
    modifies buf
    ensures buf[..pos] == old(buf[..pos])
    ensures buf[pos..pos + n] == BigEndian(x, n)
  {
    var i, y := n, x;
    while i > 0
      invariant 0 <= i <= n
      invariant buf[..pos] == old(buf[..pos])
      invariant BigEndian(x, n) == BigEndian(y, i) + buf[pos + i..pos + n]
    {
      ghost var tail := buf[pos + i..pos + n];
      i := i - 1;
      buf[pos + i] := y % 0x100;
      assert buf[pos + i..pos + n] == [y % 0x100] + tail;
      y := y / 0x100;
    }
  }

  method PutUvarint(buf: array<Byte>, pos: nat, x: nat) returns (n: nat)
    requires pos + |Uvarint(x)| <= buf.Length
    modifies buf
    ensures n == |Uvarint(x)|
    ensures buf[..pos + n] == old(buf[..pos]) + Uvarint(x)
  {
    n := 0;
    var y := x;
    while y >= 0x80
      invariant pos + n + |Uvarint(y)| <= buf.Length
      invariant buf[..pos + n] + Uvarint(y) == old(buf[..pos]) + Uvarint(x)
      decreases y
    {
      ghost var before := buf[..pos + n];
      buf[pos + n] := y % 0x80 + 0x80;
      n := n + 1;
      assert buf[..pos + n] == before + [y % 0x80 + 0x80];
      y := y / 0x80;
    }
    buf[pos + n] := y;
    n := n + 1;
    assert buf[..pos + n] == old(buf[..pos]) + Uvarint(x);
  }

  method Copy(buf: array<Byte>, pos: nat, src: seq<Byte>)
    requires pos + |src| <= buf.Length
    modifies buf
    ensures buf[..pos + |src|] == old(buf[..pos]) + src
  {
    for i := 0 to |src|
      invariant buf[..pos + i] == old(buf[..pos]) + src[..i]
    {
      buf[pos + i] := src[i];
      assert src[..i + 1] == src[..i] + [src[i]];
      assert buf[..pos + i + 1] == buf[..pos + i] + [src[i]];
    }
    assert src[..|src|] == src;
  }

  method PutSized(buf: array<Byte>, pos: nat, src: Blob) returns (end: nat)
    requires pos + |Sized(src)| <= buf.Length
    modifies buf
    ensures end == pos + |Sized(src)|
    ensures buf[..end] == old(buf[..pos]) + Sized(src)
  {
    var n := PutUvarint(buf, pos, |src|);
    Copy(buf, pos + n, src);
    end := pos + n + |src|;
    Assoc(old(buf[..pos]), Uvarint(|src|), src);
  }

  // Extends what is written by a fixed-width integer.
  method PutInteger(buf: array<Byte>, pos: nat, x: nat, n: nat)
    requires pos + n <= buf.Length
    modifies buf
    ensures buf[..pos + n] == old(buf[..pos]) + BigEndian(x, n)
  {
    PutBigEndian(buf, pos, x, n);
    assert buf[..pos + n] == buf[..pos] + buf[pos..pos + n];
  }

  method PutHead(buf: array<Byte>, pos: nat, c: Command)
    requires pos + 11 <= buf.Length
    modifies buf
    ensures buf[..pos + 11] == old(buf[..pos]) + Head(c)
  {
    ghost var was := buf[..pos];
    buf[pos] := c.op;
    assert buf[..pos + 1] == was + [c.op];
    PutInteger(buf, pos + 1, c.vnode, 2);
    PutInteger(buf, pos + 3, c.version, 8);
    HeadAssoc(was, c);
  }

  lemma {:induction false} HeadAssoc(was: seq<Byte>, c: Command)
    ensures was + [c.op] + BigEndian(c.vnode, 2) + BigEndian(c.version, 8) == was + Head(c)
  {
    Assoc(was, [c.op], BigEndian(c.vnode, 2));
    Assoc(was, [c.op] + BigEndian(c.vnode, 2), BigEndian(c.version, 8));
  }

  method PutCommand(buf: array<Byte>, pos: nat, c: Command) returns (end: nat)
    requires pos + |Encode(c)| <= buf.Length
    modifies buf
    ensures end == pos + |Encode(c)|
    ensures buf[..end] == old(buf[..pos]) + Encode(c) && IsRecord(Encode(c), c)
  {
    ghost var was := buf[..pos];
    PutHead(buf, pos, c);
    end := PutSized(buf, pos + 11, c.key);
    end := PutSized(buf, end, c.value);
    assert buf[..end] == was + Head(c) + Sized(c.key) + Sized(c.value);
    EncodeIsRecord(c);
  }

  // ---------- What the writer does, as functions ----------

  // The writer's state apart from the size of its buffer: held is what is
  // buffered.
  datatype Disk = Disk(file: seq<Byte>, held: seq<Byte>, synced: nat, flushedID: nat, failed: bool)

  function Flushed(d: Disk, fsync: bool, fate: Fate): Disk {
    if d.held == [] then d
    else if !fate.writeOk then
      var n := if fate.partial < |d.held| then fate.partial else |d.held|;
      d.(file := d.file + d.held[..n], held := [], failed := true)
    else
      var w := d.(file := d.file + d.held, held := []);
      if !fsync then w else if fate.syncOk then w.(synced := |w.file|) else w.(failed := true)
  }

  // Takes a command, flushing first if there was no room.
  function Took(d: Disk, fsync: bool, c: Command, flush: bool, fate: Fate): Disk {
    var f := if flush then Flushed(d, fsync, fate) else d;
    if f.failed then f else f.(held := f.held + Encode(c))
  }

  // Takes as many commands as flushes tells, up to a failure.
  function TookAll(d: Disk, fsync: bool, cmds: seq<Command>, flushes: seq<bool>, fates: nat -> Fate): Disk
    requires |flushes| <= |cmds|
    decreases |flushes|
  {
    if flushes == [] then d else
      var n := |flushes| - 1;
      var before := TookAll(d, fsync, cmds, flushes[..n], fates);
      if before.failed then before else Took(before, fsync, cmds[n], flushes[n], fates(n))
  }

  lemma {:induction false} TookAllSnoc(d: Disk, fsync: bool, cmds: seq<Command>, flushes: seq<bool>, flush: bool, fates: nat -> Fate)
    requires |flushes| < |cmds| && !TookAll(d, fsync, cmds, flushes, fates).failed
    ensures TookAll(d, fsync, cmds, flushes + [flush], fates)
            == Took(TookAll(d, fsync, cmds, flushes, fates), fsync, cmds[|flushes|], flush, fates(|flushes|))
  {
    assert (flushes + [flush])[..|flushes|] == flushes;
  }

  // What a round leaves of the state p after taking its commands.
  function Ended(p: Disk, fsync: bool, id: nat, channelEmpty: bool, fate: Fate): Disk {
    if p.failed || !channelEmpty then p else
      var f := Flushed(p, fsync, fate);
      if f.failed then f else f.(flushedID := id)
  }

  // One round of the writer on a batch.
  function Handled(d: Disk, fsync: bool, id: nat, cmds: seq<Command>, flushes: seq<bool>, channelEmpty: bool,
                   fates: nat -> Fate): Disk
    requires |flushes| <= |cmds|
  {
    Ended(TookAll(d, fsync, cmds, flushes, fates), fsync, id, channelEmpty, fates(|cmds|))
  }

  // ---------- What every round keeps ----------

  ghost function Image(d: Disk): seq<Byte> {
    d.file + d.held
  }

  // Bytes that survive: everything written, or in fsync mode everything synced.
  ghost function DurableLength(d: Disk, fsync: bool): nat {
    if fsync then d.synced else |d.file|
  }

  // base is the file as it was opened, logged every command taken since.
  ghost predicate Sound(d: Disk, fsync: bool, base: seq<Byte>, logged: seq<Command>) {
    && d.synced <= |d.file|
    && d.flushedID <= |logged|
    && (if d.failed then d.file <= base + EncodeAll(logged) else Image(d) == base + EncodeAll(logged))
    && (fsync && !d.failed && |d.file| > |base| ==> d.synced == |d.file|)
    && |base| <= |d.file|
    && (d.flushedID > 0 ==> |base + EncodeAll(logged[..d.flushedID])| <= DurableLength(d, fsync))
  }

  lemma {:induction false} FlushedSound(d: Disk, fsync: bool, base: seq<Byte>, logged: seq<Command>, fate: Fate)
    requires Sound(d, fsync, base, logged) && !d.failed
    ensures var f := Flushed(d, fsync, fate);
            && Sound(f, fsync, base, logged) && d.file <= f.file && d.synced <= f.synced && f.flushedID == d.flushedID
            && (!f.failed ==> f.held == [] && Image(f) == Image(d))
            && (!f.failed && |logged| > 0 ==> DurableLength(f, fsync) == |f.file|)
  {
    var n := if fate.partial < |d.held| then fate.partial else |d.held|;
    assert d.file + d.held[..n] <= d.file + d.held;
    assert (d.file + d.held) + [] == d.file + d.held;
  }

  lemma {:induction false} TookSound(d: Disk, fsync: bool, base: seq<Byte>, logged: seq<Command>, c: Command, flush: bool, fate: Fate)
    requires Sound(d, fsync, base, logged) && !d.failed
    ensures var f := Took(d, fsync, c, flush, fate);
            && Sound(f, fsync, base, logged + [c]) && d.file <= f.file && f.flushedID == d.flushedID
            && (!f.failed ==> Image(f) == Image(d) + Encode(c))
  {
    var f := if flush then Flushed(d, fsync, fate) else d;
    if flush {
      FlushedSound(d, fsync, base, logged, fate);
    }
    EncodeAllSnoc(logged, c);
    Assoc(base, EncodeAll(logged), Encode(c));
    Assoc(f.file, f.held, Encode(c));
    assert (logged + [c])[..d.flushedID] == logged[..d.flushedID];
  }

  // The image grows by exactly the commands taken; a failed round has taken the
  // command it failed on.
  lemma {:induction false} TookAllSound(d: Disk, fsync: bool, base: seq<Byte>, logged: seq<Command>, cmds: seq<Command>,
                                        flushes: seq<bool>, fates: nat -> Fate)
    requires Sound(d, fsync, base, logged) && !d.failed && |flushes| <= |cmds|
    ensures var f := TookAll(d, fsync, cmds, flushes, fates);
            && Sound(f, fsync, base, logged + cmds[..|flushes|]) && d.file <= f.file && f.flushedID == d.flushedID
  {
    if flushes == [] {
      assert logged + cmds[..0] == logged;
    } else {
      var n := |flushes| - 1;
      var before, part := TookAll(d, fsync, cmds, flushes[..n], fates), logged + cmds[..n];
      TookAllSound(d, fsync, base, logged, cmds, flushes[..n], fates);
      assert logged + cmds[..n + 1] == part + [cmds[n]];
      if before.failed {
        MoreLogged(before, fsync, base, part, cmds[n]);
      } else {
        TookSound(before, fsync, base, part, cmds[n], flushes[n], fates(n));
      }
    }
  }

  lemma {:induction false} MoreLogged(d: Disk, fsync: bool, base: seq<Byte>, logged: seq<Command>, c: Command)
    requires Sound(d, fsync, base, logged) && d.failed
    ensures Sound(d, fsync, base, logged + [c])
  {
    EncodeAllSnoc(logged, c);
    Assoc(base, EncodeAll(logged), Encode(c));
    assert (logged + [c])[..d.flushedID] == logged[..d.flushedID];
  }

  lemma {:induction false} PublishedSound(d: Disk, fsync: bool, base: seq<Byte>, logged: seq<Command>, fate: Fate)
    requires Sound(d, fsync, base, logged) && !d.failed
    ensures var f := Flushed(d, fsync, fate);
            !f.failed ==> Sound(f.(flushedID := |logged|), fsync, base, logged)
  {
    FlushedSound(d, fsync, base, logged, fate);
    assert logged[..|logged|] == logged;
  }

  // Taking the whole batch grows the image by exactly its encodings.
  lemma {:induction false} TookWhole(d: Disk, fsync: bool, base: seq<Byte>, logged: seq<Command>, cmds: seq<Command>,
                                     flushes: seq<bool>, fates: nat -> Fate)
    requires Sound(d, fsync, base, logged) && !d.failed && |flushes| == |cmds|
    requires !TookAll(d, fsync, cmds, flushes, fates).failed
    ensures Image(TookAll(d, fsync, cmds, flushes, fates)) == Image(d) + EncodeAll(cmds)
  {
    TookAllSound(d, fsync, base, logged, cmds, flushes, fates);
    assert logged + cmds[..|flushes|] == logged + cmds;
    EncodeAllConcat(logged, cmds);
    Assoc(base, EncodeAll(logged), EncodeAll(cmds));
  }

  lemma {:induction false} EndedSound(p: Disk, fsync: bool, base: seq<Byte>, logged: seq<Command>, channelEmpty: bool, fate: Fate)
    requires Sound(p, fsync, base, logged)
    ensures var f := Ended(p, fsync, |logged|, channelEmpty, fate);
            && Sound(f, fsync, base, logged) && p.file <= f.file
            && (!f.failed ==> !p.failed && Image(f) == Image(p))
            && f.flushedID == if !f.failed && channelEmpty then |logged| else p.flushedID
  {
    if !p.failed && channelEmpty {
      FlushedSound(p, fsync, base, logged, fate);
      PublishedSound(p, fsync, base, logged, fate);
    }
  }

  // A round keeps the writer sound, adds exactly the batch to the image, and
  // publishes its id exactly when it succeeds with an empty channel.
  lemma {:induction false} HandledSound(d: Disk, fsync: bool, base: seq<Byte>, logged: seq<Command>, id: nat, cmds: seq<Command>,
                                        flushes: seq<bool>, channelEmpty: bool, fates: nat -> Fate)
    requires Sound(d, fsync, base, logged) && !d.failed && |flushes| <= |cmds| && id == |logged| + |cmds|
    requires |flushes| < |cmds| ==> TookAll(d, fsync, cmds, flushes, fates).failed
    ensures var f := Handled(d, fsync, id, cmds, flushes, channelEmpty, fates);
            && Sound(f, fsync, base, logged + cmds[..|flushes|]) && d.file <= f.file
            && (!f.failed ==> |flushes| == |cmds| && Image(f) == Image(d) + EncodeAll(cmds))
            && f.flushedID == if !f.failed && channelEmpty then id else d.flushedID
  {
    var p, all := TookAll(d, fsync, cmds, flushes, fates), logged + cmds[..|flushes|];
    TookAllSound(d, fsync, base, logged, cmds, flushes, fates);
    if p.failed {
      assert Handled(d, fsync, id, cmds, flushes, channelEmpty, fates) == p;
    } else {
      TookWhole(d, fsync, base, logged, cmds, flushes, fates);
      assert |all| == id;
      EndedSound(p, fsync, base, all, channelEmpty, fates(|cmds|));
    }
  }

  // ---------- The writer ----------

  class Writer {
    var file: seq<Byte>
    var buf: array<Byte>
    var pos: nat
    var flushedID: nat
    var failed: bool
    const fsync: bool
    var synced: nat          // bytes of the file covered by a successful sync

    ghost const base: seq<Byte>      // the file as it was opened
    ghost var logged: seq<Command>   // every command taken from the channel

    ghost function View(): Disk
      reads this, buf
      requires pos <= buf.Length
    {
      Disk(file, if failed then [] else buf[..pos], synced, flushedID, failed)
    }

    ghost predicate Valid()
      reads this, buf
    {
      pos <= buf.Length && Sound(View(), fsync, base, logged)
    }

    // durable bytes of the contents are known to be on the disk.
    constructor (contents: seq<Byte>, durable: nat, bufferSize: nat, fsyncMode: bool)
      requires durable <= |contents|
      ensures Valid() && fresh(buf) && View() == Disk(contents, [], durable, 0, false)
      ensures base == contents && logged == [] && fsync == fsyncMode
    {
      file, base, logged := contents, contents, [];
      buf := new Byte[bufferSize];
      pos, flushedID, failed, fsync, synced := 0, 0, false, fsyncMode, durable;
    }

    // On success the buffer is empty and the image unchanged; on failure the
    // file has gained some part of the buffer.
    method Flush(fate: Fate) returns (ok: bool)
      requires pos <= buf.Length && !failed
      modifies `file, `pos, `synced, `failed
      ensures pos <= buf.Length && failed == !ok && (ok ==> pos == 0)
      ensures View() == Flushed(old(View()), fsync, fate)
    {
      if pos == 0 {
        return true;
      }
      if !fate.writeOk {
        var n := if fate.partial < pos then fate.partial else pos;
        assert buf[..pos][..n] == buf[..n];
        file, failed := file + buf[..n], true;
        return false;
      }
      file := file + buf[..pos];
      if fsync {
        if !fate.syncOk {
          failed := true;
          return false;
        }
        synced := |file|;
      }
      pos := 0;
      return true;
    }

    // Makes room for `needed` bytes: flush when full, grow when one command
    // exceeds the whole buffer.
    method Reserve(needed: nat, fate: Fate) returns (ok: bool, ghost flush: bool)
      requires pos <= buf.Length && !failed
      modifies `file, `pos, `synced, `failed, `buf
      ensures pos <= buf.Length && failed == !ok && (ok ==> pos + needed <= buf.Length)
      ensures buf == old(buf) || fresh(buf)
      ensures View() == if flush then Flushed(old(View()), fsync, fate) else old(View())
    {
      ok, flush := true, pos + needed > buf.Length;
      if pos + needed > buf.Length {
        ok := Flush(fate);
        if ok && needed > buf.Length {
          buf := new Byte[needed];
        }
      }
    }

    // Encodes one command into reserved space.
    method Emit(c: Command)
      requires !failed && pos + Needed(c) <= buf.Length
      modifies `pos, buf
      ensures pos <= buf.Length
      ensures View() == old(View()).(held := old(View()).held + Encode(c))
    {
      EncodingFits(c);
      pos := PutCommand(buf, pos, c);
    }

    method Put(c: Command, fate: Fate) returns (ok: bool, ghost flush: bool)
      requires pos <= buf.Length && !failed
      modifies `file, `pos, `synced, `failed, `buf, buf
      ensures pos <= buf.Length && failed == !ok
      ensures buf == old(buf) || fresh(buf)
      ensures View() == Took(old(View()), fsync, c, flush, fate)
    {
      ok, flush := Reserve(Needed(c), fate);
      if ok {
        Emit(c);
      }
    }

    // Encodes a batch; fates(i) decides the flush that command i may need.
    method PutAll(cmds: seq<Command>, fates: nat -> Fate) returns (ok: bool, ghost flushes: seq<bool>)
      requires pos <= buf.Length && !failed
      modifies `file, `pos, `synced, `failed, `buf, buf
      ensures pos <= buf.Length && failed == !ok
      ensures buf == old(buf) || fresh(buf)
      ensures |flushes| <= |cmds| && (ok ==> |flushes| == |cmds|)
      ensures View() == TookAll(old(View()), fsync, cmds, flushes, fates)
    {
      flushes := [];
      for i := 0 to |cmds|
        invariant pos <= buf.Length && !failed && (buf == old(buf) || fresh(buf))
        invariant |flushes| == i && View() == TookAll(old(View()), fsync, cmds, flushes, fates)
      {
        ghost var flush;
        ok, flush := Put(cmds[i], fates(i));
        TookAllSnoc(old(View()), fsync, cmds, flushes, flush, fates);
        flushes := flushes + [flush];
        if !ok {
          return;
        }
      }
      ok := true;
    }

    // Flushes and publishes id.
    method Publish(id: nat, fate: Fate) returns (ok: bool)
      requires pos <= buf.Length && !failed
      modifies `file, `pos, `synced, `failed, `flushedID
      ensures pos <= buf.Length && failed == !ok
      ensures var f := Flushed(old(View()), fsync, fate);
              View() == if f.failed then f else f.(flushedID := id)
    {
      ok := Flush(fate);
      if ok {
        flushedID := id;
      }
    }

    method Round(id: nat, cmds: seq<Command>, channelEmpty: bool, fates: nat -> Fate)
      returns (ok: bool, ghost flushes: seq<bool>)
      requires pos <= buf.Length && !failed
      modifies `file, `pos, `synced, `failed, `flushedID, `buf, buf
      ensures pos <= buf.Length && failed == !ok && (buf == old(buf) || fresh(buf))
      ensures |flushes| <= |cmds| && (|flushes| < |cmds| ==> TookAll(old(View()), fsync, cmds, flushes, fates).failed)
      ensures View() == Handled(old(View()), fsync, id, cmds, flushes, channelEmpty, fates)
    {
      ok, flushes := PutAll(cmds, fates);
      if ok && channelEmpty {
        ok := Publish(id, fates(|cmds|));
      }
    }

    // One round of writerLoop: encode the batch and, when the channel is empty,
    // flush and publish the batch id, which counts the commands appended so far.
    method Handle(id: nat, cmds: seq<Command>, channelEmpty: bool, fates: nat -> Fate)
      returns (ok: bool, ghost flushes: seq<bool>)
      requires Valid() && !failed && id == |logged| + |cmds|
      modifies this, buf
      ensures Valid() && failed == !ok && old(file) <= file && (buf == old(buf) || fresh(buf))
      ensures old(logged) <= logged <= old(logged) + cmds
      ensures ok ==> logged == old(logged) + cmds && Image(View()) == Image(old(View())) + EncodeAll(cmds)
      ensures flushedID == if ok && channelEmpty then id else old(flushedID)
      ensures |flushes| <= |cmds| && (|flushes| < |cmds| ==> failed)
      ensures View() == Handled(old(View()), fsync, id, cmds, flushes, channelEmpty, fates)
    {
      ghost var d := View();
      ok, flushes := Round(id, cmds, channelEmpty, fates);
      HandledSound(d, fsync, base, logged, id, cmds, flushes, channelEmpty, fates);
      logged := logged + cmds[..|flushes|];
    }
  }

  lemma {:induction false} EncodeAllSnoc(cs: seq<Command>, c: Command)
    ensures EncodeAll(cs + [c]) == EncodeAll(cs) + Encode(c)
  {
    EncodeAllConcat(cs, [c]);
    assert EncodeAll([c]) == Encode(c) + EncodeAll([]);
    assert Encode(c) + [] == Encode(c);
  }
}
