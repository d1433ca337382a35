// Migration of one vnode: the source streams a snapshot (core/rpc.go,
// TransferVNode) and the destination applies what it receives
// (cluster/replication.go, transferVNodeFrom).
module Transfer {
  import opened Commands
  import opened LastWriterWins
  import S = Store

  // ---------- What a snapshot holds ----------

  function EntryOf(k: Blob, cell: Cell): S.Entry {
    match cell
    case Live(version, value) => S.Entry(k, value, version, false)
    case Dead(version) => S.Entry(k, [], version, true)
  }

  // The table's cells of one vnode, each listed once, in any order.
  ghost predicate ListsVNode(es: seq<S.Entry>, t: Table, home: Blob -> U16, v: U16) {
    && S.DistinctKeys(es)
    && (forall i :: 0 <= i < |es| ==> es[i].key in t && home(es[i].key) == v && es[i] == EntryOf(es[i].key, t[es[i].key]))
    && (forall k :: k in t && home(k) == v ==> exists i :: 0 <= i < |es| && es[i].key == k)
  }

  // With a live-index entry the snapshot is the whole vnode, delete markers included.
  lemma {:induction false} SnapshotIsVNode(es: seq<S.Entry>, s: S.State, t: Table, home: Blob -> U16, leaked: int, v: U16)
    requires S.Agrees(s, t, home, leaked) && v in s.live
    requires S.Lists(es, s, S.SnapshotKeys(s, v))
    ensures ListsVNode(es, t, home, v)
  {
    assert S.At(s.live, v) == S.LiveKeys(t, home, v) && S.At(s.tombs, v) == S.DeadKeys(t, home, v);
    forall k | k in t && home(k) == v ensures k in S.SnapshotKeys(s, v) {
      assert k in S.LiveKeys(t, home, v) || k in S.DeadKeys(t, home, v);
    }
  }

  // A snapshot lists every key of the vnode exactly when the vnode has a
  // live-index entry or no delete markers at all.
  lemma {:induction false} SnapshotCompleteExactly(s: S.State, t: Table, home: Blob -> U16, leaked: int, v: U16)
    requires S.Agrees(s, t, home, leaked)
    ensures (forall k :: k in t && home(k) == v ==> k in S.SnapshotKeys(s, v))
            <==> v in s.live || S.DeadKeys(t, home, v) == {}
  {
    assert S.At(s.live, v) == S.LiveKeys(t, home, v) && S.At(s.tombs, v) == S.DeadKeys(t, home, v);
    forall k | k in t && home(k) == v ensures k in S.LiveKeys(t, home, v) || k in S.DeadKeys(t, home, v) {}
    if v !in s.live && S.DeadKeys(t, home, v) != {} {
      var k :| k in S.DeadKeys(t, home, v);
      assert k !in S.SnapshotKeys(s, v);
    }
  }

  // It happens: a delete of a key that was never stored is not transferred.
  lemma {:induction false} LostDeleteMarker(key: Blob, v: U16, version: U64)
    ensures var s := S.Step(S.EMPTY, Cmd(OP_DELETE, key, [], v, version)).0;
            s.meta[key].tombstone && S.SnapshotKeys(s, v) == {}
  {}

  // ---------- Streaming and receiving ----------

  // Messages of the transfer stream.
  datatype Message = Data(vnode: U16, entry: S.Entry) | Refused | End

  function Outgoing(v: U16, es: seq<S.Entry>): seq<Message> {
    seq(|es|, i requires 0 <= i < |es| => Data(v, es[i])) + [End]
  }

  function CommandOf(v: U16, e: S.Entry): Cmd {
    Cmd(if e.tombstone then OP_DELETE else OP_PUT, e.key, e.value, v, e.version)
  }

  function CommandsOf(v: U16, es: seq<S.Entry>): seq<Cmd> {
    seq(|es|, i requires 0 <= i < |es| => CommandOf(v, es[i]))
  }

  // The sending loop: the snapshot's entries and the end marker, up to the first
  // send that fails.
  method Stream(src: S.Store, v: U16, failAt: nat) returns (messages: seq<Message>, ok: bool, es: seq<S.Entry>)
    ensures S.NoMarkedStored(src.View(), v) ==> S.Lists(es, src.View(), S.SnapshotKeys(src.View(), v))
    ensures ok <==> |es| < failAt
    ensures messages == Outgoing(v, es)[..if failAt <= |es| then failAt else |es| + 1]
  {
    ghost var n;
    es, n := src.SnapshotVNode(v);
    messages := [];
    for i := 0 to |es|
      invariant i <= failAt && messages == Outgoing(v, es)[..i]
    {
      if i == failAt {
        return messages, false, es;
      }
      messages := messages + [Data(v, es[i])];
      assert Outgoing(v, es)[..i + 1] == Outgoing(v, es)[..i] + [Outgoing(v, es)[i]];
    }
    if |es| == failAt {
      return messages, false, es;
    }
    messages := messages + [End];
    assert Outgoing(v, es)[..|es|] + [End] == Outgoing(v, es);
    ok := true;
  }

  // How applying an entry through the event loop can go wrong: at message `at`
  // the answer is an error, although the entry may have been applied.
  datatype Trouble = NoTrouble | Trouble(at: nat, applied: bool)

  // The receive loop: applies entries until the end marker, the end of the
  // stream, or an error. broken tells whether the connection fails after the
  // messages that arrived.
  method Receive(messages: seq<Message>, broken: bool, trouble: Trouble, dest: S.Store)
    returns (ok: bool, ghost applied: nat)
    modifies dest
    ensures applied <= |messages|
    ensures dest.View() == S.RunState(old(dest.View()), S.Writing(Received(messages[..applied])))
    ensures ok ==> if applied < |messages| then messages[applied].End? else !broken
    ensures ok ==> trouble.NoTrouble? || trouble.at >= applied
    ensures !ok ==>
              || (trouble.Trouble? && trouble.at < |messages| && messages[trouble.at].Data?
                  && applied == trouble.at + if trouble.applied then 1 else 0)
              || (applied < |messages| && messages[applied].Refused?)
              || (applied == |messages| && broken)
    ensures AllData(messages, applied)
  {
    applied := 0;
    for i := 0 to |messages|
      invariant applied == i && AllData(messages, i)
      invariant trouble.NoTrouble? || trouble.at >= i
      invariant dest.View() == S.RunState(old(dest.View()), S.Writing(Received(messages[..i])))
    {
      match messages[i] {
        case End => return true, i;
        case Refused => return false, i;
        case Data(v, e) =>
          ok, applied := TakeEntry(dest, messages, i, trouble, old(dest.View()));
          if !ok {
            return;
          }
      }
    }
    assert messages[..|messages|] == messages;
    ok := !broken;
  }

  ghost predicate AllData(messages: seq<Message>, n: nat) {
    n <= |messages| && forall i :: 0 <= i < n ==> messages[i].Data?
  }

  // Applies the entry of message i, unless the applier fails before that.
  method TakeEntry(dest: S.Store, messages: seq<Message>, i: nat, trouble: Trouble, ghost start: S.State)
    returns (ok: bool, ghost applied: nat)
    requires i < |messages| && messages[i].Data?
    requires dest.View() == S.RunState(start, S.Writing(Received(messages[..i])))
    modifies dest
    ensures ok <==> !(trouble.Trouble? && trouble.at == i)
    ensures applied == if ok || trouble.applied then i + 1 else i
    ensures dest.View() == S.RunState(start, S.Writing(Received(messages[..applied])))
  {
    ok, applied := !(trouble.Trouble? && trouble.at == i), i;
    if ok || trouble.applied {
      var verdict := dest.Apply(CommandOf(messages[i].vnode, messages[i].entry));
      ReceivedSnoc(start, messages, i);
      applied := i + 1;
    }
  }

  function Received(messages: seq<Message>): seq<Cmd> {
    if messages == [] then [] else
      var front := Received(messages[..|messages| - 1]);
      var last := messages[|messages| - 1];
      if last.Data? then front + [CommandOf(last.vnode, last.entry)] else front
  }

  lemma {:induction false} ReceivedSnoc(s: S.State, messages: seq<Message>, i: nat)
    requires i < |messages| && messages[i].Data?
    ensures S.RunState(s, S.Writing(Received(messages[..i + 1])))
            == S.Step(S.RunState(s, S.Writing(Received(messages[..i]))), CommandOf(messages[i].vnode, messages[i].entry)).0
  {
    var cs, c := Received(messages[..i]), CommandOf(messages[i].vnode, messages[i].entry);
    assert messages[..i + 1][..i] == messages[..i];
    assert Received(messages[..i + 1]) == cs + [c];
    assert S.Writing(cs + [c])[..|cs|] == S.Writing(cs);
  }

  // A complete stream delivers exactly the snapshot's commands, in order.
  lemma {:induction false} StreamDelivers(v: U16, es: seq<S.Entry>, n: nat)
    requires n <= |es|
    ensures Received(Outgoing(v, es)[..n]) == CommandsOf(v, es[..n])
  {
    var out := Outgoing(v, es);
    if n > 0 {
      StreamDelivers(v, es, n - 1);
      assert out[..n][..n - 1] == out[..n - 1];
      assert es[..n][..n - 1] == es[..n - 1];
      assert CommandsOf(v, es[..n]) == CommandsOf(v, es[..n - 1]) + [CommandOf(v, es[n - 1])];
    }
  }

  // ---------- The merge ----------

  // The newer of two cells for a key; the source wins ties.
  function Newer(d: Table, k: Blob, cell: Cell): Cell {
    if k in d && d[k].version > cell.version then d[k] else cell
  }

  // u is d with every source cell of vnode v merged in by version.
  ghost predicate MergedAt(d: Table, t: Table, home: Blob -> U16, v: U16, u: Table, k: Blob) {
    if k in t && home(k) == v then k in u && u[k] == Newer(d, k, t[k]) else SameAt(d, u, k)
  }

  lemma {:induction false} CommandCell(k: Blob, cell: Cell, v: U16)
    ensures var c := CommandOf(v, EntryOf(k, cell));
            c.key == k && c.version == cell.version && Writes(c) && CellOf(c, c.version) == cell
  {}

  // Applying the snapshot entries in any order to any destination merges the
  // vnode by version and touches nothing else.
  lemma {:induction false} TransferMerges(d: Table, t: Table, home: Blob -> U16, v: U16, es: seq<S.Entry>, k: Blob)
    requires ListsVNode(es, t, home, v) && NoZero(t)
    ensures MergedAt(d, t, home, v, ApplyAll(d, CommandsOf(v, es)), k)
  {
    var cs := CommandsOf(v, es);
    assert forall i :: 0 <= i < |cs| ==> cs[i] == CommandOf(v, es[i]);
    forall i | 0 <= i < |cs| ensures cs[i].key == es[i].key && cs[i].version == t[es[i].key].version != 0 && Writes(cs[i]) {
      CommandCell(es[i].key, t[es[i].key], v);
    }
    RunLeavesWinner(d, cs, k);
    if k in t && home(k) == v {
      var i :| 0 <= i < |es| && es[i].key == k;
      CommandCell(k, t[k], v);
      assert WriteFor(cs[i], k);
    } else {
      assert forall i :: 0 <= i < |cs| ==> !WriteFor(cs[i], k);
    }
  }

  // End to end: a destination store that receives the whole stream of a source
  // vnode with a live-index entry stays in agreement with its table merged by
  // version with the source's vnode.
  lemma {:induction false} TransferEndToEnd(src: S.State, t: Table, dst: S.State, d: Table, home: Blob -> U16,
                         leakedS: int, leakedD: int, v: U16, es: seq<S.Entry>)
    requires S.Agrees(src, t, home, leakedS) && S.Agrees(dst, d, home, leakedD) && NoZero(t)
    requires v in src.live && S.Lists(es, src, S.SnapshotKeys(src, v))
    ensures var u := ApplyAll(d, Received(Outgoing(v, es)));
            && S.Agrees(S.RunState(dst, S.Writing(Received(Outgoing(v, es)))), u, home, leakedD)
            && forall k :: MergedAt(d, t, home, v, u, k)
  {
    SnapshotIsVNode(es, src, t, home, leakedS, v);
    WholeStream(v, es);
    SnapshotRuns(dst, d, t, home, leakedD, v, es);
    forall k ensures MergedAt(d, t, home, v, ApplyAll(d, CommandsOf(v, es)), k) {
      TransferMerges(d, t, home, v, es, k);
    }
  }

  lemma {:induction false} WholeStream(v: U16, es: seq<S.Entry>)
    ensures Received(Outgoing(v, es)) == CommandsOf(v, es)
  {
    var out := Outgoing(v, es);
    StreamDelivers(v, es, |es|);
    assert out[..|out| - 1] == out[..|es|] && es[..|es|] == es;
  }

  // The snapshot's commands are filed where they belong, so the store follows.
  lemma {:induction false} SnapshotRuns(dst: S.State, d: Table, t: Table, home: Blob -> U16, leaked: int, v: U16, es: seq<S.Entry>)
    requires S.Agrees(dst, d, home, leaked) && ListsVNode(es, t, home, v)
    ensures S.Agrees(S.RunState(dst, S.Writing(CommandsOf(v, es))), ApplyAll(d, CommandsOf(v, es)), home, leaked)
  {
    var cs := CommandsOf(v, es);
    assert S.FiledAtHome(home, S.Writing(cs));
    S.RunAgrees(dst, d, home, leaked, S.Writing(cs));
    S.RunTableOfWrites(d, home, cs);
  }

  // A transfer cut anywhere leaves every key merged or as it was.
  lemma {:induction false} PartialTransferIsSafe(d: Table, t: Table, home: Blob -> U16, v: U16, es: seq<S.Entry>, n: nat, k: Blob)
    requires ListsVNode(es, t, home, v) && NoZero(t) && n <= |es|
    ensures var u := ApplyAll(d, CommandsOf(v, es[..n]));
            MergedAt(d, t, home, v, u, k) || SameAt(d, u, k)
  {
    var part := map x | x in t && (home(x) != v || exists i :: 0 <= i < n && es[i].key == x) :: t[x];
    assert ListsVNode(es[..n], part, home, v) by {
      forall x | x in part && home(x) == v ensures exists i :: 0 <= i < n && es[..n][i].key == x {
        var i :| 0 <= i < n && es[i].key == x;
        assert es[..n][i].key == x;
      }
    }
    TransferMerges(d, part, home, v, es[..n], k);
  }
}
