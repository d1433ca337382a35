// core/wal.go, ReplayWal: rebuilding the store from the log at start-up.
module Replay {
  import opened Commands
  import opened LastWriterWins
  import opened WalCodec
  import S = Store

  // Applies commands in order and stops at the first one the store rejects.
  function ReplayState(s: S.State, cs: seq<Command>): (S.State, bool)
    decreases |cs|
  {
    if cs == [] then (s, true) else
      var (next, verdict) := S.Step(s, cs[0]);
      if verdict == Rejected then (next, false) else ReplayState(next, cs[1..])
  }

  // The reading loop. It fails on a torn or malformed record and on a record
  // the store rejects; everything before that has been applied.
  method ReplayWal(file: seq<Byte>, store: S.Store) returns (ok: bool)
    modifies store
    ensures (store.View(), ok)
            == var (s, accepted) := ReplayState(old(store.View()), DecodeAll(file).cmds);
               (s, accepted && DecodeAll(file).clean)
  {
    var rest := file;
    while rest != []
      invariant ReplayState(old(store.View()), DecodeAll(file).cmds)
                == ReplayState(store.View(), DecodeAll(rest).cmds)
      invariant DecodeAll(file).clean == DecodeAll(rest).clean
      decreases |rest|
    {
      var record := ReadRecord(rest);
      if !record.Got? {
        return false;
      }
      assert DecodeAll(rest).cmds[1..] == DecodeAll(record.rest).cmds;
      var verdict := store.Apply(record.value);
      if verdict == Rejected {
        return false;
      }
      rest := record.rest;
    }
    return true;
  }

  // The store as the first i commands leave it rejects command i: it is neither a
  // put nor a delete, and not older than what is stored.
  ghost predicate RejectedAt(s: S.State, cs: seq<Command>, i: nat)
    requires i < |cs|
  {
    S.Step(S.RunState(s, S.Writing(cs[..i])), cs[i]).1 == Rejected
  }

  lemma {:induction false} RejectedExactly(s: S.State, c: Command)
    ensures S.Step(s, c).1 == Rejected <==>
              c.op != 0 && c.op != 2 && !(0 < c.version < S.CurrentMeta(s, c.key).version)
    ensures S.Step(s, c).1 == Rejected ==> S.Step(s, c).0 == s
  {}

  // Replay executes everything before the first command that is rejected, and
  // succeeds exactly if there is none.
  lemma {:induction false} ReplayExactly(s: S.State, cs: seq<Command>, n: nat)
    requires n <= |cs| && (forall i: nat :: i < n ==> !RejectedAt(s, cs, i)) && (n < |cs| ==> RejectedAt(s, cs, n))
    ensures ReplayState(s, cs) == (S.RunState(s, S.Writing(cs[..n])), n == |cs|)
    decreases |cs|
  {
    if cs == [] {
    } else if n == 0 {
      assert cs[..0] == [];
    } else {
      var next := S.Step(s, cs[0]).0;
      assert !RejectedAt(s, cs, 0) && cs[..0] == [];
      forall i: nat | i < |cs| - 1 ensures RejectedAt(next, cs[1..], i) <==> RejectedAt(s, cs, i + 1) {
        FirstStep(s, cs, i + 1);
      }
      ReplayExactly(next, cs[1..], n - 1);
      FirstStep(s, cs, n);
    }
  }

  lemma {:induction false} FirstStep(s: S.State, cs: seq<Command>, n: nat)
    requires 0 < n <= |cs|
    ensures S.RunState(s, S.Writing(cs[..n])) == S.RunState(S.Step(s, cs[0]).0, S.Writing(cs[1..][..n - 1]))
  {
    var first, rest := S.Writing(cs[..1]), S.Writing(cs[1..][..n - 1]);
    assert S.Writing(cs[..n]) == first + rest;
    S.RunStateConcat(s, first, rest);
    assert first[..0] == [];
  }

  // Every command carries the vnode of its key.
  ghost predicate Filed(home: Blob -> U16, cs: seq<Command>) {
    forall i :: 0 <= i < |cs| ==> cs[i].vnode == home(cs[i].key)
  }

  ghost predicate AllWrites(cs: seq<Command>) {
    forall i :: 0 <= i < |cs| ==> Writes(cs[i])
  }

  // Replay accepts a log of writes in full and leaves the store in agreement
  // with the table that the same writes build.
  lemma {:induction false} ReplayAgrees(s: S.State, t: Table, home: Blob -> U16, leaked: int, cs: seq<Command>)
    requires S.Agrees(s, t, home, leaked) && AllWrites(cs)
    requires Filed(home, cs)
    ensures ReplayState(s, cs).1
    ensures S.Agrees(ReplayState(s, cs).0, ApplyAll(t, cs), home, leaked)
    decreases |cs|
  {
    if cs != [] {
      S.StepAgrees(s, t, home, leaked, cs[0]);
      ReplayAgrees(S.Step(s, cs[0]).0, Apply(t, cs[0]), home, leaked, cs[1..]);
      ApplyAllConcat(t, [cs[0]], cs[1..]);
      assert [cs[0]] + cs[1..] == cs;
      assert ApplyAll(t, [cs[0]]) == Apply(ApplyAll(t, []), cs[0]) by { assert [cs[0]][..0] == []; }
    }
  }

  // Recovery from a file cut at any byte: the store is the one built by the
  // complete records, and start-up succeeds exactly at a record boundary.
  lemma {:induction false} RecoverFromCut(s: S.State, t: Table, home: Blob -> U16, leaked: int, cs: seq<Command>, n: nat)
    requires S.Agrees(s, t, home, leaked) && AllWrites(cs) && n <= |EncodeAll(cs)|
    requires Filed(home, cs)
    ensures var j, p := Complete(cs, n), DecodeAll(EncodeAll(cs)[..n]);
            && p.cmds == cs[..j]
            && S.Agrees(ReplayState(s, p.cmds).0, ApplyAll(t, cs[..j]), home, leaked)
            && (ReplayState(s, p.cmds).1 && p.clean <==> n == |EncodeAll(cs[..j])|)
  {
    TornLog(cs, n);
    ReplayAgrees(s, t, home, leaked, cs[..Complete(cs, n)]);
  }
}
