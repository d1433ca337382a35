// core/store.go, DeleteVNodeData: vnodes dropped from a live store are not in the
// log, so a store rebuilt from the log may hold what the live one forgot.
module Drops {
  import opened Commands
  import opened LastWriterWins
  import opened S = Store

  // The commands of a history, which are what the log holds.
  function WritesOf(es: seq<Event>): seq<Cmd> {
    if es == [] then [] else
      var front, last := WritesOf(es[..|es| - 1]), es[|es| - 1];
      if last.Write? then front + [last.c] else front
  }

  predicate Dropped(es: seq<Event>, v: U16) {
    Drop(v) in es
  }

  // How many commands came before the last drop of v.
  function Cut(es: seq<Event>, v: U16): (n: nat)
    ensures n <= |WritesOf(es)|
    ensures !Dropped(es, v) ==> n == 0
  {
    if es == [] then 0 else
      var front := es[..|es| - 1];
      assert es == front + [es[|es| - 1]];
      if es[|es| - 1] == Drop(v) then |WritesOf(es)| else Cut(front, v)
  }

  lemma {:induction false} WritesOfSnoc(es: seq<Event>, e: Event)
    ensures WritesOf(es + [e]) == WritesOf(es) + if e.Write? then [e.c] else []
  {
    assert (es + [e])[..|es|] == es;
  }

  lemma {:induction false} WritesOfConcat(a: seq<Event>, b: seq<Event>)
    ensures WritesOf(a + b) == WritesOf(a) + WritesOf(b)
  {
    if b == [] {
      assert a + b == a;
    } else {
      WritesOfConcat(a, b[..|b| - 1]);
      assert (a + b)[..|a + b| - 1] == a + b[..|b| - 1];
    }
  }

  lemma {:induction false} WritesOfWriting(cs: seq<Cmd>)
    ensures WritesOf(Writing(cs)) == cs
  {
    if cs != [] {
      WritesOfWriting(cs[..|cs| - 1]);
      assert Writing(cs)[..|cs| - 1] == Writing(cs[..|cs| - 1]);
    }
  }

  lemma {:induction false} RunTableSnoc(t: Table, home: Blob -> U16, es: seq<Event>, e: Event)
    ensures RunTable(t, home, es + [e]) ==
              match e case Write(c) => Apply(RunTable(t, home, es), c) case Drop(v) => Without(RunTable(t, home, es), home, v)
  {
    assert (es + [e])[..|es|] == es;
  }

  lemma {:induction false} RunTableConcat(t: Table, home: Blob -> U16, a: seq<Event>, b: seq<Event>)
    ensures RunTable(t, home, a + b) == RunTable(RunTable(t, home, a), home, b)
  {
    if b == [] {
      assert a + b == a;
    } else {
      RunTableConcat(t, home, a, b[..|b| - 1]);
      assert (a + b)[..|a + b| - 1] == a + b[..|b| - 1];
    }
  }

  // ---------- What the live table holds ----------

  lemma {:induction false} ApplyIsLocal(t: Table, u: Table, c: Cmd, k: Blob)
    requires SameAt(t, u, k)
    ensures SameAt(Apply(t, c), Apply(u, c), k)
  {}

  ghost function Before(t: Table, es: seq<Event>, home: Blob -> U16, k: Blob): Table {
    if Dropped(es, home(k)) then t - {k} else t
  }

  // A key is what the writes since the last drop of its vnode make of it.
  lemma {:induction false} LiveSinceDrop(t: Table, home: Blob -> U16, es: seq<Event>, k: Blob)
    ensures SameAt(ApplyAll(Before(t, es, home, k), WritesOf(es)[Cut(es, home(k))..]), RunTable(t, home, es), k)
  {
    if es != [] {
      var front, e, v := es[..|es| - 1], es[|es| - 1], home(k);
      assert es == front + [e];
      LiveSinceDrop(t, home, front, k);
      var cs, n := WritesOf(front), Cut(front, v);
      match e
      case Write(c) =>
        assert (cs + [c])[n..] == cs[n..] + [c];
        assert (cs[n..] + [c])[..|cs[n..]|] == cs[n..];
        ApplyIsLocal(ApplyAll(Before(t, front, home, k), cs[n..]), RunTable(t, home, front), c, k);
      case Drop(w) =>
        if w == v {
          assert WritesOf(es)[|WritesOf(es)|..] == [];
        }
    }
  }

  // ---------- When the log tells the same ----------

  // The newest write of k, counting what t already holds, is at cut or later; or
  // nothing was ever there.
  ghost predicate NewestSince(t: Table, cs: seq<Cmd>, cut: nat, k: Blob) {
    || (k !in t && forall i :: 0 <= i < |cs| ==> !WriteFor(cs[i], k))
    || (exists i: nat :: cut <= i && WinsAt(cs, i, k) && VersionOf(t, k) <= cs[i].version)
  }

  lemma {:induction false} WinsInSuffix(cs: seq<Cmd>, cut: nat, i: nat, k: Blob)
    requires cut <= |cs| && cut <= i && WinsAt(cs, i, k)
    ensures WinsAt(cs[cut..], i - cut, k)
  {
    var tail := cs[cut..];
    assert forall j :: 0 <= j < |tail| ==> tail[j] == cs[cut + j];
  }

  lemma {:induction false} WinnerIsHeld(t: Table, cs: seq<Cmd>, i: nat, k: Blob)
    requires Versioned(cs) && WinsAt(cs, i, k) && VersionOf(t, k) <= cs[i].version
    ensures k in ApplyAll(t, cs) && ApplyAll(t, cs)[k] == CellOf(cs[i], cs[i].version)
  {
    RunLeavesWinner(t, cs, k);
    var a: nat :| HoldsWinner(t, cs, k, ApplyAll(t, cs), a);
    WinnerUnique(cs, i, a, k);
  }

  lemma {:induction false} NoWriteNoChange(t: Table, cs: seq<Cmd>, k: Blob)
    requires Versioned(cs) && forall i :: 0 <= i < |cs| ==> !WriteFor(cs[i], k)
    ensures SameAt(t, ApplyAll(t, cs), k)
  {
    RunLeavesWinner(t, cs, k);
  }

  lemma {:induction false} SuffixTellsSame(t: Table, cs: seq<Cmd>, cut: nat, k: Blob)
    requires Versioned(cs) && cut <= |cs| && NewestSince(t, cs, cut, k)
    ensures SameAt(ApplyAll(t, cs), ApplyAll(t - {k}, cs[cut..]), k)
  {
    var tail := cs[cut..];
    if i: nat :| cut <= i && WinsAt(cs, i, k) && VersionOf(t, k) <= cs[i].version {
      WinsInSuffix(cs, cut, i, k);
      WinnerIsHeld(t, cs, i, k);
      WinnerIsHeld(t - {k}, tail, i - cut, k);
    } else {
      assert forall j :: 0 <= j < |tail| ==> tail[j] == cs[cut + j];
      NoWriteNoChange(t, cs, k);
      NoWriteNoChange(t - {k}, tail, k);
    }
  }

  lemma {:induction false} SuffixTellsOther(t: Table, cs: seq<Cmd>, cut: nat, k: Blob)
    requires Versioned(cs) && cut <= |cs| && !NewestSince(t, cs, cut, k)
    ensures !SameAt(ApplyAll(t, cs), ApplyAll(t - {k}, cs[cut..]), k)
  {
    var tail, u := cs[cut..], ApplyAll(t, cs);
    var w := ApplyAll(t - {k}, tail);
    assert forall j :: 0 <= j < |tail| ==> tail[j] == cs[cut + j];
    RunLeavesWinner(t, cs, k);
    RunLeavesWinner(t - {k}, tail, k);
    if b: nat :| HoldsWinner(t - {k}, tail, k, w, b) {
      assert WriteFor(cs[cut + b], k) && w[k].version == cs[cut + b].version;
      if a: nat :| HoldsWinner(t, cs, k, u, a) {
        assert a < cut;
      }
    } else if a: nat :| HoldsWinner(t, cs, k, u, a) {
    } else {
      assert SameAt(t, u, k);
    }
  }

  // Replaying the log of a versioned history gives the live table at k exactly
  // when the vnode of k was never dropped or the newest write of k is later than
  // its last drop.
  lemma {:induction false} ReplayIsLiveExactly(t: Table, home: Blob -> U16, es: seq<Event>, k: Blob)
    requires Versioned(WritesOf(es))
    ensures SameAt(ApplyAll(t, WritesOf(es)), RunTable(t, home, es), k) <==>
              !Dropped(es, home(k)) || NewestSince(t, WritesOf(es), Cut(es, home(k)), k)
  {
    var cs, cut := WritesOf(es), Cut(es, home(k));
    LiveSinceDrop(t, home, es, k);
    if !Dropped(es, home(k)) {
      assert cs[0..] == cs;
    } else if NewestSince(t, cs, cut, k) {
      SuffixTellsSame(t, cs, cut, k);
    } else {
      SuffixTellsOther(t, cs, cut, k);
    }
  }

  // ---------- When part of the log tells the same ----------

  // cs[i] is the newest write of k, counting what t holds.
  ghost predicate Tops(t: Table, cs: seq<Cmd>, i: nat, k: Blob) {
    WinsAt(cs, i, k) && VersionOf(t, k) <= cs[i].version
  }

  // The cell that the newest write of k leaves, or what t holds.
  ghost function Newest(t: Table, cs: seq<Cmd>, k: Blob): Option<Cell> {
    if exists i: nat :: Tops(t, cs, i, k) then
      var i: nat :| Tops(t, cs, i, k);
      Some(CellOf(cs[i], cs[i].version))
    else if k in t then Some(t[k]) else None
  }

  lemma {:induction false} RunHoldsNewest(t: Table, cs: seq<Cmd>, k: Blob)
    requires Versioned(cs)
    ensures Newest(t, cs, k) == if k in ApplyAll(t, cs) then Some(ApplyAll(t, cs)[k]) else None
  {
    if exists i: nat :: Tops(t, cs, i, k) {
      var i: nat :| Tops(t, cs, i, k) && Newest(t, cs, k) == Some(CellOf(cs[i], cs[i].version));
      WinnerIsHeld(t, cs, i, k);
    } else {
      RunLeavesWinner(t, cs, k);
      if i: nat :| HoldsWinner(t, cs, k, ApplyAll(t, cs), i) {
        assert Tops(t, cs, i, k);
      }
    }
  }

  // Replaying the first n commands of a versioned history gives the live table at
  // k exactly when the newest of them leaves the same cell as the newest write
  // since the last drop of the vnode of k.
  lemma {:induction false} PrefixIsLiveExactly(t: Table, home: Blob -> U16, es: seq<Event>, n: nat, k: Blob)
    requires Versioned(WritesOf(es)) && n <= |WritesOf(es)|
    ensures SameAt(ApplyAll(t, WritesOf(es)[..n]), RunTable(t, home, es), k) <==>
              Newest(t, WritesOf(es)[..n], k) == Newest(Before(t, es, home, k), WritesOf(es)[Cut(es, home(k))..], k)
  {
    LiveSinceDrop(t, home, es, k);
    RunHoldsNewest(t, WritesOf(es)[..n], k);
    RunHoldsNewest(Before(t, es, home, k), WritesOf(es)[Cut(es, home(k))..], k);
  }
}
