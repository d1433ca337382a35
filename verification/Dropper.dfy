// cmd/server/main.go, the transfer dropper: a node that lost a vnode deletes its
// live keys one by one through the event loop, each delete logged under a new
// version, and then drops the vnode's data, which is not logged.
module Dropper {
  import opened Commands
  import opened LastWriterWins
  import opened Counting
  import opened Drops
  import S = Store
  import T = Transfer

  function Deletion(k: Blob, v: U16, version: U64): Cmd {
    Cmd(OP_DELETE, k, [], v, version)
  }

  // The deletes the dropper sends; next gives the versions it draws.
  function Deletions(keys: seq<Blob>, v: U16, next: nat -> U64): seq<Cmd> {
    seq(|keys|, i requires 0 <= i < |keys| => Deletion(keys[i], v, next(i)))
  }

  // What happens to the store: all deletes and then the drop.
  function Dropping(ds: seq<Cmd>, v: U16): seq<S.Event> {
    S.Writing(ds) + [S.Drop(v)]
  }

  // Everything executed up to the n-th delete, when the event loop executes
  // between(i) before the i-th.
  function Woven(keys: seq<Blob>, v: U16, next: nat -> U64, between: nat -> seq<Cmd>, n: nat): seq<Cmd>
    requires n <= |keys|
  {
    if n == 0 then [] else
      Woven(keys, v, next, between, n - 1) + between(n - 1) + [Deletion(keys[n - 1], v, next(n - 1))]
  }

  // The program, with whatever else the event loop executes meanwhile. log is what
  // the log gets; on an error the program stops before the drop, and the delete
  // that failed may have been executed.
  method DropVNode(store: S.Store, v: U16, next: nat -> U64, between: nat -> seq<Cmd>, trouble: T.Trouble)
    returns (ok: bool, log: seq<Cmd>, ghost keys: seq<Blob>)
    modifies store
    ensures Distinct(keys) && forall k :: k in keys <==> k in S.At(old(store.vNodeIdx), v)
    ensures store.View() == S.RunState(old(store.View()), if ok then Dropping(log, v) else S.Writing(log))
    ensures ok <==> trouble.NoTrouble? || trouble.at >= |keys|
    ensures log == if ok then Woven(keys, v, next, between, |keys|) + between(|keys|)
                   else if trouble.applied then Woven(keys, v, next, between, trouble.at + 1)
                   else Woven(keys, v, next, between, trouble.at) + between(trouble.at)
  {
    var ks := store.GetKeysForVNode(v);
    keys, log := ks, [];
    for i := 0 to |ks|
      invariant trouble.Trouble? ==> i <= trouble.at
      invariant log == Woven(ks, v, next, between, i)
      invariant store.View() == S.RunState(old(store.View()), S.Writing(log))
    {
      log, ok := DeleteAt(store, ks, v, next, between, trouble, i, log, old(store.View()));
      if !ok {
        return;
      }
    }
    log := SendAll(store, between(|ks|), log, old(store.View()));
    Drop(store, v, log, old(store.View()));
    ok := true;
  }

  // What comes before the i-th delete, and the delete.
  method DeleteAt(store: S.Store, ks: seq<Blob>, v: U16, next: nat -> U64, between: nat -> seq<Cmd>, trouble: T.Trouble, i: nat,
                  log: seq<Cmd>, ghost start: S.State)
    returns (after: seq<Cmd>, ok: bool)
    requires i < |ks| && log == Woven(ks, v, next, between, i) && store.View() == S.RunState(start, S.Writing(log))
    modifies store
    ensures store.View() == S.RunState(start, S.Writing(after))
    ensures ok <==> !(trouble.Trouble? && trouble.at == i)
    ensures after == if ok || trouble.applied then Woven(ks, v, next, between, i + 1) else log + between(i)
  {
    after := SendAll(store, between(i), log, start);
    after, ok := Delete(store, Deletion(ks[i], v, next(i)), trouble, i, after, start);
  }

  method Drop(store: S.Store, v: U16, ghost log: seq<Cmd>, ghost start: S.State)
    requires store.View() == S.RunState(start, S.Writing(log))
    modifies store
    ensures store.View() == S.RunState(start, Dropping(log, v))
  {
    store.DeleteVNodeData(v);
    assert Dropping(log, v)[..|log|] == S.Writing(log);
  }

  method Send(store: S.Store, c: Cmd, log: seq<Cmd>, ghost start: S.State) returns (after: seq<Cmd>)
    requires store.View() == S.RunState(start, S.Writing(log))
    modifies store
    ensures after == log + [c] && store.View() == S.RunState(start, S.Writing(after))
  {
    var verdict := store.Apply(c);
    after := log + [c];
    assert S.Writing(after)[..|log|] == S.Writing(log);
  }

  method Delete(store: S.Store, d: Cmd, trouble: T.Trouble, i: nat, log: seq<Cmd>, ghost start: S.State)
    returns (after: seq<Cmd>, ok: bool)
    requires store.View() == S.RunState(start, S.Writing(log))
    modifies store
    ensures store.View() == S.RunState(start, S.Writing(after))
    ensures ok <==> !(trouble.Trouble? && trouble.at == i)
    ensures after == if ok || trouble.applied then log + [d] else log
  {
    ok := !(trouble.Trouble? && trouble.at == i);
    after := log;
    if ok || trouble.applied {
      after := Send(store, d, log, start);
    }
  }

  method SendAll(store: S.Store, cs: seq<Cmd>, log: seq<Cmd>, ghost start: S.State) returns (after: seq<Cmd>)
    requires store.View() == S.RunState(start, S.Writing(log))
    modifies store
    ensures after == log + cs && store.View() == S.RunState(start, S.Writing(after))
    decreases |cs|
  {
    if cs == [] {
      return log;
    }
    var n := |cs| - 1;
    after := SendAll(store, cs[..n], log, start);
    after := Send(store, cs[n], after, start);
    assert cs == cs[..n] + [cs[n]];
  }

  // On a quiet node these are the deletes alone.
  lemma {:induction false} WovenQuiet(keys: seq<Blob>, v: U16, next: nat -> U64, between: nat -> seq<Cmd>, n: nat)
    requires n <= |keys| && forall i: nat :: i < n ==> between(i) == []
    ensures Woven(keys, v, next, between, n) == Deletions(keys, v, next)[..n]
  {
    if n > 0 {
      WovenQuiet(keys, v, next, between, n - 1);
    }
  }

  // ---------- The live table ----------

  lemma {:induction false} Untouched(t: Table, cs: seq<Cmd>, k: Blob)
    requires forall i :: 0 <= i < |cs| ==> cs[i].key != k
    ensures SameAt(t, ApplyAll(t, cs), k)
  {
    if cs != [] {
      Untouched(t, cs[..|cs| - 1], k);
    }
  }

  ghost predicate AllAt(ds: seq<Cmd>, home: Blob -> U16, v: int) {
    forall i :: 0 <= i < |ds| ==> home(ds[i].key) == v
  }

  // Whatever is executed before the drop, deletes and other writes, the live
  // table ends as that without the vnode's keys, and leaks the values still live.
  lemma {:induction false} DroppingLeaves(t: Table, home: Blob -> U16, v: U16, cs: seq<Cmd>)
    ensures S.RunTable(t, home, Dropping(cs, v)) == S.Without(ApplyAll(t, cs), home, v)
    ensures S.RunLeak(t, home, Dropping(cs, v)) == S.BytesAt(ApplyAll(t, cs), home, v)
  {
    S.RunTableOfWrites(t, home, cs);
    RunTableSnoc(t, home, S.Writing(cs), S.Drop(v));
    WritesNeverLeak(t, home, cs);
    assert Dropping(cs, v)[..|cs|] == S.Writing(cs);
  }

  lemma {:induction false} WritesNeverLeak(t: Table, home: Blob -> U16, cs: seq<Cmd>)
    ensures S.RunLeak(t, home, S.Writing(cs)) == 0
  {
    if cs != [] {
      WritesNeverLeak(t, home, cs[..|cs| - 1]);
      assert S.Writing(cs)[..|cs| - 1] == S.Writing(cs[..|cs| - 1]);
    }
  }

  // The deletes carry the vnode of their keys, so the store stays in agreement with
  // the table through deletes, whatever filed commands come in between, and drop.
  lemma {:induction false} DropperAgrees(s: S.State, t: Table, home: Blob -> U16, leaked: int, keys: seq<Blob>, v: U16,
                                         next: nat -> U64, between: nat -> seq<Cmd>, n: nat)
    requires S.Agrees(s, t, home, leaked) && n <= |keys| && forall i :: 0 <= i < |keys| ==> home(keys[i]) == v
    requires forall i: nat :: i < n ==> S.FiledAtHome(home, S.Writing(between(i)))
    ensures var cs := Woven(keys, v, next, between, n);
            S.Agrees(S.RunState(s, Dropping(cs, v)), S.Without(ApplyAll(t, cs), home, v), home,
                     leaked + S.BytesAt(ApplyAll(t, cs), home, v))
  {
    var cs := Woven(keys, v, next, between, n);
    WovenFiled(home, keys, v, next, between, n);
    DroppingLeaves(t, home, v, cs);
    S.RunAgrees(s, t, home, leaked, Dropping(cs, v));
  }

  lemma {:induction false} WovenFiled(home: Blob -> U16, keys: seq<Blob>, v: U16, next: nat -> U64, between: nat -> seq<Cmd>, n: nat)
    requires n <= |keys| && forall i :: 0 <= i < |keys| ==> home(keys[i]) == v
    requires forall i: nat :: i < n ==> S.FiledAtHome(home, S.Writing(between(i)))
    ensures S.FiledAtHome(home, S.Writing(Woven(keys, v, next, between, n)))
  {
    if n > 0 {
      WovenFiled(home, keys, v, next, between, n - 1);
      var front, middle := Woven(keys, v, next, between, n - 1), between(n - 1);
      forall i | 0 <= i < |middle| ensures middle[i].vnode == home(middle[i].key) { assert S.Writing(middle)[i].c == middle[i]; }
      forall i | 0 <= i < |front| ensures front[i].vnode == home(front[i].key) { assert S.Writing(front)[i].c == front[i]; }
    }
  }

  // When only keys of the vnode were written meanwhile, the live table loses
  // exactly those of the vnode.
  lemma {:induction false} DropperLeavesWithout(t: Table, home: Blob -> U16, v: U16, ds: seq<Cmd>)
    requires AllAt(ds, home, v)
    ensures S.RunTable(t, home, Dropping(ds, v)) == S.Without(t, home, v)
  {
    var u := ApplyAll(t, ds);
    DroppingLeaves(t, home, v, ds);
    forall k ensures SameAt(S.Without(t, home, v), S.Without(u, home, v), k) {
      if home(k) != v {
        Untouched(t, ds, k);
      }
    }
    EqualWhenSameEverywhere(S.Without(t, home, v), S.Without(u, home, v));
  }

  // ---------- Each deleted key ----------

  predicate Stale(t: Table, k: Blob, version: U64) {
    version != 0 && version < VersionOf(t, k)
  }

  // A delete leaves a marker under its version unless it comes too late.
  ghost predicate MarkedAt(t: Table, u: Table, k: Blob, version: U64) {
    if Stale(t, k, version) then SameAt(t, u, k)
    else k in u && u[k] == Dead(Stamp(VersionOf(t, k), version))
  }

  // The deletes, executed on any table: on the live one, or on the one that a
  // restart replays.
  lemma {:induction false} DeletedCell(t: Table, keys: seq<Blob>, v: U16, next: nat -> U64, i: nat)
    requires Distinct(keys) && i < |keys|
    ensures MarkedAt(t, ApplyAll(t, Deletions(keys, v, next)), keys[i], next(i))
  {
    var n := |keys| - 1;
    var front, ds := keys[..n], Deletions(keys, v, next);
    assert ds[..n] == Deletions(front, v, next) && ds[n] == Deletion(keys[n], v, next(n));
    if i == n {
      forall j: nat | j < n ensures ds[..n][j].key != keys[n] {
        assert ds[..n][j] == ds[j] == Deletion(keys[j], v, next(j));
      }
      Untouched(t, ds[..n], keys[n]);
    } else {
      DeletedCell(t, front, v, next, i);
    }
  }

  // The i-th delete among everything that was executed.
  lemma {:induction false} DeleteWithin(keys: seq<Blob>, v: U16, next: nat -> U64, between: nat -> seq<Cmd>, n: nat, i: nat)
    returns (p: nat)
    requires i < n <= |keys|
    ensures var cs := Woven(keys, v, next, between, n);
            && p < |cs| && cs[p] == Deletion(keys[i], v, next(i))
            && cs[..p] == Woven(keys, v, next, between, i) + between(i)
  {
    var cs, front := Woven(keys, v, next, between, n), Woven(keys, v, next, between, n - 1);
    assert front <= cs;
    if i == n - 1 {
      p := |front + between(i)|;
    } else {
      p := DeleteWithin(keys, v, next, between, n - 1, i);
      assert cs[p] == front[p] && cs[..p] == front[..p];
    }
  }

  // Whatever else is executed before, between and after the deletes, a deleted key
  // ends under the delete's version or a newer one, and marked deleted if no
  // newer write is among them.
  lemma {:induction false} DeletedOrNewer(t: Table, keys: seq<Blob>, v: U16, next: nat -> U64, between: nat -> seq<Cmd>,
                                          more: seq<Cmd>, i: nat) returns (p: nat)
    requires i < |keys|
    ensures var k, cs := keys[i], Woven(keys, v, next, between, |keys|) + more;
            && p < |cs| && cs[p] == Deletion(k, v, next(i))
            && (NoWraps(t, cs) ==> VersionOf(ApplyAll(t, cs), k) >= next(i))
            && (Versioned(cs) && Tops(t, cs, p, k) ==> k in ApplyAll(t, cs) && ApplyAll(t, cs)[k] == Dead(next(i)))
  {
    var k, woven := keys[i], Woven(keys, v, next, between, |keys|);
    var cs := woven + more;
    p := DeleteWithin(keys, v, next, between, |keys|, i);
    assert cs[p] == woven[p];
    if NoWraps(t, cs) {
      RunKeepsVersions(t, cs, p);
    }
    if Versioned(cs) && Tops(t, cs, p, k) {
      WinnerIsHeld(t, cs, p, k);
    }
  }

  // ---------- The leak ----------

  ghost function StaleKeys(t: Table, keys: seq<Blob>, next: nat -> U64): set<Blob> {
    set i | 0 <= i < |keys| && Stale(t, keys[i], next(i)) :: keys[i]
  }

  // The drop leaks exactly the values whose delete came too late.
  lemma {:induction false} DropperLeaks(t: Table, home: Blob -> U16, v: U16, keys: seq<Blob>, next: nat -> U64)
    requires Distinct(keys) && forall k :: k in keys <==> k in S.LiveKeys(t, home, v)
    ensures S.RunLeak(t, home, Dropping(Deletions(keys, v, next), v))
            == S.TotalBytes(S.Restrict(S.Values(t), StaleKeys(t, keys, next)))
  {
    var ds := Deletions(keys, v, next);
    var u := ApplyAll(t, ds);
    DroppingLeaves(t, home, v, ds);
    LiveAfterDeletes(t, home, v, keys, next);
    assert S.Restrict(S.Values(u), S.LiveKeys(u, home, v)) == S.Restrict(S.Values(t), StaleKeys(t, keys, next));
  }

  lemma {:induction false} LiveAfterDeletes(t: Table, home: Blob -> U16, v: U16, keys: seq<Blob>, next: nat -> U64)
    requires Distinct(keys) && forall k :: k in keys <==> k in S.LiveKeys(t, home, v)
    ensures var u := ApplyAll(t, Deletions(keys, v, next));
            && S.LiveKeys(u, home, v) == StaleKeys(t, keys, next)
            && forall k :: k in StaleKeys(t, keys, next) ==> k in t && k in u && u[k] == t[k]
  {
    var u := ApplyAll(t, Deletions(keys, v, next));
    forall k ensures k in S.LiveKeys(u, home, v) <==> k in StaleKeys(t, keys, next)
      ensures k in StaleKeys(t, keys, next) ==> k in t && k in u && u[k] == t[k]
    {
      if k in keys {
        var i :| 0 <= i < |keys| && keys[i] == k;
        DeletedCell(t, keys, v, next, i);
      } else {
        var ds := Deletions(keys, v, next);
        forall i: nat | i < |ds| ensures ds[i].key != k {
          assert ds[i] == Deletion(keys[i], v, next(i)) && keys[i] in keys;
        }
        Untouched(t, ds, k);
      }
    }
  }

  // ---------- After a restart, and back again ----------

  // The log of the node holds the deletes but not the drop. So after a restart a
  // dropped key is marked deleted, or has what the log before had if that is
  // newer; nothing tells that the vnode was given away.
  lemma {:induction false} ReplayedCell(start: Table, log: seq<Cmd>, keys: seq<Blob>, v: U16, next: nat -> U64, i: nat)
    requires Distinct(keys) && i < |keys|
    ensures MarkedAt(ApplyAll(start, log), ApplyAll(start, log + Deletions(keys, v, next)), keys[i], next(i))
  {
    ApplyAllConcat(start, log, Deletions(keys, v, next));
    DeletedCell(ApplyAll(start, log), keys, v, next, i);
  }

  // A vnode fetched back after a restart: a dropped key is restored exactly when
  // the source's version is not older than the delete, nor than what the log
  // had. u is the replayed table before the deletes.
  lemma {:induction false} FetchBackRestoresExactly(u: Table, src: Table, home: Blob -> U16, v: U16, es: seq<S.Entry>,
                                                    keys: seq<Blob>, next: nat -> U64, i: nat)
    requires Distinct(keys) && i < |keys| && home(keys[i]) == v && next(i) != 0
    requires T.ListsVNode(es, src, home, v) && NoZero(src) && keys[i] in src
    ensures var k, r := keys[i], ApplyAll(ApplyAll(u, Deletions(keys, v, next)), T.CommandsOf(v, es));
            && k in r
            && (r[k] == src[k] <==> src[k].version >= next(i) && src[k].version >= VersionOf(u, k))
  {
    var d := ApplyAll(u, Deletions(keys, v, next));
    DeletedCell(u, keys, v, next, i);
    T.TransferMerges(d, src, home, v, es, keys[i]);
  }

  // With other commands executed meanwhile: exactly when the source's version is not
  // older than what is replayed, so never when it is older than the delete.
  lemma {:induction false} FetchBackAmongOthers(u: Table, src: Table, home: Blob -> U16, v: U16, es: seq<S.Entry>, keys: seq<Blob>,
                                                next: nat -> U64, between: nat -> seq<Cmd>, more: seq<Cmd>, i: nat)
    requires i < |keys| && home(keys[i]) == v && T.ListsVNode(es, src, home, v) && NoZero(src) && keys[i] in src
    requires NoWraps(u, Woven(keys, v, next, between, |keys|) + more)
    ensures var k, d := keys[i], ApplyAll(u, Woven(keys, v, next, between, |keys|) + more);
            var r := ApplyAll(d, T.CommandsOf(v, es));
            && k in r
            && (r[k] == src[k] <==> src[k].version >= VersionOf(d, k))
            && (src[k].version < next(i) ==> r[k] != src[k])
  {
    var p := DeletedOrNewer(u, keys, v, next, between, more, i);
    T.TransferMerges(ApplyAll(u, Woven(keys, v, next, between, |keys|) + more), src, home, v, es, keys[i]);
  }

  // Without a restart in between the live table has forgotten the deletes, and
  // fetching back restores everything.
  lemma {:induction false} FetchBackLiveRestores(t: Table, src: Table, home: Blob -> U16, v: U16, es: seq<S.Entry>, ds: seq<Cmd>,
                                                 k: Blob)
    requires AllAt(ds, home, v) && T.ListsVNode(es, src, home, v) && NoZero(src) && k in src && home(k) == v
    ensures var r := ApplyAll(S.RunTable(t, home, Dropping(ds, v)), T.CommandsOf(v, es));
            k in r && r[k] == src[k]
  {
    DropperLeavesWithout(t, home, v, ds);
    T.TransferMerges(S.Without(t, home, v), src, home, v, es, k);
  }
}
