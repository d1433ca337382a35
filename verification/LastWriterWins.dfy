// The plain meaning of the versioned store: one cell per key, the newest
// version wins, and an equal version overwrites.
module LastWriterWins {
  import opened Commands

  datatype Cell = Live(version: U64, value: Blob) | Dead(version: U64)

  type Table = map<Blob, Cell>

  // What Store.Apply reports: nil, nil after ignoring a stale write, or
  // ErrInvalidOperation.
  datatype Verdict = Applied | Ignored | Rejected

  // The version of a key without metadata reads as zero.
  function VersionOf(t: Table, k: Blob): U64 {
    if k in t then t[k].version else 0
  }

  // What a read of the table answers.
  function Lookup(t: Table, k: Blob): Option<(Blob, U64)> {
    if k in t && t[k].Live? then Some((t[k].value, t[k].version)) else None
  }

  // Version 0 marks an unversioned write, which is given the successor of the
  // current version in 64-bit arithmetic.
  function Stamp(current: U64, version: U64): U64 {
    if version == 0 then (current + 1) % 0x1_0000_0000_0000_0000 else version
  }

  function EffectiveVersion(t: Table, c: Cmd): U64 {
    Stamp(VersionOf(t, c.key), c.version)
  }

  function CellOf(c: Cmd, version: U64): Cell {
    if c.op == OP_PUT then Live(version, c.value) else Dead(version)
  }

  function Decide(t: Table, c: Cmd): Verdict {
    if c.version != 0 && c.version < VersionOf(t, c.key) then Ignored
    else if Writes(c) then Applied
    else Rejected
  }

  function Apply(t: Table, c: Cmd): Table {
    if Decide(t, c) == Applied then t[c.key := CellOf(c, EffectiveVersion(t, c))] else t
  }

  function ApplyAll(t: Table, cs: seq<Cmd>): Table {
    if cs == [] then t else Apply(ApplyAll(t, cs[..|cs| - 1]), cs[|cs| - 1])
  }

  // What a client sees of one write, by the operation's byte in the log: a put is
  // read back under its version, a deleted key is gone, a write older than the
  // stored version and any other operation change nothing.
  lemma {:induction false} ReadsLastWrite(t: Table, c: Cmd, k: Blob)
    ensures k != c.key || (c.op != 0 && c.op != 2) || 0 < c.version < VersionOf(t, c.key) ==> SameAt(t, Apply(t, c), k)
    ensures c.op == 0 && c.version > 0 && c.version >= VersionOf(t, c.key) ==>
              Lookup(Apply(t, c), c.key) == Some((c.value, c.version))
    ensures c.op == 2 && c.version > 0 && c.version >= VersionOf(t, c.key) ==>
              Lookup(Apply(t, c), c.key) == None && VersionOf(Apply(t, c), c.key) == c.version
    ensures c.op == 0 && c.version == 0 && VersionOf(t, c.key) < 0xFFFF_FFFF_FFFF_FFFF ==>
              Lookup(Apply(t, c), c.key) == Some((c.value, VersionOf(t, c.key) + 1))
    ensures c.op == 2 && c.version == 0 && VersionOf(t, c.key) < 0xFFFF_FFFF_FFFF_FFFF ==>
              Lookup(Apply(t, c), c.key) == None && VersionOf(Apply(t, c), c.key) == VersionOf(t, c.key) + 1
  {}

  lemma {:induction false} ApplyAllConcat(t: Table, a: seq<Cmd>, b: seq<Cmd>)
    ensures ApplyAll(t, a + b) == ApplyAll(ApplyAll(t, a), b)
    decreases |b|
  {
    if b == [] {
      assert a + b == a;
    } else {
      var front := b[..|b| - 1];
      ApplyAllConcat(t, a, front);
      assert (a + b)[..|a + b| - 1] == a + front;
    }
  }

  // ---------- Versions only grow ----------

  // An unversioned write at the largest 64-bit version wraps the version to 0;
  // it is the only step that lowers a stored version.
  predicate Wraps(t: Table, c: Cmd) {
    c.version == 0 && Writes(c) && VersionOf(t, c.key) == 0xFFFF_FFFF_FFFF_FFFF
  }

  lemma {:induction false} StepLowersVersionExactlyOnWrap(t: Table, c: Cmd)
    ensures (exists k :: VersionOf(Apply(t, c), k) < VersionOf(t, k)) <==> Wraps(t, c)
    ensures !Wraps(t, c) && Writes(c) ==> VersionOf(Apply(t, c), c.key) >= c.version
  {
    if Wraps(t, c) {
      assert VersionOf(Apply(t, c), c.key) == 0;
    }
  }

  // Stored versions are never zero, and only a wrap can store a zero.
  ghost predicate NoZero(t: Table) {
    forall k :: k in t ==> t[k].version != 0
  }

  lemma {:induction false} ZeroStoredExactlyOnWrap(t: Table, c: Cmd)
    requires NoZero(t)
    ensures NoZero(Apply(t, c)) <==> !Wraps(t, c)
  {
    if Wraps(t, c) {
      assert Apply(t, c)[c.key].version == 0;
    }
  }

  predicate Versioned(cs: seq<Cmd>) {
    forall i :: 0 <= i < |cs| ==> cs[i].version != 0
  }

  // ---------- Which command a run leaves in a cell ----------

  predicate WriteFor(c: Cmd, k: Blob) {
    c.key == k && Writes(c)
  }

  // cs[i] is the last among the newest writes of key k.
  ghost predicate WinsAt(cs: seq<Cmd>, i: nat, k: Blob) {
    && i < |cs|
    && WriteFor(cs[i], k)
    && (forall j :: 0 <= j < |cs| && WriteFor(cs[j], k) ==> cs[j].version <= cs[i].version)
    && (forall j :: i < j < |cs| && WriteFor(cs[j], k) ==> cs[j].version < cs[i].version)
  }

  ghost predicate AllOlder(cs: seq<Cmd>, k: Blob, version: U64) {
    forall j :: 0 <= j < |cs| && WriteFor(cs[j], k) ==> cs[j].version < version
  }

  predicate SameAt(t: Table, u: Table, k: Blob) {
    if k in t then k in u && u[k] == t[k] else k !in u
  }

  lemma {:induction false} EqualWhenSameEverywhere(t: Table, u: Table)
    requires forall k :: SameAt(t, u, k)
    ensures t == u
  {
    forall k: Blob ensures k in t <==> k in u { assert SameAt(t, u, k); }
    forall k | k in t ensures t[k] == u[k] { assert SameAt(t, u, k); }
  }

  // cs[i] wins key k in log cs, is not older than what t holds, and u holds it.
  ghost predicate HoldsWinner(t: Table, cs: seq<Cmd>, k: Blob, u: Table, i: nat) {
    WinsAt(cs, i, k) && VersionOf(t, k) <= cs[i].version && k in u && u[k] == CellOf(cs[i], cs[i].version)
  }

  // What a run over a versioned log does to key k: the cell is untouched when
  // every write of k is older than it, and holds the winner otherwise.
  ghost predicate Outcome(t: Table, cs: seq<Cmd>, k: Blob, u: Table) {
    || (AllOlder(cs, k, VersionOf(t, k)) && SameAt(t, u, k))
    || (exists i: nat :: HoldsWinner(t, cs, k, u, i))
  }

  lemma {:induction false} OutcomeStep(t: Table, cs: seq<Cmd>, c: Cmd, k: Blob, u: Table)
    requires Versioned(cs + [c]) && Outcome(t, cs, k, u)
    ensures Outcome(t, cs + [c], k, Apply(u, c))
  {
    var all := cs + [c];
    var u' := Apply(u, c);
    assert forall j :: 0 <= j < |cs| ==> all[j] == cs[j];
    assert all[|cs|] == c;
    if WriteFor(c, k) && VersionOf(u, k) <= c.version {
      assert WinsAt(all, |cs|, k);
      assert HoldsWinner(t, all, k, u', |cs|);
    } else if i: nat :| HoldsWinner(t, cs, k, u, i) {
      assert WinsAt(all, i, k);
      assert HoldsWinner(t, all, k, u', i);
    } else {
      assert AllOlder(all, k, VersionOf(t, k));
    }
  }

  lemma {:induction false} RunLeavesWinner(t: Table, cs: seq<Cmd>, k: Blob)
    requires Versioned(cs)
    ensures Outcome(t, cs, k, ApplyAll(t, cs))
    decreases |cs|
  {
    if cs != [] {
      var front, c := cs[..|cs| - 1], cs[|cs| - 1];
      RunLeavesWinner(t, front, k);
      assert cs == front + [c];
      OutcomeStep(t, front, c, k, ApplyAll(t, front));
    }
  }

  // No command of the run is an unversioned write at the largest version.
  ghost predicate NoWraps(t: Table, cs: seq<Cmd>) {
    forall i :: 0 <= i < |cs| ==> !Wraps(ApplyAll(t, cs[..i]), cs[i])
  }

  lemma {:induction false} VersionsNeverFall(t: Table, cs: seq<Cmd>, i: nat, k: Blob)
    requires NoWraps(t, cs) && i <= |cs|
    ensures VersionOf(ApplyAll(t, cs[..i]), k) <= VersionOf(ApplyAll(t, cs), k)
    decreases |cs|
  {
    if i == |cs| {
      assert cs[..i] == cs;
    } else {
      var n := |cs| - 1;
      assert forall j :: 0 <= j <= n ==> cs[..n][..j] == cs[..j];
      VersionsNeverFall(t, cs[..n], i, k);
      StepLowersVersionExactlyOnWrap(ApplyAll(t, cs[..n]), cs[n]);
    }
  }

  // No later write of a log takes back the version an earlier one left, unless
  // the version wraps.
  lemma {:induction false} RunKeepsVersions(t: Table, cs: seq<Cmd>, i: nat)
    requires NoWraps(t, cs) && i < |cs| && Writes(cs[i])
    ensures VersionOf(ApplyAll(t, cs), cs[i].key) >= VersionOf(ApplyAll(t, cs[..i + 1]), cs[i].key) >= cs[i].version
  {
    VersionsNeverFall(t, cs, i + 1, cs[i].key);
    assert cs[..i + 1][..i] == cs[..i];
    StepLowersVersionExactlyOnWrap(ApplyAll(t, cs[..i]), cs[i]);
  }

  // The winner is a function of the log alone.
  lemma {:induction false} WinnerUnique(cs: seq<Cmd>, i: nat, j: nat, k: Blob)
    requires WinsAt(cs, i, k) && WinsAt(cs, j, k)
    ensures i == j
  {}

  // ---------- Convergence ----------

  ghost predicate DistinctVersions(cs: seq<Cmd>) {
    forall i, j :: 0 <= i < j < |cs| && cs[i].key == cs[j].key && Writes(cs[i]) && Writes(cs[j])
                   ==> cs[i].version != cs[j].version
  }

  // Two replicas that receive the same versioned writes in different orders end
  // with the same table, whatever table they both started from.
  lemma {:induction false} Converges(t: Table, cs: seq<Cmd>, ds: seq<Cmd>)
    requires multiset(cs) == multiset(ds)
    requires Versioned(cs) && DistinctVersions(cs)
    ensures ApplyAll(t, cs) == ApplyAll(t, ds)
  {
    assert Versioned(ds) by {
      forall j | 0 <= j < |ds| ensures ds[j].version != 0 { assert ds[j] in multiset(cs); }
    }
    forall k ensures SameAt(ApplyAll(t, cs), ApplyAll(t, ds), k) {
      ConvergesAt(t, cs, ds, k);
    }
    EqualWhenSameEverywhere(ApplyAll(t, cs), ApplyAll(t, ds));
  }

  // Orders of the same distinct versions have the same winner.
  lemma {:induction false} SameWinner(cs: seq<Cmd>, ds: seq<Cmd>, i: nat, j: nat, k: Blob)
    requires multiset(cs) == multiset(ds) && DistinctVersions(cs)
    requires WinsAt(cs, i, k) && WinsAt(ds, j, k)
    ensures cs[i] == ds[j]
  {
    assert cs[i] in multiset(ds) && ds[j] in multiset(cs);
    var i' :| 0 <= i' < |ds| && ds[i'] == cs[i];
    var j' :| 0 <= j' < |cs| && cs[j'] == ds[j];
    assert cs[i].version == cs[j'].version;
  }

  lemma {:induction false} NoneNewer(cs: seq<Cmd>, ds: seq<Cmd>, k: Blob, version: U64)
    requires multiset(cs) == multiset(ds) && AllOlder(cs, k, version)
    ensures AllOlder(ds, k, version)
  {
    forall j | 0 <= j < |ds| && WriteFor(ds[j], k) ensures ds[j].version < version {
      assert ds[j] in multiset(cs);
    }
  }

  lemma {:induction false} ConvergesAt(t: Table, cs: seq<Cmd>, ds: seq<Cmd>, k: Blob)
    requires multiset(cs) == multiset(ds)
    requires Versioned(cs) && Versioned(ds) && DistinctVersions(cs)
    ensures SameAt(ApplyAll(t, cs), ApplyAll(t, ds), k)
  {
    var u, w := ApplyAll(t, cs), ApplyAll(t, ds);
    assert Outcome(t, cs, k, u) by { RunLeavesWinner(t, cs, k); }
    assert Outcome(t, ds, k, w) by { RunLeavesWinner(t, ds, k); }
    if AllOlder(cs, k, VersionOf(t, k)) {
      NoneNewer(cs, ds, k, VersionOf(t, k));
    } else {
      if AllOlder(ds, k, VersionOf(t, k)) { NoneNewer(ds, cs, k, VersionOf(t, k)); }
      var i: nat :| HoldsWinner(t, cs, k, u, i);
      var j: nat :| HoldsWinner(t, ds, k, w, j);
      SameWinner(cs, ds, i, j, k);
    }
  }

  // Replaying a versioned log on top of its own result changes nothing.
  lemma {:induction false} ReplayIsIdempotent(t: Table, cs: seq<Cmd>)
    requires Versioned(cs)
    ensures ApplyAll(ApplyAll(t, cs), cs) == ApplyAll(t, cs)
  {
    var u := ApplyAll(t, cs);
    var w := ApplyAll(u, cs);
    forall k ensures SameAt(u, w, k) {
      RunLeavesWinner(t, cs, k);
      RunLeavesWinner(u, cs, k);
      if i: nat :| HoldsWinner(t, cs, k, u, i) {
        if j: nat :| HoldsWinner(u, cs, k, w, j) {
          WinnerUnique(cs, i, j, k);
        }
      }
    }
    EqualWhenSameEverywhere(u, w);
  }

  // Convergence needs distinct versions: two versioned writes commute exactly
  // when they touch different keys, differ in version, leave the same cell, or
  // are both stale.
  lemma {:induction false} CommuteExactly(t: Table, a: Cmd, b: Cmd)
    requires Writes(a) && Writes(b) && a.version != 0 && b.version != 0
    ensures Apply(Apply(t, a), b) == Apply(Apply(t, b), a)
            <==> (|| a.key != b.key
                  || a.version != b.version
                  || CellOf(a, a.version) == CellOf(b, b.version)
                  || a.version < VersionOf(t, a.key))
  {
    var ab, ba := Apply(Apply(t, a), b), Apply(Apply(t, b), a);
    if a.key == b.key && a.version == b.version && a.version >= VersionOf(t, a.key) {
      assert ab[a.key] == CellOf(b, b.version) && ba[a.key] == CellOf(a, a.version);
    }
  }
}
