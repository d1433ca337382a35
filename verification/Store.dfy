// core/store.go: the value map, the per-key metadata, the two per-vnode
// indexes and the four counters, and how they agree with the plain table of
// LastWriterWins.
module Store {
  import opened Commands
  import opened LastWriterWins
  import Counting

  datatype Meta = Meta(version: U64, tombstone: bool)

  // A per-vnode key set; a vnode may be absent or present with an empty set.
  type Index = map<U16, set<Blob>>

  datatype State = State(
    storage: map<Blob, Blob>,
    live: Index,
    tombs: Index,
    meta: map<Blob, Meta>,
    tombstoneCount: int,
    valueBytes: int,
    vnodesWithData: int,
    vnodesWithTombstones: int)

  const EMPTY := State(map[], map[], map[], map[], 0, 0, 0, 0)

  // Reads an absent vnode as an empty set.
  function At(idx: Index, v: U16): set<Blob> {
    if v in idx then idx[v] else {}
  }

  function CurrentMeta(s: State, k: Blob): Meta {
    if k in s.meta then s.meta[k] else Meta(0, false)
  }

  function StoredBytes(s: State, k: Blob): nat {
    if k in s.storage then |s.storage[k]| else 0
  }

  function One(b: bool): nat {
    if b then 1 else 0
  }

  // ---------- Transitions ----------

  function PutStep(s: State, c: Cmd, version: U64): State {
    var data, ts := At(s.live, c.vnode), At(s.tombs, c.vnode);
    State(
      s.storage[c.key := c.value],
      s.live[c.vnode := data + {c.key}],
      if c.key in ts then s.tombs[c.vnode := ts - {c.key}] else s.tombs,
      s.meta[c.key := Meta(version, false)],
      s.tombstoneCount - One(CurrentMeta(s, c.key).tombstone),
      s.valueBytes - StoredBytes(s, c.key) + |c.value|,
      s.vnodesWithData + One(data == {}),
      s.vnodesWithTombstones - One(c.key in ts && ts == {c.key} && s.vnodesWithTombstones > 0))
  }

  function DeleteStep(s: State, c: Cmd, version: U64): State {
    var data, ts := At(s.live, c.vnode), At(s.tombs, c.vnode);
    State(
      s.storage - {c.key},
      if c.key in data then s.live[c.vnode := data - {c.key}] else s.live,
      s.tombs[c.vnode := ts + {c.key}],
      s.meta[c.key := Meta(version, true)],
      s.tombstoneCount + One(!CurrentMeta(s, c.key).tombstone),
      s.valueBytes - StoredBytes(s, c.key),
      s.vnodesWithData - One(c.key in data && data == {c.key} && s.vnodesWithData > 0),
      s.vnodesWithTombstones + One(ts == {}))
  }

  function Step(s: State, c: Cmd): (State, Verdict) {
    var cur := CurrentMeta(s, c.key).version;
    var version := Stamp(cur, c.version);
    if c.version != 0 && c.version < cur then (s, Ignored)
    else if c.op == OP_PUT then (PutStep(s, c, version), Applied)
    else if c.op == OP_DELETE then (DeleteStep(s, c, version), Applied)
    else (s, Rejected)
  }

  function FloorSub(a: int, b: nat): int {
    if a >= b then a - b else if a > 0 then 0 else a
  }

  // DeleteVNodeData: forgets every key of a vnode, but not their bytes.
  function DropStep(s: State, v: U16): State {
    var data, ts := At(s.live, v), At(s.tombs, v);
    if data == {} && ts == {} then s
    else State(
           s.storage - data,
           s.live - {v},
           s.tombs - {v},
           s.meta - data - ts,
           FloorSub(s.tombstoneCount, |ts|),
           s.valueBytes,
           s.vnodesWithData - One(data != {} && s.vnodesWithData > 0),
           s.vnodesWithTombstones - One(ts != {} && s.vnodesWithTombstones > 0))
  }

  // ---------- Agreement with the table ----------

  ghost function LiveKeys(t: Table, home: Blob -> U16, v: U16): set<Blob> {
    set k | k in t && t[k].Live? && home(k) == v
  }

  ghost function DeadKeys(t: Table, home: Blob -> U16, v: U16): set<Blob> {
    set k | k in t && t[k].Dead? && home(k) == v
  }

  ghost function AllDead(t: Table): set<Blob> {
    set k | k in t && t[k].Dead?
  }

  function Values(t: Table): map<Blob, Blob> {
    map k | k in t && t[k].Live? :: t[k].value
  }

  function Metas(t: Table): map<Blob, Meta> {
    map k | k in t :: Meta(t[k].version, t[k].Dead?)
  }

  ghost function Occupied(idx: Index): set<U16> {
    set v | v in idx && idx[v] != {}
  }

  ghost function TotalBytes(m: map<Blob, Blob>): nat
    decreases |m|
  {
    if m == map[] then 0 else
      var k :| k in m;
      |m[k]| + TotalBytes(m - {k})
  }

  ghost predicate IndexesAgree(s: State, t: Table, home: Blob -> U16) {
    && (forall v :: At(s.live, v) == LiveKeys(t, home, v))
    && (forall v :: At(s.tombs, v) == DeadKeys(t, home, v))
  }

  ghost predicate CountersAgree(s: State, t: Table, leaked: int) {
    && s.tombstoneCount == |AllDead(t)|
    && s.vnodesWithData == |Occupied(s.live)|
    && s.vnodesWithTombstones == |Occupied(s.tombs)|
    && s.valueBytes == TotalBytes(s.storage) + leaked
  }

  // The whole store is the table t filed by home, and leaked counts the bytes
  // of values that vnode drops removed without subtracting.
  ghost predicate Agrees(s: State, t: Table, home: Blob -> U16, leaked: int) {
    && s.storage == Values(t)
    && s.meta == Metas(t)
    && IndexesAgree(s, t, home)
    && CountersAgree(s, t, leaked)
  }

  // Equal stores, reading an absent vnode as an empty set.
  ghost predicate Same(s: State, u: State) {
    && s.storage == u.storage && s.meta == u.meta
    && (forall v :: At(s.live, v) == At(u.live, v) && At(s.tombs, v) == At(u.tombs, v))
    && s.tombstoneCount == u.tombstoneCount && s.valueBytes == u.valueBytes
    && s.vnodesWithData == u.vnodesWithData && s.vnodesWithTombstones == u.vnodesWithTombstones
  }

  // The table, home and leak fix every counter and every index set.
  lemma {:induction false} AgreementDetermines(s: State, u: State, t: Table, home: Blob -> U16, leaked: int)
    requires Agrees(s, t, home, leaked) && Agrees(u, t, home, leaked)
    ensures Same(s, u)
  {
    forall v: U16 ensures v in Occupied(s.live) <==> v in Occupied(u.live) {
      assert At(s.live, v) == At(u.live, v);
    }
    forall v: U16 ensures v in Occupied(s.tombs) <==> v in Occupied(u.tombs) {
      assert At(s.tombs, v) == At(u.tombs, v);
    }
    assert Occupied(s.live) == Occupied(u.live) && Occupied(s.tombs) == Occupied(u.tombs);
  }

  lemma {:induction false} EmptyAgrees(home: Blob -> U16)
    ensures Agrees(EMPTY, map[], home, 0)
  {
    assert AllDead(map[]) == {} && Occupied(map[]) == {};
    assert Values(map[]) == map[] && Metas(map[]) == map[];
  }

  // ---------- Cardinalities ----------

  lemma {:induction false} OccupiedAfterAdd(idx: Index, v: U16, k: Blob)
    ensures |Occupied(idx[v := At(idx, v) + {k}])| == |Occupied(idx)| + One(At(idx, v) == {})
  {
    var after := idx[v := At(idx, v) + {k}];
    assert k in after[v];
    assert Occupied(after) == Occupied(idx) + {v};
    assert v in Occupied(idx) <==> At(idx, v) != {};
  }

  lemma {:induction false} OccupiedAfterRemove(idx: Index, v: U16, k: Blob)
    requires k in At(idx, v)
    ensures |Occupied(idx)| > 0
    ensures |Occupied(idx[v := At(idx, v) - {k}])| == |Occupied(idx)| - One(At(idx, v) == {k})
  {
    var after := idx[v := At(idx, v) - {k}];
    assert v in Occupied(idx);
    if At(idx, v) == {k} {
      assert Occupied(after) == Occupied(idx) - {v};
    } else {
      assert At(idx, v) == (At(idx, v) - {k}) + {k};
      assert Occupied(after) == Occupied(idx);
    }
  }

  lemma {:induction false} OccupiedAfterDrop(idx: Index, v: U16)
    ensures At(idx, v) != {} ==> |Occupied(idx)| > 0
    ensures |Occupied(idx - {v})| == |Occupied(idx)| - One(At(idx, v) != {})
  {
    if At(idx, v) != {} {
      assert v in Occupied(idx);
      assert Occupied(idx - {v}) == Occupied(idx) - {v};
    } else {
      assert Occupied(idx - {v}) == Occupied(idx);
    }
  }

  lemma {:induction false} TotalWithout(m: map<Blob, Blob>, k: Blob)
    requires k in m
    ensures TotalBytes(m) == |m[k]| + TotalBytes(m - {k})
    decreases |m|
  {
    var x :| x in m && TotalBytes(m) == |m[x]| + TotalBytes(m - {x});
    if x != k {
      TotalWithout(m - {x}, k);
      assert m - {x} - {k} == m - {k} - {x};
      TotalWithout(m - {k}, x);
    }
  }

  lemma {:induction false} TotalAfterSet(m: map<Blob, Blob>, k: Blob, value: Blob)
    ensures TotalBytes(m[k := value]) == TotalBytes(m - {k}) + |value|
    ensures TotalBytes(m) == TotalBytes(m - {k}) + (if k in m then |m[k]| else 0)
  {
    TotalWithout(m[k := value], k);
    assert m[k := value] - {k} == m - {k};
    if k in m { TotalWithout(m, k); } else { assert m - {k} == m; }
  }

  lemma {:induction false} DeadAfterSet(t: Table, k: Blob, cell: Cell)
    ensures |AllDead(t[k := cell])|
            == |AllDead(t)| + One(cell.Dead?) - One(k in t && t[k].Dead?)
  {
    var rest := AllDead(t) - {k};
    if k in t && t[k].Dead? {
      assert AllDead(t) == rest + {k};
    } else {
      assert AllDead(t) == rest;
    }
    if cell.Dead? {
      assert AllDead(t[k := cell]) == rest + {k};
    } else {
      assert AllDead(t[k := cell]) == rest;
    }
  }

  // ---------- Every step keeps the agreement ----------

  lemma {:induction false} KeysAfterSet(t: Table, home: Blob -> U16, v: U16, k: Blob, cell: Cell)
    ensures LiveKeys(t[k := cell], home, v)
            == if cell.Live? && home(k) == v then LiveKeys(t, home, v) + {k} else LiveKeys(t, home, v) - {k}
    ensures DeadKeys(t[k := cell], home, v)
            == if cell.Dead? && home(k) == v then DeadKeys(t, home, v) + {k} else DeadKeys(t, home, v) - {k}
  {}

  lemma {:induction false} PutIndexes(s: State, t: Table, home: Blob -> U16, c: Cmd, version: U64)
    requires IndexesAgree(s, t, home) && home(c.key) == c.vnode
    ensures IndexesAgree(PutStep(s, c, version), t[c.key := Live(version, c.value)], home)
  {
    var s', t' := PutStep(s, c, version), t[c.key := Live(version, c.value)];
    forall v ensures At(s'.live, v) == LiveKeys(t', home, v) && At(s'.tombs, v) == DeadKeys(t', home, v) {
      KeysAfterSet(t, home, v, c.key, Live(version, c.value));
      assert At(s.live, v) == LiveKeys(t, home, v) && At(s.tombs, v) == DeadKeys(t, home, v);
    }
  }

  lemma {:induction false} DeleteIndexes(s: State, t: Table, home: Blob -> U16, c: Cmd, version: U64)
    requires IndexesAgree(s, t, home) && home(c.key) == c.vnode
    ensures IndexesAgree(DeleteStep(s, c, version), t[c.key := Dead(version)], home)
  {
    var s', t' := DeleteStep(s, c, version), t[c.key := Dead(version)];
    forall v ensures At(s'.live, v) == LiveKeys(t', home, v) && At(s'.tombs, v) == DeadKeys(t', home, v) {
      KeysAfterSet(t, home, v, c.key, Dead(version));
      assert At(s.live, v) == LiveKeys(t, home, v) && At(s.tombs, v) == DeadKeys(t, home, v);
    }
  }

  lemma {:induction false} PutCounters(s: State, t: Table, leaked: int, c: Cmd, version: U64)
    requires s.meta == Metas(t) && CountersAgree(s, t, leaked)
    ensures CountersAgree(PutStep(s, c, version), t[c.key := Live(version, c.value)], leaked)
  {
    OccupiedAfterAdd(s.live, c.vnode, c.key);
    if c.key in At(s.tombs, c.vnode) { OccupiedAfterRemove(s.tombs, c.vnode, c.key); }
    TotalAfterSet(s.storage, c.key, c.value);
    DeadAfterSet(t, c.key, Live(version, c.value));
    assert CurrentMeta(s, c.key).tombstone <==> c.key in t && t[c.key].Dead?;
  }

  lemma {:induction false} DeleteCounters(s: State, t: Table, leaked: int, c: Cmd, version: U64)
    requires s.meta == Metas(t) && CountersAgree(s, t, leaked)
    ensures CountersAgree(DeleteStep(s, c, version), t[c.key := Dead(version)], leaked)
  {
    OccupiedAfterAdd(s.tombs, c.vnode, c.key);
    if c.key in At(s.live, c.vnode) { OccupiedAfterRemove(s.live, c.vnode, c.key); }
    TotalAfterSet(s.storage, c.key, []);
    DeadAfterSet(t, c.key, Dead(version));
    assert CurrentMeta(s, c.key).tombstone <==> c.key in t && t[c.key].Dead?;
  }

  lemma {:induction false} MapsAfterSet(t: Table, k: Blob, cell: Cell)
    ensures Metas(t[k := cell]) == Metas(t)[k := Meta(cell.version, cell.Dead?)]
    ensures Values(t[k := cell]) == if cell.Live? then Values(t)[k := cell.value] else Values(t) - {k}
  {}

  lemma {:induction false} PutAgrees(s: State, t: Table, home: Blob -> U16, leaked: int, c: Cmd, version: U64)
    requires Agrees(s, t, home, leaked) && home(c.key) == c.vnode
    ensures Agrees(PutStep(s, c, version), t[c.key := Live(version, c.value)], home, leaked)
  {
    MapsAfterSet(t, c.key, Live(version, c.value));
    PutIndexes(s, t, home, c, version);
    PutCounters(s, t, leaked, c, version);
  }

  lemma {:induction false} DeleteAgrees(s: State, t: Table, home: Blob -> U16, leaked: int, c: Cmd, version: U64)
    requires Agrees(s, t, home, leaked) && home(c.key) == c.vnode
    ensures Agrees(DeleteStep(s, c, version), t[c.key := Dead(version)], home, leaked)
  {
    MapsAfterSet(t, c.key, Dead(version));
    DeleteIndexes(s, t, home, c, version);
    DeleteCounters(s, t, leaked, c, version);
  }

  // Executing a command filed at its key's home keeps the whole store in
  // agreement with the table, and reports what the table says.
  lemma {:induction false} StepAgrees(s: State, t: Table, home: Blob -> U16, leaked: int, c: Cmd)
    requires Agrees(s, t, home, leaked) && home(c.key) == c.vnode
    ensures Agrees(Step(s, c).0, Apply(t, c), home, leaked)
    ensures Step(s, c).1 == Decide(t, c)
  {
    assert CurrentMeta(s, c.key).version == VersionOf(t, c.key);
    if Decide(t, c) == Applied {
      var version := EffectiveVersion(t, c);
      if c.op == OP_PUT {
        PutAgrees(s, t, home, leaked, c, version);
      } else {
        DeleteAgrees(s, t, home, leaked, c, version);
      }
    }
  }

  // The vnode carried by a command is the whole condition: an executed command
  // whose vnode is not its key's home leaves indexes that no table explains.
  lemma {:induction false} AgreementKeptExactlyWhenFiledAtHome(s: State, t: Table, home: Blob -> U16, leaked: int, c: Cmd)
    requires Agrees(s, t, home, leaked) && Decide(t, c) == Applied
    ensures (exists t', leaked' :: Agrees(Step(s, c).0, t', home, leaked')) <==> c.vnode == home(c.key)
  {
    if c.vnode == home(c.key) {
      StepAgrees(s, t, home, leaked, c);
    } else {
      assert CurrentMeta(s, c.key).version == VersionOf(t, c.key);
      var s' := Step(s, c).0;
      forall t', leaked' ensures !Agrees(s', t', home, leaked') {
        assert c.key in At(s'.live, c.vnode) || c.key in At(s'.tombs, c.vnode);
        assert c.key !in LiveKeys(t', home, c.vnode) && c.key !in DeadKeys(t', home, c.vnode);
      }
    }
  }

  // ---------- Dropping a vnode ----------

  function Without(t: Table, home: Blob -> U16, v: U16): Table {
    map k | k in t && home(k) != v :: t[k]
  }

  function Restrict(m: map<Blob, Blob>, ks: set<Blob>): map<Blob, Blob> {
    map k | k in m && k in ks :: m[k]
  }

  // Bytes of the live values of a vnode.
  ghost function BytesAt(t: Table, home: Blob -> U16, v: U16): nat {
    TotalBytes(Restrict(Values(t), LiveKeys(t, home, v)))
  }

  lemma {:induction false} TotalSplits(m: map<Blob, Blob>, ks: set<Blob>)
    ensures TotalBytes(m) == TotalBytes(m - ks) + TotalBytes(Restrict(m, ks))
    decreases |ks|
  {
    if ks == {} {
      assert m - ks == m && Restrict(m, ks) == map[];
    } else {
      var k :| k in ks;
      var rest := ks - {k};
      TotalSplits(m, rest);
      if k in m {
        TotalWithout(m - rest, k);
        TotalWithout(Restrict(m, ks), k);
        assert m - rest - {k} == m - ks;
        assert Restrict(m, ks) - {k} == Restrict(m, rest);
      } else {
        assert m - rest == m - ks && Restrict(m, ks) == Restrict(m, rest);
      }
    }
  }

  lemma {:induction false} DropIndexes(s: State, t: Table, home: Blob -> U16, v: U16)
    requires IndexesAgree(s, t, home)
    requires At(s.live, v) != {} || At(s.tombs, v) != {}
    ensures IndexesAgree(DropStep(s, v), Without(t, home, v), home)
  {
    var s', t' := DropStep(s, v), Without(t, home, v);
    forall w ensures At(s'.live, w) == LiveKeys(t', home, w) && At(s'.tombs, w) == DeadKeys(t', home, w) {
      assert At(s.live, w) == LiveKeys(t, home, w) && At(s.tombs, w) == DeadKeys(t, home, w);
    }
  }

  lemma {:induction false} DropOfEmptyVNode(t: Table, home: Blob -> U16, v: U16)
    requires LiveKeys(t, home, v) == {} && DeadKeys(t, home, v) == {}
    ensures Without(t, home, v) == t && BytesAt(t, home, v) == 0
  {
    forall k | k in t ensures home(k) != v {
      assert k !in LiveKeys(t, home, v) && k !in DeadKeys(t, home, v);
    }
    assert Restrict(Values(t), {}) == map[];
  }

  lemma {:induction false} DropCounters(s: State, t: Table, home: Blob -> U16, leaked: int, v: U16)
    requires Agrees(s, t, home, leaked)
    requires At(s.live, v) != {} || At(s.tombs, v) != {}
    ensures CountersAgree(DropStep(s, v), Without(t, home, v), leaked + BytesAt(t, home, v))
  {
    var ts := At(s.tombs, v);
    assert At(s.live, v) == LiveKeys(t, home, v) && ts == DeadKeys(t, home, v);
    OccupiedAfterDrop(s.live, v);
    OccupiedAfterDrop(s.tombs, v);
    TotalSplits(s.storage, At(s.live, v));
    assert AllDead(Without(t, home, v)) == AllDead(t) - ts && ts <= AllDead(t);
  }

  // Dropping a vnode removes exactly its keys from the table and leaks exactly
  // the bytes of the values that were still live there.
  lemma {:induction false} DropAgrees(s: State, t: Table, home: Blob -> U16, leaked: int, v: U16)
    requires Agrees(s, t, home, leaked)
    ensures Agrees(DropStep(s, v), Without(t, home, v), home, leaked + BytesAt(t, home, v))
  {
    assert At(s.live, v) == LiveKeys(t, home, v) && At(s.tombs, v) == DeadKeys(t, home, v);
    if At(s.live, v) == {} && At(s.tombs, v) == {} {
      DropOfEmptyVNode(t, home, v);
    } else {
      DropIndexes(s, t, home, v);
      DropCounters(s, t, home, leaked, v);
      var s', t' := DropStep(s, v), Without(t, home, v);
      assert s'.storage == Values(t');
      assert s'.meta == Metas(t');
    }
  }

  // None of the positivity guards in front of a decrement ever blocks it.
  lemma {:induction false} GuardsNeverMatter(s: State, t: Table, home: Blob -> U16, leaked: int, v: U16)
    requires Agrees(s, t, home, leaked)
    ensures At(s.live, v) != {} ==> s.vnodesWithData > 0
    ensures At(s.tombs, v) != {} ==> s.vnodesWithTombstones > 0
    ensures s.tombstoneCount >= |At(s.tombs, v)|
  {
    OccupiedAfterDrop(s.live, v);
    OccupiedAfterDrop(s.tombs, v);
    assert At(s.tombs, v) == DeadKeys(t, home, v) <= AllDead(t);
    Counting.SubsetSize(DeadKeys(t, home, v), AllDead(t));
  }

  // ---------- Whole runs ----------

  datatype Event = Write(c: Cmd) | Drop(v: U16)

  function RunState(s: State, es: seq<Event>): State {
    if es == [] then s else
      var before := RunState(s, es[..|es| - 1]);
      match es[|es| - 1]
      case Write(c) => Step(before, c).0
      case Drop(v) => DropStep(before, v)
  }

  ghost function RunTable(t: Table, home: Blob -> U16, es: seq<Event>): Table {
    if es == [] then t else
      var before := RunTable(t, home, es[..|es| - 1]);
      match es[|es| - 1]
      case Write(c) => Apply(before, c)
      case Drop(v) => Without(before, home, v)
  }

  // Bytes of live values that the drops of a run discarded.
  ghost function RunLeak(t: Table, home: Blob -> U16, es: seq<Event>): nat {
    if es == [] then 0 else
      var front := es[..|es| - 1];
      RunLeak(t, home, front)
      + match es[|es| - 1]
        case Write(_) => 0
        case Drop(v) => BytesAt(RunTable(t, home, front), home, v)
  }

  ghost predicate FiledAtHome(home: Blob -> U16, es: seq<Event>) {
    forall i :: 0 <= i < |es| && es[i].Write? ==> es[i].c.vnode == home(es[i].c.key)
  }

  // Over every run, indexes partition the metadata, live keys are the stored
  // keys, counters are true cardinalities, and valueBytes exceeds the stored
  // bytes by exactly what was leaked.
  lemma {:induction false} RunAgrees(s: State, t: Table, home: Blob -> U16, leaked: int, es: seq<Event>)
    requires Agrees(s, t, home, leaked) && FiledAtHome(home, es)
    ensures Agrees(RunState(s, es), RunTable(t, home, es), home, leaked + RunLeak(t, home, es))
    decreases |es|
  {
    if es != [] {
      var front := es[..|es| - 1];
      RunAgrees(s, t, home, leaked, front);
      var s', t', leaked' := RunState(s, front), RunTable(t, home, front), leaked + RunLeak(t, home, front);
      match es[|es| - 1]
      case Write(c) => StepAgrees(s', t', home, leaked', c);
      case Drop(v) => DropAgrees(s', t', home, leaked', v);
    }
  }

  // Every drop of the run hit a vnode without live bytes.
  ghost predicate DropsOnlyEmptied(t: Table, home: Blob -> U16, es: seq<Event>) {
    es == [] ||
    var front := es[..|es| - 1];
    && DropsOnlyEmptied(t, home, front)
    && (es[|es| - 1].Drop? ==> BytesAt(RunTable(t, home, front), home, es[|es| - 1].v) == 0)
  }

  lemma {:induction false} NoLeakExactly(t: Table, home: Blob -> U16, es: seq<Event>)
    ensures RunLeak(t, home, es) == 0 <==> DropsOnlyEmptied(t, home, es)
    decreases |es|
  {
    if es != [] {
      NoLeakExactly(t, home, es[..|es| - 1]);
    }
  }

  // Starting in agreement and without leaks (as the empty store is), valueBytes
  // is the sum of the stored value lengths exactly when no drop ever hit a
  // vnode with live bytes.
  lemma {:induction false} ValueBytesExactly(s: State, t: Table, home: Blob -> U16, es: seq<Event>)
    requires Agrees(s, t, home, 0) && FiledAtHome(home, es)
    ensures RunState(s, es).valueBytes == TotalBytes(RunState(s, es).storage)
            <==> DropsOnlyEmptied(t, home, es)
  {
    RunAgrees(s, t, home, 0, es);
    NoLeakExactly(t, home, es);
  }

  function Writing(cs: seq<Cmd>): seq<Event> {
    seq(|cs|, i requires 0 <= i < |cs| => Write(cs[i]))
  }

  lemma {:induction false} RunTableOfWrites(t: Table, home: Blob -> U16, cs: seq<Cmd>)
    ensures RunTable(t, home, Writing(cs)) == ApplyAll(t, cs)
    ensures RunLeak(t, home, Writing(cs)) == 0
    decreases |cs|
  {
    if cs != [] {
      var front := cs[..|cs| - 1];
      assert Writing(cs)[..|cs| - 1] == Writing(front);
      RunTableOfWrites(t, home, front);
    }
  }

  // Convergence of the concrete store: any two orders of the same versioned
  // writes give the same values, metadata, counters and index sets.
  lemma {:induction false} StoresConverge(s: State, t: Table, home: Blob -> U16, leaked: int, cs: seq<Cmd>, ds: seq<Cmd>)
    requires Agrees(s, t, home, leaked)
    requires multiset(cs) == multiset(ds)
    requires Versioned(cs) && DistinctVersions(cs)
    requires forall c :: c in cs ==> c.vnode == home(c.key)
    ensures Same(RunState(s, Writing(cs)), RunState(s, Writing(ds)))
  {
    forall i | 0 <= i < |ds| ensures ds[i] in cs { assert ds[i] in multiset(cs); }
    Converges(t, cs, ds);
    RunTableOfWrites(t, home, cs);
    RunTableOfWrites(t, home, ds);
    RunAgrees(s, t, home, leaked, Writing(cs));
    RunAgrees(s, t, home, leaked, Writing(ds));
    AgreementDetermines(RunState(s, Writing(cs)), RunState(s, Writing(ds)), ApplyAll(t, cs), home, leaked);
  }

  lemma {:induction false} RunStateConcat(s: State, a: seq<Event>, b: seq<Event>)
    ensures RunState(s, a + b) == RunState(RunState(s, a), b)
  {
    if b == [] {
      assert a + b == a;
    } else {
      RunStateConcat(s, a, b[..|b| - 1]);
      assert (a + b)[..|a + b| - 1] == a + b[..|b| - 1];
    }
  }

  // Replaying a versioned log on the store it built changes no value, metadata,
  // counter or index set.
  lemma {:induction false} StoreReplayIsIdempotent(s: State, t: Table, home: Blob -> U16, leaked: int, cs: seq<Cmd>)
    requires Agrees(s, t, home, leaked) && Versioned(cs)
    requires forall c :: c in cs ==> c.vnode == home(c.key)
    ensures Same(RunState(RunState(s, Writing(cs)), Writing(cs)), RunState(s, Writing(cs)))
  {
    var u := ApplyAll(t, cs);
    RunTableOfWrites(t, home, cs);
    RunTableOfWrites(u, home, cs);
    RunAgrees(s, t, home, leaked, Writing(cs));
    RunAgrees(RunState(s, Writing(cs)), u, home, leaked, Writing(cs));
    ReplayIsIdempotent(t, cs);
    AgreementDetermines(RunState(RunState(s, Writing(cs)), Writing(cs)), RunState(s, Writing(cs)), u, home, leaked);
  }

  // ---------- The store object ----------

  datatype Entry = Entry(key: Blob, value: Blob, version: U64, tombstone: bool)

  // What SnapshotVNode lists for key k: its value or a delete marker.
  function EntryFor(s: State, k: Blob): Entry {
    if k in s.storage then Entry(k, s.storage[k], CurrentMeta(s, k).version, CurrentMeta(s, k).tombstone)
    else Entry(k, [], CurrentMeta(s, k).version, true)
  }

  function Present(s: State, ks: set<Blob>): set<Blob> {
    set k | k in ks && k in s.storage
  }

  // The keys a snapshot covers: none at all without a live-index entry.
  function SnapshotKeys(s: State, v: U16): set<Blob> {
    if v in s.live then Present(s, s.live[v]) + At(s.tombs, v) else {}
  }

  // No key with a delete marker in the vnode still has a value.
  ghost predicate NoMarkedStored(s: State, v: U16) {
    forall k :: k in At(s.tombs, v) ==> k !in s.storage
  }

  lemma {:induction false} AgreeingMarksNothingStored(s: State, t: Table, home: Blob -> U16, leaked: int, v: U16)
    requires Agrees(s, t, home, leaked)
    ensures NoMarkedStored(s, v)
  {
    assert At(s.tombs, v) == DeadKeys(t, home, v);
  }

  ghost predicate DistinctKeys(es: seq<Entry>) {
    forall i, j :: 0 <= i < j < |es| ==> es[i].key != es[j].key
  }

  ghost predicate Lists(es: seq<Entry>, s: State, ks: set<Blob>) {
    && DistinctKeys(es)
    && (forall i :: 0 <= i < |es| ==> es[i].key in ks && es[i] == EntryFor(s, es[i].key))
    && (forall k :: k in ks ==> exists i :: 0 <= i < |es| && es[i].key == k)
  }

  lemma {:induction false} ListsSnoc(es: seq<Entry>, s: State, ks: set<Blob>, k: Blob)
    requires Lists(es, s, ks) && k !in ks
    ensures Lists(es + [EntryFor(s, k)], s, ks + {k})
  {
    var es' := es + [EntryFor(s, k)];
    forall x | x in ks + {k} ensures exists i :: 0 <= i < |es'| && es'[i].key == x {
      if x == k {
        assert es'[|es|].key == x;
      } else {
        var i :| 0 <= i < |es| && es[i].key == x;
        assert es'[i].key == x;
      }
    }
  }

  method AddKey(idx: Index, v: U16, k: Blob) returns (r: Index, first: bool)
    ensures r == idx[v := At(idx, v) + {k}]
    ensures first <==> At(idx, v) == {}
  {
    r := idx;
    if v !in r {
      r := r[v := {}];
    }
    first := |r[v]| == 0;
    r := r[v := r[v] + {k}];
  }

  method RemoveKey(idx: Index, v: U16, k: Blob) returns (r: Index, emptied: bool)
    ensures r == if k in At(idx, v) then idx[v := At(idx, v) - {k}] else idx
    ensures emptied <==> k in At(idx, v) && At(idx, v) == {k}
  {
    r, emptied := idx, false;
    if v in idx && k in idx[v] {
      var rest := idx[v] - {k};
      assert idx[v] == rest + {k};
      r, emptied := idx[v := rest], |rest| == 0;
    }
  }

  method RemoveAll<V>(m: map<Blob, V>, ks: set<Blob>) returns (r: map<Blob, V>)
    ensures r == m - ks
  {
    r := m;
    var todo := ks;
    while todo != {}
      invariant todo <= ks && r == m - (ks - todo)
      decreases |todo|
    {
      var k :| k in todo;
      todo := todo - {k};
      r := r - {k};
    }
  }

  method ForgetTombstones(m: map<Blob, Meta>, count: int, ts: set<Blob>) returns (r: map<Blob, Meta>, left: int)
    ensures r == m - ts
    ensures left == FloorSub(count, |ts|)
  {
    r, left := m, count;
    var todo := ts;
    while todo != {}
      invariant todo <= ts && r == m - (ts - todo)
      invariant |todo| <= |ts| && left == FloorSub(count, |ts| - |todo|)
      decreases |todo|
    {
      var k :| k in todo;
      todo := todo - {k};
      if left > 0 {
        left := left - 1;
      }
      r := r - {k};
    }
  }

  method ListLive(storage: map<Blob, Blob>, meta: map<Blob, Meta>, ks: set<Blob>, ghost s: State)
    returns (entries: seq<Entry>)
    requires s.storage == storage && s.meta == meta
    ensures Lists(entries, s, Present(s, ks))
  {
    entries := [];
    var todo := ks;
    while todo != {}
      invariant todo <= ks
      invariant Lists(entries, s, Present(s, ks - todo))
      decreases |todo|
    {
      var k :| k in todo;
      ghost var done := Present(s, ks - todo);
      todo := todo - {k};
      if k in storage {
        ListsSnoc(entries, s, done, k);
        var m := if k in meta then meta[k] else Meta(0, false);
        entries := entries + [Entry(k, storage[k], m.version, m.tombstone)];
        assert Present(s, ks - todo) == done + {k};
      } else {
        assert Present(s, ks - todo) == done;
      }
    }
    assert ks - todo == ks;
  }

  function MarkerFor(s: State, k: Blob): Entry {
    Entry(k, [], CurrentMeta(s, k).version, true)
  }

  // Delete markers for the keys of ks, each once.
  ghost predicate ListsMarkers(es: seq<Entry>, s: State, ks: set<Blob>) {
    && DistinctKeys(es)
    && (forall i :: 0 <= i < |es| ==> es[i].key in ks && es[i] == MarkerFor(s, es[i].key))
    && (forall k :: k in ks ==> exists i :: 0 <= i < |es| && es[i].key == k)
  }

  lemma {:induction false} MarkersSnoc(es: seq<Entry>, s: State, ks: set<Blob>, k: Blob)
    requires ListsMarkers(es, s, ks) && k !in ks
    ensures ListsMarkers(es + [MarkerFor(s, k)], s, ks + {k})
  {
    var es' := es + [MarkerFor(s, k)];
    forall x | x in ks + {k} ensures exists i :: 0 <= i < |es'| && es'[i].key == x {
      if x == k {
        assert es'[|es|].key == x;
      } else {
        var i :| 0 <= i < |es| && es[i].key == x;
        assert es'[i].key == x;
      }
    }
  }

  method ListTombstones(meta: map<Blob, Meta>, ks: set<Blob>, ghost s: State) returns (entries: seq<Entry>)
    requires s.meta == meta
    ensures ListsMarkers(entries, s, ks)
  {
    entries := [];
    var todo := ks;
    while todo != {}
      invariant todo <= ks
      invariant ListsMarkers(entries, s, ks - todo)
      decreases |todo|
    {
      var k :| k in todo;
      ghost var before := ks - todo;
      todo := todo - {k};
      MarkersSnoc(entries, s, before, k);
      var m := if k in meta then meta[k] else Meta(0, false);
      entries := entries + [Entry(k, [], m.version, true)];
      assert ks - todo == before + {k};
    }
    assert ks - todo == ks;
  }

  // Unless a marked key is still stored, values and markers list each key once.
  lemma {:induction false} ValuesAndMarkers(lives: seq<Entry>, deads: seq<Entry>, s: State, ks: set<Blob>, ts: set<Blob>)
    requires Lists(lives, s, ks) && ListsMarkers(deads, s, ts)
    requires forall k :: k in ts ==> k !in ks && k !in s.storage
    ensures Lists(lives + deads, s, ks + ts)
  {
    var es := lives + deads;
    forall i | 0 <= i < |es| ensures es[i].key in ks + ts && es[i] == EntryFor(s, es[i].key) {
      if i >= |lives| {
        assert es[i] == deads[i - |lives|];
      }
    }
    forall k | k in ks + ts ensures exists i :: 0 <= i < |es| && es[i].key == k {
      if k in ks {
        var i :| 0 <= i < |lives| && lives[i].key == k;
        assert es[i].key == k;
      } else {
        var i :| 0 <= i < |deads| && deads[i].key == k;
        assert es[|lives| + i].key == k;
      }
    }
  }

  class Store {
    var storage: map<Blob, Blob>
    var vNodeIdx: Index
    var tombstoneIdx: Index
    var meta: map<Blob, Meta>
    var tombstoneCount: int
    var valueBytes: int
    var vnodesWithData: int
    var vnodesWithTombstones: int

    ghost function View(): State
      reads this
    {
      State(storage, vNodeIdx, tombstoneIdx, meta, tombstoneCount, valueBytes, vnodesWithData, vnodesWithTombstones)
    }

    constructor ()
      ensures View() == EMPTY
    {
      storage, vNodeIdx, tombstoneIdx, meta := map[], map[], map[], map[];
      tombstoneCount, valueBytes, vnodesWithData, vnodesWithTombstones := 0, 0, 0, 0;
    }

    method Apply(c: Cmd) returns (verdict: Verdict)
      modifies this
      ensures (View(), verdict) == Step(old(View()), c)
    {
      var curMeta := if c.key in meta then meta[c.key] else Meta(0, false);
      var version := c.version;
      if version == 0 {
        version := (curMeta.version + 1) % 0x1_0000_0000_0000_0000;
      } else if version < curMeta.version {
        return Ignored;
      }
      if c.op == OP_PUT {
        ApplyPut(c, curMeta, version);
        return Applied;
      } else if c.op == OP_DELETE {
        ApplyDelete(c, curMeta, version);
        return Applied;
      }
      return Rejected;
    }

    method ApplyPut(c: Cmd, curMeta: Meta, version: U64)
      requires curMeta == CurrentMeta(View(), c.key)
      modifies this
      ensures View() == PutStep(old(View()), c, version)
    {
      ReplaceValue(c.key, Some(c.value));
      AddLive(c.vnode, c.key);
      RemoveTombstone(c.vnode, c.key);
      if curMeta.tombstone {
        tombstoneCount := tombstoneCount - 1;
      }
      meta := meta[c.key := Meta(version, false)];
    }

    method ApplyDelete(c: Cmd, curMeta: Meta, version: U64)
      requires curMeta == CurrentMeta(View(), c.key)
      modifies this
      ensures View() == DeleteStep(old(View()), c, version)
    {
      ReplaceValue(c.key, None);
      RemoveLive(c.vnode, c.key);
      AddTombstone(c.vnode, c.key);
      if !curMeta.tombstone {
        tombstoneCount := tombstoneCount + 1;
      }
      meta := meta[c.key := Meta(version, true)];
    }

    method AddLive(v: U16, k: Blob)
      modifies `vNodeIdx, `vnodesWithData
      ensures vNodeIdx == old(vNodeIdx)[v := At(old(vNodeIdx), v) + {k}]
      ensures vnodesWithData == old(vnodesWithData) + One(At(old(vNodeIdx), v) == {})
    {
      var first;
      vNodeIdx, first := AddKey(vNodeIdx, v, k);
      if first {
        vnodesWithData := vnodesWithData + 1;
      }
    }

    method RemoveLive(v: U16, k: Blob)
      modifies `vNodeIdx, `vnodesWithData
      ensures vNodeIdx
              == if k in At(old(vNodeIdx), v) then old(vNodeIdx)[v := At(old(vNodeIdx), v) - {k}] else old(vNodeIdx)
      ensures vnodesWithData == old(vnodesWithData)
                                - One(k in At(old(vNodeIdx), v) && At(old(vNodeIdx), v) == {k} && old(vnodesWithData) > 0)
    {
      var emptied;
      vNodeIdx, emptied := RemoveKey(vNodeIdx, v, k);
      if emptied && vnodesWithData > 0 {
        vnodesWithData := vnodesWithData - 1;
      }
    }

    method AddTombstone(v: U16, k: Blob)
      modifies `tombstoneIdx, `vnodesWithTombstones
      ensures tombstoneIdx == old(tombstoneIdx)[v := At(old(tombstoneIdx), v) + {k}]
      ensures vnodesWithTombstones == old(vnodesWithTombstones) + One(At(old(tombstoneIdx), v) == {})
    {
      var first;
      tombstoneIdx, first := AddKey(tombstoneIdx, v, k);
      if first {
        vnodesWithTombstones := vnodesWithTombstones + 1;
      }
    }

    method RemoveTombstone(v: U16, k: Blob)
      modifies `tombstoneIdx, `vnodesWithTombstones
      ensures tombstoneIdx
              == if k in At(old(tombstoneIdx), v) then old(tombstoneIdx)[v := At(old(tombstoneIdx), v) - {k}]
                 else old(tombstoneIdx)
      ensures vnodesWithTombstones
              == old(vnodesWithTombstones)
                 - One(k in At(old(tombstoneIdx), v) && At(old(tombstoneIdx), v) == {k} && old(vnodesWithTombstones) > 0)
    {
      var emptied;
      tombstoneIdx, emptied := RemoveKey(tombstoneIdx, v, k);
      if emptied && vnodesWithTombstones > 0 {
        vnodesWithTombstones := vnodesWithTombstones - 1;
      }
    }

    // Writes or removes a value and keeps the byte counter in step.
    method ReplaceValue(k: Blob, value: Option<Blob>)
      modifies `storage, `valueBytes
      ensures storage == if value.Some? then old(storage)[k := value.value] else old(storage) - {k}
      ensures valueBytes == old(valueBytes) - old(StoredBytes(View(), k))
                            + (if value.Some? then |value.value| else 0)
    {
      if k in storage {
        valueBytes := valueBytes - |storage[k]|;
      }
      if value.Some? {
        storage := storage[k := value.value];
        valueBytes := valueBytes + |value.value|;
      } else {
        storage := storage - {k};
      }
    }

    // Some(value, version) for a live key, ErrKeyNotFound otherwise. A store that
    // agrees with a table answers as the table.
    method GetWithVersion(k: Blob, ghost t: Table, ghost home: Blob -> U16, ghost leaked: int)
      returns (r: Option<(Blob, U64)>)
      ensures Agrees(View(), t, home, leaked) ==> r == Lookup(t, k)
      ensures r.Some? <==> k in storage && !CurrentMeta(View(), k).tombstone
      ensures r.Some? ==> r.value == (storage[k], CurrentMeta(View(), k).version)
    {
      var m := if k in meta then meta[k] else Meta(0, false);
      if k !in storage || m.tombstone {
        return None;
      }
      return Some((storage[k], m.version));
    }

    // The live keys of a vnode, in any order.
    method GetKeysForVNode(v: U16) returns (keys: seq<Blob>)
      ensures forall i, j :: 0 <= i < j < |keys| ==> keys[i] != keys[j]
      ensures forall k :: k in keys <==> k in At(vNodeIdx, v)
    {
      keys := [];
      if v !in vNodeIdx {
        return;
      }
      var todo := vNodeIdx[v];
      while todo != {}
        invariant todo <= vNodeIdx[v]
        invariant forall i, j :: 0 <= i < j < |keys| ==> keys[i] != keys[j]
        invariant forall k :: k in keys <==> k in vNodeIdx[v] - todo
        decreases |todo|
      {
        var k :| k in todo;
        assert k !in keys;
        todo := todo - {k};
        keys := keys + [k];
      }
    }

    // Lists the vnode's live entries and then its delete markers. Unless a marked
    // key is still stored, as only a misfiled command can leave it, each key is
    // listed once.
    method SnapshotVNode(v: U16) returns (entries: seq<Entry>, ghost n: nat)
      ensures v !in vNodeIdx ==> entries == []
      ensures v in vNodeIdx ==>
                && n <= |entries| && Lists(entries[..n], View(), Present(View(), vNodeIdx[v]))
                && ListsMarkers(entries[n..], View(), At(tombstoneIdx, v))
      ensures NoMarkedStored(View(), v) ==> Lists(entries, View(), SnapshotKeys(View(), v))
    {
      entries, n := [], 0;
      if v !in vNodeIdx {
        return;
      }
      var lives := ListLive(storage, meta, vNodeIdx[v], View());
      var ts := if v in tombstoneIdx then tombstoneIdx[v] else {};
      var deads := ListTombstones(meta, ts, View());
      entries, n := lives + deads, |lives|;
      assert entries[..n] == lives && entries[n..] == deads;
      if NoMarkedStored(View(), v) {
        ValuesAndMarkers(lives, deads, View(), Present(View(), vNodeIdx[v]), ts);
      }
    }

    method DeleteVNodeData(v: U16)
      modifies this
      ensures View() == DropStep(old(View()), v)
    {
      var indexSet := if v in vNodeIdx then vNodeIdx[v] else {};
      var tsSet := if v in tombstoneIdx then tombstoneIdx[v] else {};
      if |indexSet| == 0 && |tsSet| == 0 {
        return;
      }
      storage := RemoveAll(storage, indexSet);
      meta := RemoveAll(meta, indexSet);
      meta, tombstoneCount := ForgetTombstones(meta, tombstoneCount, tsSet);
      if |indexSet| > 0 && vnodesWithData > 0 {
        vnodesWithData := vnodesWithData - 1;
      }
      if |tsSet| > 0 && vnodesWithTombstones > 0 {
        vnodesWithTombstones := vnodesWithTombstones - 1;
      }
      vNodeIdx := vNodeIdx - {v};
      tombstoneIdx := tombstoneIdx - {v};
    }
  }
}
