// core/wal.go: the record format of the write-ahead log and its decoder.
//
//   op (1) | vnode (2, big-endian) | version (8, big-endian)
//          | key length (uvarint) | key | value length (uvarint) | value
//
// Lengths use the base-128 varint of the Protocol Buffers encoding
// specification, section "Base 128 Varints", as encoding/binary reads it.
module WalCodec {
  import opened Commands

  // ---------- Encoding ----------

  function BigEndian(x: nat, n: nat): (bs: seq<Byte>)
    ensures |bs| == n
  {
    if n == 0 then [] else BigEndian(x / 0x100, n - 1) + [x % 0x100]
  }

  function Uvarint(x: nat): (bs: seq<Byte>)
    ensures |bs| > 0
  {
    if x < 0x80 then [x] else [x % 0x80 + 0x80] + Uvarint(x / 0x80)
  }

  function Head(c: Command): (bs: seq<Byte>)
    ensures |bs| == 11
  {
    [c.op] + BigEndian(c.vnode, 2) + BigEndian(c.version, 8)
  }

  function Sized(bs: Blob): seq<Byte> {
    Uvarint(|bs|) + bs
  }

  function Encode(c: Command): seq<Byte> {
    Head(c) + Sized(c.key) + Sized(c.value)
  }

  function EncodeAll(cs: seq<Command>): seq<Byte> {
    if cs == [] then [] else Encode(cs[0]) + EncodeAll(cs[1..])
  }

  // ---------- Decoding ----------

  // Short: the input ended inside the item. Malformed: the reader rejects the
  // bytes themselves (varint overflow, or a length no slice can have).
  datatype Read<+T> = Got(value: T, rest: seq<Byte>) | Short | Malformed {
    predicate IsFailure() { !Got? }
    function PropagateFailure<U>(): Read<U>
      requires IsFailure()
    {
      if Short? then Short else Malformed
    }
    function Extract(): (T, seq<Byte>)
      requires Got?
    {
      (value, rest)
    }
  }

  function Take(bs: seq<Byte>, n: nat): (r: Read<seq<Byte>>) {
    if n >= 0x8000_0000_0000_0000 then Malformed
    else if |bs| < n then Short
    else Got(bs[..n], bs[n..])
  }

  function FromBigEndian(bs: seq<Byte>): nat {
    if bs == [] then 0 else FromBigEndian(bs[..|bs| - 1]) * 0x100 + bs[|bs| - 1]
  }

  // binary.ReadUvarint: at most ten bytes, the tenth at most 1. i counts the
  // bytes already read.
  function ReadUvarint(bs: seq<Byte>, i: nat): (r: Read<nat>)
    requires i <= 10
    ensures r.Got? ==> |r.rest| < |bs|
    decreases 10 - i
  {
    if i == 10 then Malformed
    else if bs == [] then Short
    else if bs[0] < 0x80 then
      if i == 9 && bs[0] > 1 then Malformed else Got(bs[0], bs[1..])
    else
      var (high, rest) :- ReadUvarint(bs[1..], i + 1);
      Got(bs[0] - 0x80 + 0x80 * high, rest)
  }

  function ReadSized(bs: seq<Byte>): (r: Read<seq<Byte>>)
    ensures r.Got? ==> |r.rest| < |bs| && |r.value| < 0x8000_0000_0000_0000
  {
    var (n, rest) :- ReadUvarint(bs, 0);
    Take(rest, n)
  }

  function ReadRecord(bs: seq<Byte>): (r: Read<Command>)
    ensures r.Got? ==> |r.rest| < |bs|
  {
    var (op, r1) :- Take(bs, 1);
    var (vnode, r2) :- Take(r1, 2);
    var (version, r3) :- Take(r2, 8);
    var (key, r4) :- ReadSized(r3);
    var (value, r5) :- ReadSized(r4);
    FromBigEndianBound(vnode);
    FromBigEndianBound(version);
    assert Pow(2) == 0x1_0000 && Pow(8) == 0x1_0000_0000_0000_0000 by { PowValues(); }
    Got(Cmd(op[0], key, value, FromBigEndian(vnode), FromBigEndian(version)), r5)
  }

  // The commands a log holds, and whether reading ended at a record boundary.
  datatype Parsed = Parsed(cmds: seq<Command>, clean: bool)

  function DecodeAll(bs: seq<Byte>): Parsed
    decreases |bs|
  {
    if bs == [] then Parsed([], true) else
      match ReadRecord(bs)
      case Got(c, rest) =>
        var tail := DecodeAll(rest);
        Parsed([c] + tail.cmds, tail.clean)
      case _ => Parsed([], false)
  }

  // ---------- Fixed-width integers ----------

  function Pow(n: nat): nat {
    if n == 0 then 1 else 0x100 * Pow(n - 1)
  }

  lemma {:induction false} PowValues()
    ensures Pow(2) == 0x1_0000 && Pow(8) == 0x1_0000_0000_0000_0000
  {
    assert Pow(4) == 0x1_0000_0000;
    assert Pow(6) == 0x1_0000_0000_0000;
  }

  lemma {:induction false} FromBigEndianBound(bs: seq<Byte>)
    ensures FromBigEndian(bs) < Pow(|bs|)
  {
    if bs != [] { FromBigEndianBound(bs[..|bs| - 1]); }
  }

  lemma {:induction false} BigEndianRoundTrip(x: nat, n: nat)
    requires x < Pow(n)
    ensures FromBigEndian(BigEndian(x, n)) == x
  {
    if n != 0 {
      BigEndianRoundTrip(x / 0x100, n - 1);
      var bs := BigEndian(x, n);
      assert bs[..n - 1] == BigEndian(x / 0x100, n - 1);
    }
  }

  // ---------- Varints ----------

  // Values that still fit 64 bits when i varint bytes precede them.
  function Room(i: nat): nat
    requires i <= 9
    decreases 9 - i
  {
    if i == 9 then 2 else 0x80 * Room(i + 1)
  }

  lemma {:induction false} RoomAtStart()
    ensures Room(0) == 0x1_0000_0000_0000_0000
  {
    assert Room(7) == 0x8000;
    assert Room(5) == 0x2000_0000;
    assert Room(3) == 0x800_0000_0000;
    assert Room(1) == 0x200_0000_0000_0000;
  }

  lemma {:induction false} UvarintRoundTrip(x: nat, i: nat, rest: seq<Byte>)
    requires i <= 9 && x < Room(i)
    ensures ReadUvarint(Uvarint(x) + rest, i) == Got(x, rest)
    decreases x
  {
    var bs := Uvarint(x) + rest;
    if x < 0x80 {
      assert bs[1..] == rest;
    } else {
      UvarintRoundTrip(x / 0x80, i + 1, rest);
      assert bs[1..] == Uvarint(x / 0x80) + rest;
    }
  }

  lemma {:induction false} UvarintTorn(x: nat, i: nat, n: nat)
    requires i <= 9 && x < Room(i) && n < |Uvarint(x)|
    ensures ReadUvarint(Uvarint(x)[..n], i) == Short
    decreases x
  {
    if n > 0 {
      UvarintTorn(x / 0x80, i + 1, n - 1);
      assert Uvarint(x)[..n][1..] == Uvarint(x / 0x80)[..n - 1];
    }
  }

  lemma {:induction false} UvarintLength(x: nat, i: nat)
    requires i <= 9 && x < Room(i)
    ensures |Uvarint(x)| <= 10 - i
    decreases x
  {
    if x >= 0x80 { UvarintLength(x / 0x80, i + 1); }
  }

  // ---------- Records ----------

  lemma {:induction false} SizedRoundTrip(bs: Blob, rest: seq<Byte>)
    requires |bs| < 0x8000_0000_0000_0000
    ensures ReadSized(Sized(bs) + rest) == Got(bs, rest)
  {
    RoomAtStart();
    UvarintRoundTrip(|bs|, 0, bs + rest);
    assert Sized(bs) + rest == Uvarint(|bs|) + (bs + rest);
    assert (bs + rest)[..|bs|] == bs && (bs + rest)[|bs|..] == rest;
  }

  lemma {:induction false} SizedTorn(bs: Blob, n: nat)
    requires |bs| < 0x8000_0000_0000_0000 && n < |Sized(bs)|
    ensures ReadSized(Sized(bs)[..n]) == Short
  {
    RoomAtStart();
    var len := Uvarint(|bs|);
    if n < |len| {
      UvarintTorn(|bs|, 0, n);
      assert Sized(bs)[..n] == len[..n];
    } else {
      UvarintRoundTrip(|bs|, 0, bs[..n - |len|]);
      assert Sized(bs)[..n] == len + bs[..n - |len|];
    }
  }

  function ReadBody(c: Command, body: seq<Byte>): Read<Command> {
    var (key, r1) :- ReadSized(body);
    var (value, r2) :- ReadSized(r1);
    Got(Cmd(c.op, key, value, c.vnode, c.version), r2)
  }

  lemma {:induction false} ReadAfterHead(c: Command, body: seq<Byte>)
    ensures ReadRecord(Head(c) + body) == ReadBody(c, body)
  {
    var bs := Head(c) + body;
    var vnode, version := BigEndian(c.vnode, 2), BigEndian(c.version, 8);
    assert bs[..1] == [c.op];
    assert bs[1..] == vnode + (version + body);
    assert bs[1..][..2] == vnode && bs[1..][2..] == version + body;
    assert (version + body)[..8] == version && (version + body)[8..] == body;
    PowValues();
    BigEndianRoundTrip(c.vnode, 2);
    BigEndianRoundTrip(c.version, 8);
  }

  lemma {:induction false} RecordRoundTrip(c: Command, rest: seq<Byte>)
    ensures ReadRecord(Encode(c) + rest) == Got(c, rest)
  {
    assert Encode(c) + rest == Head(c) + (Sized(c.key) + (Sized(c.value) + rest));
    ReadAfterHead(c, Sized(c.key) + (Sized(c.value) + rest));
    SizedRoundTrip(c.key, Sized(c.value) + rest);
    SizedRoundTrip(c.value, rest);
  }

  // A record cut anywhere inside is recognised as short.
  lemma {:induction false} RecordTorn(c: Command, n: nat)
    requires n < |Encode(c)|
    ensures ReadRecord(Encode(c)[..n]) == Short
  {
    var cut := Encode(c)[..n];
    var body := Sized(c.key) + Sized(c.value);
    assert Encode(c) == Head(c) + body;
    if n >= 11 {
      var m := n - 11;
      assert cut == Head(c) + body[..m];
      ReadAfterHead(c, body[..m]);
      if m < |Sized(c.key)| {
        SizedTorn(c.key, m);
        assert body[..m] == Sized(c.key)[..m];
      } else {
        var m' := m - |Sized(c.key)|;
        SizedRoundTrip(c.key, Sized(c.value)[..m']);
        SizedTorn(c.value, m');
        assert body[..m] == Sized(c.key) + Sized(c.value)[..m'];
      }
    }
  }

  // ---------- Logs ----------

  lemma {:induction false} Assoc(x: seq<Byte>, y: seq<Byte>, z: seq<Byte>)
    ensures (x + y) + z == x + (y + z)
  {}

  lemma {:induction false} EncodeAllConcat(a: seq<Command>, b: seq<Command>)
    ensures EncodeAll(a + b) == EncodeAll(a) + EncodeAll(b)
  {
    if a == [] {
      assert a + b == b;
    } else {
      EncodeAllConcat(a[1..], b);
      assert (a + b)[0] == a[0] && (a + b)[1..] == a[1..] + b;
      Assoc(Encode(a[0]), EncodeAll(a[1..]), EncodeAll(b));
    }
  }

  lemma {:induction false} EncodeAllPrefix(cs: seq<Command>, j: nat)
    requires j <= |cs|
    ensures EncodeAll(cs) == EncodeAll(cs[..j]) + EncodeAll(cs[j..])
  {
    assert cs == cs[..j] + cs[j..];
    EncodeAllConcat(cs[..j], cs[j..]);
  }

  // Number of records of cs that lie completely inside the first n bytes.
  function Complete(cs: seq<Command>, n: nat): (j: nat)
    ensures j <= |cs|
  {
    if cs == [] || n < |Encode(cs[0])| then 0 else 1 + Complete(cs[1..], n - |Encode(cs[0])|)
  }

  // j is the number of complete records: the j-th boundary is at most n and
  // the next one, if any, lies beyond n.
  lemma {:induction false} CompleteIsMaximal(cs: seq<Command>, n: nat)
    ensures var j := Complete(cs, n);
            && |EncodeAll(cs[..j])| <= n
            && (j < |cs| ==> n < |EncodeAll(cs[..j + 1])|)
  {
    if cs != [] && n >= |Encode(cs[0])| {
      var j := Complete(cs[1..], n - |Encode(cs[0])|);
      CompleteIsMaximal(cs[1..], n - |Encode(cs[0])|);
      assert cs[..j + 1][1..] == cs[1..][..j];
      if j + 1 < |cs| { assert cs[..j + 2][1..] == cs[1..][..j + 1]; }
    } else if cs != [] {
      assert cs[..1] == [cs[0]];
      assert EncodeAll([cs[0]]) == Encode(cs[0]) + EncodeAll([]);
    }
  }

  lemma {:induction false} DecodeCons(c: Command, rest: seq<Byte>)
    ensures DecodeAll(Encode(c) + rest) == Parsed([c] + DecodeAll(rest).cmds, DecodeAll(rest).clean)
  {
    RecordRoundTrip(c, rest);
  }

  lemma {:induction false} DecodeTorn(c: Command, n: nat)
    requires 0 < n < |Encode(c)|
    ensures DecodeAll(Encode(c)[..n]) == Parsed([], false)
  {
    RecordTorn(c, n);
  }

  lemma {:induction false} CutInside(x: seq<Byte>, y: seq<Byte>, n: nat)
    requires n <= |x + y|
    ensures (x + y)[..n] == if n < |x| then x[..n] else x + y[..n - |x|]
  {}

  // Reading any byte prefix of a log yields exactly the records that lie
  // completely inside it, and ends cleanly exactly at a record boundary.
  lemma {:induction false} TornLog(cs: seq<Command>, n: nat)
    requires n <= |EncodeAll(cs)|
    ensures var j := Complete(cs, n);
            DecodeAll(EncodeAll(cs)[..n]) == Parsed(cs[..j], n == |EncodeAll(cs[..j])|)
  {
    if n == 0 {
      assert EncodeAll(cs)[..n] == [] && Complete(cs, 0) == 0;
    } else {
      var first, tail := Encode(cs[0]), EncodeAll(cs[1..]);
      CutInside(first, tail, n);
      if n < |first| {
        DecodeTorn(cs[0], n);
      } else {
        var m := n - |first|;
        TornLog(cs[1..], m);
        DecodeCons(cs[0], tail[..m]);
        PrefixCons(cs, Complete(cs[1..], m));
      }
    }
  }

  lemma {:induction false} PrefixCons(cs: seq<Command>, j: nat)
    requires j < |cs|
    ensures cs[..j + 1] == [cs[0]] + cs[1..][..j]
    ensures EncodeAll(cs[..j + 1]) == Encode(cs[0]) + EncodeAll(cs[1..][..j])
  {
    assert cs[..j + 1][1..] == cs[1..][..j];
  }

  lemma {:induction false} PrefixShorter(cs: seq<Command>, i: nat, m: nat)
    requires i <= m <= |cs|
    ensures |EncodeAll(cs[..i])| <= |EncodeAll(cs[..m])|
  {
    EncodeAllPrefix(cs[..m], i);
    assert cs[..m][..i] == cs[..i];
  }

  // Records whose bytes all lie inside the cut are read back.
  lemma {:induction false} CompleteCovers(cs: seq<Command>, n: nat, m: nat)
    requires m <= |cs| && |EncodeAll(cs[..m])| <= n <= |EncodeAll(cs)|
    ensures m <= Complete(cs, n)
  {
    var j := Complete(cs, n);
    CompleteIsMaximal(cs, n);
    if j < m { PrefixShorter(cs, j + 1, m); }
  }

  // Reading any prefix of a log's bytes yields a prefix of its commands that
  // includes each record whose bytes are all there.
  lemma {:induction false} ReadsBack(cs: seq<Command>, image: seq<Byte>, m: nat)
    requires image <= EncodeAll(cs)
    requires m <= |cs| && |EncodeAll(cs[..m])| <= |image|
    ensures DecodeAll(image).cmds <= cs
    ensures m <= |DecodeAll(image).cmds|
  {
    TornLog(cs, |image|);
    CompleteCovers(cs, |image|, m);
    assert image == EncodeAll(cs)[..|image|];
  }

  lemma {:induction false} LogRoundTrip(cs: seq<Command>)
    ensures DecodeAll(EncodeAll(cs)) == Parsed(cs, true)
  {
    if cs != [] {
      LogRoundTrip(cs[1..]);
      DecodeCons(cs[0], EncodeAll(cs[1..]));
    }
  }

  // The format is unambiguous: one log's bytes start another's exactly when the
  // one log starts the other.
  lemma {:induction false} BytesPrefixIffCommandsPrefix(a: seq<Command>, b: seq<Command>)
    ensures EncodeAll(a) <= EncodeAll(b) <==> a <= b
  {
    if a <= b {
      assert b[..|a|] == a;
      EncodeAllPrefix(b, |a|);
    }
    if EncodeAll(a) <= EncodeAll(b) {
      var n := |EncodeAll(a)|;
      assert EncodeAll(b)[..n] == EncodeAll(a);
      TornLog(b, n);
      LogRoundTrip(a);
    }
  }
}
