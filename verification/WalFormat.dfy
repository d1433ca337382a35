// core/wal.go: the bytes of a log record, position by position, and that writer
// and reader both go by them.
module WalFormat {
  import opened Commands
  import opened WalCodec

  // ---------- Integers ----------

  function Two(bs: seq<Byte>): U16
    requires |bs| == 2
  {
    bs[0] as int * 0x100 + bs[1]
  }

  function Eight(bs: seq<Byte>): U64
    requires |bs| == 8
  {
    bs[0] as int * 0x100_0000_0000_0000 + bs[1] as int * 0x1_0000_0000_0000
    + bs[2] as int * 0x100_0000_0000 + bs[3] as int * 0x1_0000_0000
    + bs[4] as int * 0x100_0000 + bs[5] as int * 0x1_0000 + bs[6] as int * 0x100 + bs[7]
  }

  lemma {:induction false} TwoIsBigEndian(bs: seq<Byte>)
    requires |bs| == 2
    ensures FromBigEndian(bs) == Two(bs)
  {
    assert FromBigEndian(bs[..1]) == bs[0];
  }

  lemma {:induction false} FourIsBigEndian(bs: seq<Byte>)
    requires |bs| == 4
    ensures FromBigEndian(bs) == bs[0] as int * 0x100_0000 + bs[1] as int * 0x1_0000 + bs[2] as int * 0x100 + bs[3]
  {
    TwoIsBigEndian(bs[..2]);
    assert bs[..3][..2] == bs[..2];
    assert FromBigEndian(bs[..3]) == FromBigEndian(bs[..2]) * 0x100 + bs[2];
  }

  lemma {:induction false} EightIsBigEndian(bs: seq<Byte>)
    requires |bs| == 8
    ensures FromBigEndian(bs) == Eight(bs)
  {
    FourIsBigEndian(bs[..4]);
    assert bs[..5][..4] == bs[..4] && bs[..6][..5] == bs[..5] && bs[..7][..6] == bs[..6];
    assert FromBigEndian(bs[..5]) == FromBigEndian(bs[..4]) * 0x100 + bs[4];
    assert FromBigEndian(bs[..6]) == FromBigEndian(bs[..5]) * 0x100 + bs[5];
    assert FromBigEndian(bs[..7]) == FromBigEndian(bs[..6]) * 0x100 + bs[6];
  }

  // ---------- Varints ----------

  // The low seven bits of a byte, as the digit for 128 to the n.
  function Digit(b: Byte, n: nat): nat {
    if n == 0 then b % 0x80 else 0x80 * Digit(b, n - 1)
  }

  // The digits of all bytes together, the least significant first.
  function Digits(bs: seq<Byte>): nat {
    if bs == [] then 0 else
      var n := |bs| - 1;
      Digits(bs[..n]) + Digit(bs[n], n)
  }

  // A varint of x: all bytes but the last have the high bit set. It has at most
  // `room` bytes, and a last one at that limit carries one bit.
  ghost predicate IsVarint(bs: seq<Byte>, x: nat, room: nat) {
    && 0 < |bs| <= room
    && (forall i :: 0 <= i < |bs| - 1 ==> bs[i] >= 0x80) && bs[|bs| - 1] < 0x80
    && (|bs| == room ==> bs[|bs| - 1] <= 1)
    && x == Digits(bs)
  }

  // No shorter varint has the same value.
  predicate Shortest(bs: seq<Byte>) {
    |bs| > 1 ==> bs[|bs| - 1] > 0
  }

  lemma {:induction false} DigitsCons(b: Byte, bs: seq<Byte>)
    ensures Digits([b] + bs) == b % 0x80 + 0x80 * Digits(bs)
  {
    if bs == [] {
      assert [b] + bs == [b] && [b][..0] == [];
      assert Digits([b]) == Digits([]) + Digit(b, 0);
    } else {
      var n := |bs| - 1;
      DigitsCons(b, bs[..n]);
      assert ([b] + bs)[..n + 1] == [b] + bs[..n];
    }
  }

  lemma {:induction false} VarintCons(b: Byte, bs: seq<Byte>, x: nat, room: nat)
    requires b >= 0x80 && bs != []
    ensures IsVarint([b] + bs, b - 0x80 + 0x80 * x, room + 1) <==> IsVarint(bs, x, room)
  {
    DigitsCons(b, bs);
    var all := [b] + bs;
    assert all[|all| - 1] == bs[|bs| - 1];
    if IsVarint(all, b - 0x80 + 0x80 * x, room + 1) {
      forall i | 0 <= i < |bs| - 1 ensures bs[i] >= 0x80 { assert all[i + 1] == bs[i]; }
    }
  }

  lemma {:induction false} VarintOne(b: Byte, room: nat)
    requires b < 0x80 && room > 0
    ensures IsVarint([b], b, room) <==> (room == 1 ==> b <= 1)
  {
    DigitsCons(b, []);
    assert [b] + [] == [b];
  }

  // The reader accepts exactly the varints, and gives their value.
  lemma {:induction false} ReadsVarint(v: seq<Byte>, x: nat, i: nat, rest: seq<Byte>)
    requires i <= 10 && IsVarint(v, x, 10 - i)
    ensures ReadUvarint(v + rest, i) == Got(x, rest)
    decreases |v|
  {
    if |v| == 1 {
      ReadsLast(v, x, i, rest);
    } else {
      var high := VarintTail(v, x, 10 - i);
      ReadsVarint(v[1..], high, i + 1, rest);
      ReadsOneMore(v, i, high, rest);
    }
  }

  lemma {:induction false} VarintTail(v: seq<Byte>, x: nat, room: nat) returns (high: nat)
    requires IsVarint(v, x, room) && |v| > 1
    ensures v[0] >= 0x80 && x == v[0] - 0x80 + 0x80 * high && IsVarint(v[1..], high, room - 1)
  {
    high := Digits(v[1..]);
    assert v == [v[0]] + v[1..];
    DigitsCons(v[0], v[1..]);
    VarintCons(v[0], v[1..], high, room - 1);
  }

  lemma {:induction false} ReadsLast(v: seq<Byte>, x: nat, i: nat, rest: seq<Byte>)
    requires i <= 10 && IsVarint(v, x, 10 - i) && |v| == 1
    ensures ReadUvarint(v + rest, i) == Got(x, rest)
  {
    VarintOne(v[0], 10 - i);
    assert v == [v[0]] && (v + rest)[1..] == rest;
  }

  lemma {:induction false} ReadsOneMore(v: seq<Byte>, i: nat, high: nat, rest: seq<Byte>)
    requires i < 10 && |v| > 1 && v[0] >= 0x80 && ReadUvarint(v[1..] + rest, i + 1) == Got(high, rest)
    ensures ReadUvarint(v + rest, i) == Got(v[0] - 0x80 + 0x80 * high, rest)
  {
    assert (v + rest)[1..] == v[1..] + rest;
  }

  lemma {:induction false} ReadIsVarint(bs: seq<Byte>, i: nat, x: nat, rest: seq<Byte>) returns (v: seq<Byte>)
    requires i <= 10 && ReadUvarint(bs, i) == Got(x, rest)
    ensures bs == v + rest && IsVarint(v, x, 10 - i)
    decreases 10 - i
  {
    if bs[0] < 0x80 {
      VarintOne(bs[0], 10 - i);
      v := [bs[0]];
    } else {
      var high := ReadUvarint(bs[1..], i + 1).value;
      var tail := ReadIsVarint(bs[1..], i + 1, high, rest);
      VarintCons(bs[0], tail, high, 9 - i);
      v := [bs[0]] + tail;
      assert bs == [bs[0]] + bs[1..];
    }
  }

  // The writer makes the shortest varint.
  lemma {:induction false} UvarintIsVarint(x: nat, i: nat)
    requires i <= 9 && x < Room(i)
    ensures IsVarint(Uvarint(x), x, 10 - i) && Shortest(Uvarint(x)) && (x > 0 ==> Uvarint(x)[|Uvarint(x)| - 1] > 0)
    decreases x
  {
    if x < 0x80 {
      VarintOne(x, 10 - i);
    } else {
      UvarintIsVarint(x / 0x80, i + 1);
      VarintCons(x % 0x80 + 0x80, Uvarint(x / 0x80), x / 0x80, 9 - i);
    }
  }

  // ---------- Records ----------

  // The first eleven bytes: op, then vnode and version, most significant byte
  // first.
  ghost predicate IsHead(bs: seq<Byte>, c: Command) {
    |bs| == 11 && bs[0] == c.op && Two(bs[1..3]) == c.vnode && Eight(bs[3..11]) == c.version
  }

  // A record of c: head, length of the key, key, length of the value, value.
  ghost predicate RecordOf(bs: seq<Byte>, c: Command, head: seq<Byte>, kl: seq<Byte>, vl: seq<Byte>) {
    && bs == head + (kl + c.key) + (vl + c.value)
    && IsHead(head, c) && IsVarint(kl, |c.key|, 10) && IsVarint(vl, |c.value|, 10)
  }

  ghost predicate IsRecord(bs: seq<Byte>, c: Command) {
    exists head, kl, vl :: RecordOf(bs, c, head, kl, vl)
  }

  lemma {:induction false} ReadsSized(len: seq<Byte>, x: seq<Byte>, rest: seq<Byte>)
    requires IsVarint(len, |x|, 10) && |x| < 0x8000_0000_0000_0000
    ensures ReadSized(len + x + rest) == Got(x, rest)
  {
    ReadsVarint(len, |x|, 0, x + rest);
    assert len + x + rest == len + (x + rest);
    assert (x + rest)[..|x|] == x && (x + rest)[|x|..] == rest;
  }

  lemma {:induction false} SplitSized(bs: seq<Byte>, x: seq<Byte>, rest: seq<Byte>)
    requires ReadSized(bs) == Got(x, rest)
    ensures ReadUvarint(bs, 0) == Got(|x|, x + rest)
  {
    var Got(n, r1) := ReadUvarint(bs, 0);
    assert r1 == r1[..n] + r1[n..];
  }

  lemma {:induction false} ReadIsSized(bs: seq<Byte>, x: seq<Byte>, rest: seq<Byte>) returns (len: seq<Byte>)
    requires ReadSized(bs) == Got(x, rest)
    ensures bs == len + x + rest && IsVarint(len, |x|, 10)
  {
    SplitSized(bs, x, rest);
    len := ReadIsVarint(bs, 0, |x|, x + rest);
    assert len + (x + rest) == len + x + rest;
  }

  lemma {:induction false} JoinBody(c: Command, body: seq<Byte>, key: seq<Byte>, mid: seq<Byte>, value: seq<Byte>, rest: seq<Byte>)
    requires |key| < 0x8000_0000_0000_0000 && |value| < 0x8000_0000_0000_0000
    requires ReadSized(body) == Got(key, mid) && ReadSized(mid) == Got(value, rest)
    ensures ReadBody(c, body) == Got(Cmd(c.op, key, value, c.vnode, c.version), rest)
  {}

  lemma {:induction false} SplitBody(c: Command, body: seq<Byte>, d: Command, rest: seq<Byte>) returns (mid: seq<Byte>)
    requires ReadBody(c, body) == Got(d, rest)
    ensures (d.op, d.vnode, d.version) == (c.op, c.vnode, c.version)
    ensures ReadSized(body) == Got(d.key, mid) && ReadSized(mid) == Got(d.value, rest)
  {
    mid := ReadSized(body).rest;
  }

  // What the reader makes of the head.
  lemma {:induction false} ReadsHead(head: seq<Byte>, body: seq<Byte>)
    requires |head| == 11
    ensures ReadRecord(head + body) == ReadBody(Cmd(head[0], [], [], Two(head[1..3]), Eight(head[3..11])), body)
  {
    var bs := head + body;
    assert bs[..1] == [head[0]];
    assert bs[1..][..2] == head[1..3] && bs[1..][2..] == bs[3..];
    assert bs[3..][..8] == head[3..11] && bs[3..][8..] == body;
    TwoIsBigEndian(head[1..3]);
    EightIsBigEndian(head[3..11]);
  }

  lemma {:induction false} NeedsHead(bs: seq<Byte>)
    requires |bs| < 11
    ensures !ReadRecord(bs).Got?
  {}

  lemma {:induction false} Join(head: seq<Byte>, a: seq<Byte>, b: seq<Byte>, rest: seq<Byte>)
    ensures head + a + b + rest == head + (a + (b + rest))
  {}

  lemma {:induction false} ReadsRecord(bs: seq<Byte>, c: Command, head: seq<Byte>, kl: seq<Byte>, vl: seq<Byte>, rest: seq<Byte>)
    requires RecordOf(bs, c, head, kl, vl)
    ensures ReadRecord(bs + rest) == Got(c, rest)
  {
    var tail := vl + c.value + rest;
    Join(head, kl + c.key, vl + c.value, rest);
    ReadsHead(head, kl + c.key + tail);
    ReadsSized(kl, c.key, tail);
    ReadsSized(vl, c.value, rest);
    JoinBody(Cmd(head[0], [], [], Two(head[1..3]), Eight(head[3..11])), kl + c.key + tail, c.key, tail, c.value, rest);
  }

  // What was read is a record, and the rest is the rest of the input.
  lemma {:induction false} ReadIsRecord(bs: seq<Byte>, c: Command, rest: seq<Byte>) returns (r: seq<Byte>)
    requires ReadRecord(bs) == Got(c, rest)
    ensures IsRecord(r, c) && bs == r + rest
  {
    if |bs| < 11 {
      NeedsHead(bs);
    }
    var head, body := bs[..11], bs[11..];
    assert bs == head + body;
    ReadsHead(head, body);
    r := RecordFrom(head, body, c, rest);
  }

  lemma {:induction false} RecordFrom(head: seq<Byte>, body: seq<Byte>, c: Command, rest: seq<Byte>) returns (r: seq<Byte>)
    requires |head| == 11 && ReadBody(Cmd(head[0], [], [], Two(head[1..3]), Eight(head[3..11])), body) == Got(c, rest)
    ensures IsRecord(r, c) && head + body == r + rest
  {
    var mid := SplitBody(Cmd(head[0], [], [], Two(head[1..3]), Eight(head[3..11])), body, c, rest);
    var kl := ReadIsSized(body, c.key, mid);
    var vl := ReadIsSized(mid, c.value, rest);
    r := head + (kl + c.key) + (vl + c.value);
    Join(head, kl + c.key, vl + c.value, rest);
    assert RecordOf(r, c, head, kl, vl);
  }

  // bs is a record of c and then rest.
  ghost predicate Splits(bs: seq<Byte>, c: Command, r: seq<Byte>, rest: seq<Byte>) {
    bs == r + rest && IsRecord(r, c)
  }

  // Reading gives c exactly when the input is a record of c and the rest.
  lemma {:induction false} ReadRecordExactly(bs: seq<Byte>, c: Command, rest: seq<Byte>)
    ensures ReadRecord(bs) == Got(c, rest) <==> exists r :: Splits(bs, c, r, rest)
  {
    if ReadRecord(bs) == Got(c, rest) {
      var r := ReadIsRecord(bs, c, rest);
      assert Splits(bs, c, r, rest);
    }
    if r :| Splits(bs, c, r, rest) {
      var head, kl, vl :| RecordOf(r, c, head, kl, vl);
      ReadsRecord(r, c, head, kl, vl, rest);
    }
  }

  // Writing makes a record of c with the shortest lengths.
  lemma {:induction false} EncodeIsRecord(c: Command)
    ensures var kl, vl := Uvarint(|c.key|), Uvarint(|c.value|);
            RecordOf(Encode(c), c, Head(c), kl, vl) && Shortest(kl) && Shortest(vl)
  {
    RoomAtStart();
    UvarintIsVarint(|c.key|, 0);
    UvarintIsVarint(|c.value|, 0);
    HeadBytes(c);
  }

  lemma {:induction false} HeadBytes(c: Command)
    ensures IsHead(Head(c), c)
  {
    assert Head(c)[1..3] == BigEndian(c.vnode, 2) && Head(c)[3..11] == BigEndian(c.version, 8);
    PowValues();
    BigEndianRoundTrip(c.vnode, 2);
    BigEndianRoundTrip(c.version, 8);
    TwoIsBigEndian(Head(c)[1..3]);
    EightIsBigEndian(Head(c)[3..11]);
  }

  // ---------- Logs ----------

  // bs is records of cs, one after the other.
  ghost predicate IsLog(bs: seq<Byte>, cs: seq<Command>)
    decreases |cs|
  {
    if cs == [] then bs == []
    else exists r, rest :: Splits(bs, cs[0], r, rest) && IsLog(rest, cs[1..])
  }

  // A file reads to its end as the commands cs exactly when it is their records.
  lemma {:induction false} DecodeExactly(bs: seq<Byte>, cs: seq<Command>)
    ensures DecodeAll(bs) == Parsed(cs, true) <==> IsLog(bs, cs)
    decreases |cs|, 1
  {
    if cs != [] && DecodeAll(bs) == Parsed(cs, true) {
      DecodedIsLog(bs, cs);
    }
    if cs != [] && IsLog(bs, cs) {
      LogDecodes(bs, cs);
    }
  }

  lemma {:induction false} DecodeStep(bs: seq<Byte>, cs: seq<Command>) returns (rest: seq<Byte>)
    requires cs != [] && DecodeAll(bs) == Parsed(cs, true)
    ensures ReadRecord(bs) == Got(cs[0], rest) && DecodeAll(rest) == Parsed(cs[1..], true)
  {
    rest := ReadRecord(bs).rest;
    var tail := DecodeAll(rest);
    assert cs == [ReadRecord(bs).value] + tail.cmds;
  }

  lemma {:induction false} LogCons(bs: seq<Byte>, cs: seq<Command>, r: seq<Byte>, rest: seq<Byte>)
    requires cs != [] && Splits(bs, cs[0], r, rest) && IsLog(rest, cs[1..])
    ensures IsLog(bs, cs)
  {}

  lemma {:induction false} DecodedIsLog(bs: seq<Byte>, cs: seq<Command>)
    requires cs != [] && DecodeAll(bs) == Parsed(cs, true)
    ensures IsLog(bs, cs)
    decreases |cs|, 0
  {
    var rest := DecodeStep(bs, cs);
    var r := ReadIsRecord(bs, cs[0], rest);
    DecodeExactly(rest, cs[1..]);
    LogCons(bs, cs, r, rest);
  }

  lemma {:induction false} DecodeCons(bs: seq<Byte>, cs: seq<Command>, rest: seq<Byte>)
    requires cs != [] && ReadRecord(bs) == Got(cs[0], rest) && DecodeAll(rest) == Parsed(cs[1..], true)
    ensures DecodeAll(bs) == Parsed(cs, true)
  {
    assert [cs[0]] + cs[1..] == cs;
  }

  lemma {:induction false} FirstOfLog(bs: seq<Byte>, cs: seq<Command>) returns (rest: seq<Byte>)
    requires cs != [] && IsLog(bs, cs)
    ensures ReadRecord(bs) == Got(cs[0], rest) && IsLog(rest, cs[1..])
  {
    var r;
    r, rest :| Splits(bs, cs[0], r, rest) && IsLog(rest, cs[1..]);
    ReadRecordExactly(bs, cs[0], rest);
  }

  lemma {:induction false} LogDecodes(bs: seq<Byte>, cs: seq<Command>)
    requires cs != [] && IsLog(bs, cs)
    ensures DecodeAll(bs) == Parsed(cs, true)
    decreases |cs|, 0
  {
    var rest := FirstOfLog(bs, cs);
    DecodeExactly(rest, cs[1..]);
    DecodeCons(bs, cs, rest);
  }

  lemma {:induction false} LogIsRecords(cs: seq<Command>)
    ensures IsLog(EncodeAll(cs), cs)
  {
    LogRoundTrip(cs);
    DecodeExactly(EncodeAll(cs), cs);
  }
}
