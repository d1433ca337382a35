// Machine-level values and the command record shared by the store, the
// write-ahead log and the event loop.
module Commands {

  type Byte = b: int | 0 <= b < 0x100
  type U16 = n: int | 0 <= n < 0x1_0000
  type U64 = n: int | 0 <= n < 0x1_0000_0000_0000_0000

  type Blob = seq<Byte>

  // The byte values of OpType, as they appear in the log.
  const OP_PUT: Byte := 0
  const OP_GET: Byte := 1
  const OP_DELETE: Byte := 2

  datatype Cmd = Cmd(op: Byte, key: Blob, value: Blob, vnode: U16, version: U64)

  // Go strings and slices have lengths that fit a signed 64-bit integer.
  type Command = c: Cmd | |c.key| < 0x8000_0000_0000_0000 && |c.value| < 0x8000_0000_0000_0000
    witness Cmd(0, [], [], 0, 0)

  // The operations that Store.Apply executes; every other byte is rejected.
  predicate Writes(c: Cmd) {
    c.op == OP_PUT || c.op == OP_DELETE
  }

  datatype Option<+T> = None | Some(value: T)
}
