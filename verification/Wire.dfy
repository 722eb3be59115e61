/** What travels on the bus: bytes, machine words and CAN frames. */
module Wire {

  type byte = x: int | 0 <= x < 0x100
  type u32 = x: int | 0 <= x < 0x1_0000_0000
  type u64 = x: int | 0 <= x < 0x1_0000_0000_0000_0000

  datatype Option<+T> = None | Some(value: T)

  /** The null address: a node that owns no source address. */
  const ADDR_NULL: byte := 254
  /** The broadcast address. */
  const ADDR_GLOBAL: byte := 255

  /** A CAN frame, or a coalesced payload with the header of its frames. */
  datatype RawFrame = RawFrame(
    timestamp: Option<string>,
    prio: byte,
    pgn: nat,
    src: byte,
    dst: byte,
    data: seq<byte>)

  /** What a reassembler says to one frame. */
  datatype Reassembled =
    | PassThrough(frame: RawFrame)
    | Complete(frame: RawFrame)
    | Partial
    | Error(error: ReassemblyError)

  datatype ReassemblyError = EmptyData | OutOfSlots(pgn: nat, src: byte)

  function Min(a: int, b: int): int { if a < b then a else b }

  /** `n` filler bytes. */
  function Filler(n: nat): (d: seq<byte>)
    ensures |d| == n
  {
    seq(n, _ => 0xff)
  }

  /** Little-endian 16-bit and 24-bit fields. */
  function U16(b0: nat, b1: nat): nat { b0 + 0x100 * b1 }
  function U24(b0: nat, b1: nat, b2: nat): nat { b0 + 0x100 * b1 + 0x10000 * b2 }

  /** The `count` low bytes of `value`, least significant first. */
  function LeBytes(value: nat, count: nat): (bytes: seq<byte>)
    ensures |bytes| == count
  {
    if count == 0 then [] else [value % 256] + LeBytes(value / 256, count - 1)
  }

  /** The number whose little-endian bytes are `bytes`. */
  function FromLeBytes(bytes: seq<byte>): nat {
    if bytes == [] then 0 else bytes[0] + 256 * FromLeBytes(bytes[1..])
  }

  function Pow256(k: nat): (p: nat)
    ensures p > 0
  {
    if k == 0 then 1 else 256 * Pow256(k - 1)
  }

  lemma {:induction false} LeBytesInverse(value: nat, count: nat)
    requires value < Pow256(count)
    ensures FromLeBytes(LeBytes(value, count)) == value
  {
    if count > 0 {
      LeBytesInverse(value / 256, count - 1);
      assert LeBytes(value, count)[1..] == LeBytes(value / 256, count - 1);
    }
  }

  /** A 64-bit value survives its eight wire bytes. */
  lemma NameBytesInverse(name: u64)
    ensures FromLeBytes(LeBytes(name, 8)) == name
  {
    assert Pow256(8) == 0x1_0000_0000_0000_0000 by {
      assert Pow256(2) == 0x1_0000;
      assert Pow256(4) == 0x1_0000_0000;
      assert Pow256(6) == 0x1_0000_0000_0000;
    }
    LeBytesInverse(name, 8);
  }
}
