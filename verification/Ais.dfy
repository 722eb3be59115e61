/** AIS messages: the bit vector that the fields are packed into, and the sentences that carry
    it as printable characters. */
module Ais {
  import opened Wire
  import opened BitStrings
  import opened MsbStrings

  type i64 = x: int | -0x8000_0000_0000_0000 <= x < 0x8000_0000_0000_0000

  /** 226 bytes hold any message. */
  const BITVEC_BYTES := 226

  // ----- The bit vector -----

  ghost predicate Clear(b: Bits) { forall k :: 0 <= k < |b| ==> !b[k] }

  /** The bits from `pos` on are clear. */
  ghost predicate Free(bytes: seq<byte>, pos: nat) { pos <= 8 * |bytes| && Clear(MsbBits(bytes)[pos..]) }

  lemma CutInside<T>(a: seq<T>, b: seq<T>, c: seq<T>, used: nat)
    requires used <= |b|
    ensures ((a + b) + c)[..|a| + used] == a + b[..used]
    ensures ((a + b) + c)[|a| + used..] == b[used..] + c
  {
  }

  lemma CutMiddle<T>(p: seq<T>, h: seq<T>, z: seq<T>)
    ensures ((p + h) + z)[..|p| + |h|] == p + h && ((p + h) + z)[|p| + |h|..] == z
  {
  }

  lemma ClearParts(b: Bits, c: Bits)
    ensures Clear(b + c) <==> Clear(b) && Clear(c)
  {
    if Clear(b + c) {
      assert forall k :: 0 <= k < |b| ==> b[k] == (b + c)[k];
      assert forall k :: 0 <= k < |c| ==> c[k] == (b + c)[|b| + k];
    }
  }

  lemma ClearIsZeros(b: Bits)
    requires Clear(b)
    ensures b == Zeros(|b|)
  {
  }

  /** In a buffer that is clear from `|a| + used` on, `h` takes the place of the first clear bits. */
  lemma AppendParts(a: Bits, b: Bits, c: Bits, used: nat, h: Bits, z: Bits, all: Bits, all': Bits, pos: nat)
    requires used + |h| + |z| == |b| && all == (a + b) + c && all' == (a + ((b[..used] + h) + z)) + c
    requires pos == |a| + used && Clear(all[pos..]) && Clear(z)
    ensures all'[..pos + |h|] == all[..pos] + h && Clear(all'[pos + |h|..])
  {
    var b' := (b[..used] + h) + z;
    CutInside(a, b, c, used);
    CutInside(a, b', c, used + |h|);
    CutMiddle(b[..used], h, z);
    ClearParts(b[used..], c);
    ClearParts(z, c);
    Assoc(a, b[..used], h);
  }

  lemma FreeInByte(a: Bits, b: Bits, c: Bits, used: nat)
    requires used <= |b| && Clear(((a + b) + c)[|a| + used..])
    ensures b[used..] == Zeros(|b| - used)
  {
    CutInside(a, b, c, used);
    ClearParts(b[used..], c);
    ClearIsZeros(b[used..]);
  }

  /** Or-ing `take` bits into the free end of byte `i` appends them. */
  lemma AppendPiece(bytes: seq<byte>, pos: nat, i: nat, used: nat, take: nat, h: nat, y: nat)
    requires Free(bytes, pos) && i < |bytes| && pos == 8 * i + used && used < 8
    requires used + take <= 8 && h < Pow2(take) && y == h * Pow2(8 - used - take)
    ensures y < 0x100
    ensures var bytes' := bytes[i := OrBytes(bytes[i], y)];
            && MsbBits(bytes')[..pos + take] == MsbBits(bytes)[..pos] + High(h, take)
            && Free(bytes', pos + take)
  {
    var a, b, c, z := MsbBits(bytes[..i]), High(bytes[i], 8), MsbBits(bytes[i + 1..]), Zeros(8 - used - take);
    MsbAt(bytes, i);
    FreeInByte(a, b, c, used);
    OrAppends(bytes[i], used, take, h, y);
    var x := OrBytes(bytes[i], y);
    MsbWritten(bytes, i, x);
    AppendParts(a, b, c, used, High(h, take), z, MsbBits(bytes), MsbBits(bytes[i := x]), pos);
  }

  /** One round of the packing loop: the top `take` bits of `v` are appended, the rest stay. */
  lemma AddRound(bytes: seq<byte>, pos: nat, v: nat, len: nat, i: nat, used: nat, take: nat, y: nat)
    requires Free(bytes, pos) && i < |bytes| && pos == 8 * i + used && used < 8
    requires v < Pow2(len) && used + take <= 8 && take <= len
    requires y == Shr(v, len - take) * Pow2(8 - used - take)
    ensures y < 0x100 && v % Pow2(len - take) < Pow2(len - take)
    ensures var bytes' := bytes[i := OrBytes(bytes[i], y)];
            && Free(bytes', pos + take)
            && MsbBits(bytes')[..pos + take] + High(v % Pow2(len - take), len - take) == MsbBits(bytes)[..pos] + High(v, len)
  {
    ShrSmall(v, take, len - take);
    AppendPiece(bytes, pos, i, used, take, Shr(v, len - take), y);
    HighSplit(v, take, len - take);
    HighMod(v, len - take);
    Assoc(MsbBits(bytes)[..pos], High(Shr(v, len - take), take), High(v, len - take));
  }

  /** The bits before `pos`, and then the `len` low bits of `v`, are `all`. */
  ghost predicate Packing(bytes: seq<byte>, pos: nat, v: nat, len: nat, all: Bits) {
    Free(bytes, pos) && v < Pow2(len) && MsbBits(bytes)[..pos] + High(v, len) == all
  }

  /** `v` shifted left by `n` bits. */
  function Shl(v: nat, n: nat): nat { v * Pow2(n) }

  lemma PieceIsByte(v: nat, len: nat, used: nat, take: nat, y: nat)
    requires v < Pow2(len) && used + take <= 8 && take <= len && y == Shl(Shr(v, len - take), 8 - used - take)
    ensures y < 0x100
  {
    ShrSmall(v, take, len - take);
    ShiftedBound(Shr(v, len - take), take, 8 - used - take);
    PowMonotone(8 - used, 8);
    Pow2Eight();
  }

  lemma RoundPacks(bytes: seq<byte>, pos: nat, v: nat, len: nat, i: nat, used: nat, take: nat, y: byte, bytes': seq<byte>, all: Bits)
    requires Packing(bytes, pos, v, len, all) && i < |bytes| && pos == 8 * i + used && used < 8
    requires used + take <= 8 && take <= len && y == Shl(Shr(v, len - take), 8 - used - take)
    requires bytes' == bytes[i := OrBytes(bytes[i], y)]
    ensures Packing(bytes', pos + take, v % Pow2(len - take), len - take, all)
  {
    AddRound(bytes, pos, v, len, i, used, take, y);
  }

  /** Once no bits are left. */
  lemma NothingLeft(bytes: seq<byte>, pos: nat, v: nat, all: Bits)
    requires Packing(bytes, pos, v, 0, all)
    ensures MsbBits(bytes)[..pos] == all
  {
    assert High(v, 0) == [];
  }

  class BitVector {
    var bytes: array<byte>
    var pos: nat

    ghost predicate Valid()
      reads this, bytes
    {
      bytes.Length == BITVEC_BYTES && Free(bytes[..], pos)
    }

    /** The bits added so far. */
    ghost function Contents(): (b: Bits)
      requires Valid()
      reads this, bytes
      ensures |b| == pos
    {
      MsbBits(bytes[..])[..pos]
    }

    constructor ()
      ensures Valid() && fresh(bytes) && Contents() == []
    {
      bytes := new byte[BITVEC_BYTES](_ => 0);
      pos := 0;
      new;
      assert bytes[..] == NoBytes(BITVEC_BYTES);
      NoBytesClear(BITVEC_BYTES);
    }

    /** Adds the `len` low bits of the two's complement of `value`. The caller keeps within the
        buffer and to the width of a machine word. */
    method AddInt(value: i64, len: nat)
      requires Valid() && len <= 64 && pos + len <= 8 * BITVEC_BYTES
      modifies this`pos, bytes
      ensures Valid() && bytes == old(bytes)
      ensures Contents() == old(Contents()) + High(value % Pow2(len), len)
    {
      var v: nat := value % Pow2(len);
      var len: nat := len;
      ghost var all := old(Contents()) + High(v, len);
      while len > 0
        invariant 0 <= len <= 64 && bytes == old(bytes) && bytes.Length == BITVEC_BYTES
        invariant pos + len <= 8 * BITVEC_BYTES
        invariant Packing(bytes[..], pos, v, len, all)
      {
        var i := pos / 8;
        var k := 8 - pos % 8;
        var take := Min(k, len);
        var highBits := Shr(v, len - take);
        var aligned := Shl(highBits, k - take);
        ghost var before := bytes[..];
        PieceIsByte(v, len, 8 - k, take, aligned);
        bytes[i] := OrBytes(bytes[i], aligned);
        RoundPacks(before, pos, v, len, i, 8 - k, take, aligned, bytes[..], all);
        pos := pos + take;
        len := len - take;
        v := v % Pow2(len);
      }
      NothingLeft(bytes[..], pos, v, all);
    }

    /** Adds a text as six-bit characters, filled up with NUL to `len` bits. */
    method AddString(s: string, len: nat)
      requires Valid() && pos + len <= 8 * BITVEC_BYTES
      modifies this`pos, bytes
      ensures Valid() && bytes == old(bytes)
      ensures Contents() == old(Contents()) + TextBits(s, len)
    {
      var len: nat := len;
      var rest := s;
      ghost var all := old(Contents()) + TextBits(s, len);
      while len >= 6
        invariant Valid() && bytes == old(bytes)
        invariant pos + len <= 8 * BITVEC_BYTES
        invariant Contents() + TextBits(rest, len) == all
      {
        var c := if rest != [] then SixBitOf(rest[0]) else 0;
        ghost var was := Contents();
        SixBits(c);
        AddInt(c, 6);
        rest := if rest != [] then rest[1..] else [];
        len := len - 6;
        Assoc(was, High(c, 6), TextBits(rest, len));
      }
      if len > 0 {
        AddInt(0, len);
        ZeroMod(len);
      }
    }
  }

  lemma SixBits(c: nat)
    requires c < 64
    ensures c % Pow2(6) == c
  {
    assert Pow2(3) == 8;
    PowAdd(3, 3);
  }

  lemma ZeroMod(len: nat)
    ensures High(0 % Pow2(len), len) == Zeros(len)
  {
    HighZero(len);
    DivModUnique(0, Pow2(len), 0, 0);
  }

  function NoBytes(n: nat): (b: seq<byte>)
    ensures |b| == n && forall i :: 0 <= i < n ==> b[i] == 0
  {
    if n == 0 then [] else [0] + NoBytes(n - 1)
  }

  lemma {:induction false} NoBytesClear(n: nat)
    ensures Free(NoBytes(n), 0)
  {
    if n > 0 {
      NoBytesClear(n - 1);
      HighZero(8);
      assert NoBytes(n)[1..] == NoBytes(n - 1);
    }
  }

  // ----- Text -----

  /** The six bits of a character: the space for one outside the table. */
  function SixBitOf(c: char): (v: nat)
    ensures v < 64
  {
    var n := c as int;
    if n == 0 then 0 else if n < 32 || n > 95 then 32 else if n >= 64 then n - 64 else n
  }

  function TextBits(s: string, len: nat): (b: Bits)
    ensures |b| == len
  {
    if len < 6 then Zeros(len)
    else if s == [] then High(0, GROUP) + TextBits([], len - 6)
    else High(SixBitOf(s[0]), GROUP) + TextBits(s[1..], len - 6)
  }

  /** How a receiver reads six bits as a character. */
  function CharOf(v: nat): char
    requires v < 64
  {
    (if v < 32 then v + 64 else v) as char
  }

  const GROUP: nat := 6

  function TextOf(b: Bits): string {
    if |b| < 6 then ""
    else
      HighFrom(b[..6]);
      SixtyFour();
      [CharOf(FromHigh(b[..6]))] + TextOf(b[6..])
  }

  lemma SixtyFour()
    ensures Pow2(6) == 64
  {
    assert Pow2(3) == 8;
    PowAdd(3, 3);
  }

  /** How a character arrives: those that AIS can send as they are, NUL as '@', others as spaces. */
  function Sent(c: char): char { if 32 <= c as int <= 95 then c else if c as int == 0 then '@' else ' ' }

  /** The text, cut or filled up with '@' to `n` characters. */
  function Fitted(s: string, n: nat): string {
    if n == 0 then "" else if s == [] then "@" + Fitted([], n - 1) else [Sent(s[0])] + Fitted(s[1..], n - 1)
  }

  lemma TextOfCons(v: nat, b: Bits)
    requires v < 64
    ensures TextOf(High(v, GROUP) + b) == [CharOf(v)] + TextOf(b)
  {
    var all := High(v, GROUP) + b;
    assert all[..6] == High(v, GROUP) && all[6..] == b;
    FromHighOf(v, GROUP);
    SixBits(v);
  }

  /** A text reads back, cut or filled up to the field. */
  lemma {:induction false} TextReadsBack(s: string, len: nat)
    ensures TextOf(TextBits(s, len)) == Fitted(s, len / 6)
  {
    if len >= 6 {
      if s == [] {
        TextReadsBack([], len - 6);
        TextOfCons(0, TextBits([], len - 6));
      } else {
        TextReadsBack(s[1..], len - 6);
        TextOfCons(SixBitOf(s[0]), TextBits(s[1..], len - 6));
        assert CharOf(SixBitOf(s[0])) == Sent(s[0]);
      }
    }
  }
}
