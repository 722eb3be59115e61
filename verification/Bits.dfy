/** Extraction of a bit field from a payload. */
module Bits {
  import opened Wire
  import opened BitStrings

  datatype Extracted = Extracted(value: int, max: int, raw: nat)

  /** A 64-bit pattern read as a signed number. */
  function AsI64(v: nat): int {
    if v >= 0x8000_0000_0000_0000 then v - 0x1_0000_0000_0000_0000 else v
  }

  /** The bits of the field that are present: a field that runs off the end is cut short. */
  function Present(data: seq<byte>, bitOffset: nat, bits: nat): Bits
    requires bitOffset < 8 * |data|
  {
    BytesBits(data)[bitOffset..bitOffset + Min(bits, 8 * |data| - bitOffset)]
  }

  /** How the pattern `raw`, `width` bits wide, is interpreted. */
  function Interpret(raw: nat, width: nat, signed: bool, offset: int): Extracted
    requires width > 0
  {
    var ones := Pow2(width) - 1;
    if signed then
      Extracted(
        if offset != 0 then AsI64(raw) + offset
        else if raw >= Pow2(width - 1) then raw - Pow2(width)
        else AsI64(raw),
        ones / 2 + offset, raw)
    else Extracted(AsI64(raw) + offset, AsI64(ones) + offset, raw)
  }

  function Extract(data: seq<byte>, bitOffset: nat, bits: nat, signed: bool, offset: int): Option<Extracted> {
    if bits == 0 || bits > 64 || bitOffset / 8 >= |data| then None
    else
      var b := Present(data, bitOffset, bits);
      Some(Interpret(FromBits(b), |b|, signed, offset))
  }

  method ExtractBits(data: seq<byte>, bitOffset: nat, bits: nat, signed: bool, offset: int)
    returns (r: Option<Extracted>)
    ensures r == Extract(data, bitOffset, bits, signed, offset)
  {
    if bits == 0 || bits > 64 {
      return None;
    }
    if bitOffset / 8 >= |data| {
      return None;
    }
    var value, maxV, width := Gather(data, bitOffset, bits);
    var valueSigned := AsI64(value);
    var maxSigned := AsI64(maxV);
    if signed {
      maxSigned := maxV / 2;
      if offset != 0 {
        valueSigned := AsI64(value) + offset;
        maxSigned := maxSigned + offset;
      } else if value >= Pow2(width - 1) {
        valueSigned := value - Pow2(width);
      }
    } else if offset != 0 {
      valueSigned := AsI64(value) + offset;
      maxSigned := maxSigned + offset;
    }
    return Some(Extracted(valueSigned, maxSigned, value));
  }

  /** The extraction loop: byte by byte, each chunk shifted into place above the last. The
      parts that the original combines by bitwise or do not overlap, so they are added. */
  method Gather(data: seq<byte>, bitOffset: nat, bits: nat) returns (value: nat, maxV: nat, magnitude: nat)
    requires 1 <= bits <= 64 && bitOffset / 8 < |data|
    ensures magnitude == |Present(data, bitOffset, bits)| && value == FromBits(Present(data, bitOffset, bits))
    ensures maxV == Pow2(magnitude) - 1
  {
    var at := bitOffset / 8;
    var firstBit := bitOffset % 8;
    value := 0;
    maxV := 0;
    magnitude := 0;
    var remaining := bits;
    while remaining > 0 && at < |data|
      invariant 0 <= remaining <= bits && magnitude + remaining == bits
      invariant 0 <= firstBit < 8 && 8 * at + firstBit == bitOffset + magnitude <= 8 * |data|
      invariant at == |data| ==> magnitude == 8 * |data| - bitOffset
      invariant value == FromBits(BytesBits(data)[bitOffset..bitOffset + magnitude])
      invariant maxV == Pow2(magnitude) - 1
    {
      var inThisByte := Min(8 - firstBit, remaining);
      var allOnes := Pow2(inThisByte) - 1;
      var chunk := Shr(data[at], firstBit) % (allOnes + 1);
      NextChunk(data, bitOffset, magnitude, at, firstBit, inThisByte);
      NextOnes(magnitude, inThisByte);
      value := value + Pow2(magnitude) * chunk;
      maxV := maxV + Pow2(magnitude) * allOnes;
      magnitude := magnitude + inThisByte;
      remaining := remaining - inThisByte;
      firstBit := firstBit + inThisByte;
      if firstBit >= 8 {
        firstBit := firstBit - 8;
        at := at + 1;
      }
    }
  }

  lemma NextChunk(data: seq<byte>, bitOffset: nat, magnitude: nat, i: nat, firstBit: nat, n: nat)
    requires i < |data| && firstBit + n <= 8 && 8 * i + firstBit == bitOffset + magnitude
    ensures FromBits(BytesBits(data)[bitOffset..bitOffset + magnitude + n])
            == FromBits(BytesBits(data)[bitOffset..bitOffset + magnitude]) + Pow2(magnitude) * (Shr(data[i], firstBit) % Pow2(n))
  {
    ChunkBits(data, i, firstBit, n);
    FromAdjacent(BytesBits(data), bitOffset, magnitude, n);
  }

  lemma NextOnes(magnitude: nat, n: nat)
    ensures Pow2(magnitude + n) - 1 == (Pow2(magnitude) - 1) + Pow2(magnitude) * (Pow2(n) - 1)
  {
    PowAdd(magnitude, n);
  }

  lemma SliceOfOwn(all: Bits, start: nat, own: Bits, first: nat, n: nat)
    requires start + |own| <= |all| && all[start..start + |own|] == own && first + n <= |own|
    ensures all[start + first..start + first + n] == own[first..first + n]
  {
    SliceOfSlice(all, start, |own|, first, n);
  }

  lemma ChunkBits(data: seq<byte>, i: nat, firstBit: nat, n: nat)
    requires i < |data| && firstBit + n <= 8
    ensures FromBits(BytesBits(data)[8 * i + firstBit..8 * i + firstBit + n]) == Shr(data[i], firstBit) % Pow2(n)
  {
    var own := LowBits(data[i], BYTE);
    ByteAt(data, i);
    SliceOfOwn(BytesBits(data), 8 * i, own, firstBit, n);
    SliceByShift(data[i], BYTE, firstBit, n);
  }

  // ----- What extraction means -----

  /** The pattern of a whole field is its bits; the unsigned value of a field of fewer than 64
      bits is that pattern. */
  lemma {:induction false} ExtractRaw(data: seq<byte>, bitOffset: nat, bits: nat, signed: bool, offset: int)
    requires 1 <= bits <= 64 && bitOffset + bits <= 8 * |data|
    ensures var x := Extract(data, bitOffset, bits, signed, offset);
            x.Some? && x.value.raw == FromBits(BytesBits(data)[bitOffset..bitOffset + bits])
            && x.value.raw < Pow2(bits)
  {
    FromBound(BytesBits(data)[bitOffset..bitOffset + bits]);
  }

  /** A whole field is interpreted from its bits. */
  lemma ExtractWhole(data: seq<byte>, at: nat, w: nat, signed: bool, offset: int, own: Bits)
    requires 1 <= w <= 64 && at + w <= 8 * |data| && own == BytesBits(data)[at..at + w]
    ensures FromBits(own) < Pow2(w) && Extract(data, at, w, signed, offset) == Some(Interpret(FromBits(own), w, signed, offset))
  {
    FromBound(own);
    assert Present(data, at, w) == own;
  }

  /** Two's complement: `x`, reduced to a field of `bits` bits, reads back signed as `x`. */
  lemma {:induction false} SignedInverse(x: int, bits: nat)
    requires 1 <= bits <= 64 && 0 - Pow2(bits - 1) <= x < Pow2(bits - 1)
    ensures 0 <= x % Pow2(bits) < Pow2(bits)
    ensures Interpret(x % Pow2(bits), bits, true, 0).value == x
  {
    Pow64();
    PowMonotone(bits, 64);
    PowMonotone(bits - 1, 63);
    assert Pow2(bits) == 2 * Pow2(bits - 1);
    if x >= 0 {
      DivModUnique(x, Pow2(bits), 0, x);
    } else {
      DivModUnique(x, Pow2(bits), -1, x + Pow2(bits));
    }
  }

  // ----- The rule of the documentation -----

  lemma {:induction false} OnesAreTrue(w: nat, k: nat, ones: nat)
    requires k < w && ones == Pow2(w) - 1
    ensures LowBits(ones, w)[k]
  {
    var half := Pow2(w - 1) - 1;
    assert ones == 2 * half + 1;
    if k > 0 {
      OnesAreTrue(w - 1, k - 1, half);
    }
  }

  lemma {:induction false} FillerBits(n: nat, k: nat)
    requires k < 8 * n
    ensures BytesBits(Filler(n))[k]
  {
    Pow2Eight();
    assert Filler(n)[1..] == Filler(n - 1);
    if k < 8 {
      OnesAreTrue(BYTE, k, 0xff);
    } else {
      FillerBits(n - 1, k - 8);
    }
  }

  lemma TopBit(b: Bits, n: nat)
    requires |b| == n + 1 && b[n]
    ensures FromBits(b) >= Pow2(n)
  {
    assert b == b[..n] + [true];
    FromConcat(b[..n], [true]);
    assert FromBits([true]) == 1;
  }

  /** The field read from the payload with filler behind it: what is there, and then ones. */
  lemma FilledPresent(data: seq<byte>, bitOffset: nat, bits: nat, filled: seq<byte>)
    requires 1 <= bits <= 64 && bitOffset < 8 * |data| && filled == data + Filler(8)
    ensures bitOffset + bits <= 8 * |data| ==> Present(filled, bitOffset, bits) == Present(data, bitOffset, bits)
    ensures bitOffset + bits > 8 * |data| ==>
              |Present(filled, bitOffset, bits)| == bits && Present(filled, bitOffset, bits)[bits - 1]
  {
    BytesConcat(data, Filler(8));
    if bitOffset + bits > 8 * |data| {
      FillerBits(8, bitOffset + bits - 1 - 8 * |data|);
    }
  }

  /** A field reads as if the payload were followed by 0xff bytes if and only if it ends within
      the payload; a field that is cut short never does. */
  lemma FilledExactly(data: seq<byte>, bitOffset: nat, bits: nat, signed: bool, offset: int)
    requires 1 <= bits <= 64 && bitOffset / 8 < |data|
    ensures Extract(data, bitOffset, bits, signed, offset) == Extract(data + Filler(8), bitOffset, bits, signed, offset)
            <==> bitOffset + bits <= 8 * |data|
  {
    var filled := data + Filler(8);
    FilledPresent(data, bitOffset, bits, filled);
    if bitOffset + bits > 8 * |data| {
      var cut, whole := Present(data, bitOffset, bits), Present(filled, bitOffset, bits);
      TopBit(whole, bits - 1);
      FromBound(cut);
      PowMonotone(|cut|, bits - 1);
    }
  }
}
