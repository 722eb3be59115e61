/** Numbers and byte strings as strings of bits, most significant bit first. */
module MsbStrings {
  import opened Wire
  import opened BitStrings

  /** The `w` low bits of `v`, the highest of them first. */
  function High(v: nat, w: nat): (b: Bits)
    ensures |b| == w
  {
    if w == 0 then [] else High(v / 2, w - 1) + [v % 2 == 1]
  }

  function FromHigh(b: Bits): nat {
    if b == [] then 0 else 2 * FromHigh(b[..|b| - 1]) + if b[|b| - 1] then 1 else 0
  }

  function Zeros(n: nat): (b: Bits)
    ensures |b| == n && forall i :: 0 <= i < n ==> !b[i]
  {
    if n == 0 then [] else Zeros(n - 1) + [false]
  }

  lemma {:induction false} HighFrom(b: Bits)
    ensures High(FromHigh(b), |b|) == b && FromHigh(b) < Pow2(|b|)
  {
    if b != [] {
      var front := b[..|b| - 1];
      HighFrom(front);
      assert FromHigh(b) / 2 == FromHigh(front);
      assert b == front + [b[|b| - 1]];
    }
  }

  lemma {:induction false} FromHighOf(v: nat, w: nat)
    ensures FromHigh(High(v, w)) == v % Pow2(w)
  {
    if w > 0 {
      FromHighOf(v / 2, w - 1);
      HalfMod(v, Pow2(w - 1));
      assert High(v, w)[..w - 1] == High(v / 2, w - 1);
    }
  }

  lemma HighMod(v: nat, w: nat)
    ensures High(v % Pow2(w), w) == High(v, w)
  {
    FromHighOf(v, w);
    HighFrom(High(v, w));
  }

  lemma {:induction false} HighSplit(v: nat, a: nat, b: nat)
    ensures High(v, a + b) == High(Shr(v, b), a) + High(v, b)
  {
    if b > 0 {
      HighSplit(v / 2, a, b - 1);
      Assoc(High(Shr(v, b), a), High(v / 2, b - 1), [v % 2 == 1]);
    }
  }

  lemma {:induction false} HighZero(w: nat)
    ensures High(0, w) == Zeros(w)
  {
    if w > 0 {
      HighZero(w - 1);
    }
  }

  lemma {:induction false} ShrSmall(v: nat, w: nat, n: nat)
    requires v < Pow2(w + n)
    ensures Shr(v, n) < Pow2(w)
  {
    if n > 0 {
      ShrSmall(v / 2, w, n - 1);
    }
  }

  /** A number below `2^w` in a wider field has leading zeros. */
  lemma HighSmall(v: nat, a: nat, w: nat)
    requires v < Pow2(w)
    ensures High(v, a + w) == Zeros(a) + High(v, w)
  {
    HighSplit(v, a, w);
    ShrSmall(v, 0, w);
    HighZero(a);
  }

  /** A shifted number has trailing zeros. */
  lemma {:induction false} HighShifted(v: nat, w: nat, n: nat)
    ensures High(v * Pow2(n), w + n) == High(v, w) + Zeros(n)
  {
    if n > 0 {
      var half := v * Pow2(n - 1);
      HighShifted(v, w, n - 1);
      DoubleProduct(Pow2(n - 1), v);
      assert v * Pow2(n) == 2 * half;
      Assoc(High(v, w), Zeros(n - 1), [false]);
    }
  }

  lemma ShiftedBound(v: nat, w: nat, n: nat)
    requires v < Pow2(w)
    ensures v * Pow2(n) < Pow2(w + n)
  {
    PowAdd(w, n);
    var gap := Pow2(w) - v;
    MulBounds(gap, Pow2(n));
    assert gap * Pow2(n) == Pow2(w) * Pow2(n) - v * Pow2(n);
  }

  // ----- Bytes -----

  function MsbBits(bytes: seq<byte>): (b: Bits)
    ensures |b| == 8 * |bytes|
  {
    if bytes == [] then [] else High(bytes[0], 8) + MsbBits(bytes[1..])
  }

  lemma {:induction false} MsbConcat(a: seq<byte>, b: seq<byte>)
    ensures MsbBits(a + b) == MsbBits(a) + MsbBits(b)
  {
    if a == [] {
      assert a + b == b;
    } else {
      MsbConcat(a[1..], b);
      Uncons(a, b);
      Assoc(High(a[0], 8), MsbBits(a[1..]), MsbBits(b));
    }
  }

  lemma MsbAt(bytes: seq<byte>, i: nat)
    requires i < |bytes|
    ensures MsbBits(bytes) == (MsbBits(bytes[..i]) + High(bytes[i], 8)) + MsbBits(bytes[i + 1..])
    ensures MsbBits(bytes)[8 * i..8 * i + 8] == High(bytes[i], 8)
  {
    Around(bytes, i);
    MsbConcat(bytes[..i] + [bytes[i]], bytes[i + 1..]);
    MsbConcat(bytes[..i], [bytes[i]]);
    MsbOne(bytes[i]);
    Middle(MsbBits(bytes[..i]), High(bytes[i], 8), MsbBits(bytes[i + 1..]));
  }

  lemma MsbOne(x: byte)
    ensures MsbBits([x]) == High(x, 8)
  {
    assert [x][1..] == [];
  }

  lemma MsbWritten(bytes: seq<byte>, i: nat, x: byte)
    requires i < |bytes|
    ensures MsbBits(bytes[i := x]) == (MsbBits(bytes[..i]) + High(x, 8)) + MsbBits(bytes[i + 1..])
  {
    MsbAt(bytes[i := x], i);
    UpdateParts(bytes, i, x);
  }

  /** Bit `k` of a number, counted from the top of a field of `w` bits. */
  lemma {:induction false} HighAt(v: nat, w: nat, k: nat)
    requires k < w
    ensures High(v, w)[k] <==> Shr(v, w - 1 - k) % 2 == 1
  {
    if k < w - 1 {
      HighAt(v / 2, w - 1, k);
    }
  }

  // ----- Bitwise or -----

  function Or(a: Bits, b: Bits): (r: Bits)
    requires |a| == |b|
    ensures |r| == |a| && forall i :: 0 <= i < |r| ==> r[i] == (a[i] || b[i])
  {
    if a == [] then [] else [a[0] || b[0]] + Or(a[1..], b[1..])
  }

  function OrBytes(x: byte, y: byte): byte {
    HighFrom(Or(High(x, 8), High(y, 8)));
    Pow2Eight();
    FromHigh(Or(High(x, 8), High(y, 8)))
  }

  /** Or-ing `h` into the free low bits of a byte appends it to the bits used so far. */
  lemma OrAppends(x: byte, used: nat, take: nat, h: nat, y: nat)
    requires used + take <= 8 && h < Pow2(take)
    requires High(x, 8)[used..] == Zeros(8 - used)
    requires y == h * Pow2(8 - used - take)
    ensures y < 0x100
    ensures High(OrBytes(x, y), 8) == (High(x, 8)[..used] + High(h, take)) + Zeros(8 - used - take)
  {
    var free := 8 - used - take;
    ShiftedBound(h, take, free);
    PowMonotone(take + free, 8);
    Pow2Eight();
    HighSmall(y, used, take + free);
    HighShifted(h, take, free);
    assert High(y, used + (take + free)) == Zeros(used) + (High(h, take) + Zeros(free));
    HighFrom(Or(High(x, 8), High(y, 8)));
    OrPlaced(High(x, 8), used, High(h, take), Zeros(free), High(y, 8));
  }

  lemma OrPlaced(x: Bits, used: nat, h: Bits, z: Bits, y: Bits)
    requires used + |h| + |z| == |x| == |y|
    requires x[used..] == Zeros(|x| - used) && z == Zeros(|z|) && y == Zeros(used) + (h + z)
    ensures Or(x, y) == (x[..used] + h) + z
  {
    var r := Or(x, y);
    forall i | 0 <= i < |x|
      ensures r[i] == ((x[..used] + h) + z)[i]
    {
      if i >= used {
        assert x[i] == x[used..][i - used];
        assert y[i] == (h + z)[i - used];
      }
    }
  }
}
