/** Numbers and byte strings as strings of bits, least significant bit first. */
module BitStrings {
  import opened Wire

  type Bits = seq<bool>

  /** The bits of a byte. */
  const BYTE: nat := 8

  // ----- Slices of sequences -----

  lemma Adjacent<T>(s: seq<T>, start: nat, m: nat, n: nat)
    requires start + m + n <= |s|
    ensures s[start..start + m + n] == s[start..start + m] + s[start + m..start + m + n]
  {
  }

  lemma SliceOfSlice<T>(s: seq<T>, start: nat, length: nat, first: nat, n: nat)
    requires start + length <= |s| && first + n <= length
    ensures s[start..start + length][first..first + n] == s[start + first..start + first + n]
  {
    var x, y := s[start..start + length][first..first + n], s[start + first..start + first + n];
    assert forall k :: 0 <= k < n ==> x[k] == y[k];
  }

  lemma Around<T>(s: seq<T>, i: nat)
    requires i < |s|
    ensures s == (s[..i] + [s[i]]) + s[i + 1..]
  {
  }

  lemma Middle<T>(a: seq<T>, b: seq<T>, c: seq<T>)
    ensures ((a + b) + c)[|a|..|a| + |b|] == b
    ensures ((a + b) + c)[..|a|] == a && ((a + b) + c)[|a| + |b|..] == c
  {
  }

  lemma Assoc<T>(a: seq<T>, b: seq<T>, c: seq<T>)
    ensures (a + b) + c == a + (b + c)
  {
  }

  lemma Uncons<T>(a: seq<T>, b: seq<T>)
    requires a != []
    ensures (a + b)[0] == a[0] && (a + b)[1..] == a[1..] + b
  {
  }

  lemma IndexRight<T>(a: seq<T>, b: seq<T>, k: nat)
    requires k < |b|
    ensures (a + b)[|a| + k] == b[k]
  {
  }

  // ----- Bits of numbers -----

  function Pow2(n: nat): (p: nat)
    ensures p > 0
  {
    if n == 0 then 1 else 2 * Pow2(n - 1)
  }

  /** `v` shifted right by `n` bits. */
  function Shr(v: nat, n: nat): nat {
    if n == 0 then v else Shr(v / 2, n - 1)
  }

  /** The `w` low bits of `v`. */
  function LowBits(v: nat, w: nat): (b: Bits)
    ensures |b| == w
  {
    if w == 0 then [] else [v % 2 == 1] + LowBits(v / 2, w - 1)
  }

  function FromBits(b: Bits): nat {
    if b == [] then 0 else (if b[0] then 1 else 0) + 2 * FromBits(b[1..])
  }

  lemma {:induction false} FromBound(b: Bits)
    ensures FromBits(b) < Pow2(|b|)
  {
    if b != [] {
      FromBound(b[1..]);
    }
  }

  lemma {:induction false} LowFrom(b: Bits)
    ensures LowBits(FromBits(b), |b|) == b
  {
    if b != [] {
      LowFrom(b[1..]);
      assert FromBits(b) / 2 == FromBits(b[1..]);
    }
  }

  lemma MulBounds(k: int, d: int)
    requires d > 0
    ensures k >= 1 ==> k * d >= d
    ensures k <= -1 ==> k * d <= -d
  {
    if k >= 1 {
      assert (k - 1) * d >= 0;
    } else if k <= -1 {
      assert (-k - 1) * d >= 0;
    }
  }

  lemma DivModUnique(v: int, d: int, q: int, r: int)
    requires d > 0 && v == q * d + r && 0 <= r < d
    ensures v / d == q && v % d == r
  {
    var k := v / d - q;
    assert k * d == r - v % d;
    MulBounds(k, d);
  }

  lemma HalfMod(v: nat, p: nat)
    requires p > 0
    ensures v % (2 * p) == v % 2 + 2 * (v / 2 % p)
  {
    var q, r := v / 2 / p, v / 2 % p;
    assert v / 2 == q * p + r;
    assert v == q * (2 * p) + (2 * r + v % 2);
    DivModUnique(v, 2 * p, q, 2 * r + v % 2);
  }

  /** The low bits of a number are the number modulo a power of two. */
  lemma {:induction false} FromLow(v: nat, w: nat)
    ensures FromBits(LowBits(v, w)) == v % Pow2(w)
  {
    if w > 0 {
      FromLow(v / 2, w - 1);
      HalfMod(v, Pow2(w - 1));
      assert LowBits(v, w)[1..] == LowBits(v / 2, w - 1);
    }
  }

  lemma DoubleProduct(p: nat, x: nat)
    ensures 2 * (p * x) == (2 * p) * x
  {
  }

  lemma FromLowExact(v: nat, w: nat)
    requires v < Pow2(w)
    ensures FromBits(LowBits(v, w)) == v
  {
    FromLow(v, w);
    DivModUnique(v, Pow2(w), 0, v);
  }

  lemma {:induction false} FromConcat(a: Bits, b: Bits)
    ensures FromBits(a + b) == FromBits(a) + Pow2(|a|) * FromBits(b)
  {
    if a == [] {
      assert a + b == b;
    } else {
      FromConcat(a[1..], b);
      Uncons(a, b);
      DoubleProduct(Pow2(|a| - 1), FromBits(b));
    }
  }

  lemma {:induction false} LowPrefix(v: nat, w: nat, n: nat)
    requires n <= w
    ensures LowBits(v, w)[..n] == LowBits(v, n)
  {
    if n > 0 {
      LowPrefix(v / 2, w - 1, n - 1);
      assert LowBits(v, w)[..n] == [v % 2 == 1] + LowBits(v / 2, w - 1)[..n - 1];
    }
  }

  lemma {:induction false} LowSuffix(v: nat, w: nat, n: nat)
    requires n <= w
    ensures LowBits(v, w)[n..] == LowBits(Shr(v, n), w - n)
  {
    if n > 0 {
      LowSuffix(v / 2, w - 1, n - 1);
      assert LowBits(v, w)[n..] == LowBits(v / 2, w - 1)[n - 1..];
    }
  }

  /** The `n` bits from `first` on, by shift and mask. */
  lemma SliceByShift(v: nat, w: nat, first: nat, n: nat)
    requires first + n <= w
    ensures FromBits(LowBits(v, w)[first..first + n]) == Shr(v, first) % Pow2(n)
  {
    LowSuffix(v, w, first);
    LowPrefix(Shr(v, first), w - first, n);
    assert LowBits(v, w)[first..first + n] == LowBits(v, w)[first..][..n];
    FromLow(Shr(v, first), n);
  }

  lemma FromAdjacent(all: Bits, start: nat, m: nat, n: nat)
    requires start + m + n <= |all|
    ensures FromBits(all[start..start + m + n])
            == FromBits(all[start..start + m]) + Pow2(m) * FromBits(all[start + m..start + m + n])
  {
    Adjacent(all, start, m, n);
    FromConcat(all[start..start + m], all[start + m..start + m + n]);
  }

  lemma ModTwice(x: int, d: int)
    requires d > 0
    ensures 0 <= x % d < d && x % d % d == x % d
  {
    DivModUnique(x % d, d, 0, x % d);
  }

  // ----- Bytes -----

  lemma PowAdd(m: nat, n: nat)
    ensures Pow2(m + n) == Pow2(m) * Pow2(n)
  {
    if n > 0 {
      PowAdd(m, n - 1);
    }
  }

  lemma {:induction false} PowMonotone(m: nat, n: nat)
    requires m <= n
    ensures Pow2(m) <= Pow2(n)
    decreases n - m
  {
    if m < n {
      PowMonotone(m, n - 1);
    }
  }

  lemma Pow2Eight()
    ensures Pow2(8) == 256
  {
    assert Pow2(4) == 16;
  }

  lemma PowDouble(n: nat, p: nat)
    requires Pow2(n) == p
    ensures Pow2(n + n) == p * p
  {
    PowAdd(n, n);
  }

  lemma Pow64()
    ensures Pow2(63) == 0x8000_0000_0000_0000 && Pow2(64) == 0x1_0000_0000_0000_0000
  {
    Pow2Eight();
    PowDouble(8, 0x100);
    PowDouble(16, 0x1_0000);
    PowDouble(32, 0x1_0000_0000);
    var n := 63;
    assert Pow2(n + 1) == 2 * Pow2(n);
  }

  /** The byte with the given eight bits. */
  function ByteOf(b: Bits): byte
    requires |b| == 8
  {
    FromBound(b);
    Pow2Eight();
    FromBits(b)
  }

  /** All the bits of a byte string: bit `k` is bit `k % 8` of byte `k / 8`. */
  function BytesBits(buf: seq<byte>): (b: Bits)
    ensures |b| == 8 * |buf|
  {
    if buf == [] then [] else LowBits(buf[0], BYTE) + BytesBits(buf[1..])
  }

  lemma {:induction false} BytesConcat(a: seq<byte>, b: seq<byte>)
    ensures BytesBits(a + b) == BytesBits(a) + BytesBits(b)
  {
    if a == [] {
      assert a + b == b;
    } else {
      BytesConcat(a[1..], b);
      Uncons(a, b);
      Assoc(LowBits(a[0], BYTE), BytesBits(a[1..]), BytesBits(b));
    }
  }

  lemma OneByte(x: byte)
    ensures BytesBits([x]) == LowBits(x, BYTE)
  {
    assert [x][1..] == [];
  }

  lemma BytesSnoc(buf: seq<byte>, x: byte)
    ensures BytesBits(buf + [x]) == BytesBits(buf) + LowBits(x, BYTE)
  {
    BytesConcat(buf, [x]);
    OneByte(x);
  }

  lemma ByteAt(buf: seq<byte>, i: nat)
    requires i < |buf|
    ensures BytesBits(buf) == (BytesBits(buf[..i]) + LowBits(buf[i], BYTE)) + BytesBits(buf[i + 1..])
    ensures BytesBits(buf)[8 * i..8 * i + 8] == LowBits(buf[i], BYTE)
  {
    Around(buf, i);
    BytesConcat(buf[..i] + [buf[i]], buf[i + 1..]);
    BytesConcat(buf[..i], [buf[i]]);
    OneByte(buf[i]);
    Middle(BytesBits(buf[..i]), LowBits(buf[i], BYTE), BytesBits(buf[i + 1..]));
  }

  lemma ByteWritten(buf: seq<byte>, i: nat, x: byte)
    requires i < |buf|
    ensures BytesBits(buf[i := x]) == (BytesBits(buf)[..8 * i] + LowBits(x, BYTE)) + BytesBits(buf)[8 * i + 8..]
  {
    ByteAt(buf, i);
    ByteAt(buf[i := x], i);
    Middle(BytesBits(buf[..i]), LowBits(buf[i], BYTE), BytesBits(buf[i + 1..]));
    UpdateParts(buf, i, x);
  }

  lemma UpdateParts<T>(s: seq<T>, i: nat, x: T)
    requires i < |s|
    ensures s[i := x][..i] == s[..i] && s[i := x][i + 1..] == s[i + 1..] && s[i := x][i] == x
  {
  }

  lemma LowInjective(x: nat, y: nat, w: nat)
    requires x < Pow2(w) && y < Pow2(w) && LowBits(x, w) == LowBits(y, w)
    ensures x == y
  {
    FromLowExact(x, w);
    FromLowExact(y, w);
  }

  /** A byte string is determined by its bits. */
  lemma BytesInjective(a: seq<byte>, b: seq<byte>)
    requires BytesBits(a) == BytesBits(b)
    ensures a == b
  {
    assert |a| == |b|;
    Pow2Eight();
    forall i | 0 <= i < |a|
      ensures a[i] == b[i]
    {
      ByteAt(a, i);
      ByteAt(b, i);
      LowInjective(a[i], b[i], 8);
    }
  }
}
