/** The characters that carry bits, six to each, and the checksum of a sentence. */
module AisArmour {
  import opened Wire
  import opened BitStrings
  import opened MsbStrings
  import Ais

  /** The character for six bits: '0'..'W' for the first forty values, '`'..'w' for the rest. */
  function SixBitAscii(v: nat): char
    requires v < 64
  {
    (if v < 40 then 48 + v else 56 + v) as char
  }

  /** The 64 characters in the order of their values. */
  lemma ArmourAlphabet(v: nat)
    requires v < 64
    ensures if v < 40 then SixBitAscii(v) == "0123456789:;<=>?@ABCDEFGHIJKLMNOPQRSTUVW"[v]
            else SixBitAscii(v) == "`abcdefghijklmnopqrstuvw"[v - 40]
  {
  }

  /** The characters of a fragment; the last group is filled up with zero bits. */
  function Armour(b: Bits): (s: string)
    ensures |s| == (|b| + 5) / 6
  {
    if b == [] then ""
    else if |b| < 6 then [SixBitAscii(GroupOf(b + Zeros(6 - |b|)))]
    else [SixBitAscii(GroupOf(b[..6]))] + Armour(b[6..])
  }

  function GroupOf(b: Bits): (v: nat)
    requires |b| == 6
    ensures v < 64
  {
    HighFrom(b);
    Ais.SixtyFour();
    FromHigh(b)
  }

  /** How many bits fill up the last group. */
  function Padding(n: nat): (p: nat)
    ensures p < 6
  {
    if n == 0 then 0 else if n < 6 then 6 - n else Padding(n - 6)
  }

  /** How a receiver reads a payload: six bits for each character. */
  function Dearmour(s: string): (b: Bits)
    ensures |b| == 6 * |s|
  {
    if s == "" then [] else High(SixBits(s[0]), Ais.GROUP) + Dearmour(s[1..])
  }

  function SixBits(c: char): nat {
    var n := c as int;
    if 48 <= n < 88 then n - 48 else if 96 <= n < 120 then n - 56 else 0
  }

  lemma GroupBack(b: Bits)
    requires |b| == 6
    ensures High(SixBits(SixBitAscii(GroupOf(b))), Ais.GROUP) == b
  {
    HighFrom(b);
    assert SixBits(SixBitAscii(GroupOf(b))) == GroupOf(b);
  }

  lemma DearmourCons(c: char, s: string)
    ensures Dearmour([c] + s) == High(SixBits(c), Ais.GROUP) + Dearmour(s)
  {
    assert ([c] + s)[1..] == s;
  }

  lemma DearmourOne(c: char)
    ensures Dearmour([c]) == High(SixBits(c), Ais.GROUP)
  {
    assert [c][1..] == "" && Dearmour("") == [];
  }

  lemma ArmourTail(b: Bits, group: Bits)
    requires 0 < |b| < 6 && group == b + Zeros(6 - |b|)
    ensures Dearmour(Armour(b)) == group
  {
    var c := SixBitAscii(GroupOf(group));
    assert Armour(b) == [c];
    DearmourOne(c);
    GroupBack(group);
  }

  /** De-armouring gives the bits back, followed by the padding. */
  lemma {:induction false} ArmourBack(b: Bits)
    ensures Dearmour(Armour(b)) == b + Zeros(Padding(|b|))
  {
    if b == [] {
      assert Zeros(0) == [];
    } else if |b| < 6 {
      ArmourTail(b, b + Zeros(6 - |b|));
    } else {
      var front, rest := b[..6], b[6..];
      GroupBack(front);
      ArmourBack(rest);
      DearmourCons(SixBitAscii(GroupOf(front)), Armour(rest));
      Assoc(front, rest, Zeros(Padding(|b|)));
      assert b == front + rest;
    }
  }

  // ----- Checksums -----

  function Code(c: char): byte { (c as int) % 0x100 }

  function Xor(a: Bits, b: Bits): (r: Bits)
    requires |a| == |b|
    ensures |r| == |a|
  {
    if a == [] then [] else [a[0] != b[0]] + Xor(a[1..], b[1..])
  }

  function XorBytes(x: byte, y: byte): byte {
    HighFrom(Xor(High(x, 8), High(y, 8)));
    Pow2Eight();
    FromHigh(Xor(High(x, 8), High(y, 8)))
  }

  /** The checksum of a sentence: the exclusive or of its characters. */
  function Checksum(body: string): byte {
    if body == "" then 0 else XorBytes(Checksum(body[..|body| - 1]), Code(body[|body| - 1]))
  }

  function HexDigit(d: nat): char
    requires d < 16
  {
    "0123456789ABCDEF"[d]
  }

  function Hex(x: byte): (s: string)
    ensures |s| == 2
  {
    [HexDigit(x / 16), HexDigit(x % 16)]
  }
}
