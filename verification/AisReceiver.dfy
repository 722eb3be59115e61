/** A receiver of AIS sentences, which knows nothing but the text. */
module AisReceiver {
  import opened Wire
  import opened BitStrings
  import opened MsbStrings
  import opened Text
  import opened AisArmour

  // ----- Cutting a text -----

  /** The pieces of a text between separators. */
  function Split(s: string, sep: char): (pieces: seq<string>)
    ensures pieces != []
  {
    if s == "" then [""]
    else
      var rest := Split(s[1..], sep);
      if s[0] == sep then [""] + rest else [[s[0]] + rest[0]] + rest[1..]
  }

  lemma {:induction false} SplitWhole(s: string, sep: char)
    requires Without(s, sep)
    ensures Split(s, sep) == [s]
  {
    if s != "" {
      SplitWhole(s[1..], sep);
      assert [s[0]] + s[1..] == s;
    }
  }

  lemma {:induction false} SplitFirst(a: string, x: string, sep: char)
    requires Without(a, sep)
    ensures Split(a + ([sep] + x), sep) == [a] + Split(x, sep)
  {
    if a == "" {
      assert a + ([sep] + x) == [sep] + x;
      assert ([sep] + x)[1..] == x;
    } else {
      SplitFirst(a[1..], x, sep);
      Uncons(a, [sep] + x);
      assert [a[0]] + a[1..] == a;
      assert ([a[1..]] + Split(x, sep))[1..] == Split(x, sep);
    }
  }

  lemma {:induction false} SplitJoin(xs: seq<string>, sep: char)
    requires xs != [] && AllWithout(xs, sep)
    ensures Split(Join(xs, sep), sep) == xs
  {
    if |xs| == 1 {
      SplitWhole(xs[0], sep);
    } else {
      SplitJoin(xs[1..], sep);
      SplitFirst(xs[0], Join(xs[1..], sep), sep);
    }
  }

  // ----- Numbers -----

  predicate IsDecimal(s: string) { s != "" && forall i :: 0 <= i < |s| ==> '0' <= s[i] <= '9' }

  function DecimalOf(s: string): nat
    requires forall i :: 0 <= i < |s| ==> '0' <= s[i] <= '9'
  {
    if s == "" then 0 else 10 * DecimalOf(s[..|s| - 1]) + (s[|s| - 1] as int - '0' as int)
  }

  /** The text is a decimal numeral of `n`. */
  predicate Reads(s: string, n: nat) { IsDecimal(s) && DecimalOf(s) == n }

  lemma DigitReads(d: nat)
    requires d < 10
    ensures Digit(d) as int - '0' as int == d
  {
  }

  lemma {:induction false} DigitsRead(n: nat)
    ensures Reads(Digits(n), n)
  {
    if n < 10 {
      DigitReads(n);
      assert Digits(n)[..0] == "";
    } else {
      DigitsRead(n / 10);
      DigitReads(n % 10);
      assert Digits(n)[..|Digits(n)| - 1] == Digits(n / 10);
    }
  }

  predicate IsHex(c: char) { '0' <= c <= '9' || 'A' <= c <= 'F' }

  function HexValue(c: char): nat
    requires IsHex(c)
  {
    if c <= '9' then c as int - '0' as int else 10 + (c as int - 'A' as int)
  }

  lemma HexDigitReads(d: nat)
    requires d < 16
    ensures IsHex(HexDigit(d)) && HexValue(HexDigit(d)) == d
  {
  }

  lemma HexReads(x: byte)
    ensures var h := Hex(x); IsHex(h[0]) && IsHex(h[1]) && 16 * HexValue(h[0]) + HexValue(h[1]) == x
  {
    HexDigitReads(x / 16);
    HexDigitReads(x % 16);
  }

  // ----- Checksums -----

  function BitOf(n: nat, k: nat): bool { Shr(n, k) % 2 == 1 }

  /** An odd number of the characters have bit `k`. */
  function OddOnes(s: string, k: nat): bool {
    if s == "" then false else OddOnes(s[..|s| - 1], k) != BitOf(s[|s| - 1] as int % 0x100, k)
  }

  /** The two digits are the exclusive or of the characters: each bit says whether an odd number of
      them have it. */
  predicate ChecksOut(body: string, digits: string) {
    && |digits| == 2 && IsHex(digits[0]) && IsHex(digits[1])
    && forall k: nat :: k < 8 ==> BitOf(16 * HexValue(digits[0]) + HexValue(digits[1]), k) == OddOnes(body, k)
  }

  lemma {:induction false} XorAt(a: Bits, b: Bits, i: nat)
    requires i < |a| == |b|
    ensures Xor(a, b)[i] == (a[i] != b[i])
  {
    if i > 0 {
      XorAt(a[1..], b[1..], i - 1);
    }
  }

  lemma XorBytesBit(x: byte, y: byte, k: nat, w: nat)
    requires k < w && w == 8
    ensures BitOf(XorBytes(x, y), k) == (BitOf(x, k) != BitOf(y, k))
  {
    var r := Xor(High(x, w), High(y, w));
    HighFrom(r);
    HighAt(XorBytes(x, y), w, w - 1 - k);
    HighAt(x, w, w - 1 - k);
    HighAt(y, w, w - 1 - k);
    XorAt(High(x, w), High(y, w), w - 1 - k);
  }

  lemma {:induction false} ShrZero(k: nat)
    ensures Shr(0, k) == 0
  {
    if k > 0 {
      ShrZero(k - 1);
    }
  }

  lemma {:induction false} ChecksumBit(body: string, k: nat)
    requires k < 8
    ensures BitOf(Checksum(body), k) == OddOnes(body, k)
  {
    if body == "" {
      ShrZero(k);
    } else {
      var front, last := body[..|body| - 1], body[|body| - 1];
      ChecksumBit(front, k);
      XorBytesBit(Checksum(front), Code(last), k, 8);
    }
  }

  lemma ChecksumChecks(body: string)
    ensures ChecksOut(body, Hex(Checksum(body)))
  {
    HexReads(Checksum(body));
    forall k: nat | k < 8
      ensures BitOf(Checksum(body), k) == OddOnes(body, k)
    {
      ChecksumBit(body, k);
    }
  }

  // ----- Sentences -----

  /** The line is a sentence: talker, number of sentences, its own number, sequence id, channel,
      payload, and padding with a checksum of all that is between '!' and '*'. */
  predicate SentenceOk(line: string, talker: string, total: nat, number: nat, id: Option<nat>, channel: char, padding: nat) {
    var fields := Split(line, ',');
    && |fields| == 7
    && fields[0] == "!AI" + talker && Reads(fields[1], total) && Reads(fields[2], number)
    && (if id.Some? then Reads(fields[3], id.value) else fields[3] == "")
    && fields[4] == [channel] && |fields[5]| <= 60
    && |fields[6]| == 5 && Reads(fields[6][..1], padding) && fields[6][1] == '*' && fields[6][4] == '\r'
    && |line| >= 5 && ChecksOut(line[1..|line| - 4], fields[6][2..4])
  }

  function PayloadOf(line: string): string {
    var fields := Split(line, ',');
    if |fields| == 7 then fields[5] else ""
  }

  /** The bits that the payloads of the lines carry. */
  function BitsOf(lines: seq<string>): Bits {
    if lines == [] then [] else Dearmour(PayloadOf(lines[0])) + BitsOf(lines[1..])
  }

  /** The lines are the sentences of a message, numbered from 1 on; only the last is padded, and the
      payloads carry the bits `b` and that padding. */
  predicate MessageOk(lines: seq<string>, talker: string, channel: char, id: Option<nat>, b: Bits, padding: nat) {
    && (forall k :: 0 <= k < |lines| ==>
          SentenceOk(lines[k], talker, |lines|, k + 1, id, channel, if k == |lines| - 1 then padding else 0))
    && padding < 6 && padding <= |BitsOf(lines)| && BitsOf(lines)[..|BitsOf(lines)| - padding] == b
  }

  /** The text is a message with contents `b`: as many sentences as 360 bits each take, every one on a
      line of its own. */
  ghost predicate Received(text: string, talker: string, channel: char, id: Option<nat>, b: Bits) {
    var lines := Split(text, '\n');
    var n := |lines| - 1;
    && lines[n] == "" && n == (|b| + 359) / 360
    && exists padding: nat :: MessageOk(lines[..n], talker, channel, id, b, padding)
  }
}
