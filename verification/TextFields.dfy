/** Texts of fixed width and texts behind a length byte, as the encoder stages them and the
    decoder reads them from the finished payload. */
module TextFields {
  import opened Wire
  import opened BitStrings
  import opened Schema
  import Encode
  import Decode

  lemma ByteRun(data: seq<byte>, at: nat, run: seq<byte>, k: nat, n: nat)
    requires at + |run| <= |data| && data[at..at + |run|] == run && k + n <= |run|
    ensures data[at + k..at + k + n] == run[k..k + n]
    ensures k < |run| ==> data[at + k] == run[k]
  {
    SliceOfSlice(data, at, |run|, k, n);
    assert k < |run| ==> data[at..at + |run|][k] == data[at + k];
  }

  /** The bytes of `run` are those of the payload from `at` on, as they are for what was staged
      in a field that starts there. */
  ghost predicate Lies(data: seq<byte>, at: nat, run: seq<byte>) {
    forall k: nat :: k < |run| ==> at + k < |data| && data[at + k] == run[k]
  }

  lemma LiesSlice(data: seq<byte>, at: nat, run: seq<byte>)
    requires run != [] && Lies(data, at, run)
    ensures at + |run| <= |data| && data[at..at + |run|] == run
  {
    var last := |run| - 1;
    assert data[at + last] == run[last];
  }

  // ----- Texts behind a length byte -----

  /** The width that a decoder is given for a field at byte `at`: its own, or what is left. */
  function WidthAt(f: FieldInfo, data: seq<byte>, at: nat): nat {
    if f.bitLength.Some? then f.bitLength.value else Decode.WholeBytesLeft(data, 8 * at)
  }

  lemma LzStaged(f: FieldInfo, t: seq<byte>, run: seq<byte>)
    requires Encode.StageStringLz(f, Encode.Text(t)) == Encode.Ok(Encode.Bytes(run))
    ensures |run| > |t| && run[0] == |t| && run[1..1 + |t|] == t
    ensures f.bitLength.Some? ==> |run| == f.bitLength.value / 8
  {
  }

  lemma LzReads(data: seq<byte>, at: nat, bits: nat, t: seq<byte>)
    requires at + 1 + |t| <= |data| && data[at] == |t| && data[at + 1..at + 1 + |t|] == t
    requires bits == 0 || bits / 8 >= 1 + |t|
    ensures Decode.DecodeLz(data, 8 * at, bits) == Decode.Shown(t)
  {
  }

  lemma LzDecodes(f: FieldInfo, data: seq<byte>, at: nat, t: seq<byte>, run: seq<byte>)
    requires Encode.StageStringLz(f, Encode.Text(t)) == Encode.Ok(Encode.Bytes(run))
    requires at + |run| <= |data| && data[at..at + |run|] == run
    ensures Decode.DecodeLz(data, 8 * at, WidthAt(f, data, at)) == Decode.Shown(t)
  {
    LzStaged(f, t, run);
    ByteRun(data, at, run, 0, 1);
    ByteRun(data, at, run, 1, |t|);
    LzReads(data, at, WidthAt(f, data, at), t);
  }

  lemma DecodesLz(f: FieldInfo, data: seq<byte>, at: nat)
    requires f.fieldType == Some(StringLz)
    ensures Decode.DecodeOne(f, data, 8 * at)
            == Some((Decode.DecodeLz(data, 8 * at, WidthAt(f, data, at)), WidthAt(f, data, at)))
  {
  }

  /** Any text that is staged in a length-prefixed field decodes, wherever in a payload its bytes
      lie and whatever follows them, to the text without its trailing padding characters. */
  lemma LzRoundTrip(f: FieldInfo, data: seq<byte>, at: nat, t: seq<byte>, run: seq<byte>)
    requires f.fieldType == Some(StringLz) && Encode.StageValue(f, Encode.Text(t)) == Encode.Ok(Encode.Bytes(run))
    requires Lies(data, at, run)
    ensures Decode.DecodeOne(f, data, 8 * at) == Some((Decode.Shown(t), WidthAt(f, data, at)))
  {
    LzStaged(f, t, run);
    LiesSlice(data, at, run);
    LzDecodes(f, data, at, t, run);
    DecodesLz(f, data, at);
  }

  // ----- Texts of fixed width -----

  lemma {:induction false} UntilNulPadded(t: seq<byte>, z: seq<byte>)
    requires forall k :: 0 <= k < |z| ==> z[k] == 0
    ensures Decode.UntilNul(t + z) == Decode.UntilNul(t)
  {
    if t == [] {
      assert t + z == z;
    } else {
      Uncons(t, z);
      if t[0] != 0 {
        UntilNulPadded(t[1..], z);
      }
    }
  }

  lemma FixStaged(f: FieldInfo, t: seq<byte>, run: seq<byte>)
    requires Encode.StageStringFix(f, Encode.Text(t)) == Encode.Ok(Encode.Bytes(run))
    ensures f.bitLength.Some? && |t| <= |run| == f.bitLength.value / 8 && run == t + Encode.Repeat(0, |run| - |t|)
  {
  }

  lemma FixReads(data: seq<byte>, at: nat, first: nat, bits: nat, run: seq<byte>)
    requires at + |run| <= |data| && data[at..at + |run|] == run
    requires bits / 8 == |run| && bits % 8 == 0 && first / 8 == at && first % 8 == 0
    ensures Decode.DecodeFix(data, first, bits) == Decode.TextValue(Decode.Trim(Decode.UntilNul(run)))
  {
  }

  lemma FixDecodes(f: FieldInfo, data: seq<byte>, at: nat, t: seq<byte>, run: seq<byte>)
    requires Encode.StageStringFix(f, Encode.Text(t)) == Encode.Ok(Encode.Bytes(run)) && f.bitLength.value % 8 == 0
    requires at + |run| <= |data| && data[at..at + |run|] == run
    ensures Decode.DecodeFix(data, 8 * at, f.bitLength.value) == Decode.TextValue(Decode.Trim(Decode.UntilNul(t)))
  {
    FixStaged(f, t, run);
    FixReads(data, at, 8 * at, f.bitLength.value, run);
    UntilNulPadded(t, Encode.Repeat(0, |run| - |t|));
  }

  /** Any text that is staged in a fixed-width field of whole bytes decodes to the text up to its
      first NUL, without its trailing padding bytes. */
  lemma FixRoundTrip(f: FieldInfo, data: seq<byte>, at: nat, t: seq<byte>, run: seq<byte>)
    requires f.fieldType == Some(StringFix) && Encode.StageValue(f, Encode.Text(t)) == Encode.Ok(Encode.Bytes(run))
    requires Lies(data, at, run) && f.bitLength.value % 8 == 0
    ensures Decode.DecodeOne(f, data, 8 * at) == Some((Decode.TextValue(Decode.Trim(Decode.UntilNul(t))), 8 * |run|))
  {
    FixStaged(f, t, run);
    if run == [] {
      assert t == [] && Decode.UntilNul(t) == [] && Decode.Trim(t) == [];
      NoText(data, at);
    } else {
      LiesSlice(data, at, run);
      FixDecodes(f, data, at, t, run);
    }
  }

  lemma NoText(data: seq<byte>, at: nat)
    ensures Decode.DecodeFix(data, 8 * at, 0) == Decode.NotAvailable
  {
    if at <= |data| {
      assert data[at..at] == [];
    }
  }
}
