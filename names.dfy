/** The 8-character name fields (`char name[8]`), padded with 0xFF in the image. */
module Names {
  import opened Bytes
  import opened Layout

  const Pad: byte := 0xFF

  /** `name[:8]` of the name handed to `set_channel_name`. */
  function Truncate(name: seq<byte>): (t: seq<byte>)
    ensures |t| <= NameSize && |t| <= |name| && t == name[..|t|]
    ensures |name| <= NameSize ==> t == name
  {
    if |name| <= NameSize then name else name[..NameSize]
  }

  /** `(name[:8] + '\xff' * 8)[:8]`: the 8 bytes stored for a name. */
  function EncodeName(name: seq<byte>): (b: seq<byte>)
    ensures |b| == NameSize
    ensures forall i :: 0 <= i < NameSize ==> b[i] == if i < |name| then name[i] else Pad
  {
    var t := Truncate(name);
    t + seq(NameSize - |t|, _ => Pad)
  }

  /** `(str(field) + '\xff')[:index('\xff')].rstrip()`: the text before the first 0xFF, right-stripped. */
  function DecodeName(b: seq<byte>): (name: seq<byte>)
    ensures |name| <= |b| && name == b[..|name|]
    ensures Pad !in name
    ensures name == [] || !IsSpace(name[|name| - 1])
  {
    RStrip(UpTo(b, Pad))
  }

  /** Setting then getting a name yields its first 8 bytes cut at the first 0xFF and right-stripped. */
  lemma {:induction false} DecodeEncodeName(name: seq<byte>)
    ensures DecodeName(EncodeName(name)) == RStrip(UpTo(Truncate(name), Pad))
  {
    var t := Truncate(name);
    var b := EncodeName(name);
    assert b == t + seq(NameSize - |t|, _ => Pad);
    UpToPadded(t, seq(NameSize - |t|, _ => Pad));
  }

  /** Padding after the text does not change where the cut at 0xFF falls. */
  lemma {:induction false} UpToPadded(t: seq<byte>, pad: seq<byte>)
    requires forall i :: 0 <= i < |pad| ==> pad[i] == Pad
    ensures UpTo(t + pad, Pad) == UpTo(t, Pad)
  {
    if t == [] {
      assert pad == [] || pad[0] == Pad;
    } else {
      assert (t + pad)[0] == t[0];
      if t[0] != Pad {
        assert (t + pad)[1..] == t[1..] + pad;
        UpToPadded(t[1..], pad);
      }
    }
  }

  /** A name the radio can hold exactly: at most 8 bytes, no 0xFF, no trailing whitespace. */
  predicate StorableName(name: seq<byte>) {
    |name| <= NameSize && Pad !in name && (name == [] || !IsSpace(name[|name| - 1]))
  }

  /** A storable name survives being set and read back unchanged. */
  lemma StorableNameRoundTrip(name: seq<byte>)
    requires StorableName(name)
    ensures DecodeName(EncodeName(name)) == name
  {
    DecodeEncodeName(name);
    assert UpTo(name, Pad) == name;
  }

  /** A stored field in the form `set_channel_name` writes: text, then 0xFF to the end, no whitespace before the 0xFF. */
  predicate CanonicalField(b: seq<byte>) {
    var k := |UpTo(b, Pad)|;
    (forall i :: k <= i < |b| ==> b[i] == Pad) && (k == 0 || !IsSpace(b[k - 1]))
  }

  /** Reading a field and writing the name back restores its bytes exactly when the field is canonical. */
  lemma EncodeDecodeName(b: seq<byte>)
    requires |b| == NameSize
    ensures EncodeName(DecodeName(b)) == b <==> CanonicalField(b)
  {
    var u := UpTo(b, Pad);
    var name := DecodeName(b);
    var e := EncodeName(name);
    if CanonicalField(b) {
      assert name == u;
      forall i | 0 <= i < NameSize ensures e[i] == b[i] {
        if i < |u| { assert b[i] == u[i]; }
      }
    }
    if e == b {
      assert |name| <= |u|;
      forall i | |name| <= i < NameSize ensures b[i] == Pad {
        assert e[i] == Pad;
      }
      assert |name| == |u|;
    }
  }
}
