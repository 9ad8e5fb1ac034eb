/** Bytes, the little-endian integer fields of the image and the Python string helpers the driver uses. */
module Bytes {

  type byte = x: int | 0 <= x < 256

  /** Python 2 `str.isspace` on one byte: space, tab, line feed, vertical tab, form feed, carriage return. */
  predicate IsSpace(c: byte) {
    c == 0x20 || 0x09 <= c <= 0x0D
  }

  /** `s.rstrip()`: drops trailing whitespace and nothing else. */
  function RStrip(s: seq<byte>): (r: seq<byte>)
    ensures |r| <= |s| && r == s[..|r|]
    ensures r == [] || !IsSpace(r[|r| - 1])
    ensures forall i :: |r| <= i < |s| ==> IsSpace(s[i])
  {
    if |s| > 0 && IsSpace(s[|s| - 1]) then RStrip(s[..|s| - 1]) else s
  }

  /** `s.lstrip()`: drops leading whitespace and nothing else. */
  function LStrip(s: seq<byte>): (r: seq<byte>)
    ensures |r| <= |s| && r == s[|s| - |r|..]
    ensures r == [] || !IsSpace(r[0])
    ensures forall i :: 0 <= i < |s| - |r| ==> IsSpace(s[i])
  {
    if |s| > 0 && IsSpace(s[0]) then LStrip(s[1..]) else s
  }

  /** `s.strip()`. */
  function Strip(s: seq<byte>): (r: seq<byte>)
    ensures |r| <= |s|
    ensures r == [] || (!IsSpace(r[0]) && !IsSpace(r[|r| - 1]))
  {
    LStrip(RStrip(s))
  }

  predicate AllSpace(s: seq<byte>) {
    forall i :: 0 <= i < |s| ==> IsSpace(s[i])
  }

  /** Stripping a text surrounded by whitespace gives back exactly that text. */
  lemma StripPadded(lead: seq<byte>, core: seq<byte>, trail: seq<byte>)
    requires AllSpace(lead) && AllSpace(trail)
    requires core == [] || (!IsSpace(core[0]) && !IsSpace(core[|core| - 1]))
    ensures Strip(lead + core + trail) == core
  {
    var s := lead + core + trail;
    var n := |lead| + |core|;
    assert forall i :: n <= i < |s| ==> IsSpace(s[i]);
    var r := RStrip(s);
    if core == [] {
      assert AllSpace(s);
      assert r == [];
    } else {
      assert !IsSpace(s[n - 1]);
      assert |r| == n;
      assert r == lead + core;
      assert !IsSpace(r[|lead|]);
      assert forall i :: 0 <= i < |lead| ==> IsSpace(r[i]);
      assert |LStrip(r)| == |core|;
    }
  }

  /** `s[:s.index(stop)]` when `stop` occurs, `s` itself otherwise. */
  function UpTo(s: seq<byte>, stop: byte): (r: seq<byte>)
    ensures |r| <= |s| && r == s[..|r|]
    ensures stop !in r
    ensures |r| < |s| ==> s[|r|] == stop
  {
    if s == [] || s[0] == stop then [] else [s[0]] + UpTo(s[1..], stop)
  }

  /** The cut falls at the first occurrence of `stop`. */
  lemma {:induction false} UpToFirst(s: seq<byte>, stop: byte, k: int)
    requires 0 <= k < |s| && s[k] == stop && stop !in s[..k]
    ensures UpTo(s, stop) == s[..k]
  {
    if k > 0 {
      assert s[0] == s[..k][0];
      assert s[1..][..k - 1] == s[..k][1..];
      UpToFirst(s[1..], stop, k - 1);
    }
  }

  /** A little-endian unsigned 16-bit value (struct format "<H"). */
  function Le16(lo: byte, hi: byte): (v: int)
    ensures 0 <= v < 0x10000
  {
    lo as int + 256 * (hi as int)
  }

  /** The two bytes `struct.pack("<H", v)` produces. */
  function Le16Bytes(v: int): (b: seq<byte>)
    requires 0 <= v < 0x10000
    ensures |b| == 2 && Le16(b[0], b[1]) == v
  {
    [v % 256, v / 256]
  }

  /** Two 16-bit fields that decode to the same value hold the same bytes. */
  lemma Le16Injective(lo: byte, hi: byte, lo': byte, hi': byte)
    requires Le16(lo, hi) == Le16(lo', hi')
    ensures lo == lo' && hi == hi'
  {
    assert lo == Le16(lo, hi) % 256 && lo' == Le16(lo', hi') % 256;
  }

  /** A little-endian unsigned 32-bit field (`ul32`). */
  function Le32(b: seq<byte>): (v: int)
    requires |b| == 4
    ensures 0 <= v < 0x1_0000_0000
  {
    b[0] as int + 256 * (b[1] as int) + 0x1_0000 * (b[2] as int) + 0x100_0000 * (b[3] as int)
  }

  /** The four bytes stored for a 32-bit value. */
  function Le32Bytes(v: int): (b: seq<byte>)
    requires 0 <= v < 0x1_0000_0000
    ensures |b| == 4 && Le32(b) == v
  {
    var q1 := v / 256;
    var q2 := q1 / 256;
    var q3 := q2 / 256;
    [v % 256, q1 % 256, q2 % 256, q3]
  }

  /** Re-encoding a decoded 32-bit field gives back the same four bytes. */
  lemma Le32BytesOfLe32(b: seq<byte>)
    requires |b| == 4
    ensures Le32Bytes(Le32(b)) == b
  {
    var v := Le32(b);
    var q1 := b[1] as int + 256 * (b[2] as int) + 0x1_0000 * (b[3] as int);
    var q2 := b[2] as int + 256 * (b[3] as int);
    assert v == b[0] as int + 256 * q1;
    assert v / 256 == q1 && v % 256 == b[0];
    assert q1 == b[1] as int + 256 * q2;
    assert q1 / 256 == q2 && q1 % 256 == b[1];
    assert q2 / 256 == b[3] && q2 % 256 == b[2];
  }

  /** `s` with the bytes `b` written over it from position `off` on. */
  function Splice(s: seq<byte>, off: int, b: seq<byte>): (r: seq<byte>)
    requires 0 <= off && off + |b| <= |s|
    ensures |r| == |s| && r[off..off + |b|] == b
    ensures r[..off] == s[..off] && r[off + |b|..] == s[off + |b|..]
  {
    s[..off] + b + s[off + |b|..]
  }

  /** One byte of a spliced sequence. */
  lemma SpliceAt(s: seq<byte>, off: int, b: seq<byte>, i: int)
    requires 0 <= off && off + |b| <= |s| && 0 <= i < |s|
    ensures Splice(s, off, b)[i] == if off <= i < off + |b| then b[i - off] else s[i]
  {
    var r := Splice(s, off, b);
    if i < off {
      assert r[i] == r[..off][i];
    } else if i < off + |b| {
      assert r[i] == r[off..off + |b|][i - off];
    } else {
      assert r[i] == r[off + |b|..][i - off - |b|];
    }
  }

  /** A range that does not meet the spliced one keeps its bytes. */
  lemma SpliceOutside(s: seq<byte>, off: int, b: seq<byte>, lo: int, hi: int)
    requires 0 <= off && off + |b| <= |s| && 0 <= lo <= hi <= |s|
    requires hi <= off || off + |b| <= lo
    ensures Splice(s, off, b)[lo..hi] == s[lo..hi]
  {
    var r := Splice(s, off, b);
    if hi <= off {
      assert r[lo..hi] == r[..off][lo..hi];
    } else {
      assert r[lo..hi] == r[off + |b|..][lo - off - |b|..hi - off - |b|];
    }
  }

  /** Writing the bytes already present changes nothing. */
  lemma SpliceSame(s: seq<byte>, off: int, b: seq<byte>)
    requires 0 <= off && off + |b| <= |s| && s[off..off + |b|] == b
    ensures Splice(s, off, b) == s
  {
    assert s == s[..off] + s[off..off + |b|] + s[off + |b|..];
  }
}
