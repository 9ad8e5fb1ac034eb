/**
 * The fixed layout of the radio's 65536-byte memory image (thd72.py `mem_format`):
 * record offsets, the bit-packed fields inside a record, and writes to single fields.
 */
module Layout {
  import opened Bytes

  const ImageSize := 0x1_0000
  const BlockSize := 256
  const NumBlocks := 256

  /** flag[1032] and memory[1032]: one flag and one channel record per slot 0..1031. */
  const NumSlots := 1032
  const FlagBase := 0x0C00
  const FlagSize := 2
  const ChannelBase := 0x1500
  const ChannelSize := 16
  /** channel_name[1000] and wx_name[10], 8 characters each. */
  const NameBase := 0x5E00
  const NumNames := 1000
  const WxNameBase := 0x7DE0
  const NumWxNames := 10
  const NameSize := 8

  /** The 256-byte block an image offset falls in. */
  function BlockOf(off: int): (b: int)
    requires 0 <= off < ImageSize
    ensures 0 <= b < NumBlocks && b * BlockSize <= off < (b + 1) * BlockSize
  {
    off / BlockSize
  }

  /** A record of `size` bytes at `off` lies inside one 256-byte block. */
  predicate InOneBlock(off: int, size: int)
    requires 0 <= off && 0 < size && off + size <= ImageSize
  {
    BlockOf(off) == BlockOf(off + size - 1)
  }

  function FlagOffset(n: int): (off: int)
    requires 0 <= n < NumSlots
    ensures FlagBase <= off && off + FlagSize <= ChannelBase && InOneBlock(off, FlagSize)
  {
    FlagBase + FlagSize * n
  }

  function ChannelOffset(n: int): (off: int)
    requires 0 <= n < NumSlots
    ensures ChannelBase <= off && off + ChannelSize <= NameBase && InOneBlock(off, ChannelSize)
  {
    ChannelBase + ChannelSize * n
  }

  function NameOffset(i: int): (off: int)
    requires 0 <= i < NumNames
    ensures NameBase <= off && off + NameSize <= WxNameBase && InOneBlock(off, NameSize)
  {
    NameBase + NameSize * i
  }

  function WxNameOffset(i: int): (off: int)
    requires 0 <= i < NumWxNames
    ensures WxNameBase <= off && off + NameSize <= ImageSize && InOneBlock(off, NameSize)
  {
    WxNameBase + NameSize * i
  }

  predicate IsImage(img: seq<byte>) {
    |img| == ImageSize
  }

  // ---- Flag record: `u8 disabled:7, unknown0:1; u8 skip;` (first field in the high bits) ----

  function Disabled(img: seq<byte>, n: int): (d: int)
    requires IsImage(img) && 0 <= n < NumSlots
    ensures 0 <= d < 128 && 2 * d <= img[FlagOffset(n)] <= 2 * d + 1
  {
    img[FlagOffset(n)] / 2
  }

  function SkipCode(img: seq<byte>, n: int): byte
    requires IsImage(img) && 0 <= n < NumSlots
  {
    img[FlagOffset(n) + 1]
  }

  /** Assigning `flag.disabled`: the low `unknown0` bit and every other byte are kept. */
  function SetDisabled(img: seq<byte>, n: int, v: int): (r: seq<byte>)
    requires IsImage(img) && 0 <= n < NumSlots && 0 <= v < 128
    ensures IsImage(r) && Disabled(r, n) == v
    ensures r[FlagOffset(n)] % 2 == img[FlagOffset(n)] % 2
    ensures r == img[FlagOffset(n) := r[FlagOffset(n)]]
  {
    img[FlagOffset(n) := 2 * v + img[FlagOffset(n)] % 2]
  }

  /** Assigning `flag.skip`. */
  function SetSkipCode(img: seq<byte>, n: int, v: byte): (r: seq<byte>)
    requires IsImage(img) && 0 <= n < NumSlots
    ensures IsImage(r) && SkipCode(r, n) == v
    ensures r == img[FlagOffset(n) + 1 := r[FlagOffset(n) + 1]]
  {
    img[FlagOffset(n) + 1 := v]
  }

  // ---- Channel record, 16 bytes:
  //      0-3 freq (ul32), 4 unknown1, 5 mode, 6 tone_mode:4 / duplex:4, 7 rtone,
  //      8 ctone, 9 dtcs, 10 cross_mode, 11-14 offset (ul32), 15 unknown2 ----

  const FreqAt := 0
  const ModeAt := 5
  const ToneDuplexAt := 6
  const RtoneAt := 7
  const CtoneAt := 8
  const DtcsAt := 9
  const CrossAt := 10
  const OffsetAt := 11

  /** A byte of channel record `n`. */
  function ChannelByte(img: seq<byte>, n: int, at: int): byte
    requires IsImage(img) && 0 <= n < NumSlots && 0 <= at < ChannelSize
  {
    img[ChannelOffset(n) + at]
  }

  /** `tone_mode:4`, read from byte 6 of a channel record: the byte's high four bits. */
  function ToneModeNibble(b: byte): (t: int)
    ensures 0 <= t < 16 && 16 * t <= b < 16 * t + 16
  {
    b / 16
  }

  /** `duplex:4`, read from byte 6 of a channel record: the byte's low four bits. */
  function DuplexNibble(b: byte): (d: int)
    ensures 0 <= d < 16 && d == b - 16 * ToneModeNibble(b)
  {
    b % 16
  }

  /** Assigning `tone_mode` and `duplex`: the byte 6 that holds both nibbles. */
  function ToneDuplexByte(t: int, d: int): (b: byte)
    requires 0 <= t < 16 && 0 <= d < 16
  {
    16 * t + d
  }

  /** The two nibbles read back from the byte that assigning them writes. */
  lemma NibblesOfToneDuplexByte(t: int, d: int)
    requires 0 <= t < 16 && 0 <= d < 16
    ensures ToneModeNibble(ToneDuplexByte(t, d)) == t && DuplexNibble(ToneDuplexByte(t, d)) == d
  {
  }

  /** Writing back the two nibbles read from byte 6 restores the byte. */
  lemma ToneDuplexByteOf(b: byte)
    ensures ToneDuplexByte(ToneModeNibble(b), DuplexNibble(b)) == b
  {
  }

  // ---- Writing back the value a field already holds leaves the image as it was ----

  lemma SetDisabledSame(img: seq<byte>, n: int)
    requires IsImage(img) && 0 <= n < NumSlots
    ensures SetDisabled(img, n, Disabled(img, n)) == img
  {
  }

  lemma SetSkipCodeSame(img: seq<byte>, n: int)
    requires IsImage(img) && 0 <= n < NumSlots
    ensures SetSkipCode(img, n, SkipCode(img, n)) == img
  {
  }
}
