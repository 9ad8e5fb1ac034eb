/**
 * The channel translator: decoding a memory slot of the image into a chirp Memory
 * (`get_memory`) and the image a `set_memory` call leaves behind.
 */
module Channels {
  import opened Bytes
  import opened Outcomes
  import opened Layout
  import opened Tables
  import opened Names

  /** chirp_common.Memory, with the fields this driver reads or writes. Tone values are those of the tone table. */
  datatype Memory = Memory(
    number: int,
    extdNumber: string,
    empty: bool,
    name: seq<byte>,
    freq: int,
    tmode: ToneMode,
    rtone: int,
    ctone: int,
    dtcs: int,
    duplex: Duplex,
    offset: int,
    mode: Mode,
    skip: string,
    crossMode: string,
    immutable: seq<string>)

  /**
   * What the driver takes from chirp_common: the TONES, DTCS_CODES, CROSS_MODES and
   * SKIP_VALUES tables, and the field values of a freshly made Memory().
   */
  datatype Common = Common(
    tones: seq<int>,
    dtcsCodes: seq<int>,
    crossModes: seq<string>,
    skipValues: seq<string>,
    blank: Memory)

  /** Every table index fits the byte it is stored in; a fresh Memory() is not empty. */
  predicate ValidCommon(c: Common) {
    && |c.tones| <= 256 && |c.dtcsCodes| <= 256
    && |c.crossModes| <= 256 && |c.skipValues| <= 256
    && !c.blank.empty
  }

  /** `get_memory` accepts a slot number or the name of a special location. */
  datatype Location = Slot(n: int) | Special(name: string)

  predicate IsWeather(n: int) {
    1020 <= n < 1030
  }

  /** The range check of get_memory and set_memory, corrected to the 1032 slots the tables hold. */
  function CheckNumber(n: int): (r: Result<int>)
    ensures r.Ok? <==> 0 <= n < NumSlots
    ensures r.Ok? ==> r.value == n
    ensures r.Err? ==> r.error == InvalidLocation
  {
    if n < 0 || n > MaxSpecial then Err(InvalidLocation) else Ok(n)
  }

  /** The range check as written, `number > max(THD72_SPECIAL.values()) + 1`. */
  function CheckNumberAsWritten(n: int): (r: Result<int>)
    ensures r.Ok? <==> 0 <= n <= NumSlots
  {
    if n < 0 || n > MaxSpecial + 1 then Err(InvalidLocation) else Ok(n)
  }

  /** The written check lets exactly one number through that is not a slot of the tables: 1032. */
  lemma AsWrittenAdmitsPastTables(n: int)
    ensures CheckNumberAsWritten(n).Ok? && CheckNumber(n).Err? <==> n == NumSlots
  {
  }

  /** A slot number, or a special name looked up in THD72_SPECIAL, then range-checked. */
  function Resolve(loc: Location): (r: Result<int>)
    ensures r.Ok? ==> 0 <= r.value < NumSlots
    ensures loc.Slot? ==> (r.Ok? <==> 0 <= loc.n < NumSlots) && (r.Ok? ==> r.value == loc.n)
    ensures loc.Special? ==> (r.Ok? <==> SpecialNumber(loc.name).Some?)
    ensures loc.Special? && r.Ok? ==> 1000 <= r.value && SpecialName(r.value) == loc.name
    ensures r.Err? ==> r.error == InvalidLocation
  {
    match loc
    case Slot(n) => CheckNumber(n)
    case Special(name) =>
      match SpecialNumber(name)
      case None => Err(InvalidLocation)
      case Some(n) => CheckNumber(n)
  }

  /** Where slot `n` keeps its name: channel_name for 0..998, wx_name for the weather slots, nowhere else. */
  function NameField(n: int): (r: Option<int>)
    requires 0 <= n
    ensures r.Some? <==> n < 999 || IsWeather(n)
    ensures r.Some? ==> NameBase <= r.value && r.value + NameSize <= ImageSize && InOneBlock(r.value, NameSize)
  {
    if n < 999 then Some(NameOffset(n))
    else if IsWeather(n) then Some(WxNameOffset(n - 1020))
    else None
  }

  /** `get_channel_name`. */
  function GetChannelName(img: seq<byte>, n: int): (name: seq<byte>)
    requires IsImage(img) && 0 <= n
    ensures |name| <= NameSize && Pad !in name
    ensures NameField(n).None? ==> name == []
  {
    match NameField(n)
    case None => []
    case Some(off) => DecodeName(img[off..off + NameSize])
  }

  /** The image after `set_channel_name`: the name field of `n`, if it has one, holds the encoded name. */
  function SetChannelNameImage(img: seq<byte>, n: int, name: seq<byte>): (r: seq<byte>)
    requires IsImage(img) && 0 <= n
    ensures IsImage(r)
    ensures NameField(n).None? ==> r == img
    ensures NameField(n).Some? ==>
      var off := NameField(n).value;
      r == Splice(img, off, EncodeName(name)) && r[off..off + NameSize] == EncodeName(name)
  {
    match NameField(n)
    case None => img
    case Some(off) => Splice(img, off, EncodeName(name))
  }

  /** Two slots never share a name field. */
  lemma NameFieldsDisjoint(n: int, m: int)
    requires 0 <= n && 0 <= m && n != m && NameField(n).Some? && NameField(m).Some?
    ensures NameField(n).value + NameSize <= NameField(m).value || NameField(m).value + NameSize <= NameField(n).value
  {
  }

  /**
   * Reading a name back after `set_channel_name`: the slot yields the name cut to 8 bytes, at its
   * first 0xFF, and right-stripped; a slot without a name field yields nothing.
   */
  lemma GetSetChannelName(img: seq<byte>, n: int, name: seq<byte>)
    requires IsImage(img) && 0 <= n
    ensures GetChannelName(SetChannelNameImage(img, n, name), n) ==
      if NameField(n).Some? then RStrip(UpTo(Truncate(name), Pad)) else []
  {
    if NameField(n).Some? {
      DecodeEncodeName(name);
    }
  }

  /** `set_channel_name` leaves the name of every other slot as it was. */
  lemma SetChannelNameKeepsOthers(img: seq<byte>, n: int, name: seq<byte>, m: int)
    requires IsImage(img) && 0 <= n && 0 <= m && m != n
    ensures GetChannelName(SetChannelNameImage(img, n, name), m) == GetChannelName(img, m)
  {
    if NameField(m).Some? && NameField(n).Some? {
      var off := NameField(m).value;
      NameFieldsDisjoint(n, m);
      SpliceOutside(img, NameField(n).value, EncodeName(name), off, off + NameSize);
    }
  }

  /** The fields a special location's Memory marks immutable. */
  function ImmutableFields(n: int): (fields: seq<string>)
    requires n > 999
    ensures "number" in fields && "bank" in fields && "extd_number" in fields && "cross_mode" in fields
    ensures IsWeather(n) <==> "freq" in fields
    ensures IsWeather(n) ==>
      && "offset" in fields && "tone" in fields && "mode" in fields
      && "tmode" in fields && "ctone" in fields && "skip" in fields
    ensures !IsWeather(n) <==> "name" in fields
  {
    ["number", "bank", "extd_number", "cross_mode"] +
    if IsWeather(n) then ["freq", "offset", "tone", "mode", "tmode", "ctone", "skip"] else ["name"]
  }

  /** The Memory `get_memory` returns for a deleted slot: a fresh Memory with only its number (and special name) set. */
  function EmptyMemory(c: Common, n: int): (m: Memory)
    requires 0 <= n < NumSlots
    ensures m.empty && m.number == n
    ensures n > 999 ==> m.extdNumber == SpecialName(n)
  {
    var created := c.blank.(number := n, empty := true);
    if n > 999 then created.(extdNumber := SpecialName(n)) else created
  }

  /** The values a channel record holds besides `cross_mode`, as `get_memory` decodes them. */
  datatype Channel = Channel(
    freq: int, tmode: ToneMode, rtone: int, ctone: int, dtcs: int,
    duplex: Duplex, offset: int, mode: Mode)

  function ChannelOf(mem: Memory): Channel {
    Channel(mem.freq, mem.tmode, mem.rtone, mem.ctone, mem.dtcs, mem.duplex, mem.offset, mem.mode)
  }

  /** `mem` with its record values replaced by those of `ch`; every other field is kept. */
  function WithChannel(mem: Memory, ch: Channel): (m: Memory)
    ensures ChannelOf(m) == ch
    ensures m.(freq := mem.freq, tmode := mem.tmode, rtone := mem.rtone, ctone := mem.ctone, dtcs := mem.dtcs,
               duplex := mem.duplex, offset := mem.offset, mode := mem.mode) == mem
  {
    mem.(freq := ch.freq, tmode := ch.tmode, rtone := ch.rtone, ctone := ch.ctone, dtcs := ch.dtcs,
         duplex := ch.duplex, offset := ch.offset, mode := ch.mode)
  }

  /**
   * Decoding a 16-byte channel record, in the order `get_memory` reads it: an unknown tone-mode
   * code, a tone or DTCS index past its table, an unknown duplex code or an unknown mode code
   * each fail, the first one met deciding the error.
   */
  function DecodeChannel(rec: seq<byte>, c: Common): (r: Result<Channel>)
    requires |rec| == ChannelSize
    ensures r.Ok? <==>
      && ToneModeOf(ToneModeNibble(rec[ToneDuplexAt])).Some?
      && rec[RtoneAt] < |c.tones| && rec[CtoneAt] < |c.tones| && rec[DtcsAt] < |c.dtcsCodes|
      && DuplexOf(DuplexNibble(rec[ToneDuplexAt])).Some? && ModeOf(rec[ModeAt]).Some?
    ensures r.Err? && ToneModeOf(ToneModeNibble(rec[ToneDuplexAt])).None? ==> r.error == UnknownCode
    ensures r.Ok? ==> 0 <= r.value.freq < 0x1_0000_0000 && 0 <= r.value.offset < 0x1_0000_0000
  {
    var tmode :- Known(ToneModeOf(ToneModeNibble(rec[ToneDuplexAt])));
    var rtone :- Lookup(c.tones, rec[RtoneAt]);
    var ctone :- Lookup(c.tones, rec[CtoneAt]);
    var dtcs :- Lookup(c.dtcsCodes, rec[DtcsAt]);
    var duplex :- Known(DuplexOf(DuplexNibble(rec[ToneDuplexAt])));
    var mode :- Known(ModeOf(rec[ModeAt]));
    Ok(Channel(Le32(rec[FreqAt..FreqAt + 4]), tmode, rtone, ctone, dtcs, duplex,
               Le32(rec[OffsetAt..OffsetAt + 4]), mode))
  }

  /** The 16 bytes of channel record `n`. */
  function Record(img: seq<byte>, n: int): (rec: seq<byte>)
    requires IsImage(img) && 0 <= n < NumSlots
    ensures |rec| == ChannelSize
    ensures forall k :: 0 <= k < ChannelSize ==> rec[k] == ChannelByte(img, n, k)
  {
    img[ChannelOffset(n)..ChannelOffset(n) + ChannelSize]
  }

  /** `get_memory`: the Memory slot `loc` holds in the image. */
  function GetMemory(img: seq<byte>, c: Common, loc: Location): (r: Result<Memory>)
    requires IsImage(img)
    ensures r.Ok? ==> Resolve(loc).Ok? && r.value.number == Resolve(loc).value
    ensures r.Ok? ==> (r.value.empty <==> Disabled(img, r.value.number) == 0x7F || c.blank.empty)
    ensures r.Ok? && ValidCommon(c) ==> (r.value.empty <==> Disabled(img, r.value.number) == 0x7F)
    ensures r == Err(InvalidLocation) <==> Resolve(loc).Err?
    ensures r.Ok? && r.value.number > 999 ==> r.value.extdNumber == SpecialName(r.value.number)
  {
    var n :- Resolve(loc);
    if Disabled(img, n) == 0x7F then
      Ok(EmptyMemory(c, n))
    else
      var created := c.blank.(number := n);
      var mem := if n > 999 then created.(extdNumber := SpecialName(n)) else created;
      var ch :- DecodeChannel(Record(img, n), c);
      var decoded := WithChannel(mem.(name := GetChannelName(img, n)), ch);
      if n < 999 then
        var skip :- Lookup(c.skipValues, SkipCode(img, n));
        var crossMode :- Lookup(c.crossModes, Record(img, n)[CrossAt]);
        Ok(decoded.(skip := skip, crossMode := crossMode))
      else if n > 999 then
        var crossMode :- Lookup(c.crossModes, 0);
        Ok(decoded.(crossMode := crossMode, immutable := ImmutableFields(n)))
      else
        Ok(decoded)
  }

  /** `initialize`: the 16 bytes written over a channel record that is reused after being empty. */
  const InitPattern: seq<byte> :=
    [0x80, 0xC8, 0xB3, 0x08, 0x00, 0x01, 0x00, 0x08, 0x08, 0x00, 0xC0, 0x27, 0x09, 0x00, 0x00, 0xFF]

  /**
   * What the `initialize` pattern holds as a record: 146 MHz, NFM, no tone, simplex, tone index 8,
   * DTCS index 0, cross-mode byte 0xC0 and offset 2343, with 0x00 and 0xFF in the two unnamed bytes.
   * `set_memory` assigns every named field right after, so only bytes 4 and 15 outlive it.
   */
  lemma InitPatternFields()
    ensures |InitPattern| == ChannelSize && InitPattern[4] == 0x00 && InitPattern[15] == 0xFF
    ensures Le32(InitPattern[FreqAt..FreqAt + 4]) == 146000000
    ensures ModeOf(InitPattern[ModeAt]) == Some(NFM)
    ensures ToneModeOf(ToneModeNibble(InitPattern[ToneDuplexAt])) == Some(NoTone)
    ensures DuplexOf(DuplexNibble(InitPattern[ToneDuplexAt])) == Some(Simplex)
    ensures InitPattern[RtoneAt] == InitPattern[CtoneAt] == 8 && InitPattern[DtcsAt] == 0
    ensures InitPattern[CrossAt] == 0xC0 && Le32(InitPattern[OffsetAt..OffsetAt + 4]) == 2343
  {
    assert InitPattern[FreqAt..FreqAt + 4] == [0x80, 0xC8, 0xB3, 0x08];
    assert InitPattern[OffsetAt..OffsetAt + 4] == [0x27, 0x09, 0x00, 0x00];
  }

  /** The record values `set_memory` can store: 32-bit frequency and offset, values listed in the tables. */
  predicate RecordEncodable(c: Common, mem: Memory) {
    && 0 <= mem.freq < 0x1_0000_0000 && 0 <= mem.offset < 0x1_0000_0000
    && mem.rtone in c.tones && mem.ctone in c.tones && mem.dtcs in c.dtcsCodes
    && mem.crossMode in c.crossModes
  }

  /** A Memory whose values `set_memory` can store: its record values, and for 0..998 its skip value. */
  predicate Encodable(c: Common, mem: Memory) {
    RecordEncodable(c, mem) && (mem.number < 999 ==> mem.skip in c.skipValues)
  }

  /** `set_memory` goes on to encode the record fields: a valid slot, not a weather slot, not deleted. */
  predicate EncodesRecord(mem: Memory) {
    0 <= mem.number < NumSlots && !IsWeather(mem.number) && !mem.empty
  }

  /** The bytes `set_memory` may write: the name field of a weather slot; otherwise the flag record, and unless deleting, the channel record and (for 0..998) the name field. */
  predicate Written(mem: Memory, i: int)
    requires 0 <= mem.number < NumSlots
  {
    var n := mem.number;
    var inName := NameField(n).Some? && NameField(n).value <= i < NameField(n).value + NameSize;
    if IsWeather(n) then inName
    else
      || FlagOffset(n) <= i < FlagOffset(n) + FlagSize
      || (!mem.empty && ChannelOffset(n) <= i < ChannelOffset(n) + ChannelSize)
      || (!mem.empty && n < 999 && inName)
  }

  /** The blocks `set_memory` passes to `add_dirty_block`, one per record it writes. */
  function TouchedBlocks(mem: Memory): (blocks: set<int>)
    requires 0 <= mem.number < NumSlots
    ensures forall i :: 0 <= i < ImageSize && Written(mem, i) ==> BlockOf(i) in blocks
  {
    var n := mem.number;
    var nameBlock := if NameField(n).Some? then {BlockOf(NameField(n).value)} else {};
    if IsWeather(n) then nameBlock
    else if mem.empty then {BlockOf(FlagOffset(n))}
    else {BlockOf(FlagOffset(n)), BlockOf(ChannelOffset(n))} + (if n < 999 then nameBlock else {})
  }

  /** The record `set_memory` writes its fields over: the `initialize` pattern if the slot was empty, else the record as it is. */
  function BaseRecord(img: seq<byte>, n: int): (rec: seq<byte>)
    requires IsImage(img) && 0 <= n < NumSlots
    ensures |rec| == ChannelSize
    ensures Disabled(img, n) == 0x7F ==> rec[4] == 0x00 && rec[15] == 0xFF
    ensures Disabled(img, n) != 0x7F ==> rec == Record(img, n)
  {
    if Disabled(img, n) == 0x7F then InitPattern else Record(img, n)
  }

  /**
   * The channel record after `set_memory` assigns freq, tone_mode, rtone, ctone, dtcs, cross_mode,
   * duplex, offset and mode over `rec`; the two unnamed bytes 4 and 15 are kept.
   */
  function EncodeChannel(rec: seq<byte>, c: Common, mem: Memory): (r: seq<byte>)
    requires |rec| == ChannelSize && ValidCommon(c) && RecordEncodable(c, mem)
    ensures |r| == ChannelSize && r[4] == rec[4] && r[15] == rec[15]
  {
    Le32Bytes(mem.freq)
    + [rec[4], ModeCode(mem.mode), ToneDuplexByte(ToneModeCode(mem.tmode), DuplexCode(mem.duplex)),
       IndexOf(c.tones, mem.rtone), IndexOf(c.tones, mem.ctone),
       IndexOf(c.dtcsCodes, mem.dtcs), IndexOf(c.crossModes, mem.crossMode)]
    + Le32Bytes(mem.offset) + [rec[15]]
  }

  /** Where `EncodeChannel` puts each field: the frequency and offset as 32-bit little-endian words, one byte for each of the others. */
  lemma EncodeChannelFields(rec: seq<byte>, c: Common, mem: Memory)
    requires |rec| == ChannelSize && ValidCommon(c) && RecordEncodable(c, mem)
    ensures var r := EncodeChannel(rec, c, mem);
      && r[FreqAt..FreqAt + 4] == Le32Bytes(mem.freq) && r[OffsetAt..OffsetAt + 4] == Le32Bytes(mem.offset)
      && r[ModeAt] == ModeCode(mem.mode)
      && r[ToneDuplexAt] == ToneDuplexByte(ToneModeCode(mem.tmode), DuplexCode(mem.duplex))
      && r[RtoneAt] == IndexOf(c.tones, mem.rtone) && r[CtoneAt] == IndexOf(c.tones, mem.ctone)
      && r[DtcsAt] == IndexOf(c.dtcsCodes, mem.dtcs) && r[CrossAt] == IndexOf(c.crossModes, mem.crossMode)
  {
    var f := Le32Bytes(mem.freq);
    var fields := [rec[4], ModeCode(mem.mode), ToneDuplexByte(ToneModeCode(mem.tmode), DuplexCode(mem.duplex)),
       IndexOf(c.tones, mem.rtone), IndexOf(c.tones, mem.ctone),
       IndexOf(c.dtcsCodes, mem.dtcs), IndexOf(c.crossModes, mem.crossMode)];
    var r := EncodeChannel(rec, c, mem);
    assert r == f + fields + Le32Bytes(mem.offset) + [rec[15]];
    assert r[FreqAt..FreqAt + 4] == f;
    assert r[OffsetAt..OffsetAt + 4] == Le32Bytes(mem.offset);
  }

  /** A record decodes to `ch` when each of its fields reads as the matching value of `ch`. */
  lemma DecodeChannelOk(rec: seq<byte>, c: Common, ch: Channel)
    requires |rec| == ChannelSize
    requires ToneModeOf(ToneModeNibble(rec[ToneDuplexAt])) == Some(ch.tmode)
    requires Lookup(c.tones, rec[RtoneAt]) == Ok(ch.rtone) && Lookup(c.tones, rec[CtoneAt]) == Ok(ch.ctone)
    requires Lookup(c.dtcsCodes, rec[DtcsAt]) == Ok(ch.dtcs)
    requires DuplexOf(DuplexNibble(rec[ToneDuplexAt])) == Some(ch.duplex) && ModeOf(rec[ModeAt]) == Some(ch.mode)
    requires Le32(rec[FreqAt..FreqAt + 4]) == ch.freq && Le32(rec[OffsetAt..OffsetAt + 4]) == ch.offset
    ensures DecodeChannel(rec, c) == Ok(ch)
  {
  }

  /** Decoding an encoded record gives back the Memory's record values and its cross mode. */
  lemma DecodeEncodeChannel(rec: seq<byte>, c: Common, mem: Memory)
    requires |rec| == ChannelSize && ValidCommon(c) && RecordEncodable(c, mem)
    ensures DecodeChannel(EncodeChannel(rec, c, mem), c) == Ok(ChannelOf(mem))
    ensures Lookup(c.crossModes, EncodeChannel(rec, c, mem)[CrossAt]) == Ok(mem.crossMode)
  {
    var r := EncodeChannel(rec, c, mem);
    EncodeChannelFields(rec, c, mem);
    NibblesOfToneDuplexByte(ToneModeCode(mem.tmode), DuplexCode(mem.duplex));
    DecodeChannelOk(r, c, ChannelOf(mem));
  }

  /**
   * Encoding a decoded record writes back the bytes it was read from, when the tone, DTCS and
   * cross-mode tables hold no repeated value (so that `.index` finds the entry that was read).
   */
  lemma EncodeDecodeChannel(rec: seq<byte>, c: Common, mem: Memory)
    requires |rec| == ChannelSize && ValidCommon(c)
    requires Distinct(c.tones) && Distinct(c.dtcsCodes) && Distinct(c.crossModes)
    requires DecodeChannel(rec, c) == Ok(ChannelOf(mem))
    requires Lookup(c.crossModes, rec[CrossAt]) == Ok(mem.crossMode)
    ensures RecordEncodable(c, mem) && EncodeChannel(rec, c, mem) == rec
  {
    DecodedChannelFields(rec, c, ChannelOf(mem));
    FieldsEncodeBack(rec, c, mem);
    EncodeChannelSame(rec, c, mem);
  }

  /** What a record that decodes to `ch` holds, field by field. */
  lemma DecodedChannelFields(rec: seq<byte>, c: Common, ch: Channel)
    requires |rec| == ChannelSize && DecodeChannel(rec, c) == Ok(ch)
    ensures ToneModeOf(ToneModeNibble(rec[ToneDuplexAt])) == Some(ch.tmode)
    ensures Lookup(c.tones, rec[RtoneAt]) == Ok(ch.rtone) && Lookup(c.tones, rec[CtoneAt]) == Ok(ch.ctone)
    ensures Lookup(c.dtcsCodes, rec[DtcsAt]) == Ok(ch.dtcs)
    ensures DuplexOf(DuplexNibble(rec[ToneDuplexAt])) == Some(ch.duplex) && ModeOf(rec[ModeAt]) == Some(ch.mode)
    ensures Le32(rec[FreqAt..FreqAt + 4]) == ch.freq && Le32(rec[OffsetAt..OffsetAt + 4]) == ch.offset
  {
  }

  /** Each field read from a record, with distinct tables, is written back by `EncodeChannel` as the same byte. */
  lemma FieldsEncodeBack(rec: seq<byte>, c: Common, mem: Memory)
    requires |rec| == ChannelSize && ValidCommon(c)
    requires Distinct(c.tones) && Distinct(c.dtcsCodes) && Distinct(c.crossModes)
    requires ToneModeOf(ToneModeNibble(rec[ToneDuplexAt])) == Some(mem.tmode)
    requires Lookup(c.tones, rec[RtoneAt]) == Ok(mem.rtone) && Lookup(c.tones, rec[CtoneAt]) == Ok(mem.ctone)
    requires Lookup(c.dtcsCodes, rec[DtcsAt]) == Ok(mem.dtcs)
    requires DuplexOf(DuplexNibble(rec[ToneDuplexAt])) == Some(mem.duplex) && ModeOf(rec[ModeAt]) == Some(mem.mode)
    requires Le32(rec[FreqAt..FreqAt + 4]) == mem.freq && Le32(rec[OffsetAt..OffsetAt + 4]) == mem.offset
    requires Lookup(c.crossModes, rec[CrossAt]) == Ok(mem.crossMode)
    ensures RecordEncodable(c, mem)
    ensures rec[FreqAt..FreqAt + 4] == Le32Bytes(mem.freq) && rec[OffsetAt..OffsetAt + 4] == Le32Bytes(mem.offset)
    ensures rec[ModeAt] == ModeCode(mem.mode)
    ensures rec[ToneDuplexAt] == ToneDuplexByte(ToneModeCode(mem.tmode), DuplexCode(mem.duplex))
    ensures rec[RtoneAt] == IndexOf(c.tones, mem.rtone) && rec[CtoneAt] == IndexOf(c.tones, mem.ctone)
    ensures rec[DtcsAt] == IndexOf(c.dtcsCodes, mem.dtcs) && rec[CrossAt] == IndexOf(c.crossModes, mem.crossMode)
  {
    IndexOfLookup(c.tones, rec[RtoneAt]);
    IndexOfLookup(c.tones, rec[CtoneAt]);
    IndexOfLookup(c.dtcsCodes, rec[DtcsAt]);
    IndexOfLookup(c.crossModes, rec[CrossAt]);
    ToneModeCodeOf(ToneModeNibble(rec[ToneDuplexAt]));
    DuplexCodeOf(DuplexNibble(rec[ToneDuplexAt]));
    ToneDuplexByteOf(rec[ToneDuplexAt]);
    ModeCodeOf(rec[ModeAt]);
    Le32BytesOfLe32(rec[FreqAt..FreqAt + 4]);
    Le32BytesOfLe32(rec[OffsetAt..OffsetAt + 4]);
  }

  /** A record whose every field already holds what `EncodeChannel` would write there is left as it is. */
  lemma EncodeChannelSame(rec: seq<byte>, c: Common, mem: Memory)
    requires |rec| == ChannelSize && ValidCommon(c) && RecordEncodable(c, mem)
    requires rec[FreqAt..FreqAt + 4] == Le32Bytes(mem.freq) && rec[OffsetAt..OffsetAt + 4] == Le32Bytes(mem.offset)
    requires rec[ModeAt] == ModeCode(mem.mode)
    requires rec[ToneDuplexAt] == ToneDuplexByte(ToneModeCode(mem.tmode), DuplexCode(mem.duplex))
    requires rec[RtoneAt] == IndexOf(c.tones, mem.rtone) && rec[CtoneAt] == IndexOf(c.tones, mem.ctone)
    requires rec[DtcsAt] == IndexOf(c.dtcsCodes, mem.dtcs) && rec[CrossAt] == IndexOf(c.crossModes, mem.crossMode)
    ensures EncodeChannel(rec, c, mem) == rec
  {
    var r := EncodeChannel(rec, c, mem);
    EncodeChannelFields(rec, c, mem);
    forall k | 0 <= k < ChannelSize ensures r[k] == rec[k] {
      if k < 4 {
        assert r[k] == r[FreqAt..FreqAt + 4][k];
        assert rec[k] == rec[FreqAt..FreqAt + 4][k];
      } else if OffsetAt <= k < OffsetAt + 4 {
        assert r[k] == r[OffsetAt..OffsetAt + 4][k - OffsetAt];
        assert rec[k] == rec[OffsetAt..OffsetAt + 4][k - OffsetAt];
      }
    }
  }

  /**
   * The writes `set_memory` makes for a slot it encodes: the flag enabled, the channel record
   * (over the `initialize` pattern if the slot was empty), then for 0..998 the name and skip code.
   */
  function StoreChannel(img: seq<byte>, c: Common, mem: Memory): (r: seq<byte>)
    requires IsImage(img) && ValidCommon(c) && EncodesRecord(mem) && Encodable(c, mem)
    ensures IsImage(r)
  {
    var n := mem.number;
    var i1 := SetDisabled(img, n, 0);
    var i2 := Splice(i1, ChannelOffset(n), EncodeChannel(BaseRecord(img, n), c, mem));
    if n < 999 then
      SetSkipCode(SetChannelNameImage(i2, n, mem.name), n, IndexOf(c.skipValues, mem.skip))
    else i2
  }

  /** The image `set_memory` leaves behind for a Memory with a valid slot number. */
  function SetMemoryImage(img: seq<byte>, c: Common, mem: Memory): (r: seq<byte>)
    requires IsImage(img) && ValidCommon(c) && 0 <= mem.number < NumSlots
    requires EncodesRecord(mem) ==> Encodable(c, mem)
    ensures IsImage(r)
  {
    var n := mem.number;
    if IsWeather(n) then SetChannelNameImage(img, n, mem.name)
    else if mem.empty then SetDisabled(img, n, 0x7F)
    else StoreChannel(img, c, mem)
  }

  /** `set_memory` changes no byte outside the records it writes. */
  lemma SetMemoryFrame(img: seq<byte>, c: Common, mem: Memory, i: int)
    requires IsImage(img) && ValidCommon(c) && 0 <= mem.number < NumSlots
    requires EncodesRecord(mem) ==> Encodable(c, mem)
    requires 0 <= i < ImageSize && !Written(mem, i)
    ensures SetMemoryImage(img, c, mem)[i] == img[i]
  {
    var n := mem.number;
    if IsWeather(n) {
      SpliceAt(img, NameField(n).value, EncodeName(mem.name), i);
    } else if !mem.empty {
      var enc := EncodeChannel(BaseRecord(img, n), c, mem);
      var i1 := SetDisabled(img, n, 0);
      var i2 := Splice(i1, ChannelOffset(n), enc);
      SpliceAt(i1, ChannelOffset(n), enc, i);
      if n < 999 {
        SpliceAt(i2, NameOffset(n), EncodeName(mem.name), i);
      }
    }
  }

  /** A weather slot accepts a name change only: its flag and channel records keep every byte. */
  lemma WeatherSlotNameOnly(img: seq<byte>, c: Common, mem: Memory)
    requires IsImage(img) && ValidCommon(c) && IsWeather(mem.number)
    ensures var r := SetMemoryImage(img, c, mem); var n := mem.number;
      && r[FlagOffset(n)..FlagOffset(n) + FlagSize] == img[FlagOffset(n)..FlagOffset(n) + FlagSize]
      && Record(r, n) == Record(img, n)
      && GetChannelName(r, n) == RStrip(UpTo(Truncate(mem.name), Pad))
  {
    var n := mem.number;
    var off := WxNameOffset(n - 1020);
    assert NameField(n) == Some(off);
    var r := SetMemoryImage(img, c, mem);
    assert r == Splice(img, off, EncodeName(mem.name));
    assert Record(r, n) == r[ChannelOffset(n)..ChannelOffset(n) + ChannelSize];
    SpliceOutside(img, off, EncodeName(mem.name), FlagOffset(n), FlagOffset(n) + FlagSize);
    SpliceOutside(img, off, EncodeName(mem.name), ChannelOffset(n), ChannelOffset(n) + ChannelSize);
    GetSetChannelName(img, n, mem.name);
  }

  /** Deleting a slot sets `disabled` to 0x7F and changes no other byte (not even the `unknown0` bit). */
  lemma DeleteOnlyFlag(img: seq<byte>, c: Common, mem: Memory)
    requires IsImage(img) && ValidCommon(c) && 0 <= mem.number < NumSlots
    requires !IsWeather(mem.number) && mem.empty
    ensures var r := SetMemoryImage(img, c, mem); var f := FlagOffset(mem.number);
      && Disabled(r, mem.number) == 0x7F && r[f] % 2 == img[f] % 2
      && r == img[f := r[f]]
      && GetMemory(r, c, Slot(mem.number)) == Ok(EmptyMemory(c, mem.number))
  {
  }

  /** A deleted slot reads back as an empty Memory whatever its channel record and name hold. */
  lemma EmptySlotIgnoresRecord(img: seq<byte>, img': seq<byte>, c: Common, n: int)
    requires IsImage(img) && IsImage(img') && 0 <= n < NumSlots
    requires Disabled(img, n) == 0x7F && Disabled(img', n) == 0x7F
    ensures GetMemory(img, c, Slot(n)) == GetMemory(img', c, Slot(n)) == Ok(EmptyMemory(c, n))
  {
  }

  /**
   * What a stored Memory leaves in the image: the flag enabled, the encoded channel record
   * (over the `initialize` pattern if the slot was empty, whose bytes 4 and 15 are 0x00 and 0xFF)
   * and, for 0..998, the encoded name and the skip code.
   */
  lemma SetMemoryStores(img: seq<byte>, c: Common, mem: Memory)
    requires IsImage(img) && ValidCommon(c) && EncodesRecord(mem) && Encodable(c, mem)
    ensures var r := SetMemoryImage(img, c, mem); var n := mem.number;
      && Disabled(r, n) == 0
      && Record(r, n) == EncodeChannel(BaseRecord(img, n), c, mem)
      && (n < 999 ==>
           && SkipCode(r, n) == IndexOf(c.skipValues, mem.skip)
           && r[NameOffset(n)..NameOffset(n) + NameSize] == EncodeName(mem.name))
  {
    var n := mem.number;
    var ch := ChannelOffset(n);
    var f := FlagOffset(n);
    var enc := EncodeChannel(BaseRecord(img, n), c, mem);
    var i1 := SetDisabled(img, n, 0);
    var i2 := Splice(i1, ch, enc);
    SpliceAt(i1, ch, enc, f);
    if n < 999 {
      var off := NameOffset(n);
      SpliceOutside(i2, off, EncodeName(mem.name), ch, ch + ChannelSize);
      SpliceAt(i2, off, EncodeName(mem.name), f);
    }
  }

  /** What `get_memory` reads from an ordinary slot 0..998 that is in use. */
  lemma GetOrdinary(img: seq<byte>, c: Common, n: int)
    requires IsImage(img) && 0 <= n < 999 && Disabled(img, n) != 0x7F
    ensures GetMemory(img, c, Slot(n)).Ok? <==>
      && DecodeChannel(Record(img, n), c).Ok?
      && SkipCode(img, n) < |c.skipValues| && Record(img, n)[CrossAt] < |c.crossModes|
    ensures GetMemory(img, c, Slot(n)).Ok? ==>
      GetMemory(img, c, Slot(n)).value ==
        WithChannel(c.blank.(number := n, name := GetChannelName(img, n)), DecodeChannel(Record(img, n), c).value)
          .(skip := c.skipValues[SkipCode(img, n)], crossMode := c.crossModes[Record(img, n)[CrossAt]])
  {
  }

  /**
   * An in-use special slot (1000..1031) reads as its decoded record and name, under its special name,
   * with the first cross mode and the fields the radio fixes for that slot marked immutable.
   */
  lemma GetSpecial(img: seq<byte>, c: Common, n: int)
    requires IsImage(img) && 999 < n < NumSlots && Disabled(img, n) != 0x7F
    ensures GetMemory(img, c, Slot(n)).Ok? <==> DecodeChannel(Record(img, n), c).Ok? && 0 < |c.crossModes|
    ensures GetMemory(img, c, Slot(n)).Ok? ==>
      GetMemory(img, c, Slot(n)).value ==
        WithChannel(c.blank.(number := n, extdNumber := SpecialName(n), name := GetChannelName(img, n)),
                    DecodeChannel(Record(img, n), c).value)
          .(crossMode := c.crossModes[0], immutable := ImmutableFields(n))
  {
  }

  /** Slot 999, in use, reads as its decoded record and name only: no skip, cross mode or immutable list is set. */
  lemma GetSlot999(img: seq<byte>, c: Common)
    requires IsImage(img) && Disabled(img, 999) != 0x7F
    ensures GetMemory(img, c, Slot(999)).Ok? <==> DecodeChannel(Record(img, 999), c).Ok?
    ensures GetMemory(img, c, Slot(999)).Ok? ==>
      GetMemory(img, c, Slot(999)).value ==
        WithChannel(c.blank.(number := 999, name := GetChannelName(img, 999)), DecodeChannel(Record(img, 999), c).value)
  {
  }

  /** Decoding after encoding: an ordinary slot reads back the Memory stored, its name as the radio keeps it. */
  lemma GetAfterSet(img: seq<byte>, c: Common, mem: Memory)
    requires IsImage(img) && ValidCommon(c) && EncodesRecord(mem) && Encodable(c, mem)
    requires mem.number < 999
    ensures GetMemory(SetMemoryImage(img, c, mem), c, Slot(mem.number)) ==
      Ok(mem.(name := RStrip(UpTo(Truncate(mem.name), Pad)),
              extdNumber := c.blank.extdNumber, immutable := c.blank.immutable))
  {
    var n := mem.number;
    var r := SetMemoryImage(img, c, mem);
    SetMemoryStores(img, c, mem);
    DecodeEncodeChannel(BaseRecord(img, n), c, mem);
    assert DecodeChannel(Record(r, n), c) == Ok(ChannelOf(mem));
    assert GetChannelName(r, n) == DecodeName(EncodeName(mem.name));
    DecodeEncodeName(mem.name);
    GetOrdinary(r, c, n);
  }

  /**
   * Encoding after decoding: storing the Memory read from an ordinary slot gives back the image
   * byte for byte, when the slot's flag is 0 or 0x7F, its name field is in canonical form and
   * the lookup tables hold no repeated value.
   */
  lemma SetAfterGet(img: seq<byte>, c: Common, n: int)
    requires IsImage(img) && ValidCommon(c) && 0 <= n < 999
    requires Distinct(c.tones) && Distinct(c.dtcsCodes) && Distinct(c.crossModes) && Distinct(c.skipValues)
    requires Disabled(img, n) == 0 || Disabled(img, n) == 0x7F
    requires CanonicalField(img[NameOffset(n)..NameOffset(n) + NameSize])
    requires GetMemory(img, c, Slot(n)).Ok?
    ensures var m := GetMemory(img, c, Slot(n)).value;
      (EncodesRecord(m) ==> Encodable(c, m)) && SetMemoryImage(img, c, m) == img
  {
    var m := GetMemory(img, c, Slot(n)).value;
    SetDisabledSame(img, n);
    if !m.empty {
      GetOrdinary(img, c, n);
      EncodeDecodeChannel(Record(img, n), c, m);
      IndexOfLookup(c.skipValues, SkipCode(img, n));
      NameStepSame(img, n, m.name);
      StoreChannelSame(img, c, m);
    }
  }

  /** The ordinary-slot half of SetAfterGet: every write of StoreChannel puts back the bytes it finds. */
  lemma StoreChannelSame(img: seq<byte>, c: Common, m: Memory)
    requires IsImage(img) && ValidCommon(c) && 0 <= m.number < 999 && !m.empty && Encodable(c, m)
    requires Disabled(img, m.number) == 0
    requires EncodeChannel(Record(img, m.number), c, m) == Record(img, m.number)
    requires SetChannelNameImage(img, m.number, m.name) == img
    requires IndexOf(c.skipValues, m.skip) == SkipCode(img, m.number)
    ensures StoreChannel(img, c, m) == img
  {
    var n := m.number;
    RecordStepSame(img, c, m);
    var i2 := Splice(SetDisabled(img, n, 0), ChannelOffset(n), EncodeChannel(BaseRecord(img, n), c, m));
    assert i2 == img;
    SetSkipCodeSame(img, n);
    assert StoreChannel(img, c, m) == SetSkipCode(SetChannelNameImage(i2, n, m.name), n, SkipCode(img, n));
  }

  /** Enabling the flag and writing the channel record of a decoded in-use slot leaves the image as it was. */
  lemma RecordStepSame(img: seq<byte>, c: Common, m: Memory)
    requires IsImage(img) && ValidCommon(c) && 0 <= m.number < NumSlots && RecordEncodable(c, m)
    requires Disabled(img, m.number) == 0
    requires EncodeChannel(Record(img, m.number), c, m) == Record(img, m.number)
    ensures Splice(SetDisabled(img, m.number, 0), ChannelOffset(m.number),
                   EncodeChannel(BaseRecord(img, m.number), c, m)) == img
  {
    SetDisabledSame(img, m.number);
    SpliceSame(img, ChannelOffset(m.number), Record(img, m.number));
  }

  /** Writing back the name read from a canonical name field leaves the image as it was. */
  lemma NameStepSame(img: seq<byte>, n: int, name: seq<byte>)
    requires IsImage(img) && 0 <= n < 999
    requires CanonicalField(img[NameOffset(n)..NameOffset(n) + NameSize])
    requires name == GetChannelName(img, n)
    ensures SetChannelNameImage(img, n, name) == img
  {
    var off := NameOffset(n);
    var field := img[off..off + NameSize];
    assert NameField(n) == Some(off);
    assert name == DecodeName(field);
    EncodeDecodeName(field);
    assert EncodeName(name) == field;
    assert SetChannelNameImage(img, n, name) == Splice(img, off, field);
    SpliceSame(img, off, field);
  }
}
