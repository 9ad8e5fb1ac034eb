/**
 * The TH-D72 clone-mode radio object: its 64 KiB memory map, the sorted list of dirty
 * blocks, and the serial pipe. Each method is proved against the function that states
 * what it computes: the image functions of `Channels`, the list functions of
 * `DirtyBlocks` and the exchange functions of `Transfer`.
 */
module Driver {
  import opened Bytes
  import opened Outcomes
  import opened Layout
  import opened Names
  import opened DirtyBlocks
  import opened Channels
  import opened Serial
  import opened Transfer

  /** Every entry names a block of the image. */
  predicate BlocksInImage(s: seq<int>) {
    forall i :: 0 <= i < |s| ==> 0 <= s[i] < NumBlocks
  }

  /** Placing `block` at index `i` of a sorted list, where it belongs, is what `Insert` does. */
  lemma {:induction false} InsertAt(s: seq<int>, i: int, block: int)
    requires Sorted(s) && 0 <= i <= |s|
    requires forall j :: 0 <= j < i ==> s[j] < block
    requires i < |s| ==> block < s[i]
    ensures Insert(s, block) == s[..i] + [block] + s[i..]
  {
    if i == 0 {
      assert s[..0] + [block] + s[0..] == [block] + s;
    } else {
      var t := s[1..];
      assert s[0] < block && s == [s[0]] + t;
      assert Insert(t, block) == t[..i - 1] + [block] + t[i - 1..] by {
        assert Sorted(t);
        InsertAt(t, i - 1, block);
      }
      assert Insert(s, block) == [s[0]] + Insert(t, block);
      assert s[..i] == [s[0]] + t[..i - 1];
      assert s[i..] == t[i - 1..];
      ConsAssoc(s[0], t[..i - 1], block, t[i - 1..]);
    }
  }

  lemma ConsAssoc(x: int, a: seq<int>, y: int, b: seq<int>)
    ensures [x] + (a + [y] + b) == [x] + a + [y] + b
  {
  }

  /** Removing from a list every entry it has leaves nothing. */
  lemma {:induction false} WithoutCovered(s: seq<int>, u: seq<int>)
    requires forall i :: 0 <= i < |s| ==> s[i] in u
    ensures Without(s, u) == []
  {
    if s != [] {
      assert s[0] in u;
      WithoutCovered(s[1..], u);
    }
  }

  /** Removing entries keeps every remaining one inside the image. */
  lemma WithoutInImage(s: seq<int>, u: seq<int>)
    requires BlocksInImage(s)
    ensures BlocksInImage(Without(s, u))
  {
    var r := Without(s, u);
    forall i | 0 <= i < |r| ensures 0 <= r[i] < NumBlocks {
      assert r[i] in r;
      var j :| 0 <= j < |s| && s[j] == r[i];
    }
  }

  /** After uploading the dirty list, or all blocks when none were dirty, nothing is dirty. */
  lemma SyncOutClearsDirty(dirty: seq<int>)
    requires BlocksInImage(dirty)
    ensures Without(dirty, UploadList(SyncOutBlocks(dirty))) == []
  {
    if dirty != [] {
      forall b | b in dirty ensures 0 <= b < NumBlocks {
        var i :| 0 <= i < |dirty| && dirty[i] == b;
      }
      SyncOutUploadsDirty(dirty);
      forall i | 0 <= i < |dirty| ensures dirty[i] in dirty {
      }
      WithoutCovered(dirty, dirty);
    }
  }

  /** The image writes `set_memory` makes for a slot it encodes, one after the other, end in `SetMemoryImage`. */
  lemma StoredSlot(img: seq<byte>, c: Common, mem: Memory, i1: seq<byte>, i2: seq<byte>, i3: seq<byte>, i4: seq<byte>)
    requires IsImage(img) && ValidCommon(c) && EncodesRecord(mem) && Encodable(c, mem)
    requires i1 == SetDisabled(img, mem.number, 0)
    requires i2 == Splice(i1, ChannelOffset(mem.number), EncodeChannel(BaseRecord(img, mem.number), c, mem))
    requires mem.number < 999 ==> i3 == SetChannelNameImage(i2, mem.number, mem.name)
    requires mem.number < 999 ==> i4 == SetSkipCode(i3, mem.number, IndexOf(c.skipValues, mem.skip))
    requires mem.number >= 999 ==> i4 == i2
    ensures i4 == SetMemoryImage(img, c, mem)
  {
  }

  /** Deleting a slot writes its flag only, and marks only the flag's block. */
  lemma DeletedSlot(img: seq<byte>, c: Common, mem: Memory, r: seq<byte>, d0: seq<int>, d1: seq<int>)
    requires IsImage(img) && ValidCommon(c) && 0 <= mem.number < NumSlots && !IsWeather(mem.number) && mem.empty
    requires r == SetDisabled(img, mem.number, 0x7F) && Sorted(d0)
    requires d1 == Insert(d0, BlockOf(FlagOffset(mem.number)))
    ensures r == SetMemoryImage(img, c, mem)
    ensures forall b :: b in d1 <==> b in d0 || b in TouchedBlocks(mem)
  {
    assert TouchedBlocks(mem) == {BlockOf(FlagOffset(mem.number))};
  }

  /** The dirty list after marking a numbered slot's flag, record and name blocks holds exactly the touched blocks besides the old ones. */
  lemma NamedSlotBlocks(mem: Memory, d0: seq<int>, d2: seq<int>, d3: seq<int>)
    requires EncodesRecord(mem) && mem.number < 999 && Sorted(d0)
    requires d2 == Insert(Insert(d0, BlockOf(FlagOffset(mem.number))), BlockOf(ChannelOffset(mem.number)))
    requires d3 == Insert(d2, BlockOf(NameField(mem.number).value))
    ensures forall b :: b in d3 <==> b in d0 || b in TouchedBlocks(mem)
  {
    var n := mem.number;
    var fb, cb, nb := BlockOf(FlagOffset(n)), BlockOf(ChannelOffset(n)), BlockOf(NameField(n).value);
    assert TouchedBlocks(mem) == {fb, cb, nb};
    var d1 := Insert(d0, fb);
    forall b ensures b in d3 <==> b in d0 || b in TouchedBlocks(mem) {
      assert b in d3 <==> b in d2 || b == nb;
      assert b in d2 <==> b in d1 || b == cb;
      assert b in d1 <==> b in d0 || b == fb;
    }
  }

  /** The same for a special slot, which has no name field to mark. */
  lemma UnnamedSlotBlocks(mem: Memory, d0: seq<int>, d2: seq<int>)
    requires EncodesRecord(mem) && mem.number >= 999 && Sorted(d0)
    requires d2 == Insert(Insert(d0, BlockOf(FlagOffset(mem.number))), BlockOf(ChannelOffset(mem.number)))
    ensures forall b :: b in d2 <==> b in d0 || b in TouchedBlocks(mem)
  {
    TouchedUnnamed(mem);
    MarkedTwo(d0, d2, TouchedBlocks(mem), BlockOf(FlagOffset(mem.number)), BlockOf(ChannelOffset(mem.number)));
  }

  /** Marking two blocks adds exactly those two. */
  lemma MarkedTwo(d0: seq<int>, d2: seq<int>, t: set<int>, fb: int, cb: int)
    requires Sorted(d0) && d2 == Insert(Insert(d0, fb), cb) && t == {fb, cb}
    ensures forall b :: b in d2 <==> b in d0 || b in t
  {
    var d1 := Insert(d0, fb);
    forall b ensures b in d2 <==> b in d0 || b in t {
      assert b in d2 <==> b in d1 || b == cb;
    }
  }

  /** A special slot marks its flag and record blocks. */
  lemma TouchedUnnamed(mem: Memory)
    requires EncodesRecord(mem) && mem.number >= 999
    ensures TouchedBlocks(mem) == {BlockOf(FlagOffset(mem.number)), BlockOf(ChannelOffset(mem.number))}
  {
  }

  /** A fresh memory map holding `img`. */
  method NewImage(img: seq<byte>) returns (a: array<byte>)
    requires IsImage(img)
    ensures fresh(a) && a.Length == ImageSize && a[..] == img
  {
    a := new byte[ImageSize](i requires 0 <= i < ImageSize => img[i]);
    assert a[..] == img;
  }

  class Radio {
    /** `_mmap`: the radio's memory image. */
    var mmap: array<byte>
    /** `_dirty_blocks`: blocks changed since the last upload, sorted. */
    var dirty: seq<int>
    var pipe: Pipe

    predicate Valid()
      reads this
    {
      mmap.Length == ImageSize && Sorted(dirty) && BlocksInImage(dirty)
    }

    /** A radio holding `img`, with nothing dirty (`process_mmap`), talking over `p`. */
    constructor(img: seq<byte>, p: Pipe)
      requires IsImage(img)
      ensures Valid() && fresh(mmap) && mmap[..] == img && dirty == [] && pipe == p
    {
      var a := NewImage(img);
      mmap := a;
      dirty := [];
      pipe := p;
    }

    /** `add_dirty_block`: mark the block holding offset `off`, keeping the list sorted and free of repeats. */
    method AddDirtyBlock(off: int)
      requires Valid() && 0 <= off < ImageSize
      modifies this
      ensures Valid() && mmap == old(mmap) && pipe == old(pipe)
      ensures dirty == Insert(old(dirty), BlockOf(off))
    {
      var block := off / 256;
      var i := 0;
      while i < |dirty| && dirty[i] < block
        invariant 0 <= i <= |dirty|
        invariant forall j :: 0 <= j < i ==> dirty[j] < block
      {
        i := i + 1;
      }
      if i < |dirty| && dirty[i] == block {
        InsertPresent(dirty, block);
      } else {
        InsertAt(dirty, i, block);
        dirty := dirty[..i] + [block] + dirty[i..];
      }
    }

    /** Writes `data` into the image at `off`, byte by byte. */
    method Store(off: int, data: seq<byte>)
      requires Valid() && 0 <= off && off + |data| <= ImageSize
      modifies mmap
      ensures mmap[..] == Splice(old(mmap[..]), off, data)
    {
      ghost var img := mmap[..];
      for k := 0 to |data|
        invariant forall i :: 0 <= i < ImageSize ==> mmap[i] == if off <= i < off + k then data[i - off] else img[i]
      {
        mmap[off + k] := data[k];
      }
      forall i | 0 <= i < ImageSize ensures mmap[i] == Splice(img, off, data)[i] {
        SpliceAt(img, off, data, i);
      }
      assert mmap[..] == Splice(img, off, data);
    }

    /** `set_channel_name`: slots with a name field get the padded name and their block marked dirty. */
    method SetChannelName(n: int, name: seq<byte>)
      requires Valid() && 0 <= n
      modifies this, mmap
      ensures Valid() && mmap == old(mmap) && pipe == old(pipe)
      ensures mmap[..] == SetChannelNameImage(old(mmap[..]), n, name)
      ensures NameField(n).None? ==> dirty == old(dirty)
      ensures NameField(n).Some? ==> dirty == Insert(old(dirty), BlockOf(NameField(n).value))
    {
      match NameField(n)
      case None =>
      case Some(off) =>
        Store(off, EncodeName(name));
        AddDirtyBlock(off);
    }

    /**
     * `set_memory`: refuses a slot number outside 0..1031; otherwise leaves the image
     * `SetMemoryImage` describes and marks dirty exactly the blocks it wrote.
     */
    method SetMemory(c: Common, mem: Memory) returns (r: Result<()>)
      requires Valid() && ValidCommon(c)
      requires EncodesRecord(mem) ==> Encodable(c, mem)
      modifies this, mmap
      ensures Valid() && mmap == old(mmap) && pipe == old(pipe)
      ensures r.Ok? <==> CheckNumber(mem.number).Ok?
      ensures r.Err? ==> r.error == InvalidLocation && mmap[..] == old(mmap[..]) && dirty == old(dirty)
      ensures r.Ok? ==> mmap[..] == SetMemoryImage(old(mmap[..]), c, mem)
      ensures r.Ok? ==> forall b :: b in dirty <==> b in old(dirty) || b in TouchedBlocks(mem)
    {
      var n := mem.number;
      if n < 0 || n >= NumSlots {
        return Err(InvalidLocation);
      }
      if IsWeather(n) {
        SetChannelName(n, mem.name);
      } else {
        SetSlot(c, mem);
      }
      r := Ok(());
    }

    /** The part of `set_memory` after the weather check: the flag, and unless deleting, the record, name and skip code. */
    method SetSlot(c: Common, mem: Memory)
      requires Valid() && ValidCommon(c) && 0 <= mem.number < NumSlots && !IsWeather(mem.number)
      requires !mem.empty ==> Encodable(c, mem)
      modifies this, mmap
      ensures Valid() && mmap == old(mmap) && pipe == old(pipe)
      ensures mmap[..] == SetMemoryImage(old(mmap[..]), c, mem)
      ensures forall b :: b in dirty <==> b in old(dirty) || b in TouchedBlocks(mem)
    {
      var n := mem.number;
      ghost var img := mmap[..];
      ghost var d0 := dirty;
      var f := FlagOffset(n);
      AddDirtyBlock(f);
      var wasEmpty := mmap[f] / 2 == 0x7F;
      if mem.empty {
        mmap[f] := 2 * 0x7F + mmap[f] % 2;
        assert mmap[..] == SetDisabled(img, n, 0x7F);
        DeletedSlot(img, c, mem, mmap[..], d0, dirty);
        return;
      }
      mmap[f] := mmap[f] % 2;
      ghost var i1 := mmap[..];
      assert i1 == SetDisabled(img, n, 0);
      var co := ChannelOffset(n);
      var base := if wasEmpty then InitPattern else mmap[co..co + ChannelSize];
      assert base == BaseRecord(img, n) by {
        if !wasEmpty {
          assert forall k :: 0 <= k < ChannelSize ==> base[k] == i1[co + k] == img[co + k];
        }
      }
      ghost var d1 := dirty;
      WriteChannel(c, mem, base);
      ghost var i2 := Splice(i1, co, EncodeChannel(BaseRecord(img, n), c, mem));
      if n < 999 {
        StoredSlot(img, c, mem, i1, i2, SetChannelNameImage(i2, n, mem.name), mmap[..]);
        NamedSlotBlocks(mem, d0, Insert(d1, BlockOf(co)), dirty);
      } else {
        StoredSlot(img, c, mem, i1, i2, i2, mmap[..]);
        UnnamedSlotBlocks(mem, d0, dirty);
      }
    }

    /** The record, name and skip-code writes of `set_memory`, over the record `base`, marking their blocks dirty. */
    method WriteChannel(c: Common, mem: Memory, base: seq<byte>)
      requires Valid() && ValidCommon(c) && EncodesRecord(mem) && Encodable(c, mem) && |base| == ChannelSize
      modifies this, mmap
      ensures Valid() && mmap == old(mmap) && pipe == old(pipe)
      ensures var n := mem.number;
        var i2 := Splice(old(mmap[..]), ChannelOffset(n), EncodeChannel(base, c, mem));
        mmap[..] == if n < 999 then SetSkipCode(SetChannelNameImage(i2, n, mem.name), n, IndexOf(c.skipValues, mem.skip)) else i2
      ensures var d := Insert(old(dirty), BlockOf(ChannelOffset(mem.number)));
        dirty == if mem.number < 999 then Insert(d, BlockOf(NameField(mem.number).value)) else d
    {
      var n := mem.number;
      var co := ChannelOffset(n);
      AddDirtyBlock(co);
      Store(co, EncodeChannel(base, c, mem));
      if n < 999 {
        SetChannelName(n, mem.name);
        ghost var i3 := mmap[..];
        var f := FlagOffset(n);
        mmap[f + 1] := IndexOf(c.skipValues, mem.skip);
        assert mmap[..] == SetSkipCode(i3, n, IndexOf(c.skipValues, mem.skip));
      }
    }

    /** `read_block`: request `block`, check the header, collect 256 bytes, exchange ACKs. */
    method ReadBlock(block: int) returns (r: Result<seq<byte>>)
      requires 0 <= block < NumBlocks
      modifies pipe
      ensures var x := ReadBlockSpec(old(pipe.input), block);
        r == x.result && pipe.input == x.rest && pipe.output == old(pipe.output) + x.sent
    {
      ghost var input := pipe.input;
      var request := Frame(ReadTag, block).value;
      pipe.Write(request);
      var h := pipe.Read(FrameSize);
      if |h| != FrameSize {
        assert ReadBlockSpec(input, block) == Exchange(Err(ShortResponse), pipe.input, request);
        return Err(ShortResponse);
      }
      var header := Unpack(h);
      if header.0 != WriteTag || header.1 != block {
        assert ReadBlockSpec(input, block) == Exchange(Err(InvalidResponse), pipe.input, request);
        return Err(InvalidResponse);
      }
      var data := ReadPayload(BlockSize);
      if |data| < BlockSize {
        assert ReadBlockSpec(input, block) == Exchange(Err(Stalled), pipe.input, request);
        return Err(Stalled);
      }
      assert data == input[FrameSize..][..BlockSize] == input[FrameSize..FrameSize + BlockSize];
      assert pipe.input == input[FrameSize..][BlockSize..] == input[FrameSize + BlockSize..];
      pipe.Write([Ack]);
      var a := pipe.Read(1);
      assert pipe.output == old(pipe.output) + (request + [Ack]);
      if a != [Ack] {
        assert ReadBlockSpec(input, block) == Exchange(Err(MissingAck), pipe.input, request + [Ack]);
        return Err(MissingAck);
      }
      assert ReadBlockSpec(input, block) == Exchange(Ok(data), pipe.input, request + [Ack]);
      return Ok(data);
    }

    /**
     * The payload loop of `read_block`: keep reading until `count` bytes have come. A radio
     * that goes silent first leaves the loop with what it sent (the driver itself would spin).
     */
    method ReadPayload(count: nat) returns (data: seq<byte>)
      modifies pipe
      ensures data == Take(old(pipe.input), count) && pipe.input == Drop(old(pipe.input), count)
      ensures pipe.output == old(pipe.output)
    {
      ghost var input := pipe.input;
      data := [];
      var more := true;
      while |data| < count && more
        invariant |data| <= count && |data| <= |input|
        invariant data == input[..|data|] && pipe.input == input[|data|..]
        invariant !more ==> pipe.input == []
        invariant pipe.output == old(pipe.output)
        decreases count - |data|, if more then 1 else 0
      {
        var chunk := pipe.Read(count - |data|);
        if chunk == [] {
          more := false;
        } else {
          data := data + chunk;
        }
      }
    }

    /** `write_block`: send the 'W' header and the block's bytes, then read one byte; true when it is ACK. */
    method WriteBlock(block: int) returns (r: Result<bool>)
      requires mmap.Length == ImageSize && block < NumBlocks
      modifies pipe
      ensures var x := WriteBlockSpec(old(pipe.input), mmap[..], block);
        r == x.result && pipe.input == x.rest && pipe.output == old(pipe.output) + x.sent
    {
      var frame := Frame(WriteTag, block);
      if frame.Err? {
        return Err(frame.error);
      }
      pipe.Write(frame.value);
      pipe.Write(mmap[256 * block..256 * (block + 1)]);
      var ack := pipe.Read(1);
      return Ok(ack == [Ack]);
    }

    /** `command`: send the command and CR, read one byte at a time until CR or silence, strip. */
    method Command(cmd: seq<byte>) returns (r: seq<byte>)
      modifies pipe
      ensures var x := CommandSpec(old(pipe.input), cmd);
        x.result == Ok(r) && pipe.input == x.rest && pipe.output == old(pipe.output) + x.sent
    {
      ghost var input := pipe.input;
      pipe.Write(cmd + [CR]);
      var data: seq<byte> := [];
      var more := true;
      while (data == [] || data[|data| - 1] != CR) && more
        invariant data + pipe.input == input
        invariant forall i :: 0 <= i < |data| - 1 ==> data[i] != CR
        invariant !more ==> pipe.input == []
        invariant pipe.output == old(pipe.output) + cmd + [CR]
        decreases |pipe.input|, if more then 1 else 0
      {
        var c := pipe.Read(1);
        if c == [] {
          more := false;
        } else {
          data := data + c;
        }
      }
      ReadLineOf(input, data, pipe.input);
      r := Strip(data);
    }

    /** `get_id`: the model word of the "ID <model>" reply. */
    method GetId() returns (r: Result<seq<byte>>)
      modifies pipe
      ensures var x := GetIdSpec(old(pipe.input));
        r == x.result && pipe.input == x.rest && pipe.output == old(pipe.output) + x.sent
    {
      var reply := Command(IdCommand);
      r := ParseId(reply);
    }

    /** The start of `download` and `upload`: "0M PROGRAM" must be answered "0M"; one byte is then read and dropped. */
    method Handshake() returns (r: Result<()>)
      modifies pipe
      ensures var x := Transfer.Handshake(old(pipe.input));
        r == x.result && pipe.input == x.rest && pipe.output == old(pipe.output) + x.sent
    {
      var reply := Command(ProgramCommand);
      if reply != ProgramReply {
        return Err(NoResponse);
      }
      var _ := pipe.Read(1);
      r := Ok(());
    }

    /** `download`: read the wanted blocks, fill the others with 0xFF, send 'E'. */
    method Download(blocks: Option<seq<int>>) returns (r: Result<seq<byte>>)
      modifies pipe
      ensures var x := DownloadSpec(old(pipe.input), blocks);
        r == x.result && pipe.input == x.rest && pipe.output == old(pipe.output) + x.sent
    {
      var wanted := DownloadList(blocks);
      var h := Handshake();
      if h.Err? || wanted == [] {
        DownloadRefused(old(pipe.input), blocks);
        return if h.Err? then Err(h.error) else Err(EmptyBlockList);
      }
      ghost var start := pipe.input;
      ghost var p := ReadBlocks(start, wanted, NumBlocks);
      r := ReadAllBlocks(wanted);
      AppendAssoc(old(pipe.output), ProgramCommand + [CR], p.sent);
      if r.Err? {
        DownloadFails(old(pipe.input), blocks, start);
        return;
      }
      pipe.Write([EndTag]);
      AppendAssoc3(old(pipe.output), ProgramCommand + [CR], p.sent, [EndTag]);
      assert pipe.output == old(pipe.output) + (ProgramCommand + [CR] + p.sent + [EndTag]);
      DownloadSteps(old(pipe.input), blocks, start, r.value, pipe.input, p.sent);
      assert DownloadSpec(old(pipe.input), blocks) == Exchange(r, pipe.input, ProgramCommand + [CR] + p.sent + [EndTag]);
    }

    /** The block loop of `download`: blocks 0 .. 255 in order, read when wanted and 0xFF otherwise. */
    method ReadAllBlocks(wanted: seq<int>) returns (r: Result<seq<byte>>)
      modifies pipe
      ensures var x := ReadBlocks(old(pipe.input), wanted, NumBlocks);
        r == x.result && pipe.input == x.rest && pipe.output == old(pipe.output) + x.sent
    {
      ghost var start := pipe.input;
      ghost var sent: seq<byte> := [];
      var data: seq<byte> := [];
      for i := 0 to NumBlocks
        invariant ReadBlocks(start, wanted, i) == Exchange(Ok(data), pipe.input, sent)
        invariant pipe.output == old(pipe.output) + sent
      {
        ReadBlocksStep(start, wanted, i + 1);
        if i !in wanted {
          data := data + Fill();
        } else {
          ghost var x := ReadBlockSpec(pipe.input, i);
          var b := ReadBlock(i);
          AppendAssoc(old(pipe.output), sent, x.sent);
          sent := sent + x.sent;
          if b.Err? {
            ReadBlocksStopped(start, wanted, i + 1, NumBlocks);
            return Err(b.error);
          }
          data := data + b.value;
        }
      }
      r := Ok(data);
    }

    /** `upload`: write the listed blocks, raise on the first NAK, send 'E', then drop the written blocks from the dirty list. */
    method Upload(blocks: Option<seq<int>>) returns (r: Result<()>)
      requires Valid()
      modifies this, pipe
      ensures Valid() && mmap == old(mmap) && pipe == old(pipe)
      ensures var x := UploadSpec(old(pipe.input), mmap[..], blocks);
        r == x.result && pipe.input == x.rest && pipe.output == old(pipe.output) + x.sent
      ensures r.Ok? ==> dirty == Without(old(dirty), UploadList(blocks))
      ensures r.Err? ==> dirty == old(dirty)
    {
      r := SendBlocks(blocks);
      if r.Ok? {
        var list := UploadList(blocks);
        WithoutInImage(dirty, list);
        dirty := Without(dirty, list);
      }
    }

    /** The serial side of `upload`: handshake, the block loop and the closing 'E'. */
    method SendBlocks(blocks: Option<seq<int>>) returns (r: Result<()>)
      requires Valid()
      modifies pipe
      ensures var x := UploadSpec(old(pipe.input), mmap[..], blocks);
        r == x.result && pipe.input == x.rest && pipe.output == old(pipe.output) + x.sent
    {
      var list := UploadList(blocks);
      ghost var img := mmap[..];
      var h := Handshake();
      if h.Err? || list == [] {
        UploadRefused(old(pipe.input), img, blocks);
        return if h.Err? then Err(h.error) else Err(EmptyBlockList);
      }
      ghost var start := pipe.input;
      ghost var w := WriteBlocks(start, img, list, |list|);
      r := WriteAllBlocks(list);
      AppendAssoc(old(pipe.output), ProgramCommand + [CR], w.sent);
      if r.Err? {
        UploadFails(old(pipe.input), img, blocks, start);
        return;
      }
      pipe.Write([EndTag]);
      AppendAssoc3(old(pipe.output), ProgramCommand + [CR], w.sent, [EndTag]);
      assert pipe.output == old(pipe.output) + (ProgramCommand + [CR] + w.sent + [EndTag]);
      UploadSteps(old(pipe.input), img, blocks, start, pipe.input, w.sent);
    }

    /** The block loop of `upload`: one `write_block` per listed block, stopping at the first one not ACKed. */
    method WriteAllBlocks(list: seq<int>) returns (r: Result<()>)
      requires mmap.Length == ImageSize && InImage(list)
      modifies pipe
      ensures var x := WriteBlocks(old(pipe.input), mmap[..], list, |list|);
        r == x.result && pipe.input == x.rest && pipe.output == old(pipe.output) + x.sent
    {
      ghost var img := mmap[..];
      ghost var start := pipe.input;
      ghost var sent: seq<byte> := [];
      for k := 0 to |list|
        invariant WriteBlocks(start, img, list, k) == Exchange(Ok(()), pipe.input, sent)
        invariant pipe.output == old(pipe.output) + sent
        invariant mmap[..] == img
      {
        ghost var x := WriteBlockSpec(pipe.input, img, list[k]);
        WriteBlocksNext(start, img, list, k, pipe.input, sent, x);
        var ok := WriteBlock(list[k]);
        AppendAssoc(old(pipe.output), sent, x.sent);
        sent := sent + x.sent;
        if ok.Err? || !ok.value {
          return if ok.Err? then Err(ok.error) else Err(Nak(list[k]));
        }
      }
      r := Ok(());
    }

    /** `sync_in`: download the whole image and make it the memory map, with nothing dirty. */
    method SyncIn() returns (r: Result<()>)
      requires Valid()
      modifies this, pipe
      ensures Valid() && pipe == old(pipe)
      ensures var x := DownloadSpec(old(pipe.input), None);
        pipe.input == x.rest && pipe.output == old(pipe.output) + x.sent
        && (x.result.Ok? ==> r == Ok(()) && fresh(mmap) && mmap[..] == x.result.value && dirty == [])
        && (x.result.Err? ==> r == Err(x.result.error) && mmap == old(mmap) && dirty == old(dirty))
    {
      var data := Download(None);
      if data.Err? {
        return Err(data.error);
      }
      Load(data.value);
      r := Ok(());
    }

    /** `process_mmap` on a fresh image: a new memory map holding `img`, with nothing dirty. */
    method Load(img: seq<byte>)
      requires IsImage(img)
      modifies this
      ensures Valid() && fresh(mmap) && mmap[..] == img && dirty == [] && pipe == old(pipe)
    {
      mmap := NewImage(img);
      dirty := [];
    }

    /** `sync_out`: upload the dirty blocks, or every block but the last two when none are dirty. */
    method SyncOut() returns (r: Result<()>)
      requires Valid()
      modifies this, pipe
      ensures Valid() && mmap == old(mmap) && pipe == old(pipe)
      ensures var x := UploadSpec(old(pipe.input), mmap[..], SyncOutBlocks(old(dirty)));
        r == x.result && pipe.input == x.rest && pipe.output == old(pipe.output) + x.sent
      ensures r.Ok? ==> dirty == []
      ensures r.Err? ==> dirty == old(dirty)
    {
      r := Upload(SyncOutBlocks(dirty));
      if r.Ok? {
        SyncOutClearsDirty(old(dirty));
      }
    }
  }
}
