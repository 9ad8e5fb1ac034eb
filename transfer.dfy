/**
 * The clone-mode block protocol: request frames, the radio's block replies, the text
 * commands, and what `download` and `upload` send, read and return for a given stream
 * of bytes from the radio.
 */
module Transfer {
  import opened Bytes
  import opened Outcomes
  import opened Layout
  import opened Serial

  const Ack: byte := 0x06
  const CR: byte := 0x0D
  const Space: byte := 0x20
  /** 'R', 'W' and 'E': read request, write request and block reply, end of session. */
  const ReadTag: byte := 0x52
  const WriteTag: byte := 0x57
  const EndTag: byte := 0x45
  /** "0M PROGRAM", the command that puts the radio into clone mode, and its expected reply "0M". */
  const ProgramCommand: seq<byte> := [0x30, 0x4D, 0x20, 0x50, 0x52, 0x4F, 0x47, 0x52, 0x41, 0x4D]
  const ProgramReply: seq<byte> := [0x30, 0x4D]
  /** "ID" and the "ID " that starts its reply. */
  const IdCommand: seq<byte> := [0x49, 0x44]
  const IdPrefix: seq<byte> := [0x49, 0x44, 0x20]

  /** A `"<cBHB"` header: tag, zero, 16-bit block index, zero. */
  const FrameSize := 5
  /** 256 bytes of 0xFF, what `download` puts in place of a block it does not read. */
  function Fill(): (f: seq<byte>)
    ensures |f| == BlockSize && forall i :: 0 <= i < BlockSize ==> f[i] == 0xFF
  {
    seq(BlockSize, _ => 0xFF)
  }

  /** What one exchange with the radio returns, the bytes it leaves unread, and the bytes it sent. */
  datatype Exchange<T> = Exchange(result: Result<T>, rest: seq<byte>, sent: seq<byte>)

  // ---- Frames ----

  /** `struct.pack("<cBHB", tag, 0, block, 0)`, which raises for a block outside 16 bits. */
  function Frame(tag: byte, block: int): (r: Result<seq<byte>>)
    ensures r.Ok? <==> 0 <= block < 0x1_0000
    ensures r.Err? ==> r.error == PackRange
    ensures r.Ok? ==> |r.value| == FrameSize && r.value[0] == tag && r.value[1] == 0 && r.value[4] == 0
    ensures r.Ok? ==> Le16(r.value[2], r.value[3]) == block
  {
    if 0 <= block < 0x1_0000 then Ok([tag, 0] + Le16Bytes(block) + [0]) else Err(PackRange)
  }

  /** `struct.unpack("<cBHB", h)`: the tag and the block index of a header. */
  function Unpack(h: seq<byte>): (r: (byte, int))
    requires |h| == FrameSize
    ensures 0 <= r.1 < 0x1_0000
  {
    (h[0], Le16(h[2], h[3]))
  }

  /** Unpacking a packed header gives back its tag and block. */
  lemma UnpackFrame(tag: byte, block: int)
    requires 0 <= block < 0x1_0000
    ensures Unpack(Frame(tag, block).value) == (tag, block)
  {
  }

  /** A header whose two padding bytes are zero is exactly the frame of what it unpacks to. */
  lemma FrameOfUnpack(h: seq<byte>)
    requires |h| == FrameSize && h[1] == 0 && h[4] == 0
    ensures Frame(Unpack(h).0, Unpack(h).1) == Ok(h)
  {
    var f := Frame(h[0], Le16(h[2], h[3])).value;
    Le16Injective(f[2], f[3], h[2], h[3]);
    assert f == h;
  }

  // ---- read_block ----

  /** The 256 bytes of block `b` of an image. */
  function BlockData(img: seq<byte>, b: int): (d: seq<byte>)
    requires IsImage(img) && 0 <= b < NumBlocks
    ensures |d| == BlockSize
  {
    img[256 * b..256 * (b + 1)]
  }

  /**
   * `read_block`: send the 'R' request, read the 5-byte header, check its tag and echoed
   * index, read 256 bytes, send ACK and read the radio's ACK.
   */
  function ReadBlockSpec(input: seq<byte>, block: int): (x: Exchange<seq<byte>>)
    requires 0 <= block < NumBlocks
    ensures x.result == Err(ShortResponse) <==> |input| < FrameSize
    ensures x.result == Err(InvalidResponse) <==>
      |input| >= FrameSize && (input[0] != WriteTag || Le16(input[2], input[3]) != block)
    ensures x.result.Ok? <==>
      && |input| > FrameSize + BlockSize && input[0] == WriteTag
      && Le16(input[2], input[3]) == block && input[FrameSize + BlockSize] == Ack
    ensures x.result.Ok? ==>
      && x.result.value == input[FrameSize..FrameSize + BlockSize]
      && x.rest == input[FrameSize + BlockSize + 1..]
    ensures x.result == Err(Stalled) <==>
      |input| >= FrameSize && input[0] == WriteTag && Le16(input[2], input[3]) == block
      && |input| < FrameSize + BlockSize
    ensures |x.rest| <= |input| && x.rest == input[|input| - |x.rest|..]
    ensures |x.sent| >= FrameSize && x.sent[..FrameSize] == Frame(ReadTag, block).value
  {
    var request := Frame(ReadTag, block).value;
    if |input| < FrameSize then Exchange(Err(ShortResponse), [], request)
    else
      var header := Unpack(input[..FrameSize]);
      if header.0 != WriteTag || header.1 != block then Exchange(Err(InvalidResponse), input[FrameSize..], request)
      else if |input| < FrameSize + BlockSize then Exchange(Err(Stalled), [], request)
      else
        var after := input[FrameSize + BlockSize..];
        if Take(after, 1) != [Ack] then Exchange(Err(MissingAck), Drop(after, 1), request + [Ack])
        else Exchange(Ok(input[FrameSize..FrameSize + BlockSize]), Drop(after, 1), request + [Ack])
  }

  /**
   * A reply with the right header and a full payload but no ACK after it fails with MissingAck;
   * the ACK is sent exactly when the payload arrived under the right header, and only the request otherwise.
   */
  lemma ReadBlockAck(input: seq<byte>, block: int)
    requires 0 <= block < NumBlocks
    ensures ReadBlockSpec(input, block).result == Err(MissingAck) <==>
      && |input| >= FrameSize + BlockSize && input[0] == WriteTag && Le16(input[2], input[3]) == block
      && (|input| == FrameSize + BlockSize || input[FrameSize + BlockSize] != Ack)
    ensures var x := ReadBlockSpec(input, block);
      x.result.Ok? || x.result == Err(MissingAck) ==> x.sent == Frame(ReadTag, block).value + [Ack]
    ensures var x := ReadBlockSpec(input, block);
      x.result.Err? && x.result != Err(MissingAck) ==> x.sent == Frame(ReadTag, block).value
  {
    if |input| >= FrameSize + BlockSize {
      var after := input[FrameSize + BlockSize..];
      assert |after| == 0 ==> Take(after, 1) != [Ack];
      assert |after| > 0 ==> (Take(after, 1) == [Ack] <==> input[FrameSize + BlockSize] == Ack);
    }
  }

  /** What a radio that holds `payload` in `block` sends back for a read request. */
  function BlockReply(block: int, payload: seq<byte>): (r: seq<byte>)
    requires 0 <= block < NumBlocks && |payload| == BlockSize
    ensures |r| == FrameSize + BlockSize + 1
  {
    Frame(WriteTag, block).value + payload + [Ack]
  }

  /** Reading a block from a radio that answers correctly yields its payload and consumes exactly the reply. */
  lemma ReadBlockReply(block: int, payload: seq<byte>, more: seq<byte>)
    requires 0 <= block < NumBlocks && |payload| == BlockSize
    ensures ReadBlockSpec(BlockReply(block, payload) + more, block)
         == Exchange(Ok(payload), more, Frame(ReadTag, block).value + [Ack])
  {
    var input := BlockReply(block, payload) + more;
    var frame := Frame(WriteTag, block).value;
    assert input[..FrameSize] == frame;
    assert input[FrameSize..FrameSize + BlockSize] == payload;
    assert input[FrameSize + BlockSize..] == [Ack] + more;
  }

  // ---- command and get_id ----

  /** The bytes `command` collects one at a time: up to and including the first CR, or all that come. */
  function ReadLine(input: seq<byte>): (p: (seq<byte>, seq<byte>))
    ensures p.0 + p.1 == input
    ensures forall i :: 0 <= i < |p.0| - 1 ==> p.0[i] != CR
    ensures p.1 != [] ==> p.0 != [] && p.0[|p.0| - 1] == CR
  {
    var u := UpTo(input, CR);
    if |u| < |input| then (input[..|u| + 1], input[|u| + 1..]) else (input, [])
  }

  /** `command(cmd)`: send the command and CR, collect the reply line, strip it. */
  function CommandSpec(input: seq<byte>, cmd: seq<byte>): (x: Exchange<seq<byte>>)
    ensures x.result.Ok? && x.sent == cmd + [CR]
    ensures |x.rest| <= |input| && x.rest == input[|input| - |x.rest|..]
  {
    var line := ReadLine(input);
    Exchange(Ok(Strip(line.0)), line.1, cmd + [CR])
  }

  /** A radio that answers with a line of text gets exactly that text back to the caller. */
  lemma CommandReply(cmd: seq<byte>, text: seq<byte>, more: seq<byte>)
    requires CR !in text
    requires text == [] || (!IsSpace(text[0]) && !IsSpace(text[|text| - 1]))
    ensures CommandSpec(text + [CR] + more, cmd) == Exchange(Ok(text), more, cmd + [CR])
  {
    var input := text + [CR] + more;
    assert input[..|text|] == text;
    UpToFirst(input, CR, |text|);
    assert input[..|text| + 1] == [] + text + [CR];
    assert input[|text| + 1..] == more;
    StripPadded([], text, [CR]);
  }

  /** The parse in `get_id`: after "ID ", the word up to the next space. */
  function ParseId(r: seq<byte>): (x: Result<seq<byte>>)
    ensures x.Ok? <==> |r| >= 3 && r[..3] == IdPrefix
    ensures x.Ok? ==> Space !in x.value && 3 + |x.value| <= |r| && x.value == r[3..3 + |x.value|]
    ensures x.Ok? && 3 + |x.value| < |r| ==> r[3 + |x.value|] == Space
    ensures x.Err? ==> x.error == NoResponse
  {
    if |r| >= 3 && r[..3] == IdPrefix then Ok(UpTo(r[3..], Space)) else Err(NoResponse)
  }

  /** The bytes the `command` loop collected are the line `ReadLine` describes. */
  lemma ReadLineOf(input: seq<byte>, line: seq<byte>, rest: seq<byte>)
    requires line + rest == input
    requires forall i :: 0 <= i < |line| - 1 ==> line[i] != CR
    requires (line != [] && line[|line| - 1] == CR) || rest == []
    ensures ReadLine(input) == (line, rest)
  {
    if line != [] && line[|line| - 1] == CR {
      var k := |line| - 1;
      assert input[..k] == line[..k];
      assert CR !in input[..k];
      UpToFirst(input, CR, k);
      assert input[..k + 1] == line;
    } else {
      assert line == input;
      forall i | 0 <= i < |input| ensures input[i] != CR {
      }
      var u := UpTo(input, CR);
      assert |u| == |input|;
    }
  }


  /** `get_id`. */
  function GetIdSpec(input: seq<byte>): (x: Exchange<seq<byte>>)
    ensures x.sent == IdCommand + [CR]
  {
    var c := CommandSpec(input, IdCommand);
    Exchange(ParseId(c.result.value), c.rest, c.sent)
  }

  /** A radio that answers "ID <model>" is identified as that model. */
  lemma GetIdReply(model: seq<byte>, more: seq<byte>)
    requires model != [] && forall i :: 0 <= i < |model| ==> !IsSpace(model[i])
    ensures GetIdSpec(IdPrefix + model + [CR] + more) == Exchange(Ok(model), more, IdCommand + [CR])
  {
    var text := IdPrefix + model;
    assert forall i :: 3 <= i < |text| ==> text[i] == model[i - 3];
    CommandReply(IdCommand, text, more);
    assert text[..3] == IdPrefix && text[3..] == model;
    assert Space !in model;
    assert UpTo(model, Space) == model;
  }

  // ---- download ----

  /** `range(n)`. */
  function AllBlocks(n: nat): (r: seq<int>)
    ensures |r| == n && forall i :: 0 <= i < n ==> r[i] == i
    ensures forall b :: b in r <==> 0 <= b < n
  {
    var r := seq(n, i => i);
    forall b | 0 <= b < n ensures b in r {
      assert r[b] == b;
    }
    r
  }

  /** `[b for b in bs if b < limit]`. */
  function Below(bs: seq<int>, limit: int): (r: seq<int>)
    ensures forall b :: b in r <==> b in bs && b < limit
    ensures |r| <= |bs|
  {
    if bs == [] then []
    else (if bs[0] < limit then [bs[0]] else []) + Below(bs[1..], limit)
  }

  /** A list wholly below the limit passes the filter unchanged. */
  lemma {:induction false} BelowKeeps(bs: seq<int>, limit: int)
    requires forall b :: b in bs ==> b < limit
    ensures Below(bs, limit) == bs
  {
    if bs != [] {
      assert bs[0] in bs;
      forall b | b in bs[1..] ensures b < limit {
        assert b in bs;
      }
      BelowKeeps(bs[1..], limit);
    }
  }

  /** The blocks `download` reads: all 256 by default, else those asked for below 256. */
  function DownloadList(blocks: Option<seq<int>>): (r: seq<int>)
    ensures blocks.None? ==> forall b :: b in r <==> 0 <= b < NumBlocks
    ensures blocks.Some? ==> forall b :: b in r <==> b in blocks.value && b < NumBlocks
  {
    match blocks
    case None => AllBlocks(NumBlocks)
    case Some(bs) => Below(bs, NumBlocks)
  }

  /** "0M PROGRAM", which must be answered "0M", then the one byte read and thrown away. */
  function Handshake(input: seq<byte>): (x: Exchange<()>)
    ensures x.result.Ok? <==> CommandSpec(input, ProgramCommand).result.value == ProgramReply
    ensures x.result.Err? ==> x.result.error == NoResponse
    ensures |x.rest| <= |input| && x.rest == input[|input| - |x.rest|..]
    ensures x.sent == ProgramCommand + [CR]
  {
    var c := CommandSpec(input, ProgramCommand);
    if c.result.value != ProgramReply then Exchange(Err(NoResponse), c.rest, c.sent)
    else Exchange(Ok(()), Drop(c.rest, 1), c.sent)
  }

  /** A radio that answers "0M" and sends one more byte passes the handshake. */
  lemma HandshakeReply(x: byte, more: seq<byte>)
    ensures Handshake(ProgramReply + [CR] + [x] + more) == Exchange(Ok(()), more, ProgramCommand + [CR])
  {
    assert ProgramReply + [CR] + [x] + more == ProgramReply + [CR] + ([x] + more);
    CommandReply(ProgramCommand, ProgramReply, [x] + more);
  }

  /** A radio that answers any other line of text than "0M" fails the handshake, and nothing past its line is read. */
  lemma HandshakeRejected(text: seq<byte>, more: seq<byte>)
    requires CR !in text && text != ProgramReply
    requires text == [] || (!IsSpace(text[0]) && !IsSpace(text[|text| - 1]))
    ensures Handshake(text + [CR] + more) == Exchange(Err(NoResponse), more, ProgramCommand + [CR])
  {
    CommandReply(ProgramCommand, text, more);
  }

  /** One iteration of the `download` loop: block i is filled when not wanted, read when wanted; a failure stays. */
  function NextBlock(p: Exchange<seq<byte>>, wanted: seq<int>, i: int): (x: Exchange<seq<byte>>)
    requires 0 <= i < NumBlocks
    ensures x.result.Ok? ==> p.result.Ok? && |x.result.value| == |p.result.value| + BlockSize
    ensures x.result.Ok? ==> x.result.value[..|p.result.value|] == p.result.value
    ensures x.result.Ok? && i !in wanted ==> x.result.value[|p.result.value|..] == Fill()
  {
    if p.result.Err? then p
    else if i !in wanted then Exchange(Ok(p.result.value + Fill()), p.rest, p.sent)
    else
      var r := ReadBlockSpec(p.rest, i);
      if r.result.Err? then Exchange(r.result, r.rest, p.sent + r.sent)
      else Exchange(Ok(p.result.value + r.result.value), r.rest, p.sent + r.sent)
  }

  /** The loop of `download` over blocks 0 .. n-1, stopping at the first failure. */
  function ReadBlocks(input: seq<byte>, wanted: seq<int>, n: int): (x: Exchange<seq<byte>>)
    requires 0 <= n <= NumBlocks
    ensures x.result.Ok? ==> |x.result.value| == 256 * n
    decreases n
  {
    if n == 0 then Exchange(Ok([]), input, [])
    else NextBlock(ReadBlocks(input, wanted, n - 1), wanted, n - 1)
  }

  /** The loop over blocks 0 .. n-1 is the loop over 0 .. n-2 followed by one more iteration. */
  lemma ReadBlocksStep(input: seq<byte>, wanted: seq<int>, n: int)
    requires 0 < n <= NumBlocks
    ensures ReadBlocks(input, wanted, n) == NextBlock(ReadBlocks(input, wanted, n - 1), wanted, n - 1)
  {
  }

  /** Once a block has failed, the later iterations change nothing. */
  lemma {:induction false} ReadBlocksStopped(input: seq<byte>, wanted: seq<int>, k: int, n: int)
    requires 0 <= k <= n <= NumBlocks && ReadBlocks(input, wanted, k).result.Err?
    ensures ReadBlocks(input, wanted, n) == ReadBlocks(input, wanted, k)
    decreases n
  {
    if k < n {
      ReadBlocksStopped(input, wanted, k, n - 1);
    }
  }

  /** Every block the loop did not request is 256 bytes of 0xFF in the result. */
  lemma {:induction false} ReadBlocksUnrequested(input: seq<byte>, wanted: seq<int>, n: int, b: int)
    requires 0 <= b < n <= NumBlocks && b !in wanted
    requires ReadBlocks(input, wanted, n).result.Ok?
    ensures ReadBlocks(input, wanted, n).result.value[256 * b..256 * (b + 1)] == Fill()
  {
    ReadBlocksStep(input, wanted, n);
    var p := ReadBlocks(input, wanted, n - 1);
    var x := NextBlock(p, wanted, n - 1);
    var v := x.result.value;
    var pv := p.result.value;
    assert |pv| == 256 * (n - 1) && v[..|pv|] == pv;
    if b == n - 1 {
      assert v[|pv|..] == Fill();
      assert |pv| == 256 * b && 256 * (b + 1) == |pv| + BlockSize;
    } else {
      ReadBlocksUnrequested(input, wanted, n - 1, b);
      BlockBefore(b, n - 1);
      assert v[256 * b..256 * (b + 1)] == v[..|pv|][256 * b..256 * (b + 1)];
    }
  }

  /** A block before block m ends where block m begins or earlier. */
  lemma BlockBefore(b: int, m: int)
    requires 0 <= b < m
    ensures 0 <= 256 * b && 256 * (b + 1) <= 256 * m
  {
  }

  /** `download(blocks)`: handshake, the block loop, then 'E'. */
  function DownloadSpec(input: seq<byte>, blocks: Option<seq<int>>): (x: Exchange<seq<byte>>)
    ensures x.result.Ok? ==> |x.result.value| == ImageSize
  {
    var wanted := DownloadList(blocks);
    var h := Handshake(input);
    if h.result.Err? then Exchange(Err(h.result.error), h.rest, h.sent)
    else if wanted == [] then Exchange(Err(EmptyBlockList), h.rest, h.sent)
    else
      var p := ReadBlocks(h.rest, wanted, NumBlocks);
      if p.result.Err? then Exchange(p.result, p.rest, h.sent + p.sent)
      else Exchange(p.result, p.rest, h.sent + p.sent + [EndTag])
  }

  /** A download returns a full image in which every block it did not read is 0xFF. */
  lemma DownloadUnrequested(input: seq<byte>, blocks: Option<seq<int>>, b: int)
    requires DownloadSpec(input, blocks).result.Ok?
    requires 0 <= b < NumBlocks && b !in DownloadList(blocks)
    ensures BlockData(DownloadSpec(input, blocks).result.value, b) == Fill()
  {
    var h := Handshake(input);
    ReadBlocksUnrequested(h.rest, DownloadList(blocks), NumBlocks, b);
  }

  /** The replies of a radio holding `img` to the read requests for blocks 0 .. n-1 in `wanted`. */
  function DeviceReplies(img: seq<byte>, wanted: seq<int>, n: int): seq<byte>
    requires IsImage(img) && 0 <= n <= NumBlocks
  {
    if n == 0 then []
    else DeviceReplies(img, wanted, n - 1) + (if n - 1 in wanted then BlockReply(n - 1, BlockData(img, n - 1)) else [])
  }

  /** The requests and ACKs the loop sends for blocks 0 .. n-1 in `wanted`. */
  function Requests(wanted: seq<int>, n: int): seq<byte>
    requires 0 <= n <= NumBlocks
  {
    if n == 0 then []
    else Requests(wanted, n - 1) + (if n - 1 in wanted then Frame(ReadTag, n - 1).value + [Ack] else [])
  }

  /** The image the loop assembles: the radio's blocks where wanted, fill elsewhere. */
  function Assembled(img: seq<byte>, wanted: seq<int>, n: int): (r: seq<byte>)
    requires IsImage(img) && 0 <= n <= NumBlocks
    ensures |r| == 256 * n
  {
    if n == 0 then []
    else Assembled(img, wanted, n - 1) + (if n - 1 in wanted then BlockData(img, n - 1) else Fill())
  }

  /** Against a radio that answers every request, the loop assembles the radio's blocks and consumes exactly its replies. */
  lemma {:induction false} ReadBlocksFromDevice(img: seq<byte>, wanted: seq<int>, n: int, more: seq<byte>)
    requires IsImage(img) && 0 <= n <= NumBlocks
    ensures ReadBlocks(DeviceReplies(img, wanted, n) + more, wanted, n)
         == Exchange(Ok(Assembled(img, wanted, n)), more, Requests(wanted, n))
  {
    if n > 0 {
      var i := n - 1;
      var reply := if i in wanted then BlockReply(i, BlockData(img, i)) else [];
      var input := DeviceReplies(img, wanted, n) + more;
      assert input == DeviceReplies(img, wanted, i) + (reply + more);
      ReadBlocksFromDevice(img, wanted, i, reply + more);
      var p := ReadBlocks(input, wanted, i);
      assert p == Exchange(Ok(Assembled(img, wanted, i)), reply + more, Requests(wanted, i));
      assert ReadBlocks(input, wanted, n) == NextBlock(p, wanted, i);
      if i in wanted {
        ReadBlockReply(i, BlockData(img, i), more);
        assert NextBlock(p, wanted, i) == Exchange(Ok(Assembled(img, wanted, i) + BlockData(img, i)), more,
                                                   Requests(wanted, i) + (Frame(ReadTag, i).value + [Ack]));
      } else {
        assert NextBlock(p, wanted, i) == Exchange(Ok(Assembled(img, wanted, i) + Fill()), more, Requests(wanted, i));
      }
    }
  }

  /** Reading every block assembles the image itself. */
  lemma {:induction false} AssembledAll(img: seq<byte>, n: int)
    requires IsImage(img) && 0 <= n <= NumBlocks
    ensures Assembled(img, AllBlocks(NumBlocks), n) == img[..256 * n]
  {
    if n > 0 {
      AssembledAll(img, n - 1);
      assert n - 1 in AllBlocks(NumBlocks);
      assert img[..256 * n] == img[..256 * (n - 1)] + BlockData(img, n - 1);
    }
  }

  /** A full download from a radio that answers correctly returns exactly the radio's image. */
  lemma DownloadFromDevice(img: seq<byte>, x: byte, more: seq<byte>)
    requires IsImage(img)
    ensures DownloadSpec(ProgramReply + [CR] + [x] + DeviceReplies(img, AllBlocks(NumBlocks), NumBlocks) + more, None)
         == Exchange(Ok(img), more, ProgramCommand + [CR] + Requests(AllBlocks(NumBlocks), NumBlocks) + [EndTag])
  {
    var all := AllBlocks(NumBlocks);
    var replies := DeviceReplies(img, all, NumBlocks);
    var input := ProgramReply + [CR] + [x] + replies + more;
    assert input == ProgramReply + [CR] + [x] + (replies + more);
    HandshakeReply(x, replies + more);
    assert 0 in all;
    ReadAllFromDevice(img, more);
    DownloadSteps(input, None, replies + more, img, more, Requests(all, NumBlocks));
  }

  /** Reading every block from a radio that answers correctly yields its image. */
  lemma ReadAllFromDevice(img: seq<byte>, more: seq<byte>)
    requires IsImage(img)
    ensures ReadBlocks(DeviceReplies(img, AllBlocks(NumBlocks), NumBlocks) + more, AllBlocks(NumBlocks), NumBlocks)
         == Exchange(Ok(img), more, Requests(AllBlocks(NumBlocks), NumBlocks))
  {
    ReadBlocksFromDevice(img, AllBlocks(NumBlocks), NumBlocks, more);
    AssembledImage(img);
  }

  /** Assembling every block of an image gives the image back. */
  lemma AssembledImage(img: seq<byte>)
    requires IsImage(img)
    ensures Assembled(img, AllBlocks(NumBlocks), NumBlocks) == img
  {
    AssembledAll(img, NumBlocks);
    assert img[..256 * NumBlocks] == img;
  }

  /** A download whose handshake and block loop both succeed sends 'E' and returns the loop's image. */
  lemma DownloadSteps(input: seq<byte>, blocks: Option<seq<int>>, rest: seq<byte>, v: seq<byte>,
                      more: seq<byte>, reqs: seq<byte>)
    requires Handshake(input) == Exchange(Ok(()), rest, ProgramCommand + [CR])
    requires DownloadList(blocks) != []
    requires ReadBlocks(rest, DownloadList(blocks), NumBlocks) == Exchange(Ok(v), more, reqs)
    ensures DownloadSpec(input, blocks) == Exchange(Ok(v), more, ProgramCommand + [CR] + reqs + [EndTag])
  {
  }

  /** A download stops after the handshake when the radio does not answer "0M" or no block is wanted. */
  lemma DownloadRefused(input: seq<byte>, blocks: Option<seq<int>>)
    requires Handshake(input).result.Err? || DownloadList(blocks) == []
    ensures var h := Handshake(input);
      DownloadSpec(input, blocks) == Exchange(if h.result.Err? then Err(h.result.error) else Err(EmptyBlockList), h.rest, h.sent)
  {
  }

  /** A download whose handshake succeeds with a nonempty list but whose block loop fails reports the loop's error. */
  lemma DownloadFails(input: seq<byte>, blocks: Option<seq<int>>, rest: seq<byte>)
    requires Handshake(input).result.Ok? && Handshake(input).rest == rest
    requires DownloadList(blocks) != []
    requires ReadBlocks(rest, DownloadList(blocks), NumBlocks).result.Err?
    ensures var p := ReadBlocks(rest, DownloadList(blocks), NumBlocks);
      DownloadSpec(input, blocks) == Exchange(p.result, p.rest, Handshake(input).sent + p.sent)
  {
  }

  // ---- write_block and upload ----

  /** `write_block`: the 'W' header and the block's 256 bytes, then one byte read; true when it is ACK. */
  function WriteBlockSpec(input: seq<byte>, img: seq<byte>, block: int): (x: Exchange<bool>)
    requires IsImage(img) && block < NumBlocks
    ensures x.result.Err? <==> block < 0
    ensures x.result.Err? ==> x.result.error == PackRange && x.rest == input && x.sent == []
    ensures x.result.Ok? ==> x.sent == Frame(WriteTag, block).value + BlockData(img, block)
    ensures x.result.Ok? ==> x.rest == Drop(input, 1) && (x.result.value <==> Take(input, 1) == [Ack])
  {
    match Frame(WriteTag, block)
    case Err(e) => Exchange(Err(e), input, [])
    case Ok(frame) => Exchange(Ok(Take(input, 1) == [Ack]), Drop(input, 1), frame + BlockData(img, block))
  }

  /** Every listed block is one `write_block` can address without falling off the image. */
  predicate InImage(list: seq<int>) {
    forall i :: 0 <= i < |list| ==> list[i] < NumBlocks
  }

  /** Every listed block is a block of the image (none is negative either). */
  predicate Addressable(list: seq<int>) {
    forall i :: 0 <= i < |list| ==> 0 <= list[i] < NumBlocks
  }

  /** The loop of `upload` over list[..k]: a write per block, raising on a packing error or a NAK. */
  function WriteBlocks(input: seq<byte>, img: seq<byte>, list: seq<int>, k: int): (x: Exchange<()>)
    requires IsImage(img) && InImage(list) && 0 <= k <= |list|
    ensures x.result.Ok? <==>
      && (forall i :: 0 <= i < k ==> 0 <= list[i])
      && k <= |input| && (forall i :: 0 <= i < k ==> input[i] == Ack)
    ensures x.result.Ok? ==> x.rest == input[k..] && |x.sent| == (FrameSize + BlockSize) * k
    ensures x.result.Err? ==> x.result.error == PackRange || x.result.error.Nak?
    decreases k
  {
    if k == 0 then Exchange(Ok(()), input, [])
    else NextWrite(WriteBlocks(input, img, list, k - 1), img, list[k - 1])
  }

  /** One iteration of the `upload` loop: write the block, raise on a packing error or a missing ACK; a failure stays. */
  function NextWrite(p: Exchange<()>, img: seq<byte>, block: int): (x: Exchange<()>)
    requires IsImage(img) && block < NumBlocks
    ensures x.result.Ok? ==> p.result.Ok? && 0 <= block
    ensures p.result.Err? ==> x == p
  {
    if p.result.Err? then p else AfterWrite(p, WriteBlockSpec(p.rest, img, block), block)
  }

  /** The loop's state after `write_block` returned `w`: a NAK raises, naming the block. */
  function AfterWrite(p: Exchange<()>, w: Exchange<bool>, block: int): (x: Exchange<()>)
    ensures x.result.Ok? <==> w.result == Ok(true)
    ensures x.rest == w.rest && x.sent == p.sent + w.sent
  {
    if w.result.Err? then Exchange(Err(w.result.error), w.rest, p.sent + w.sent)
    else if !w.result.value then Exchange(Err(Nak(block)), w.rest, p.sent + w.sent)
    else Exchange(Ok(()), w.rest, p.sent + w.sent)
  }

  /** Once a write has failed, the later iterations change nothing. */
  lemma {:induction false} WriteBlocksStopped(input: seq<byte>, img: seq<byte>, list: seq<int>, k: int, n: int)
    requires IsImage(img) && InImage(list) && 0 <= k <= n <= |list|
    requires WriteBlocks(input, img, list, k).result.Err?
    ensures WriteBlocks(input, img, list, n) == WriteBlocks(input, img, list, k)
    decreases n
  {
    if k < n {
      WriteBlocksStopped(input, img, list, k, n - 1);
      WriteBlocksStep(input, img, list, n);
    }
  }

  /** The loop over list[..n] is the loop over list[..n-1] followed by one more iteration. */
  lemma WriteBlocksStep(input: seq<byte>, img: seq<byte>, list: seq<int>, n: int)
    requires IsImage(img) && InImage(list) && 0 < n <= |list|
    ensures WriteBlocks(input, img, list, n) == NextWrite(WriteBlocks(input, img, list, n - 1), img, list[n - 1])
  {
  }

  /**
   * One iteration of the `upload` loop from a state where every earlier write was ACKed: an ACK
   * continues the loop, anything else ends the whole loop with that write's error.
   */
  lemma WriteBlocksNext(input: seq<byte>, img: seq<byte>, list: seq<int>, k: int, rest: seq<byte>,
                        sent: seq<byte>, w: Exchange<bool>)
    requires IsImage(img) && InImage(list) && 0 <= k < |list|
    requires WriteBlocks(input, img, list, k) == Exchange(Ok(()), rest, sent)
    requires w == WriteBlockSpec(rest, img, list[k])
    ensures w.result == Ok(true) ==> WriteBlocks(input, img, list, k + 1) == Exchange(Ok(()), w.rest, sent + w.sent)
    ensures w.result != Ok(true) ==>
      WriteBlocks(input, img, list, |list|)
        == Exchange(if w.result.Err? then Err(w.result.error) else Err(Nak(list[k])), w.rest, sent + w.sent)
  {
    WriteBlocksStep(input, img, list, k + 1);
    if w.result != Ok(true) {
      WriteBlocksStopped(input, img, list, k + 1, |list|);
    }
  }

  /** The frames and data `upload` sends for list[..k]. */
  function WriteFrames(img: seq<byte>, list: seq<int>, k: int): (s: seq<byte>)
    requires IsImage(img) && 0 <= k <= |list|
    requires Addressable(list)
    ensures |s| == (FrameSize + BlockSize) * k
  {
    if k == 0 then []
    else WriteFrames(img, list, k - 1) + Frame(WriteTag, list[k - 1]).value + BlockData(img, list[k - 1])
  }

  /** `n` ACK bytes. */
  function Acks(n: nat): (r: seq<byte>)
    ensures |r| == n && forall i :: 0 <= i < n ==> r[i] == Ack
  {
    seq(n, _ => Ack)
  }

  /** A radio that ACKs every block receives exactly the frames of the list. */
  lemma {:induction false} WriteBlocksAcked(img: seq<byte>, list: seq<int>, k: int, more: seq<byte>)
    requires IsImage(img) && 0 <= k <= |list|
    requires Addressable(list)
    ensures WriteBlocks(Acks(k) + more, img, list, k) == Exchange(Ok(()), more, WriteFrames(img, list, k))
  {
    if k > 0 {
      assert Acks(k) + more == Acks(k - 1) + ([Ack] + more);
      WriteBlocksAcked(img, list, k - 1, [Ack] + more);
    }
  }

  /** The first block the radio does not ACK ends the upload with a NAK error naming that block. */
  lemma WriteBlocksNak(img: seq<byte>, list: seq<int>, j: int, k: int, tail: seq<byte>)
    requires IsImage(img) && 0 <= j < k <= |list|
    requires Addressable(list)
    requires Take(tail, 1) != [Ack]
    ensures InImage(list)
    ensures WriteBlocks(Acks(j) + tail, img, list, k)
         == Exchange(Err(Nak(list[j])), Drop(tail, 1), WriteFrames(img, list, j + 1))
  {
    var input := Acks(j) + tail;
    WriteBlocksAcked(img, list, j, tail);
    var p := WriteBlocks(input, img, list, j);
    assert p == Exchange(Ok(()), tail, WriteFrames(img, list, j));
    var c := list[j];
    var w := WriteBlockSpec(tail, img, c);
    assert w.result == Ok(false);
    var sent := Frame(WriteTag, c).value + BlockData(img, c);
    assert w.sent == sent;
    assert WriteFrames(img, list, j + 1) == WriteFrames(img, list, j) + sent;
    assert WriteBlocks(input, img, list, j + 1) == NextWrite(p, img, c);
    assert NextWrite(p, img, c) == Exchange(Err(Nak(c)), Drop(tail, 1), WriteFrames(img, list, j) + sent);
    WriteBlocksStopped(input, img, list, j + 1, k);
  }

  /** The blocks `upload` writes: 0..253 by default, else those asked for below 256. */
  function UploadList(blocks: Option<seq<int>>): (r: seq<int>)
    ensures InImage(r)
    ensures blocks.Some? ==> forall b :: b in r <==> b in blocks.value && b < NumBlocks
  {
    match blocks
    case None => AllBlocks(NumBlocks - 2)
    case Some(bs) =>
      var r := Below(bs, NumBlocks);
      assert forall i :: 0 <= i < |r| ==> r[i] in r;
      r
  }

  /** The default upload writes every block except the last two. */
  lemma DefaultUploadSkipsLastTwo()
    ensures forall b :: b in UploadList(None) <==> 0 <= b < NumBlocks - 2
    ensures NumBlocks - 2 !in UploadList(None) && NumBlocks - 1 !in UploadList(None)
  {
  }

  /** `upload(blocks)`: handshake, the write loop, then 'E'. */
  function UploadSpec(input: seq<byte>, img: seq<byte>, blocks: Option<seq<int>>): (x: Exchange<()>)
    requires IsImage(img)
    ensures |x.sent| >= |ProgramCommand| + 1 && x.sent[..|ProgramCommand| + 1] == ProgramCommand + [CR]
    ensures x.result == Err(EmptyBlockList) <==> Handshake(input).result.Ok? && UploadList(blocks) == []
    ensures x.result == Err(NoResponse) <==> Handshake(input).result.Err?
    ensures x.result.Ok? ==>
      && UploadList(blocks) != []
      && |x.sent| == |ProgramCommand| + 1 + (FrameSize + BlockSize) * |UploadList(blocks)| + 1
      && x.sent[|x.sent| - 1] == EndTag
  {
    var list := UploadList(blocks);
    var h := Handshake(input);
    if h.result.Err? then Exchange(Err(h.result.error), h.rest, h.sent)
    else if list == [] then Exchange(Err(EmptyBlockList), h.rest, h.sent)
    else
      var w := WriteBlocks(h.rest, img, list, |list|);
      if w.result.Err? then Exchange(w.result, w.rest, h.sent + w.sent)
      else Exchange(Ok(()), w.rest, h.sent + w.sent + [EndTag])
  }

  /** An upload to a radio that ACKs every block sends the handshake, every frame of the list in order, and 'E'. */
  lemma UploadToDevice(img: seq<byte>, blocks: Option<seq<int>>, x: byte, more: seq<byte>)
    requires IsImage(img) && UploadList(blocks) != [] && Addressable(UploadList(blocks))
    ensures UploadSpec(ProgramReply + [CR] + [x] + Acks(|UploadList(blocks)|) + more, img, blocks)
         == Exchange(Ok(()), more, ProgramCommand + [CR] + WriteFrames(img, UploadList(blocks), |UploadList(blocks)|) + [EndTag])
  {
    var list := UploadList(blocks);
    var acks := Acks(|list|) + more;
    var input := ProgramReply + [CR] + [x] + Acks(|list|) + more;
    assert input == ProgramReply + [CR] + [x] + acks;
    HandshakeReply(x, acks);
    var h := Handshake(input);
    assert h == Exchange(Ok(()), acks, ProgramCommand + [CR]);
    WriteBlocksAcked(img, list, |list|, more);
    var w := WriteBlocks(acks, img, list, |list|);
    assert w == Exchange(Ok(()), more, WriteFrames(img, list, |list|));
  }

  /** An upload whose handshake and write loop both succeed sends 'E' after the frames. */
  lemma UploadSteps(input: seq<byte>, img: seq<byte>, blocks: Option<seq<int>>, rest: seq<byte>,
                    more: seq<byte>, sent: seq<byte>)
    requires IsImage(img)
    requires Handshake(input) == Exchange(Ok(()), rest, ProgramCommand + [CR])
    requires UploadList(blocks) != []
    requires WriteBlocks(rest, img, UploadList(blocks), |UploadList(blocks)|) == Exchange(Ok(()), more, sent)
    ensures UploadSpec(input, img, blocks) == Exchange(Ok(()), more, ProgramCommand + [CR] + sent + [EndTag])
  {
  }

  /** An upload stops after the handshake when the radio does not answer "0M" or no block is listed. */
  lemma UploadRefused(input: seq<byte>, img: seq<byte>, blocks: Option<seq<int>>)
    requires IsImage(img)
    requires Handshake(input).result.Err? || UploadList(blocks) == []
    ensures var h := Handshake(input);
      UploadSpec(input, img, blocks) == Exchange(if h.result.Err? then Err(h.result.error) else Err(EmptyBlockList), h.rest, h.sent)
  {
  }

  /** An upload whose handshake succeeds with a nonempty list but whose write loop fails reports the loop's error. */
  lemma UploadFails(input: seq<byte>, img: seq<byte>, blocks: Option<seq<int>>, rest: seq<byte>)
    requires IsImage(img)
    requires Handshake(input).result.Ok? && Handshake(input).rest == rest
    requires UploadList(blocks) != []
    requires WriteBlocks(rest, img, UploadList(blocks), |UploadList(blocks)|).result.Err?
    ensures var w := WriteBlocks(rest, img, UploadList(blocks), |UploadList(blocks)|);
      UploadSpec(input, img, blocks) == Exchange(w.result, w.rest, Handshake(input).sent + w.sent)
  {
  }

  /** `sync_out`'s choice: the dirty blocks when there are any, else the default list. */
  function SyncOutBlocks(dirty: seq<int>): (r: Option<seq<int>>)
    ensures r.None? <==> dirty == []
  {
    if |dirty| > 0 then Some(dirty) else None
  }

  /** With dirty blocks pending, `sync_out` uploads exactly the dirty list. */
  lemma SyncOutUploadsDirty(dirty: seq<int>)
    requires dirty != [] && forall b :: b in dirty ==> 0 <= b < NumBlocks
    ensures UploadList(SyncOutBlocks(dirty)) == dirty
  {
    BelowKeeps(dirty, NumBlocks);
  }

  // ---- The radio's side of a write ----

  /** A radio storing one 261-byte write frame: a 'W' header for a block below 256 overwrites that block. */
  function StoreFrame(d: seq<byte>, f: seq<byte>): (r: Option<seq<byte>>)
    requires IsImage(d) && |f| == FrameSize + BlockSize
    ensures r.Some? ==> IsImage(r.value)
  {
    var header := Unpack(f[..FrameSize]);
    if header.0 != WriteTag || header.1 >= NumBlocks then None
    else Some(Splice(d, 256 * header.1, f[FrameSize..]))
  }

  /** A radio storing what it receives, frame by frame; a stream it cannot split into write frames is refused. */
  function DeviceApply(dev: seq<byte>, s: seq<byte>): (r: Option<seq<byte>>)
    requires IsImage(dev)
    ensures r.Some? ==> IsImage(r.value)
    decreases |s|
  {
    if s == [] then Some(dev)
    else if |s| < FrameSize + BlockSize then None
    else
      var cut := |s| - (FrameSize + BlockSize);
      match DeviceApply(dev, s[..cut])
      case None => None
      case Some(d) => StoreFrame(d, s[cut..])
  }

  /** One more write frame makes the radio overwrite the block it names with the frame's data. */
  lemma DeviceApplyFrame(dev: seq<byte>, prev: seq<byte>, header: seq<byte>, data: seq<byte>)
    requires IsImage(dev) && |header| == FrameSize && |data| == BlockSize
    requires header[0] == WriteTag && Unpack(header).1 < NumBlocks
    requires DeviceApply(dev, prev).Some?
    ensures DeviceApply(dev, prev + header + data)
         == Some(Splice(DeviceApply(dev, prev).value, 256 * Unpack(header).1, data))
  {
    var s := prev + header + data;
    var cut := |prev|;
    assert s[..cut] == prev;
    assert s[cut..] == header + data;
    StoreFrameOf(DeviceApply(dev, prev).value, header, data);
  }

  lemma StoreFrameOf(d: seq<byte>, header: seq<byte>, data: seq<byte>)
    requires IsImage(d) && |header| == FrameSize && |data| == BlockSize
    requires header[0] == WriteTag && Unpack(header).1 < NumBlocks
    ensures StoreFrame(d, header + data) == Some(Splice(d, 256 * Unpack(header).1, data))
  {
    assert (header + data)[..FrameSize] == header;
    assert (header + data)[FrameSize..] == data;
  }

  /** A value is among the first k entries when it is the k-th or among the first k-1. */
  lemma PrefixMember(list: seq<int>, k: int, b: int)
    requires 0 < k <= |list|
    ensures b in list[..k] <==> b == list[k - 1] || b in list[..k - 1]
  {
    assert list[..k] == list[..k - 1] + [list[k - 1]];
  }

  /** After receiving the frames of a list, the radio holds the image's data in every listed block and its own elsewhere. */
  lemma {:induction false} DeviceApplyFrames(dev: seq<byte>, img: seq<byte>, list: seq<int>, k: int, b: int)
    requires IsImage(dev) && IsImage(img) && 0 <= k <= |list| && 0 <= b < NumBlocks
    requires Addressable(list)
    ensures DeviceApply(dev, WriteFrames(img, list, k)).Some?
    ensures BlockData(DeviceApply(dev, WriteFrames(img, list, k)).value, b)
         == if b in list[..k] then BlockData(img, b) else BlockData(dev, b)
  {
    if k > 0 {
      var prev := WriteFrames(img, list, k - 1);
      var c := list[k - 1];
      var data := BlockData(img, c);
      DeviceApplyFrames(dev, img, list, k - 1, b);
      DeviceApplyFrame(dev, prev, Frame(WriteTag, c).value, data);
      var d := DeviceApply(dev, prev).value;
      var e := Splice(d, 256 * c, data);
      assert DeviceApply(dev, WriteFrames(img, list, k)) == Some(e);
      var before := if b in list[..k - 1] then BlockData(img, b) else BlockData(dev, b);
      assert BlockData(d, b) == before;
      PrefixMember(list, k, b);
      if b != c {
        SpliceOutside(d, 256 * c, data, 256 * b, 256 * (b + 1));
        assert BlockData(e, b) == before;
      } else {
        assert BlockData(e, b) == BlockData(img, b);
      }
    }
  }
}
