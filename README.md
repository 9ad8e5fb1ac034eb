# Kenwood TH-D72 clone-mode driver, modelled in Dafny

This project models the clone-mode driver for the Kenwood TH-D72 handheld radio (`chirp/drivers/thd72.py`) and
proves properties of that model. The driver does two jobs:

- **Channel and name codec.** It reads and writes the radio's 65536-byte memory image. Each memory slot 0..1031
  has a 2-byte flag record at 0x0C00, a 16-byte channel record at 0x1500 and, for some slots, an 8-byte name at
  0x5E00 or 0x7DE0. `get_memory`, `set_memory`, `get_channel_name` and `set_channel_name` read and write these.
  The special locations L0..U9, WX1..WX10, C VHF and C UHF are named slots 1000..1031.
- **Clone protocol.** It moves the image over a serial line in 256-byte blocks. `read_block`, `write_block`,
  `download`, `upload`, `command` and `get_id` do this. A sorted list of dirty blocks decides what `sync_out`
  uploads.

Modules, one file each:

- `bytes.dfy` (`Bytes`): bytes; `strip`/`rstrip`; cutting at a byte; little-endian 16- and 32-bit fields;
  writing a slice into an image (`Splice`).
- `outcomes.dfy` (`Outcomes`): `Result`/`Option`, the driver's error kinds, and table lookup and `.index()`.
- `layout.dfy` (`Layout`): the `mem_format` offsets and the bit-packed flag and tone/duplex fields.
- `tables.dfy` (`Tables`): `TMODES`, `MODES` and `DUPLEX` with their reverse maps, and `THD72_SPECIAL` with
  `THD72_SPECIAL_REV`, and the sorted name list `get_special_locations` returns.
- `names.dfy` (`Names`): the 8-byte name field codec.
- `dirty.dfy` (`DirtyBlocks`): the sorted, repeat-free dirty list, and the filter `upload` applies to it.
- `channels.dfy` (`Channels`): `get_memory`, `set_memory`, `get_channel_name` and `set_channel_name` as
  functions on an image.
- `serial.dfy` (`Serial`): the serial line. It is a class `Pipe` with a scripted input queue and an output log.
- `transfer.dfy` (`Transfer`): the protocol as functions of the input script. Each one gives the result, the
  input left over, and the bytes sent (`Exchange`).
- `radio.dfy` (`Driver`): the driver object, class `Radio`. It holds the memory map (`array<byte>`), the dirty
  list and the pipe. Its methods do what the driver's methods do, step by step, and are proved against the
  functions above.

The chirp_common tables (`TONES`, `DTCS_CODES`, `CROSS_MODES`, `SKIP_VALUES`) are not part of this model. The
field values of a fresh `Memory()` are not part of it either. Both come in as a `Common` value parameter.

## Model

| member | source | states |
|---|---|---|
| Bytes.RStrip | chirp/drivers/thd72.py:237 | `rstrip()` keeps a prefix, ends on a non-space, and drops only whitespace |
| Bytes.LStrip | chirp/drivers/thd72.py:462-463 | the left half of `strip()`: keeps a suffix, starts on a non-space, and drops only whitespace |
| Bytes.Strip | chirp/drivers/thd72.py:462-463 | `strip()` returns a text that neither starts nor ends with whitespace |
| Bytes.StripPadded | chirp/drivers/thd72.py:462-463 | stripping whitespace-padded text gives back exactly that text |
| Bytes.UpTo | chirp/drivers/thd72.py:237 | `name[:name.index(stop)]`: the prefix before the first `stop` byte, or all of it when there is none |
| Bytes.UpToFirst | chirp/drivers/thd72.py:237 | the cut falls exactly at the first occurrence of the stop byte |
| Bytes.Le16Bytes | chirp/drivers/thd72.py:357 | the `H` field of `struct.pack("<cBHB")` is two bytes that read back as the value |
| Bytes.Le16Injective | chirp/drivers/thd72.py:362 | two little-endian 16-bit fields that read equal are the same bytes |
| Bytes.Le32Bytes | chirp/drivers/thd72.py:77 | `ul32` fields: four bytes that read back as the value |
| Bytes.Le32BytesOfLe32 | chirp/drivers/thd72.py:77-86 | writing back the value read from an `ul32` field restores its four bytes |
| Bytes.Splice | chirp/drivers/thd72.py:327-339 | a field write puts the new bytes at the offset and keeps every other byte of the image |
| Bytes.SpliceAt | chirp/drivers/thd72.py:327-339 | the same, byte by byte |
| Outcomes.Known | chirp/drivers/thd72.py:279-285 | a dict lookup succeeds exactly for a present key and raises otherwise |
| Outcomes.Lookup | chirp/drivers/thd72.py:280-282 | a table index succeeds exactly inside the table and gives that entry |
| Outcomes.IndexOf | chirp/drivers/thd72.py:333-336 | `.index(x)` gives the first position holding `x` |
| Outcomes.IndexOfLookup | chirp/drivers/thd72.py:333-336 | in a table without repeats, `.index` undoes indexing |
| Layout.BlockOf | chirp/drivers/thd72.py:223 | `offset / 256` is the block whose 256 bytes contain the offset |
| Layout.FlagOffset | chirp/drivers/thd72.py:68-73 | `flag[n]` lies inside the flag area and inside one block |
| Layout.ChannelOffset | chirp/drivers/thd72.py:75-88 | `memory[n]` lies inside the channel area and inside one block |
| Layout.NameOffset | chirp/drivers/thd72.py:90-93 | `channel_name[i]` lies inside its table and inside one block |
| Layout.WxNameOffset | chirp/drivers/thd72.py:95-98 | `wx_name[i]` lies inside its table and inside one block |
| Layout.Disabled | chirp/drivers/thd72.py:69-71 | `disabled:7` is the high seven bits of the flag byte |
| Layout.SetDisabled | chirp/drivers/thd72.py:318-320 | assigning `flag.disabled` changes that field only: `unknown0` and every other byte keep their values |
| Layout.SetSkipCode | chirp/drivers/thd72.py:342 | assigning `flag.skip` changes that byte only |
| Layout.SetDisabledSame | chirp/drivers/thd72.py:69-71 | writing back the `disabled` value read leaves the image unchanged |
| Layout.SetSkipCodeSame | chirp/drivers/thd72.py:72 | writing back the `skip` value read leaves the image unchanged |
| Layout.ToneModeNibble | chirp/drivers/thd72.py:80 | `tone_mode` is the high nibble of byte 6: a value below 16 whose multiple of 16 is the byte rounded down to a multiple of 16 |
| Layout.DuplexNibble | chirp/drivers/thd72.py:81 | `duplex` is the low nibble of byte 6: a value below 16 that is what remains of the byte after the `tone_mode` nibble |
| Layout.NibblesOfToneDuplexByte | chirp/drivers/thd72.py:80-81 | assigning `tone_mode` and `duplex` and reading them back gives the assigned nibbles |
| Layout.ToneDuplexByteOf | chirp/drivers/thd72.py:80-81 | writing back the two nibbles read from byte 6 restores the byte |
| Tables.ToneModeCode | chirp/drivers/thd72.py:127-133 | `TMODES_REV` is total, gives a nibble, and `TMODES` maps that code back |
| Tables.ToneModeOf | chirp/drivers/thd72.py:120-126 | `TMODES` is defined exactly on 0x00, 0x01, 0x02, 0x04 and 0x08 |
| Tables.ToneModeCodeOf | chirp/drivers/thd72.py:120-133 | `TMODES_REV` undoes `TMODES` on every known code |
| Tables.ModeCode | chirp/drivers/thd72.py:141-145 | `MODES_REV` is total and `MODES` maps its code back |
| Tables.ModeOf | chirp/drivers/thd72.py:135-139 | `MODES` is defined exactly on 0..2 |
| Tables.ModeCodeOf | chirp/drivers/thd72.py:135-145 | `MODES_REV` undoes `MODES` on every known code |
| Tables.DuplexCode | chirp/drivers/thd72.py:153-158 | `DUPLEX_REV` is total, gives a nibble, and `DUPLEX` maps that code back |
| Tables.DuplexOf | chirp/drivers/thd72.py:147-152 | `DUPLEX` is defined exactly on 0x00, 0x01, 0x02 and 0x04 |
| Tables.DuplexCodeOf | chirp/drivers/thd72.py:147-158 | `DUPLEX_REV` undoes `DUPLEX` on every known code |
| Tables.SpecialName | chirp/drivers/thd72.py:106-118 | `THD72_SPECIAL_REV`: the name of a special slot has 2 to 5 characters |
| Tables.SpecialNameInitial | chirp/drivers/thd72.py:106-114 | a special slot's name starts with 'L' exactly for the even and 'U' exactly for the odd slots 1000..1019, 'W' exactly for 1020..1029 and 'C' exactly for 1030 and 1031 |
| Tables.SpecialNumber | chirp/drivers/thd72.py:106-114 | a name found in `THD72_SPECIAL` maps to a slot 1000..1031 whose `THD72_SPECIAL_REV` entry is that name |
| Tables.SpecialNumberOfName | chirp/drivers/thd72.py:106-118 | every slot 1000..1031 has a name in `THD72_SPECIAL_REV`, and `THD72_SPECIAL` maps it back, so the two are inverse on all 32 entries |
| Tables.SpecialNumberFormula | chirp/drivers/thd72.py:108-114 | L*i* is 1000+2*i*, U*i* is 1001+2*i*, WX(*i*+1) is 1020+*i*, C VHF is 1030 and C UHF is 1031 |
| Tables.SpecialLocations | chirp/drivers/thd72.py:219-220 | `get_special_locations` lists 32 names, each a key of `THD72_SPECIAL`, every special location's name among them, each one less than the next as Python compares strings |
| Names.Truncate | chirp/drivers/thd72.py:240 | `name[:8]`: a prefix of at most 8 bytes, the whole name when it fits |
| Names.EncodeName | chirp/drivers/thd72.py:240-242 | the stored field is 8 bytes: the name's first 8 bytes, then 0xFF padding |
| Names.DecodeName | chirp/drivers/thd72.py:231-237 | the name read has no 0xFF, is a prefix of the field, and does not end in whitespace |
| Names.DecodeEncodeName | chirp/drivers/thd72.py:229-247 | reading back a set name gives `name[:8]` cut at its first 0xFF and right-stripped |
| Names.StorableNameRoundTrip | chirp/drivers/thd72.py:229-247 | a name of at most 8 bytes, without 0xFF and not ending in a space, reads back unchanged |
| Names.EncodeDecodeName | chirp/drivers/thd72.py:229-247 | reading a field and setting the result restores its bytes if and only if the field is canonical |
| DirtyBlocks.Insert | chirp/drivers/thd72.py:222-226 | the list after adding a block is sorted, has no repeats, and holds exactly the old blocks and the new one |
| DirtyBlocks.AppendThenSort | chirp/drivers/thd72.py:224-226 | appending an absent block and sorting gives the same list as `Insert` |
| DirtyBlocks.InsertPresent | chirp/drivers/thd72.py:224 | adding a block that is already listed leaves the list unchanged |
| DirtyBlocks.SameBlockMarkedOnce | chirp/drivers/thd72.py:222-226 | marking 0x1500 and then 0x1510 (the same block) gives the list that marking 0x1500 alone gives |
| DirtyBlocks.Without | chirp/drivers/thd72.py:452 | the dirty list after an upload keeps exactly the entries not uploaded, still sorted |
| Channels.CheckNumber | chirp/drivers/thd72.py:261-263 | the range check, corrected: a number is accepted exactly when it is a slot 0..1031 of the tables, and rejected with InvalidMemoryLocation otherwise |
| Channels.CheckNumberAsWritten | chirp/drivers/thd72.py:303-305 | the check as written accepts exactly 0..1032 |
| Channels.AsWrittenAdmitsPastTables | chirp/drivers/thd72.py:261-263 | the check as written lets exactly one number through that is past the tables: 1032 |
| Channels.Resolve | chirp/drivers/thd72.py:254-263 | a slot number is accepted exactly in range; a special name is accepted exactly when it is listed, and resolves to the slot named by it |
| Channels.NameField | chirp/drivers/thd72.py:230-236 | a slot has a name field exactly when it is below 999 or a weather slot 1020..1029 |
| Channels.NameFieldsDisjoint | chirp/drivers/thd72.py:90-98 | two different slots never share name bytes |
| Channels.GetChannelName | chirp/drivers/thd72.py:229-237 | the name read has at most 8 bytes and no 0xFF, and is empty for slots without a name field |
| Channels.SetChannelNameImage | chirp/drivers/thd72.py:239-247 | the name field holds the encoded name and nothing else changes; slots without a name field change nothing |
| Channels.GetSetChannelName | chirp/drivers/thd72.py:229-247 | after setting a name, the getter returns `name[:8]` cut at 0xFF and right-stripped, or "" for slots without a name field |
| Channels.SetChannelNameKeepsOthers | chirp/drivers/thd72.py:239-247 | setting one slot's name leaves every other slot's name as it was |
| Channels.ImmutableFields | chirp/drivers/thd72.py:290-297 | a special location fixes number, bank, extd_number and cross_mode; weather slots also fix freq, offset, tone, mode, tmode, ctone and skip, and other special slots fix the name |
| Channels.EmptyMemory | chirp/drivers/thd72.py:268-275 | a deleted slot reads as an empty Memory with its number and, above 999, its special name |
| Channels.WithChannel | chirp/drivers/thd72.py:278-285 | the record fields of the Memory become the decoded ones and the other fields are kept |
| Channels.DecodeChannel | chirp/drivers/thd72.py:278-285 | decoding a record succeeds exactly when every table lookup succeeds; freq and offset are 32-bit |
| Channels.Record | chirp/drivers/thd72.py:265 | `memory[n]` is the 16 bytes of the slot's record |
| Channels.GetMemory | chirp/drivers/thd72.py:253-299 | `get_memory` fails with InvalidLocation exactly when the location does not resolve; the Memory has the slot's number, is empty exactly when `disabled == 0x7F` or the fresh Memory already is (never, for valid chirp_common values), and above 999 carries the special name |
| Channels.GetOrdinary | chirp/drivers/thd72.py:277-289 | an in-use slot below 999 reads as the decoded record, name, skip and cross mode, and fails exactly when a lookup fails |
| Channels.GetSpecial | chirp/drivers/thd72.py:267-297 | an in-use slot 1000..1031 reads as the decoded record and name under its special name, with cross mode `CROSS_MODES[0]` and `immutable` equal to `ImmutableFields(n)`; it fails exactly when the record does not decode or `CROSS_MODES` is empty |
| Channels.GetSlot999 | chirp/drivers/thd72.py:267-289 | slot 999, in use, reads as the decoded record and name only, and fails exactly when the record does not decode |
| Channels.EmptySlotIgnoresRecord | chirp/drivers/thd72.py:273-275 | a slot with `disabled == 0x7F` reads as the same empty Memory whatever its record and name hold |
| Channels.TouchedBlocks | chirp/drivers/thd72.py:313-330 | every byte `set_memory` may write lies in a block it marks dirty |
| Channels.BaseRecord | chirp/drivers/thd72.py:324-325 | a slot that was empty starts from the `initialize` pattern; otherwise from its record |
| Channels.EncodeChannel | chirp/drivers/thd72.py:327-339 | the encoded record keeps the two unnamed bytes 4 and 15 |
| Channels.EncodeChannelFields | chirp/drivers/thd72.py:327-339 | the encoded record holds freq and offset as 32-bit little-endian words at bytes 0 and 11, and mode, the tone/duplex byte, the rtone, ctone, DTCS and cross-mode indexes at bytes 5 to 10 |
| Channels.InitPatternFields | chirp/drivers/thd72.py:472-475 | the `initialize` pattern is a 16-byte record of 146 MHz, NFM, no tone, simplex, tone index 8, DTCS index 0, cross-mode byte 0xC0 and offset 2343, with 0x00 and 0xFF in the unnamed bytes 4 and 15 |
| Channels.DecodeEncodeChannel | chirp/drivers/thd72.py:327-339 | decoding an encoded record gives back the Memory's record values and cross mode |
| Channels.EncodeDecodeChannel | chirp/drivers/thd72.py:278-289 | when the tables have no repeats, encoding a decoded record restores its 16 bytes |
| Channels.StoreChannel | chirp/drivers/thd72.py:320-342 | the record writes of `set_memory` give an image of the same size; what they write is stated by `SetMemoryStores` |
| Channels.SetMemoryImage | chirp/drivers/thd72.py:301-342 | the image after `set_memory` has the same size; its bytes are stated by `WeatherSlotNameOnly`, `DeleteOnlyFlag`, `SetMemoryStores` and `SetMemoryFrame` |
| Channels.SetMemoryFrame | chirp/drivers/thd72.py:301-342 | `set_memory` changes no byte outside the records it writes |
| Channels.WeatherSlotNameOnly | chirp/drivers/thd72.py:307-310 | on a weather slot, the flag and channel records keep every byte, and only the name changes |
| Channels.DeleteOnlyFlag | chirp/drivers/thd72.py:316-319 | deleting sets `disabled` to 0x7F, keeps `unknown0` and every other byte, and the slot then reads as empty |
| Channels.SetMemoryStores | chirp/drivers/thd72.py:320-342 | storing a slot enables the flag; the record holds the encoded Memory over the base record; below 999, the skip code and the name are stored too |
| Channels.GetAfterSet | chirp/drivers/thd72.py:253-342 | reading back a stored ordinary slot gives the Memory stored, with its name as the radio keeps it |
| Channels.SetAfterGet | chirp/drivers/thd72.py:253-342 | storing the Memory read from a canonical ordinary slot leaves the image byte for byte as it was |
| Channels.StoreChannelSame | chirp/drivers/thd72.py:320-342 | the stored-slot half of `SetAfterGet`: each write puts back the bytes it finds |
| Channels.RecordStepSame | chirp/drivers/thd72.py:320-339 | enabling the flag and rewriting a decoded in-use record changes nothing |
| Channels.NameStepSame | chirp/drivers/thd72.py:329-330 | writing back the name read from a canonical name field changes nothing |
| Serial.Take | chirp/drivers/thd72.py:358 | `read(n)` returns at most `n` bytes, a prefix of what is waiting, and fewer only when the line runs dry |
| Serial.Drop | chirp/drivers/thd72.py:358 | what `read(n)` leaves on the line is what follows the bytes returned |
| Serial.Pipe.Read | chirp/drivers/thd72.py:358 | a read consumes exactly the bytes it returns and sends nothing |
| Serial.Pipe.Write | chirp/drivers/thd72.py:357 | a write appends its bytes to the line and consumes nothing |
| Transfer.Fill | chirp/drivers/thd72.py:405 | the padding of a block that is not read is 256 bytes of 0xFF |
| Transfer.Frame | chirp/drivers/thd72.py:357 | `struct.pack("<cBHB", tag, 0, block, 0)` succeeds exactly for a 16-bit block and gives tag, 0, the little-endian block, 0 |
| Transfer.Unpack | chirp/drivers/thd72.py:362 | `struct.unpack("<cBHB")` reads the tag and a 16-bit block |
| Transfer.UnpackFrame | chirp/drivers/thd72.py:357-362 | unpacking a packed request gives back its tag and block |
| Transfer.FrameOfUnpack | chirp/drivers/thd72.py:357-362 | a header with zero padding bytes is exactly the frame of what it unpacks to |
| Transfer.BlockData | chirp/drivers/thd72.py:378-379 | `map[base:base+256]` is 256 bytes |
| Transfer.ReadBlockSpec | chirp/drivers/thd72.py:356-374 | `read_block` fails with ShortResponse exactly when fewer than 5 bytes come, with InvalidResponse exactly when the tag is not 'W' or the block echo differs, and succeeds exactly when 256 bytes and an ACK follow a good header; the result is those 256 bytes; the request frame is sent first |
| Transfer.ReadBlockAck | chirp/drivers/thd72.py:366-374 | `read_block` fails with MissingAck exactly when a good header and 256 bytes come but no ACK follows; the ACK is sent exactly when the payload came under a good header, and only the request otherwise |
| Transfer.ReadBlockReply | chirp/drivers/thd72.py:356-374 | against a radio that replies correctly, `read_block` returns the payload, consumes exactly the reply, and sends the request and one ACK |
| Transfer.ReadLine | chirp/drivers/thd72.py:460-461 | the `command` loop collects the input up to and including the first CR, or all of it |
| Transfer.ReadLineOf | chirp/drivers/thd72.py:460-461 | any split of the input into a CR-free line ending in CR (or the whole input) is the one the loop collects |
| Transfer.CommandSpec | chirp/drivers/thd72.py:454-463 | `command` always answers, sends the command and CR, and consumes only a prefix of the input |
| Transfer.CommandReply | chirp/drivers/thd72.py:454-463 | a radio that answers a line of text gets exactly that text back to the caller |
| Transfer.ParseId | chirp/drivers/thd72.py:467-470 | the reply is accepted exactly when it starts with "ID "; the result is the space-free word after it, and anything else raises NoResponse |
| Transfer.GetIdSpec | chirp/drivers/thd72.py:465-470 | `get_id` sends "ID" and CR |
| Transfer.GetIdReply | chirp/drivers/thd72.py:465-470 | a radio answering "ID *model*" is identified as *model* |
| Transfer.AllBlocks | chirp/drivers/thd72.py:387 | `range(n)` lists exactly 0..n-1 in order |
| Transfer.Below | chirp/drivers/thd72.py:389 | the filter keeps exactly the listed blocks below the limit |
| Transfer.BelowKeeps | chirp/drivers/thd72.py:389 | a list wholly below the limit passes the filter unchanged |
| Transfer.DownloadList | chirp/drivers/thd72.py:386-389 | `download` reads all 256 blocks by default, otherwise exactly the listed blocks below 256 |
| Transfer.Handshake | chirp/drivers/thd72.py:391-398 | the handshake sends "0M PROGRAM" and CR, fails only with NoResponse, and succeeds exactly when the radio's reply line is "0M" |
| Transfer.HandshakeRejected | chirp/drivers/thd72.py:391-392 | a radio answering any other line than "0M" fails the handshake with NoResponse, and nothing past its line is consumed |
| Transfer.HandshakeReply | chirp/drivers/thd72.py:391-398 | a radio answering "0M" and one more byte passes the handshake, and exactly those bytes are consumed |
| Transfer.NextBlock | chirp/drivers/thd72.py:403-407 | one iteration of the download loop appends 256 bytes: 0xFF when the block is not wanted |
| Transfer.ReadBlocks | chirp/drivers/thd72.py:403-414 | the loop over blocks 0..n-1 yields 256·n bytes |
| Transfer.ReadBlocksStep | chirp/drivers/thd72.py:403-407 | the loop over n blocks is the loop over n-1 blocks and one more iteration |
| Transfer.ReadBlocksStopped | chirp/drivers/thd72.py:403-407 | once a block read fails, the later iterations change nothing |
| Transfer.ReadBlocksUnrequested | chirp/drivers/thd72.py:403-406 | every block the loop did not request is 256 bytes of 0xFF |
| Transfer.DownloadSpec | chirp/drivers/thd72.py:385-420 | a successful download returns a 65536-byte image; its blocks are stated by `DownloadUnrequested` and `DownloadFromDevice` |
| Transfer.DownloadUnrequested | chirp/drivers/thd72.py:385-420 | in a downloaded image every block that was not read is 0xFF |
| Transfer.Assembled | chirp/drivers/thd72.py:403-407 | the image the loop assembles from a radio's blocks has 256 bytes per block |
| Transfer.ReadBlocksFromDevice | chirp/drivers/thd72.py:403-414 | against a radio that answers every request, the loop assembles the radio's blocks, consumes exactly its replies, and sends one request and ACK per wanted block |
| Transfer.AssembledAll | chirp/drivers/thd72.py:403-407 | reading every block assembles the image's first 256·n bytes |
| Transfer.AssembledImage | chirp/drivers/thd72.py:403-407 | reading every block assembles the image itself |
| Transfer.ReadAllFromDevice | chirp/drivers/thd72.py:403-414 | reading every block from a radio that answers correctly yields the radio's image |
| Transfer.DownloadFromDevice | chirp/drivers/thd72.py:385-420 | a full download from a radio that answers correctly returns exactly the radio's image and ends with 'E' |
| Transfer.DownloadSteps | chirp/drivers/thd72.py:385-420 | a handshake and a block loop that both succeed give the loop's image, followed by 'E' |
| Transfer.DownloadRefused | chirp/drivers/thd72.py:391-400 | a failed handshake, or an empty block list, ends the download after the handshake with that error |
| Transfer.DownloadFails | chirp/drivers/thd72.py:403-407 | a failing block loop ends the download with the loop's error and no 'E' |
| Transfer.WriteBlockSpec | chirp/drivers/thd72.py:376-383 | `write_block` fails exactly for a negative block, before sending anything; otherwise it sends the 'W' frame and the block's bytes, reads one byte, and answers whether that byte is ACK |
| Transfer.NextWrite | chirp/drivers/thd72.py:438-442 | an upload iteration succeeds only after earlier ones did; once failed, the state stays |
| Transfer.AfterWrite | chirp/drivers/thd72.py:439-442 | the loop goes on exactly when `write_block` answered ACK; a NAK raises |
| Transfer.WriteBlocksStep | chirp/drivers/thd72.py:438-442 | the loop over n blocks is the loop over n-1 blocks and one more iteration |
| Transfer.WriteBlocksStopped | chirp/drivers/thd72.py:438-442 | once a write fails, the later iterations change nothing |
| Transfer.WriteBlocksNext | chirp/drivers/thd72.py:438-442 | from a state where every write was ACKed, an ACK continues the loop and anything else ends the whole loop with that error |
| Transfer.WriteFrames | chirp/drivers/thd72.py:438-439 | the frames and data sent for k blocks are 261·k bytes |
| Transfer.WriteBlocksAcked | chirp/drivers/thd72.py:438-442 | a radio that ACKs every block receives exactly the frames of the list, in order |
| Transfer.WriteBlocksNak | chirp/drivers/thd72.py:441-442 | the first block not ACKed ends the upload with a NAK error naming that block; nothing after it is sent |
| Transfer.WriteBlocks | chirp/drivers/thd72.py:438-442 | the write loop over the first k blocks succeeds exactly when none of them is negative and the radio answers each with ACK; it then consumes exactly those k bytes and sends 261 bytes per block; its failures are a packing error or a NAK |
| Transfer.UploadSpec | chirp/drivers/thd72.py:422-450 | `upload` always sends "0M PROGRAM" and CR first; it fails with NoResponse exactly when the handshake fails, with EmptyBlockList exactly when the handshake passes and the list is empty, and on success sends one frame per listed block and ends with 'E' |
| Transfer.UploadList | chirp/drivers/thd72.py:423-426 | `upload` writes only blocks below 256, and exactly the listed ones below 256 when a list is given |
| Transfer.DefaultUploadSkipsLastTwo | chirp/drivers/thd72.py:423-424 | the default upload writes blocks 0..253 and never the last two |
| Transfer.UploadToDevice | chirp/drivers/thd72.py:422-450 | an upload to a radio that ACKs every block sends the handshake, every frame of the list in order, and 'E' |
| Transfer.UploadSteps | chirp/drivers/thd72.py:422-450 | a handshake and a write loop that both succeed end with 'E' |
| Transfer.UploadRefused | chirp/drivers/thd72.py:428-435 | a failed handshake, or an empty block list, ends the upload after the handshake with that error |
| Transfer.UploadFails | chirp/drivers/thd72.py:438-442 | a failing write loop ends the upload with the loop's error and no 'E' |
| Transfer.SyncOutBlocks | chirp/drivers/thd72.py:351-354 | `sync_out` uses the default list exactly when nothing is dirty |
| Transfer.SyncOutUploadsDirty | chirp/drivers/thd72.py:351-352 | with blocks dirty, `sync_out` uploads exactly the dirty list |
| Transfer.StoreFrame | chirp/drivers/thd72.py:376-379 | a radio storing a write frame keeps an image of the same size |
| Transfer.DeviceApply | chirp/drivers/thd72.py:376-379 | a radio storing what it receives keeps an image of the same size |
| Transfer.DeviceApplyFrame | chirp/drivers/thd72.py:376-379 | one more write frame overwrites the block it names with the frame's data |
| Transfer.StoreFrameOf | chirp/drivers/thd72.py:376-379 | a 'W' header for a block below 256, followed by data, stores the data at that block |
| Transfer.DeviceApplyFrames | chirp/drivers/thd72.py:438-439 | after the upload's frames, the radio holds the image's data in every listed block and its own data elsewhere |
| Driver.InsertAt | chirp/drivers/thd72.py:224-226 | putting a block where it belongs in the sorted list is what appending and sorting gives |
| Driver.WithoutCovered | chirp/drivers/thd72.py:452 | removing every entry a list has leaves nothing |
| Driver.WithoutInImage | chirp/drivers/thd72.py:452 | the filtered dirty list still names blocks of the image |
| Driver.SyncOutClearsDirty | chirp/drivers/thd72.py:349-354 | after a successful `sync_out`, nothing is dirty |
| Driver.StoredSlot | chirp/drivers/thd72.py:320-342 | the flag, record, name and skip writes of `set_memory`, done one after the other, give `SetMemoryImage` |
| Driver.DeletedSlot | chirp/drivers/thd72.py:312-319 | deleting writes only the flag, and marks only the flag's block |
| Driver.NamedSlotBlocks | chirp/drivers/thd72.py:313-330 | for a slot below 999, the dirty list gains exactly the flag, record and name blocks |
| Driver.UnnamedSlotBlocks | chirp/drivers/thd72.py:313-323 | for a special slot, the dirty list gains exactly the flag and record blocks |
| Driver.NewImage | chirp/drivers/thd72.py:346 | a fresh memory map holds the image given |
| Driver.Radio.constructor | chirp/drivers/thd72.py:198-200 | a new radio holds the image, with nothing dirty |
| Driver.Radio.AddDirtyBlock | chirp/drivers/thd72.py:222-226 | the dirty list becomes `Insert(old, offset / 256)`: sorted, repeat-free, and holding the block |
| Driver.Radio.Store | chirp/drivers/thd72.py:327-339 | writing bytes into the memory map gives `Splice` of the old map |
| Driver.Radio.SetChannelName | chirp/drivers/thd72.py:239-247 | the map becomes `SetChannelNameImage`; the name's block is marked only for slots with a name field |
| Driver.Radio.SetMemory | chirp/drivers/thd72.py:301-342 | an out-of-range number fails with InvalidLocation before any change; otherwise the map becomes `SetMemoryImage`, and the dirty list gains exactly the blocks written |
| Driver.Radio.SetSlot | chirp/drivers/thd72.py:312-342 | past the weather check, the map becomes `SetMemoryImage` and the dirty list gains exactly the touched blocks |
| Driver.Radio.WriteChannel | chirp/drivers/thd72.py:322-342 | the record, name and skip writes over the base record, and the blocks they mark |
| Driver.Radio.ReadBlock | chirp/drivers/thd72.py:356-374 | `read_block` returns, consumes and sends exactly what `ReadBlockSpec` says |
| Driver.Radio.ReadPayload | chirp/drivers/thd72.py:366-368 | the payload loop collects the first `count` bytes waiting, or all of them when the line runs dry |
| Driver.Radio.WriteBlock | chirp/drivers/thd72.py:376-383 | `write_block` does exactly what `WriteBlockSpec` says, with the map's bytes |
| Driver.Radio.Command | chirp/drivers/thd72.py:454-463 | `command` returns, consumes and sends exactly what `CommandSpec` says |
| Driver.Radio.GetId | chirp/drivers/thd72.py:465-470 | `get_id` does exactly what `GetIdSpec` says |
| Driver.Radio.Handshake | chirp/drivers/thd72.py:391-398 | the "0M PROGRAM" exchange does exactly what `Handshake` says |
| Driver.Radio.Download | chirp/drivers/thd72.py:385-420 | `download` does exactly what `DownloadSpec` says |
| Driver.Radio.ReadAllBlocks | chirp/drivers/thd72.py:403-414 | the block loop does exactly what `ReadBlocks` says for all 256 blocks |
| Driver.Radio.Upload | chirp/drivers/thd72.py:422-452 | `upload` does what `UploadSpec` says and keeps the map; on success the dirty list loses exactly the uploaded blocks, and on any failure it is unchanged |
| Driver.Radio.SendBlocks | chirp/drivers/thd72.py:428-450 | the serial side of `upload` does exactly what `UploadSpec` says |
| Driver.Radio.WriteAllBlocks | chirp/drivers/thd72.py:438-442 | the write loop does exactly what `WriteBlocks` says for the whole list |
| Driver.Radio.SyncIn | chirp/drivers/thd72.py:344-347 | on success, the map is the downloaded image and nothing is dirty; on failure, map and dirty list are unchanged |
| Driver.Radio.Load | chirp/drivers/thd72.py:198-200 | `process_mmap` on a new image: the map holds it and nothing is dirty |
| Driver.Radio.SyncOut | chirp/drivers/thd72.py:349-354 | `sync_out` uploads the dirty list, or the default list when it is empty; on success nothing is dirty, and on failure the dirty list is unchanged |

## Left out

- `_detect_baud`, `setBaudrate`, `getCTS` and `setRTS` are not modelled. They probe and set hardware line settings and have no effect on the bytes. The byte that `download` and `upload` read and drop after these calls is modelled.
- The wall-clock timeout in `command` is not modelled. Running out of time is modelled as the scripted input running dry.
- `status_fn` progress reports, `print` and `LOG` output, `get_features`, `get_raw_memory` and the `__main__` command-line tool are not modelled. They report or parse arguments and do not change what the driver does.
- The `raw` flag of `download` and the `memmap.MemoryMap` wrapper are not modelled. The model returns the bytes.
- The class-level `_dirty_blocks = []` list is shared between radio objects until `process_mmap` runs. The model keeps one list per radio.
- Driver.Radio.ReadPayload: when the radio goes silent, the payload loop of `read_block` reads empty chunks forever. The model leaves the loop instead, and `read_block` then fails with Stalled.
- Driver.Radio.SetMemory: requires every table value of the Memory to be listed (`Encodable`). When a value is missing, `set_memory` raises partway through, after some fields are written; that partial write is not modelled.
- Driver.Radio.SetChannelName: requires `0 <= n`. Python's negative indexing of the name table is not modelled. `set_memory` never passes a negative number.
- Channels.EncodeChannel: `initialize` writes its 16-byte pattern and then `set_memory` assigns the fields. The model writes the pattern and the fields into the record in one step. The bytes in the image afterwards are the same.
- Serial.Pipe.Read: the transport is a script of bytes, so reads never block and never fail. A transport error is not modelled.
- Driver.Radio.Upload: a NAK or a read error leaves the whole dirty list unchanged, including blocks already written. This follows the code, which filters the list only after the loop.

## Findings

| source | as written | input that shows it | evidently intended | confidence | as-written member | corrected member |
|---|---|---|---|---|---|---|
| chirp/drivers/thd72.py:261-263 | `number > max(THD72_SPECIAL.values()) + 1` rejects numbers above 1032, so 1032 passes. The flag and memory tables hold 1032 entries, 0..1031, and `memory_bounds` is (0, 1031). | `get_memory(1032)` or `set_memory` with number 1032 passes the check and indexes `memory[1032]`, one past the table | accept exactly 0..1031 (`number > max(...)`) | high, not executed | Channels.AsWrittenAdmitsPastTables | Channels.CheckNumber |
