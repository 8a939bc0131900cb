# GEOSCAN beacon and image decoder, modelled in Dafny

This project models the decoding core of the GEOSCAN ground-station decoder
(`GeoscanDecoder/geoscan.py`). It has two parts.

**Byte layouts.** These are pure functions with partner encoders and
round-trip lemmas:

- the AX.25 link header: shifted-ASCII callsigns, the SSID octet, and the
  address chain that runs up to the first extension bit, followed by the
  control and protocol-id bytes (`ax25.dfy`);
- the GEOSCAN telemetry record with its biased fields, and the `geoscan`
  wrapper that parses it only after a `BEACON` header with protocol id F0
  (`telemetry.dfy`);
- the application frame that carries image fragments (`appframe.dfy`);
- little-endian integers and the JPEG markers they share (`codec.dfy`).

**The image receiver `GeoscanImageReceiver`.** It is modelled twice:

- `reassembly.dfy` gives each method as a step function on a `State` value,
  with lemmas for what the steps promise: rejections, START and FRAME
  handling, the positioned write, completion, replay and recovery;
- `receiver.dfy` is a class with the receiver's fields. Its methods update
  those fields statement by statement, as the source does. Each method is
  proved to end in the state the matching step function computes, so the
  lemmas apply to the object.

Files are byte sequences with an open flag. A counter stands in for the
wall clock the source uses to name files.

Points where the code behaves in a way a reader may not expect:

- The application-frame header is 8 bytes, so the payload starts at byte 8.
- The telemetry record's fixed part is 26 bytes.
- In merge mode a repeated START writes at offset 0 of the same file, rather
  than being appended after what is there.
- Outside merge mode a new START leaves the previous unfinished file's
  handle open in the table (`files`).

## Model

| member | source | states |
|---|---|---|
| `Codec.U16le` | GeoscanDecoder/geoscan.py:115-118 | Int16ul: the low byte of the value is the first byte, the high byte the second |
| `Codec.U32le` | GeoscanDecoder/geoscan.py:80 | Int32ul: the low 16 bits are the first two bytes read as Int16ul, the high 16 bits the next two |
| `Codec.EncodeU16le` | GeoscanDecoder/geoscan.py:115-118 | two bytes that read back as the value (Int16ul) |
| `Codec.EncodeU32le` | GeoscanDecoder/geoscan.py:80 | four bytes that read back as the value (Int32ul) |
| `Codec.U16leReencode` | GeoscanDecoder/geoscan.py:115-118 | re-encoding a decoded 16-bit field gives its two bytes back |
| `Codec.U32leReencode` | GeoscanDecoder/geoscan.py:80 | re-encoding a decoded 32-bit field gives its four bytes back |
| `Codec.HasEoi` | GeoscanDecoder/geoscan.py:241 | true exactly when FF D9 occurs at some position of the payload (the byte-string `in` test) |
| `Ax25.TrimEndSpec` | GeoscanDecoder/geoscan.py:22 | trailing strip keeps a prefix, removes only whitespace, leaves no trailing whitespace |
| `Ax25.TrimStartSpec` | GeoscanDecoder/geoscan.py:22 | leading strip keeps a suffix, removes only whitespace, leaves no leading whitespace |
| `Ax25.Unshift` | GeoscanDecoder/geoscan.py:22 | shifting the six bytes right gives six 7-bit ASCII characters |
| `Ax25.DecodeCallsignShape` | GeoscanDecoder/geoscan.py:21-22 | a decoded callsign has at most 6 ASCII characters and no surrounding whitespace |
| `Ax25.Padded` | GeoscanDecoder/geoscan.py:18 | upper-casing, padding and cutting always gives 6 characters |
| `Ax25.EncodeCallsign` | GeoscanDecoder/geoscan.py:16-19 | succeeds exactly when the first 6 characters are ASCII (fails with NotAscii otherwise); the result is 6 bytes, each with the low bit 0 |
| `Ax25.EncodeCallsignBytes` | GeoscanDecoder/geoscan.py:18 | the bytes written: byte i is twice the upper-cased i-th character, or twice a space past the end of the callsign |
| `Ax25.EncodeCallsignCut` | GeoscanDecoder/geoscan.py:18 | a callsign longer than 6 characters encodes exactly as its first 6 characters do |
| `Ax25.CallsignRoundTrip` | GeoscanDecoder/geoscan.py:16-22 | an ASCII callsign of at most 6 characters with no surrounding whitespace decodes from its encoding to its upper-cased form |
| `Ax25.DecodeCallsign` | GeoscanDecoder/geoscan.py:21-22 | decoding function; its contract is carried by `Ax25.DecodeCallsignShape` and `Ax25.CallsignRoundTrip` |
| `Ax25.DecodeSsid` | GeoscanDecoder/geoscan.py:7-12 | the byte is ch·0x80 + reserved·0x20 + ssid·2 + extension, with the decoded fields |
| `Ax25.EncodeSsid` | GeoscanDecoder/geoscan.py:7-12 | the built octet decodes to the same fields and has 3 in its reserved bits |
| `Ax25.SsidReencode` | GeoscanDecoder/geoscan.py:9 | a decoded octet re-encodes to the same byte exactly when its reserved bits are 3 |
| `Ax25.DecodeAddress` | GeoscanDecoder/geoscan.py:35 | decoding function; its contract is carried by `Ax25.AddressRoundTrip` and `Ax25.ParseAddressesLayout` |
| `Ax25.ParseAddresses` | GeoscanDecoder/geoscan.py:41-42 | fails only as truncation; otherwise at least one address, and all of them fit in the input |
| `Ax25.ParseAddressesStops` | GeoscanDecoder/geoscan.py:42 | the chain ends at the first address whose extension bit is set: the last one has it, no earlier one does |
| `Ax25.ParseAddressesLayout` | GeoscanDecoder/geoscan.py:35-42 | the k-th parsed address is the decoding of bytes 7k..7k+6 |
| `Ax25.ParseAddressesDefined` | GeoscanDecoder/geoscan.py:42 | the chain parses exactly when some 7-byte group that is wholly present has its extension bit set |
| `Ax25.ParseHeader` | GeoscanDecoder/geoscan.py:41-45 | succeeds exactly when the chain parses and two more bytes follow it; control and pid are those two bytes |
| `Ax25.ParseAx25` | GeoscanDecoder/geoscan.py:47 | succeeds exactly when the header parses (failing only as truncation); the header is the parsed header and the info is exactly the bytes after it |
| `Ax25.EncodeAddress` | GeoscanDecoder/geoscan.py:35 | a built address is 7 bytes |
| `Ax25.ChainLength` | GeoscanDecoder/geoscan.py:42 | the RepeatUntil stop point: one past the first address whose extension bit is set (no earlier one has it), or 0 when none has it |
| `Ax25.EncodeAddresses` | GeoscanDecoder/geoscan.py:42 | a built chain is a non-empty run of whole 7-byte addresses, never more than one per address given |
| `Ax25.EncodeAddressesLength` | GeoscanDecoder/geoscan.py:42 | a built chain stops at the first extension bit: 7 bytes for that address and each one before it, none after; Unterminated only when no address has the bit |
| `Ax25.EncodeAddressesDefined` | GeoscanDecoder/geoscan.py:42 | building succeeds exactly when some address has the extension bit and every address up to the first such one builds on its own |
| `Ax25.EncodeAddressesUnterminated` | GeoscanDecoder/geoscan.py:42 | when every address builds, building fails only as Unterminated (RepeatUntil finding no address with the bit) |
| `Ax25.EncodeAddressesLayout` | GeoscanDecoder/geoscan.py:35-42 | the j-th 7-byte group of a built chain is the j-th address built alone |
| `Ax25.EncodeHeader` | GeoscanDecoder/geoscan.py:41-45 | builds exactly when the address chain builds; two bytes longer than the chain, ending with the control and pid bytes |
| `Ax25.AddressRoundTrip` | GeoscanDecoder/geoscan.py:35 | an address with a canonical callsign decodes from its encoding, whatever follows it |
| `Ax25.AddressesRoundTrip` | GeoscanDecoder/geoscan.py:41-42 | a well-formed chain encodes to 7 bytes per address and parses back, whatever follows it |
| `Ax25.HeaderRoundTrip` | GeoscanDecoder/geoscan.py:41-45 | a header with a well-formed chain encodes to its length and parses back |
| `Ax25.Ax25RoundTrip` | GeoscanDecoder/geoscan.py:47 | a header and any info bytes parse back from their encoding |
| `AppFrame.ParseFrame` | GeoscanDecoder/geoscan.py:114-122 | succeeds exactly when 8 header bytes and the declared payload (dlen − 6 bytes, not negative) are present; LengthUnderflow for a negative length, Truncated otherwise; the bytes consumed are the encoding of the result |
| `AppFrame.EncodeFrame` | GeoscanDecoder/geoscan.py:114-122 | succeeds exactly when the payload has dlen − 6 bytes; the result is 8 bytes longer than the payload |
| `AppFrame.FrameRoundTrip` | GeoscanDecoder/geoscan.py:114-122 | a frame whose payload has its declared length parses back from its encoding, whatever follows |
| `AppFrame.TrailingIgnored` | GeoscanDecoder/geoscan.py:120-122 | bytes after the declared payload never change the parse |
| `Telemetry.Rebias` | GeoscanDecoder/geoscan.py:60-64 | SubAdapter's encoding (add the bias) is undone by its decoding (subtract it), so the encoded raw value decodes back to the value |
| `Telemetry.DecodeTelemetry` | GeoscanDecoder/geoscan.py:79-98 | succeeds exactly when there are at least 26 bytes; Nres_osc, Nres_CommU and RSSI are raw − 7476, raw − 1505 and raw − 99 (so raw 7476 or 99 gives 0); the padding is everything after byte 26 |
| `Telemetry.EncodeTelemetry` | GeoscanDecoder/geoscan.py:79-98 | succeeds exactly when the biased fields fit their widths (OutOfRange otherwise); 26 bytes plus the padding |
| `Telemetry.TelemetryReencode` | GeoscanDecoder/geoscan.py:79-98 | any 26 or more bytes decode, and building the record gives the bytes back |
| `Telemetry.TelemetryRoundTrip` | GeoscanDecoder/geoscan.py:79-98 | an encodable record survives building and parsing unchanged |
| `Telemetry.GeoscanGating` | GeoscanDecoder/geoscan.py:100-111 | the header is present exactly for a BEACON first callsign; telemetry exactly when the pid is also F0 and 26 bytes follow; the parse fails only for a BEACON/F0 header with too few bytes after it |
| `Telemetry.ParseGeoscan` | GeoscanDecoder/geoscan.py:100-111 | the `geoscan` structure; its contract is carried by `Telemetry.GeoscanGating` and `Telemetry.BeaconRoundTrip` |
| `Telemetry.BeaconRoundTrip` | GeoscanDecoder/geoscan.py:100-111 | a BEACON/F0 header followed by an encodable record parses to both |
| `Reassembly.WriteAt` | GeoscanDecoder/geoscan.py:185-187 | seek-then-write: length max(old, off + len); bytes [off, off + len) are the payload, other old bytes kept, gap bytes 0 |
| `Reassembly.WriteAtIdempotent` | GeoscanDecoder/geoscan.py:185-187 | writing the same bytes at the same offset twice equals writing once |
| `Reassembly.GenerateFid` | GeoscanDecoder/geoscan.py:149-154 | step function for generate_fid; its contract is carried by `Reassembly.GenerateFidSpec` |
| `Reassembly.NewFile` | GeoscanDecoder/geoscan.py:163-167 | step function for new_file; the class method `Receiver.GeoscanImageReceiver.NewFile` ends in its state |
| `Reassembly.ForceNew` | GeoscanDecoder/geoscan.py:156-161 | step function for force_new; its contract is carried by `Reassembly.ForceNewSpec` |
| `Reassembly.ParseData` | GeoscanDecoder/geoscan.py:198-236 | step function for parse_data; its contract is carried by the Reject, AcceptedOffset, StartSpec and Frame lemmas |
| `Reassembly.IsLastData` | GeoscanDecoder/geoscan.py:238-241 | step function for is_last_data; its contract is carried by `Reassembly.IsLastDataSpec` |
| `Reassembly.Store` | GeoscanDecoder/geoscan.py:175-196 | step function for the write-and-complete half of push_data; its contract is carried by `Reassembly.StoreWrites` and `Reassembly.StoreOutcome` |
| `Reassembly.PushData` | GeoscanDecoder/geoscan.py:169-196 | step function for push_data; its contract is carried by `Reassembly.PushIgnored` and `Reassembly.PushValid` |
| `Reassembly.GenerateFidSpec` | GeoscanDecoder/geoscan.py:149-154 | the current id is kept exactly when one is set and merge mode is on; otherwise the new id names no existing file; nothing else changes |
| `Reassembly.ForceNewSpec` | GeoscanDecoder/geoscan.py:156-161 | the old current file is closed but stays in the table; a new empty open file under a new id becomes current; the flags are cleared; base_offset and _prev_data_sz are kept |
| `Reassembly.RejectMalformed` | GeoscanDecoder/geoscan.py:199-202 | an undecodable frame returns None with no field changed |
| `Reassembly.RejectMarker` | GeoscanDecoder/geoscan.py:204-206 | a wrong marker raises the miss counter by exactly 1 and changes nothing else |
| `Reassembly.RejectType` | GeoscanDecoder/geoscan.py:233-234 | an image-marker frame that is neither START nor FRAME returns None with no field changed |
| `Reassembly.AcceptedOffset` | GeoscanDecoder/geoscan.py:198-236 | a frame is returned exactly for START/FRAME with the image marker; its offset is the declared offset minus the new base_offset, which is never past it, so it is never negative; Valid is kept |
| `Reassembly.StartSpec` | GeoscanDecoder/geoscan.py:208-214 | START: write offset 0, base_offset becomes the declared offset, has_starter set, has_soi becomes the offset only for an FF D8 payload, an id is current, kept exactly when merge mode had one |
| `Reassembly.FrameInOrder` | GeoscanDecoder/geoscan.py:216-226 | FRAME: an implicit start happens exactly when neither flag is set and the payload starts with FF D8, and it sets base_offset and has_soi to the offset, writes at offset 0, and makes an id current (the old one exactly when one was set and merge mode is on), keeping the files, miss counter, _prev_data_sz and merge mode; without one the whole state is unchanged and the offset is offset − base_offset |
| `Reassembly.FrameBackward` | GeoscanDecoder/geoscan.py:226-231 | FRAME below base_offset: force_new runs, base_offset becomes BASE_OFFSET, the offset is recomputed against it, and a new empty open file is current |
| `Reassembly.SoiAtZeroStaysUnset` | GeoscanDecoder/geoscan.py:217-223 | an implicit start at offset 0 leaves has_soi at 0, so the next FF D8 FRAME starts an image again |
| `Reassembly.IsLastDataSpec` | GeoscanDecoder/geoscan.py:238-241 | _prev_data_sz always becomes the payload size; the result holds exactly when the size shrank and FF D9 occurs in the payload |
| `Reassembly.FirstIsNeverLast` | GeoscanDecoder/geoscan.py:238-241 | the first payload after construction (where _prev_data_sz is −1) never completes an image |
| `Reassembly.CompletesOnShrink` | GeoscanDecoder/geoscan.py:238-241 | sizes n, n, m < n (e.g. 200, 200, 150) with FF D9 in the last complete exactly on the third payload |
| `Reassembly.SelectTargetSpec` | GeoscanDecoder/geoscan.py:175-183 | the file written is the current one or a new id, its handle is open, and it is empty when newly opened; no other file changes |
| `Reassembly.PushIgnored` | GeoscanDecoder/geoscan.py:169-172 | push_data returns None exactly when parse_data does, with parse_data's state |
| `Reassembly.StoreWrites` | GeoscanDecoder/geoscan.py:175-187 | the payload is written at its offset into the target file's old bytes (or an empty file); no other file changes and none is removed; _prev_data_sz becomes the payload size |
| `Reassembly.StoreOutcome` | GeoscanDecoder/geoscan.py:189-196 | returns 2 exactly when the size shrank, FF D9 occurs and merge mode is off, then closes the file and resets current id, base_offset and flags; otherwise 1 with the file current and open |
| `Reassembly.PushValid` | GeoscanDecoder/geoscan.py:169-196 | every push keeps the receiver invariant and never removes a file |
| `Reassembly.ReplayStart` | GeoscanDecoder/geoscan.py:169-214 | pushing the same START twice: the second push returns 1, leaves the bytes of every file present after the first push unchanged, and in merge mode keeps the same current id |
| `Reassembly.BackwardOffsetRecovery` | GeoscanDecoder/geoscan.py:216-231 | after an implicit start, a FRAME with a smaller offset closes that file (keeping its bytes) and is written at its own offset into a new empty file |
| `Receiver.GeoscanImageReceiver.constructor` | GeoscanDecoder/geoscan.py:131-140 | no files, merge mode off, base_offset BASE_OFFSET, flags clear, no current id, _prev_data_sz −1, no misses |
| `Receiver.GeoscanImageReceiver.SetMergeMode` | GeoscanDecoder/geoscan.py:146-147 | only merge mode changes |
| `Receiver.GeoscanImageReceiver.GenerateFid` | GeoscanDecoder/geoscan.py:149-154 | the object ends in GenerateFid's state and returns the now-current id |
| `Receiver.GeoscanImageReceiver.NewFile` | GeoscanDecoder/geoscan.py:163-167 | the table gains (or resets) an empty open file under the id |
| `Receiver.GeoscanImageReceiver.ForceNew` | GeoscanDecoder/geoscan.py:156-161 | the object ends in ForceNew's state |
| `Receiver.GeoscanImageReceiver.ParseData` | GeoscanDecoder/geoscan.py:198-236 | the object and the returned frame are those of the ParseData step |
| `Receiver.GeoscanImageReceiver.IsLastData` | GeoscanDecoder/geoscan.py:238-241 | the object and the result are those of the IsLastData step |
| `Receiver.GeoscanImageReceiver.PushData` | GeoscanDecoder/geoscan.py:169-196 | the object and the result are those of the PushData step, and the invariant is kept |
| `Receiver.GeoscanImageReceiver.Store` | GeoscanDecoder/geoscan.py:175-196 | the write-and-complete half of push_data ends in Store's state and keeps the invariant |
| `Receiver.GeoscanImageReceiver.CurrentFile` | GeoscanDecoder/geoscan.py:175-183 | the id written to is the target id and has an open handle |

## Left out

- `GeoscanDecoder/ui.py` and `GeoscanDecoder/__main__.py` are not part of this model. They are the GUI, the socket loop, image display, telemetry text files and command-line and configuration handling.
- The output directory (`outdir`, `set_outdir`, `mkdir`, path building) and real file I/O (`open`, `seek`, `write`, `flush`, `close`) are left out. A file is a byte sequence with an open flag, and a write is `WriteAt`.
- File ids are not the timestamp text of `datetime.now()`. A counter hands them out, so every generated id is new. The source relies on the clock for this; two ids generated within the same clock tick are not modelled.
- `UNIXTimestampAdapter` and `MulAdapter` conversions are left out. They are a datetime conversion and float scaling; the record keeps the raw 32-bit and 16-bit readings.
- The `construct` machinery (Peek, If, RepeatUntil, Adapter plumbing) is not modelled as a library; its behaviour is written out in the functions above. A failed Peek reads as an absent header. Any failure after it is an `Err`.
- `Ax25.EncodeCallsign`: upper-casing maps only ASCII a–z, and the model rejects every non-ASCII character among the first six. Python's `str.upper()` also maps some non-ASCII characters to ASCII (`ı` to `I`, `ſ` to `S`, `ß` to `SS`), and a length-changing mapping can push later characters past the six-character cut. The source therefore accepts some callsigns the model rejects, such as `ıabcde` and `ßeacon`. Full Unicode case mapping is not modelled.
- `Receiver.GeoscanImageReceiver.PushData`: the `ValueError` Python raises on a write to a closed handle is not modelled. Under the invariant the handle written is always open (`Reassembly.StoreWrites`), so that error cannot arise. The source's fallback at lines 176-177 is likewise unreachable.
- `Receiver.GeoscanImageReceiver.Store` and `Receiver.GeoscanImageReceiver.CurrentFile` have no counterpart of their own in the source. They are the second half of `push_data` and its first block, split out as methods of their own so that each proof stays small.
- `merge_mode` is a boolean. The source stores whatever value it is given and only tests whether it is truthy.
