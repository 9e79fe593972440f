# Verification of MJPG-streamer's codecs and protocols

A Dafny model of the parts of the bundled MJPG-streamer where bytes are decoded, framed,
shared between threads or rewritten in place, with proofs of what those parts are for.

* **JPEG entropy decoder** of the autofocus plugin. `Bits` defines 32-bit registers bit by
  bit. `Huffman` builds canonical codes (section C.2 of ITU-T T.81) as the look-up entries of
  the C code, `Dht` parses DHT segments into them, `Stuffing` follows the byte reader over
  FF 00 pairs, `Reader` is the bit reservoir, `BlockCodec` encodes and decodes blocks
  (section F.1.2 of T.81) and `Scan` whole scans, block by block in the decoder's order.
  `Misread` shows what becomes of a scan in which the decoder sees other bits than were coded,
  and `Interleave` has the encoder that writes unit by unit, Y Y Cr Cb, each component predicted
  from its own last block.
* **Multipart stream**. `Extractor` is the parser of the HTTP input, `Matcher` its pattern
  matcher and mask tests, `Multipart` what the HTTP server writes, `Transport` the two
  together. `LengthReader` is a client of another kind, which goes by the text of the headers
  and their Content-Length.
* **Frame broadcast**. `Broadcast` is a step relation for one producer and any number of
  consumers on a mutex, a condition variable and a frame slot, with the frames of all three
  producers; `Service` shows that every consumer can always be served; `Fragments` is the camera
  encoder callback that holds the mutex over several calls, and `EmptyFrames` what its frames
  without a byte do to the broadcast.
* **Buffered and in-place codecs**. `IoBuffer` (`_read`, `_readline`, the header loop),
  `CString`, `Base64` (section 4 of RFC 4648), `Unescape` (section 2.1 of RFC 3986),
  `DhtSplice`, `Pixels` and `Destination`. `StandardTables` has the tables that `DhtSplice`
  inserts and shows what they mean to the JPEG decoder.
* **Long-running controllers**. `Printf`, `FileNames` and `FileRing` (the picture ring
  buffer), `FrameDrop` (the filters in front of the slot) and `PanTilt`.

Code that updates state is a class or a method with loops, proved against a specification
function or predicate; the properties are lemmas about the specification. Reads through
unchecked C pointers are calls of a total function from addresses to bytes, so a byte outside
a buffer is arbitrary. `char` is signed.

## Where the code is weaker than it looks

The model keeps the code as it is. These are the places where a property that one would expect
does not hold of all inputs, each with the condition under which it does; the conditions are
exact unless the text says otherwise.

- `readXC` gives up on the last code of every table (lines 158-162 of
  `processJPEG_onlyCenter.c`). A block is decoded exactly when none of its symbols has the last
  code (`BlockCodec.BlockRoundTrip`); `Scan.LastCodeIsLost` is an instance. With the tables that
  `memcpy_picture` inserts, the blocks that are lost are those with a DC difference of category
  11 or an AC coefficient of category 10 behind 15, 31 or 47 zeros
  (`StandardTables.BlockIsReadable`).
- The first two bytes of a scan are loaded without unstuffing, and the byte behind an FF 00 is
  not checked for FF. The reader sees the data exactly when everything behind the first FF that
  is missed in one of these ways is zero (`Stuffing.UnstuffingIff`), and the decoder sees the
  bits of the code exactly when the code bits behind it are zero, whatever bits pad the last
  byte (`Scan.StuffedBitsIff`); `Scan.MissedZeros` has two instances. A whole scan decodes to its
  blocks exactly if this is so and no symbol is lost, for all tables in which the end of block
  comes before other AC symbols without bits, such as the inserted ones
  (`Misread.ScanRoundTripIff`, `StandardTables.StandardRoundTrip`); for other tables the
  condition is sufficient.
- Two entries of a look-up table match the same window exactly when Kraft's inequality fails
  (`Huffman.PrefixFreeIffKraft`).
- The test for a line end is a mask test, so the `OK` of the status line together with its line
  end passes for an empty line: the client's first callback carries the server's header fields,
  in every run (`Transport.StatusRun`, `Transport.PreambleRun`). Where a header of any bytes ends
  is stated by `Matcher.HeaderEndsIff`; a byte from 128 on makes the three before it look like
  255, which has the bits of CR and LF.
- The boundary matcher does not fall back. It recognises a boundary exactly if that begins at an
  idle place (`Matcher.FiresIff`): one that is not inside, or at the end of, a beginning of the
  boundary that itself begins at an idle place. A place behind a byte that the boundary does not
  have is idle, and behind it and a run of dashes every third one (`Matcher.IdleBehindForeign`,
  `Matcher.IdleBehindDashes`). So `r` dashes and the boundary are recognised exactly if `r` is a
  multiple of three (`Matcher.DashesAndBoundary`), and the boundary behind the line end that the
  server sends always is.
- `pthread_cond_wait` is not in a loop. A consumer gets no frame twice exactly if a frame is
  signalled between any two of the wake-ups that led to its deliveries
  (`Broadcast.FramesOnceIff`); without spurious wake-ups that is so (`Broadcast.NoFrameTwice`),
  and with one it may not be (`Broadcast.SpuriousRepeats`).
- The encoder callback takes the mutex with the first byte of a frame. It unlocks a mutex that
  it does not hold exactly with a frame end without a pending byte (`Fragments.RunCalls`). The
  mutex keeps producer and consumers apart in all runs exactly if there is no such frame
  (`EmptyFrames.ExclusionIff`, and in terms of the calls `EmptyFrames.CallsExcludeIff`); with one,
  a consumer may be given the bytes of one frame with the time stamp of another
  (`EmptyFrames.EmptyFrameTears`). The results about what consumers get are for runs without one.
- A picture that is completed twice gets a second set of tables unless its frame header lies in
  the first 2049 places with no SOS marker before it (`DhtSplice.AgainIff`).
- File names sort by time, and within one second by `FileNames.CounterLess`
  (`FileNames.NameOrder`): up to nine digits that is the order of the counters, and a counter of
  nine digits comes before a later one of ten only if it is at most a tenth of it
  (`FileNames.TenDigits`). The names of a run are in the order of creation exactly if that holds
  for all pairs of its pictures (`FileRing.AscendIff`), and a clean-up leaves the pictures taken
  last exactly if it holds of each that goes and each that stays (`FileRing.CleanUpIff`).
- A clock that goes back looks like a long time (`FrameDrop.ClockBack`). Published frames are a
  period apart exactly if their time stamps do not go back (`FrameDrop.SpacedIff`).
- A failed pan or tilt move is counted as made. From a successful reset on the device is where
  the tracker says exactly when the moves that have failed since the last one add up to nothing;
  before the first one that depends on where the device began (`PanTilt.DeviceFollowsIff`).
- With an odd number of pixels, and only then, the YUYV loop uses a byte behind the frame
  (`Pixels.OnlyTheFrameMatters`).

## Model

| member | source | states |
|---|---|---|
| Huffman.CodesAreConsecutive | mjpg-streamer/mjpg-streamer-experimental/plugins/output_autofocus/processJPEG_onlyCenter.c:101-113 | Left-aligned in 32 bits, every code of the T.81 C.2 procedure begins exactly where the codes before it end. |
| Huffman.MatchesIsPrefix | mjpg-streamer/mjpg-streamer-experimental/plugins/output_autofocus/processJPEG_onlyCenter.c:106-108 | The stored mask and bits match a register exactly when the register begins with the code. |
| Huffman.EntryCoversInterval | mjpg-streamer/mjpg-streamer-experimental/plugins/output_autofocus/processJPEG_onlyCenter.c:105-108 | Under Kraft's inequality the k-th entry matches exactly the windows of the k-th of a row of adjacent intervals that begins at 0. |
| Huffman.PrefixFreeIffKraft | mjpg-streamer/mjpg-streamer-experimental/plugins/output_autofocus/processJPEG_onlyCenter.c:90-116 | No window matches two entries of a table if and only if the length counts satisfy Kraft's inequality. |
| Huffman.ScanFindsCode | mjpg-streamer/mjpg-streamer-experimental/plugins/output_autofocus/processJPEG_onlyCenter.c:151-163 | The linear search finds the entry whose code the window begins with, and no other. |
| Dht.HuffmanTables.ParseLength | mjpg-streamer/mjpg-streamer-experimental/plugins/output_autofocus/processJPEG_onlyCenter.c:104-111 | The innermost loop appends the canonical codes of one length, keeps the code counter in step and leaves the other tables alone. |
| Dht.HuffmanTables.ParseTable | mjpg-streamer/mjpg-streamer-experimental/plugins/output_autofocus/processJPEG_onlyCenter.c:95-115 | One turn of the loop reads one serialised table of section B.2.4.2, moves past exactly its bytes and replaces exactly its slot by the canonical table. |
| Dht.HuffmanTables.ParseDht | mjpg-streamer/mjpg-streamer-experimental/plugins/output_autofocus/processJPEG_onlyCenter.c:90-116 | A segment with any tables is consumed to its last byte, and the four slots are what its tables, in order, make of them. |
| Stuffing.UnstuffingIff | mjpg-streamer/mjpg-streamer-experimental/plugins/output_autofocus/processJPEG_onlyCenter.c:133-150 | For any data and its stuffed form, the bytes that the refill loop delivers are the data if and only if everything behind the first FF that is missed is zero. |
| Stuffing.Follow | mjpg-streamer/mjpg-streamer-experimental/plugins/output_autofocus/processJPEG_onlyCenter.c:138-150 | Up to the first missed FF, after any number of passes, the bytes delivered are the data and the read position is where the next datum lies. |
| Stuffing.Lag | mjpg-streamer/mjpg-streamer-experimental/plugins/output_autofocus/processJPEG_onlyCenter.c:138-150 | Behind a missed FF the reader delivers the stuffed zero as data, as long as zeros follow. |
| Reader.AppendNext | mjpg-streamer/mjpg-streamer-experimental/plugins/output_autofocus/processJPEG_onlyCenter.c:139-141 | Shifting a byte in below the used bits extends the register by the next eight bits of the scan and keeps the bits below zero. |
| Reader.LookupInRegister | mjpg-streamer/mjpg-streamer-experimental/plugins/output_autofocus/processJPEG_onlyCenter.c:151-163 | With 16 bits in the register the search sees what it would see in the whole bit string. |
| Reader.TopBits | mjpg-streamer/mjpg-streamer-experimental/plugins/output_autofocus/processJPEG_onlyCenter.c:189 | The signed shift and the mask together give the number that the top bits spell, whatever the sign bit is. |
| Reader.ScanReader.constructor | mjpg-streamer/mjpg-streamer-experimental/plugins/output_autofocus/processJPEG_onlyCenter.c:133-134 | At the start 16 bits are held, and they are the first 16 bits of the scan. |
| Reader.ScanReader.ShiftIn | mjpg-streamer/mjpg-streamer-experimental/plugins/output_autofocus/processJPEG_onlyCenter.c:140-141 | The register invariant (used bits are the unread bits of the scan, the others are zero) is kept. |
| Reader.ScanReader.RefillOnce | mjpg-streamer/mjpg-streamer-experimental/plugins/output_autofocus/processJPEG_onlyCenter.c:138-150 | One pass of the loop keeps the invariant and adds bits. |
| Reader.ScanReader.Refill | mjpg-streamer/mjpg-streamer-experimental/plugins/output_autofocus/processJPEG_onlyCenter.c:138-150 | The loop ends with at least 16 bits and the invariant. |
| Reader.ScanReader.Find | mjpg-streamer/mjpg-streamer-experimental/plugins/output_autofocus/processJPEG_onlyCenter.c:151-163 | The search returns the first match, and fails if there is none or if it is the last entry. |
| Reader.ScanReader.Consume | mjpg-streamer/mjpg-streamer-experimental/plugins/output_autofocus/processJPEG_onlyCenter.c:164 | Shifting left drops exactly the first bits. |
| Reader.ScanReader.ReadXC | mjpg-streamer/mjpg-streamer-experimental/plugins/output_autofocus/processJPEG_onlyCenter.c:137-179 | One call decodes the next symbol of the bit string or returns -1, ends with at least 16 bits, and stands at the bit behind the code. |
| Reader.ScanReader.Receive | mjpg-streamer/mjpg-streamer-experimental/plugins/output_autofocus/processJPEG_onlyCenter.c:189 | RECEIVE takes exactly the next bits, as a number. |
| BlockCodec.ExtendInverts | mjpg-streamer/mjpg-streamer-experimental/plugins/output_autofocus/processJPEG_onlyCenter.h:1 | HUFF_EXTEND undoes the coding of every value in its category. |
| BlockCodec.ExtendIsOnto | mjpg-streamer/mjpg-streamer-experimental/plugins/output_autofocus/processJPEG_onlyCenter.h:1 | Every bit pattern of a category of at least one bit is the code of its extension, which has that category. |
| BlockCodec.CarriedCode | mjpg-streamer/mjpg-streamer-experimental/plugins/output_autofocus/processJPEG_onlyCenter.c:151-163 | Where the bits carry the code of a symbol, that symbol is decoded if it is not the last of its table; otherwise nothing is. |
| BlockCodec.AcRoundTrip | mjpg-streamer/mjpg-streamer-experimental/plugins/output_autofocus/processJPEG_onlyCenter.c:192-210 | From any coefficient and pending run on, the AC loop gives back the coefficients whose run-length items the bits carry, or fails if one of the symbols is the last of its table. |
| BlockCodec.BlockRoundTrip | mjpg-streamer/mjpg-streamer-experimental/plugins/output_autofocus/processJPEG_onlyCenter.c:181-216 | For any 64 coefficients, valid tables and predictor, decoding what section F.1.2 encodes gives exactly the coefficients and stops at the first bit behind them, or fails, exactly when a symbol is the last of its table. |
| Scan.ReadCoefficients | mjpg-streamer/mjpg-streamer-experimental/plugins/output_autofocus/processJPEG_onlyCenter.c:192-215 | The AC loop on the reader and the table array computes the decoding function. |
| Scan.ReadTable | mjpg-streamer/mjpg-streamer-experimental/plugins/output_autofocus/processJPEG_onlyCenter.c:181-216 | `readTable` leaves the 64 decoded coefficients in the array, the first of them as the new predictor and the reader behind the block, or returns -1, as the decoding function says. |
| Scan.DecodeScan | mjpg-streamer/mjpg-streamer-experimental/plugins/output_autofocus/processJPEG_onlyCenter.c:227-273 | The loop over Y Y Cr Cb units, with a variable for the predictor of each component, decodes the scan as the decoding function says and stops at the first failure, for any table selectors in the range of the arrays. |
| Scan.BlocksRoundTrip | mjpg-streamer/mjpg-streamer-experimental/plugins/output_autofocus/processJPEG_onlyCenter.c:232-273 | Any sequence of blocks, encoded in the order of the decoding function, decodes in order exactly when all are readable; `Interleave.Interleaved` says what that order is. |
| Scan.StuffedBitsIff | mjpg-streamer/mjpg-streamer-experimental/plugins/output_autofocus/processJPEG_onlyCenter.c:133-150 | The decoder sees exactly the bits of a code that was padded, packed and stuffed, if and only if all code bits behind a missed zero are zero; the padding does not matter. |
| Scan.ScanRoundTrip | mjpg-streamer/mjpg-streamer-experimental/plugins/output_autofocus/processJPEG_onlyCenter.c:133-273 | Blocks, entropy-coded, padded, packed and stuffed, decode to the blocks whatever follows in memory, exactly when no symbol is the last of its table, for any tables, if the decoder sees the code bits. |
| Scan.CodesAreReady | mjpg-streamer/mjpg-streamer-experimental/plugins/output_autofocus/processJPEG_onlyCenter.c:90-116 | Tables that hold the codes of an encoder are fit for the scan loop, if their DC symbols are at most 16. |
| Misread.LaterCodeIsAbove | mjpg-streamer/mjpg-streamer-experimental/plugins/output_autofocus/processJPEG_onlyCenter.c:101-113 | Bits that begin with a later code of a table are first different from an earlier code with a one for a zero. |
| Misread.AcAtLeast | mjpg-streamer/mjpg-streamer-experimental/plugins/output_autofocus/processJPEG_onlyCenter.c:192-215 | Whenever the AC loop gives a block, the bits that it read are what the encoder writes for the block, or first different from it with a one for a zero, if the end of block comes before other symbols without bits. |
| Misread.ScanAtLeast | mjpg-streamer/mjpg-streamer-experimental/plugins/output_autofocus/processJPEG_onlyCenter.c:232-273 | The same for any sequence of blocks. |
| Misread.NotAbove | mjpg-streamer/mjpg-streamer-experimental/plugins/output_autofocus/processJPEG_onlyCenter.c:133-150 | Where the decoder first sees another bit than was coded and stuffed, it sees a zero for a one. |
| Misread.ScanRoundTripIff | mjpg-streamer/mjpg-streamer-experimental/plugins/output_autofocus/processJPEG_onlyCenter.c:133-273 | So a stuffed scan decodes to its blocks if and only if no symbol is the last of its table and all code bits behind a missed zero are zero, for all tables in which the end of block comes before other AC symbols without bits. |
| Interleave.Interleaved | mjpg-streamer/mjpg-streamer-experimental/plugins/output_autofocus/processJPEG_onlyCenter.c:227-273 | The order of blocks, predictors and tables in the decoder is the one of an encoder that goes unit by unit: two Y blocks, each predicted from the Y block before it and coded with the selected tables, then Cr and Cb with the tables in slots 2 and 3, each predicted from its own block of the unit before. |
| Interleave.UnitsRoundTrip | mjpg-streamer/mjpg-streamer-experimental/plugins/output_autofocus/processJPEG_onlyCenter.c:133-273 | The stuffed code of any units decodes to their blocks in order, up to the last bit, if the bits are seen and no symbol is the last of its table, and only then if the end of block comes before other AC symbols without bits. |
| Interleave.DecodeUnits | mjpg-streamer/mjpg-streamer-experimental/plugins/output_autofocus/processJPEG_onlyCenter.c:227-273 | The imperative decoder does that, and then stands behind the last bit. |
| Scan.LoadedTables | mjpg-streamer/mjpg-streamer-experimental/plugins/output_autofocus/processJPEG_onlyCenter.c:90-116 | The tables that DHT segments load are the ones the round trips ask for. |
| Scan.LastCodeIsLost | mjpg-streamer/mjpg-streamer-experimental/plugins/output_autofocus/processJPEG_onlyCenter.c:158-162 | A table of two codes and two blocks, one of which can be read back and one not. |
| Scan.MissedZeros | mjpg-streamer/mjpg-streamer-experimental/plugins/output_autofocus/processJPEG_onlyCenter.c:133-149 | Two stuffed byte strings that the reader does not see as they are. |
| Extractor.Proxy.constructor | mjpg-streamer/mjpg-streamer-experimental/plugins/input_http/mjpg-proxy.c:51-59 | The parser starts in a header with nothing stored. |
| Extractor.Proxy.Take | mjpg-streamer/mjpg-streamer-experimental/plugins/input_http/mjpg-proxy.c:76-107 | One byte does to the object what one step of the automaton does to its state. |
| Extractor.Proxy.ExtractData | mjpg-streamer/mjpg-streamer-experimental/plugins/input_http/mjpg-proxy.c:73-111 | A buffer is a run of the automaton over it, up to the byte before which should_stop is seen. |
| Extractor.Proxy.Receive | mjpg-streamer/mjpg-streamer-experimental/plugins/input_http/mjpg-proxy.c:115-129 | The receive loop is a run over the buffers in turn. |
| Extractor.RunConcat | mjpg-streamer/mjpg-streamer-experimental/plugins/input_http/mjpg-proxy.c:73-111 | A run over two byte strings is a run over the first and then over the second. |
| Extractor.ChunksDoNotMatter | mjpg-streamer/mjpg-streamer-experimental/plugins/input_http/mjpg-proxy.c:126-127 | However recv cuts the stream, the callbacks and the final state are the same. |
| Matcher.FiresIff | mjpg-streamer/mjpg-streamer-experimental/plugins/input_http/misc.c:49-62 | The matcher fires on a content if and only if the boundary begins at an idle place of it, idle places being defined by the bytes before them. |
| Matcher.FiringByte | mjpg-streamer/mjpg-streamer-experimental/plugins/input_http/misc.c:49-62 | The byte at which it fires is the last of a boundary that begins at an idle place, and at every such byte it fires. |
| Matcher.MatcherIsSound | mjpg-streamer/mjpg-streamer-experimental/plugins/input_http/misc.c:49-62 | It stands behind the longest beginning of the boundary that begins at an idle place, at the start exactly in idle places, and at the end exactly if it has recognised a boundary. |
| Matcher.IdleBehindForeign | mjpg-streamer/mjpg-streamer-experimental/plugins/input_http/misc.c:49-62 | The beginning of a content, and every place behind a byte that the boundary does not have, is idle. |
| Matcher.IdleBehindDashes | mjpg-streamer/mjpg-streamer-experimental/plugins/input_http/misc.c:49-62 | Behind a run of dashes every third place is idle, counted from the place before the run if that is idle and from the first dash if not. |
| Matcher.NoBoundaryNoFire | mjpg-streamer/mjpg-streamer-experimental/plugins/input_http/misc.c:49-62 | A content without the boundary never makes it fire. |
| Matcher.MatcherIsComplete | mjpg-streamer/mjpg-streamer-experimental/plugins/input_http/misc.c:49-62 | Behind any byte that the boundary does not have, whatever came before, it follows the boundary to its end. |
| Matcher.DashesAndBoundary | mjpg-streamer/mjpg-streamer-experimental/plugins/input_http/misc.c:54-57 | A content of r dashes and the boundary contains the boundary, and makes it fire if and only if r is a multiple of three. |
| Matcher.PushShifts | mjpg-streamer/mjpg-streamer-experimental/plugins/input_http/misc.c:33-35 | The register holds the last four bytes; a byte of 128 or more, a negative char, turns the three before it into 255. |
| Matcher.LineEndTests | mjpg-streamer/mjpg-streamer-experimental/plugins/input_http/misc.c:23-32 | The two mask tests in terms of the bits of CR and LF in the bytes that the register holds. |
| Matcher.HeaderEndsIff | mjpg-streamer/mjpg-streamer-experimental/plugins/input_http/mjpg-proxy.c:73-91 | For any bytes of a header, it ends with the first byte at which the last four, seen through the register, have the bits of CR, LF, CR and LF. |
| Multipart.SendStream | mjpg-streamer/mjpg-streamer-experimental/plugins/output_http/httpd.c:458-537 | The bytes written are the preamble and three writes a frame, cut off after the last write that succeeds. |
| Multipart.PartHeaderIsQuiet | mjpg-streamer/mjpg-streamer-experimental/plugins/output_http/httpd.c:521-524 | For every size and time stamp, no part of a part header passes for an empty line. |
| Transport.PartHeaderRun | mjpg-streamer/mjpg-streamer-experimental/plugins/output_http/httpd.c:521-526 | A part header, with the line end before it, leads the parser from a boundary to the beginning of a content, for every size and time stamp. |
| Transport.StatusRun | mjpg-streamer/mjpg-streamer-experimental/plugins/output_http/httpd.c:466 | The status line alone takes the parser to the beginning of a content. |
| Transport.ContentRun | mjpg-streamer/mjpg-streamer-experimental/plugins/input_http/mjpg-proxy.c:93-99 | A content that fits and has no boundary at an idle place is stored byte by byte. |
| Transport.FrameRun | mjpg-streamer/mjpg-streamer-experimental/plugins/input_http/mjpg-proxy.c:92-106 | A frame with the line end and the boundary behind it yields a callback with exactly the frame, and the parser starts over. |
| Transport.StuckRun | mjpg-streamer/mjpg-streamer-experimental/plugins/input_http/mjpg-proxy.c:93-96 | A full buffer never recovers. |
| Transport.BadFrameMisses | mjpg-streamer/mjpg-streamer-experimental/plugins/input_http/mjpg-proxy.c:92-106 | A frame that is too long, or has a boundary at an idle place, is not what the next callback gets, whatever follows. |
| Transport.PreambleRun | mjpg-streamer/mjpg-streamer-experimental/plugins/output_http/httpd.c:466-473 | The preamble yields one callback, with the server's header fields. |
| Transport.FramesRun | mjpg-streamer/mjpg-streamer-experimental/plugins/input_http/mjpg-proxy.c:73-111 | Behind the preamble, the callbacks are the frames in order if and only if every frame fits and has no boundary at an idle place. |
| Transport.DeliverableIff | mjpg-streamer/mjpg-streamer-experimental/plugins/input_http/mjpg-proxy.h:34 | In numbers, a frame fits if it has at most 262121 bytes. |
| Transport.MultipartRoundTrip | mjpg-streamer/mjpg-streamer-experimental/plugins/input_http/mjpg-proxy.c:115-129 | For any frames, sizes and time stamps, and any division of what the server writes into buffers, the callbacks after the first are exactly the frames in order, if and only if every frame fits and has no boundary at an idle place. |
| Transport.FramesWithoutBoundaryArrive | mjpg-streamer/mjpg-streamer-experimental/plugins/input_http/mjpg-proxy.c:115-129 | In particular this is so for frames of at most 262121 bytes that do not contain the boundary. |
| Printf.NumeralShape | mjpg-streamer/mjpg-streamer-experimental/plugins/output_http/httpd.c:521-524 | Numbers of the part header are digits behind at most a minus sign; `%d` has no leading zero, and `%06d` only as many as make six characters. |
| Printf.NumbersReadBack | mjpg-streamer/mjpg-streamer-experimental/plugins/output_http/httpd.c:521-524 | As text, with or without padding, they read back as the numbers they were, of either sign. |
| LengthReader.BoundaryFound | mjpg-streamer/mjpg-streamer-experimental/plugins/output_http/httpd.c:466-471 | The boundary parameter in the Content-Type field of the response is the boundary. |
| LengthReader.PartTaken | mjpg-streamer/mjpg-streamer-experimental/plugins/output_http/httpd.c:521-537 | Read by its field names, the header of a part gives the length of the frame, its seconds and its microseconds; as many bytes as it says are the frame. |
| LengthReader.StreamReadBack | mjpg-streamer/mjpg-streamer-experimental/plugins/output_http/httpd.c:466-537 | A client that takes the boundary from the response and the length of every part from its header gets back exactly the frames sent, with their time stamps, whatever bytes are in them. |
| Broadcast.ProducerKeepsInv | mjpg-streamer/mjpg-streamer-experimental/plugins/input_uvc/input_uvc.c:773-810 | Every step of a producer that takes the mutex keeps the invariant that ties the mutex to the threads' phases and copies to frames. |
| Broadcast.ConsumerKeepsInv | mjpg-streamer/mjpg-streamer-experimental/plugins/output_http/httpd.c:483-510 | So does every step of every consumer. |
| Broadcast.MutualExclusion | mjpg-streamer/mjpg-streamer-experimental/plugins/output_http/httpd.c:483-510 | In every state that is reached while the producer takes the mutex for every frame, at most one thread is in a critical section. |
| Broadcast.DeliveredFramesAreWhole | mjpg-streamer/mjpg-streamer-experimental/plugins/output_http/httpd.c:486-510 | In every run in which the producer takes the mutex for every frame, each delivered (bytes, size, time stamp) is one whole published frame, or the slot as it was created if none had been published; deliveries follow the order of publication, and what is published is what was grabbed. |
| Broadcast.NoFrameTwice | mjpg-streamer/mjpg-streamer-experimental/plugins/output_http/httpd.c:484 | Without spurious wake-ups the frames that a consumer gets are strictly increasing in the order of publication. |
| Broadcast.FramesOnceIff | mjpg-streamer/mjpg-streamer-experimental/plugins/output_http/httpd.c:483-510 | In every run, with any spurious wake-ups, each delivery is of the frame signalled last before the consumer came back from waiting; so no frame is delivered twice if and only if a frame is signalled between any two of the returns that led to deliveries. |
| Broadcast.SignalWakesAll | mjpg-streamer/mjpg-streamer-experimental/plugins/input_uvc/input_uvc.c:809 | A broadcast wakes every consumer that waits and changes no other. |
| Broadcast.WaitingIsLater | mjpg-streamer/mjpg-streamer-experimental/plugins/output_http/httpd.c:484 | In every run, a consumer that waits at its end has gone to wait behind the last broadcast. |
| Broadcast.SpuriousRepeats | mjpg-streamer/mjpg-streamer-experimental/plugins/output_http/httpd.c:484 | A run with a spurious wake-up in which a published frame is delivered twice. |
| Broadcast.CamPublishes | mjpg-streamer/mjpg-streamer-experimental/plugins/input_uvc/input_uvc.c:793-795 | The copy step of the camera thread publishes the frame, its size and its time stamp. |
| Broadcast.HttpPublishes | mjpg-streamer/mjpg-streamer-experimental/plugins/input_http/input_http.c:134-135 | The callback of the HTTP input publishes the frame and its size with the old time stamp. |
| Broadcast.FragmentsPublish | mjpg-streamer/mjpg-streamer-experimental/plugins/input_raspicam/input_raspicam.c:393-403 | Fragments written behind one another publish the frame that they make up. |
| Broadcast.PicturePublishes | mjpg-streamer/mjpg-streamer-experimental/plugins/input_raspicam/input_raspicam.c:382-419 | A frame from any of the three producers is published with its bytes, its size and its time stamp, or the old time stamp if it has none. |
| Broadcast.GrabbedPictures | mjpg-streamer/mjpg-streamer-experimental/plugins/input_uvc/input_uvc.c:773-810 | Whichever producers a run has, the frames grabbed are their pictures in order. |
| Broadcast.ConsumersGetPictures | mjpg-streamer/mjpg-streamer-experimental/plugins/output_http/httpd.c:480-510 | End to end, for any interleaving of any of the three producers of whose frames none is an empty frame of the encoder, every consumer gets pictures whole and in order, or after a spurious wake-up before the first picture the slot as it was created; without spurious wake-ups it gets pictures only, and none twice. |
| Service.WokenIsServed | mjpg-streamer/mjpg-streamer-experimental/plugins/output_http/httpd.c:484-510 | From every state reached while the producer locks, in which a consumer has been woken and the mutex is free, a run gives it the frame published last. |
| Service.EveryoneCanBeServed | mjpg-streamer/mjpg-streamer-experimental/plugins/output_http/httpd.c:480-510 | From every such state, whoever holds the mutex, every client can still be given any picture that fits the slot: no step leads to a state in which a client can get nothing more. |
| EmptyFrames.ExclusionIff | mjpg-streamer/mjpg-streamer-experimental/plugins/input_raspicam/input_raspicam.c:382-419 | For any list of frames that fit the slot, mutual exclusion holds in all runs, of all beginnings of the list, if and only if none of them is an empty frame of the encoder. |
| EmptyFrames.CallsExcludeIff | mjpg-streamer/mjpg-streamer-experimental/plugins/input_raspicam/input_raspicam.c:382-419 | In terms of the callback: if and only if no call ends a frame without a byte. |
| EmptyFrames.EmptyFrameTears | mjpg-streamer/mjpg-streamer-experimental/plugins/input_raspicam/input_raspicam.c:400-419 | A run of a one-byte frame and an empty one in which a consumer is given the byte of the first with the time stamp of the second. |
| Fragments.Assembler.Store | mjpg-streamer/mjpg-streamer-experimental/plugins/input_raspicam/input_raspicam.c:382-397 | Data go behind what is pending; the mutex is taken with the first byte of a frame. |
| Fragments.Assembler.EndFrame | mjpg-streamer/mjpg-streamer-experimental/plugins/input_raspicam/input_raspicam.c:400-419 | The pending bytes are published, and the mutex is given back. |
| Fragments.Assembler.Callback | mjpg-streamer/mjpg-streamer-experimental/plugins/input_raspicam/input_raspicam.c:373-424 | A call keeps the fields what the calls so far determine. |
| Fragments.RunCalls | mjpg-streamer/mjpg-streamer-experimental/plugins/input_raspicam/input_raspicam.c:373-424 | After any calls whose frames fit: the mutex is held exactly while bytes are pending, the published frames are the fragments between end flags put together, and the mutex is never misused exactly when no frame ends without a byte. |
| Fragments.OneFrame | mjpg-streamer/mjpg-streamer-experimental/plugins/input_raspicam/input_raspicam.c:382-419 | A frame sent in any fragments behind a complete frame is published in one piece. |
| Fragments.NoEmptyFrameIff | mjpg-streamer/mjpg-streamer-experimental/plugins/input_raspicam/input_raspicam.c:400-419 | No call ends a frame without a byte if and only if no published frame is empty. |
| IoBuffer.Connection.constructor | mjpg-streamer/mjpg-streamer-experimental/plugins/output_http/httpd.c:65-69 | Nothing is held; what is to be delivered is the stream. |
| IoBuffer.Connection.Fill | mjpg-streamer/mjpg-streamer-experimental/plugins/output_http/httpd.c:144-158 | A read of any size ends up at the end of the buffer. |
| IoBuffer.Connection.Read | mjpg-streamer/mjpg-streamer-experimental/plugins/output_http/httpd.c:114-162 | Bytes, return value and what is still to be delivered are functions of the one stream of held bytes and coming events. |
| IoBuffer.Connection.ReadLine | mjpg-streamer/mjpg-streamer-experimental/plugins/output_http/httpd.c:181-197 | So are those of a line. |
| IoBuffer.Connection.ReadHeaders | mjpg-streamer/mjpg-streamer-experimental/plugins/output_http/httpd.c:1271-1288 | So are the lines of the request header. |
| IoBuffer.LineShape | mjpg-streamer/mjpg-streamer-experimental/plugins/output_http/httpd.c:188-196 | A line is what comes next in the stream, through the first LF or of full length; no line means that the stream is interrupted before. |
| IoBuffer.BytesShape | mjpg-streamer/mjpg-streamer-experimental/plugins/output_http/httpd.c:114-162 | A read gives the next bytes of the stream, all of them, or fewer exactly because silence or a failure comes behind them. |
| IoBuffer.ChunksDoNotMatter | mjpg-streamer/mjpg-streamer-experimental/plugins/output_http/httpd.c:152-158 | However bytes are divided between the buffer and reads, the stream, and with it every result, is the same. |
| IoBuffer.HeaderArrives | mjpg-streamer/mjpg-streamer-experimental/plugins/output_http/httpd.c:1271-1288 | A header of lines that fit, ended by an empty line, is read line by line and nothing behind it is taken. |
| IoBuffer.RequestArrives | mjpg-streamer/mjpg-streamer-experimental/plugins/output_http/httpd.c:1271-1288 | In bytes: any texts without a byte 10, each ended by 13 and 10, and an empty one at the end. |
| Base64.SextetInvertsLetter | mjpg-streamer/mjpg-streamer-experimental/plugins/output_http/httpd.c:217-230 | The digit values are those of the alphabet of RFC 4648, and only the pad has a value without being in it. |
| Base64.AccumulatePending | mjpg-streamer/mjpg-streamer-experimental/plugins/output_http/httpd.c:232 | The 32-bit accumulator, never reset and reduced modulo 2^32, holds the pending digits in its low bits. |
| Base64.GroupOctets | mjpg-streamer/mjpg-streamer-experimental/plugins/output_http/httpd.c:235-237 | The three casts of the accumulator are the octets of the last four digits. |
| Base64.NotOverwritten | mjpg-streamer/mjpg-streamer-experimental/plugins/output_http/httpd.c:214-240 | The write index never passes the read index: every byte that is still to be read is the original one. |
| Base64.DecodeBase64 | mjpg-streamer/mjpg-streamer-experimental/plugins/output_http/httpd.c:207-242 | The buffer ends up holding the decoded whole groups and a NUL in place of the text, and is unchanged behind that. |
| Base64.DecodeInvertsEncode | mjpg-streamer/mjpg-streamer-experimental/plugins/output_http/httpd.c:207-242 | Decoding the encoding of any octets gives the octets, and a NUL for every pad. |
| Base64.NoiseIsSkipped | mjpg-streamer/mjpg-streamer-experimental/plugins/output_http/httpd.c:229-230 | Bytes outside the alphabet make no difference. |
| Base64.RoundTrip | mjpg-streamer/mjpg-streamer-experimental/plugins/output_http/httpd.c:207-242 | For any octets and any interleaved bytes outside the alphabet, the resulting C string equals the octets if and only if they contain no NUL. |
| Unescape.UnescapeInPlace | mjpg-streamer/mjpg-streamer-experimental/plugins/output_http/httpd.c:268-306 | The buffer ends up holding what the left-to-right decoder gives and a NUL, with result 0; or the result is -1 and the buffer is unchanged from the NUL on. |
| Unescape.TakeEscape | mjpg-streamer/mjpg-streamer-experimental/plugins/output_http/httpd.c:287-299 | An escape is replaced exactly when two hexadecimal digits follow, also at the end of the string. |
| Unescape.MalformedIff | mjpg-streamer/mjpg-streamer-experimental/plugins/output_http/httpd.c:287-295 | Decoding succeeds if and only if every % is followed by two hexadecimal digits. |
| Unescape.DecodeInvertsEncode | mjpg-streamer/mjpg-streamer-experimental/plugins/output_http/httpd.c:268-306 | Decoding undoes every percent-encoding of every byte string. |
| Unescape.DecodedIsEncoded | mjpg-streamer/mjpg-streamer-experimental/plugins/output_http/httpd.c:268-306 | Whatever is decoded without an error is a percent-encoding of the result. |
| Unescape.RoundTrip | mjpg-streamer/mjpg-streamer-experimental/plugins/output_http/httpd.c:268-306 | On a percent-encoding the call succeeds, and the C string equals what was encoded if and only if that has no NUL. |
| DhtSplice.IsHuffman | mjpg-streamer/mjpg-streamer-experimental/plugins/input_uvc/v4l2uvc.c:574-587 | 1 exactly when a DHT marker lies in one of the first 2049 places with no SOS marker before it. |
| DhtSplice.MemcpyPicture | mjpg-streamer/mjpg-streamer-experimental/plugins/input_uvc/v4l2uvc.c:594-615 | The output is the picture, or nothing, or the picture with the tables in front of its first SOF0 marker; nothing behind it is written. |
| DhtSplice.HasTablesIff | mjpg-streamer/mjpg-streamer-experimental/plugins/input_uvc/v4l2uvc.c:574-587 | That marker is the bytes FF C4, in one of the places 0 to 2048, with no FF DA before it. |
| DhtSplice.FrameHeaderIff | mjpg-streamer/mjpg-streamer-experimental/plugins/input_uvc/v4l2uvc.c:602-605 | The frame header is the first FF C0 in the picture. |
| DhtSplice.CompletedUnique | mjpg-streamer/mjpg-streamer-experimental/plugins/input_uvc/v4l2uvc.c:594-615 | There is one such output. |
| DhtSplice.Removable | mjpg-streamer/mjpg-streamer-experimental/plugins/input_uvc/v4l2uvc.c:608-610 | Taking the inserted bytes out gives the picture back. |
| DhtSplice.AgainIff | mjpg-streamer/mjpg-streamer-experimental/plugins/input_uvc/v4l2uvc.c:594-615 | Completing the output again changes nothing if and only if the frame header is in one of the first 2049 places and no SOS marker comes before it, for any tables that begin with a DHT marker and any bytes behind the picture. |
| StandardTables.StandardIsSound | mjpg-streamer/mjpg-streamer-experimental/plugins/input_uvc/huffman.h:26-62 | The four inserted tables fit the decoder's arrays, satisfy Kraft's inequality, and none of them has two entries for one window. |
| StandardTables.DhtDataShape | mjpg-streamer/mjpg-streamer-experimental/plugins/input_uvc/huffman.h:26-62 | The inserted bytes are a DHT marker and a length field that covers exactly the four serialised tables. |
| StandardTables.LoadStandard | mjpg-streamer/mjpg-streamer-experimental/plugins/output_autofocus/processJPEG_onlyCenter.c:85-116 | Where a picture has the inserted bytes, the DHT branch reads their length, uses all of them and leaves the standard tables in the four slots, whatever was there and whatever follows. |
| StandardTables.BlockIsReadable | mjpg-streamer/mjpg-streamer-experimental/plugins/output_autofocus/processJPEG_onlyCenter.c:158-162 | A block that the inserted tables can encode is readable if and only if its DC difference is not of category 11 and no AC coefficient of category 10 comes behind 15, 31 or 47 zeros. |
| StandardTables.StandardRoundTrip | mjpg-streamer/mjpg-streamer-experimental/plugins/output_autofocus/processJPEG_onlyCenter.c:133-273 | The units of a scan coded with the inserted tables and stuffed come back, with the tables that the inserted bytes load, if and only if all their blocks are readable in that sense and all code bits behind a missed zero are zero. |
| StandardTables.DecodeCompleted | mjpg-streamer/mjpg-streamer-experimental/plugins/input_uvc/v4l2uvc.c:594-615 | From the camera to the decoder: `memcpy_picture` completes a picture without tables, the decoder parses the DHT segment in what was written and reads the scan behind it; it gives the blocks of the units that the camera coded, in order, under exactly these conditions. |
| FileNames.NameOrder | mjpg-streamer/mjpg-streamer-experimental/plugins/output_file/output_file.c:259-266 | For years of four digits and any counters, one name comes before another in byte order if and only if its time is earlier, or the times are equal and its written counter is less. |
| FileNames.WrittenName | mjpg-streamer/mjpg-streamer-experimental/plugins/output_file/output_file.c:259-266 | Year, month, day, hour, minute and second stand in 4, 2, 2, 2, 2 and 2 digits at their places in a name, with `_` between them and `_picture_` behind them, and then the counter in as many digits as it needs, at least nine, and `.jpg`. |
| FileNames.CounterOrder | mjpg-streamer/mjpg-streamer-experimental/plugins/output_file/output_file.c:266 | Counters of any lengths, as written, are ordered by number once the longer one is cut to the length of the shorter, which comes first if they are equal then. |
| FileNames.TenDigits | mjpg-streamer/mjpg-streamer-experimental/plugins/output_file/output_file.c:266 | For counters of at most nine digits that is c < d; for one of at most nine digits before one of ten it is c <= d / 10. |
| FileNames.WrittenNamesMatch | mjpg-streamer/mjpg-streamer-experimental/plugins/output_file/output_file.c:112-145 | Every name that is written is recognised by the sscanf pattern. |
| FileNames.RecognisedIff | mjpg-streamer/mjpg-streamer-experimental/plugins/output_file/output_file.c:112-145 | A name is recognised if and only if it has this shape: six decimal numbers with optional white space and sign, an underscore behind each of the first five, the text of `_picture_` behind the sixth, and a number of at most nine characters. |
| FileRing.Recorder.MaintainRingbuffer | mjpg-streamer/mjpg-streamer-experimental/plugins/output_file/output_file.c:153-196 | A negative size changes nothing; otherwise the pictures that come first are deleted until at most `size` are left, and no file without the shape of a picture name. |
| FileRing.KeepsNewestUnique | mjpg-streamer/mjpg-streamer-experimental/plugins/output_file/output_file.c:171-192 | That determines the files that are left. |
| FileRing.CleanUpSparesForeign | mjpg-streamer/mjpg-streamer-experimental/plugins/output_file/output_file.c:142 | A clean-up takes away files of that shape only. |
| FileRing.ListingExists | mjpg-streamer/mjpg-streamer-experimental/plugins/output_file/output_file.c:163 | Every folder has a sorted listing such as `scandir` returns. |
| FileRing.NewestAscend | mjpg-streamer/mjpg-streamer-experimental/plugins/output_file/output_file.c:246-268 | In a run whose pictures are pairwise in order (earlier, or in the same second with a lesser written counter), byte order of the newest names is the order of creation. |
| FileRing.AscendIff | mjpg-streamer/mjpg-streamer-experimental/plugins/output_file/output_file.c:246-268 | For a whole run it is so in this case only. |
| FileRing.SteadyClock | mjpg-streamer/mjpg-streamer-experimental/plugins/output_file/output_file.c:246-268 | Local time that does not go back is enough for up to 10^9 pictures. |
| FileRing.Recorder.StorePicture | mjpg-streamer/mjpg-streamer-experimental/plugins/output_file/output_file.c:246-325 | An iteration adds the picture and cleans up when it is due. |
| FileRing.BoundedStep | mjpg-streamer/mjpg-streamer-experimental/plugins/output_file/output_file.c:314-325 | Every iteration keeps the bound of `size` and the number of pictures since the last clean-up, whatever the folder contains. |
| FileRing.NeverTooMany | mjpg-streamer/mjpg-streamer-experimental/plugins/output_file/output_file.c:314-325 | So after every iteration there are at most size + exceed pictures. |
| FileRing.CleanUpIff | mjpg-streamer/mjpg-streamer-experimental/plugins/output_file/output_file.c:171-192 | For any stamps of the pictures of a run, in any order, a clean-up leaves the pictures taken last if and only if every picture that has to go is in order before every one that has to stay. |
| FileRing.KeptBounds | mjpg-streamer/mjpg-streamer-experimental/plugins/output_file/output_file.c:314-325 | In an empty folder at least the newest `size` pictures of a run are kept, and at most size + exceed. |
| FileRing.OneMore | mjpg-streamer/mjpg-streamer-experimental/plugins/output_file/output_file.c:246-325 | If the folder holds the newest pictures of a run and no others, it does so after the next picture. |
| FileRing.Recorder.WorkerThread | mjpg-streamer/mjpg-streamer-experimental/plugins/output_file/output_file.c:216-340 | After any run the bound holds, a folder that was empty contains exactly the newest pictures of the run, in the number that the schedule gives, and files without the shape of a picture name are all still there. |
| FrameDrop.CamThread.Grabbed | mjpg-streamer/mjpg-streamer-experimental/plugins/input_uvc/input_uvc.c:719-811 | With every frame the counter stays the number of frames modulo `every`, and the published frames and the time in the slot stay what the counter-free definition says. |
| FrameDrop.ElapsedAtMost | mjpg-streamer/mjpg-streamer-experimental/plugins/input_uvc/input_uvc.c:759-765 | Unsigned subtraction never overstates elapsed time, for any width of the type. |
| FrameDrop.ClockBack | mjpg-streamer/mjpg-streamer-experimental/plugins/input_uvc/input_uvc.c:759-765 | If a stamp lies before the last one, the difference is the range of the type less the step back. |
| FrameDrop.SpacedIff | mjpg-streamer/mjpg-streamer-experimental/plugins/input_uvc/input_uvc.c:727-811 | For any stamps, every published frame is an every-th one and large enough, and with the test for time published frames are a period apart if and only if their stamps do not go back. |
| FrameDrop.PublishedAreSpaced | mjpg-streamer/mjpg-streamer-experimental/plugins/input_uvc/input_uvc.c:727-811 | In particular if no time stamp goes back. |
| FrameDrop.PublishedIff | mjpg-streamer/mjpg-streamer-experimental/plugins/input_uvc/input_uvc.c:727-811 | Frame i is published exactly if i + 1 is a multiple of `every`, its size is at least the minimum, and, with the test for time, the milliseconds since the last published frame before it, as an unsigned number, are at least the period. |
| PanTilt.Controller.MoveBy | mjpg-streamer/mjpg-streamer-experimental/plugins/input_control/input_uvc.c:280-284 | A move changes the sum of the requests by what the position changes, with tilt negated, whether or not it succeeds. |
| PanTilt.Controller.InputCmd | mjpg-streamer/mjpg-streamer-experimental/plugins/input_control/input_uvc.c:232-401 | For every command: the position stays within the limits and equal to the sum of the requests since the last reset, the mutex is taken once and released (not at all in the nested reset), and position, result and validity are as specified, including 64 times the clamped degrees for a set command and -1 without movement for a failed reset. |
| PanTilt.TargetIff | mjpg-streamer/mjpg-streamer-experimental/plugins/input_control/input_uvc.c:250-387 | In numbers: a set command leads to the place within 4480 or 1920 of the centre that is nearest to 64 times the degrees, plus and minus up or down by the step unless that leads out of reach, each on its own axis; a reset leads to the centre, and nothing else moves. |
| PanTilt.QuotientTruncates | mjpg-streamer/mjpg-streamer-experimental/plugins/input_control/input_uvc.c:285 | Degrees are the position divided towards zero. |
| PanTilt.DeviceIff | mjpg-streamer/mjpg-streamer-experimental/plugins/input_control/input_uvc.c:282 | For every sequence of requests and answers and every place where the device began, it is where the requests add up to if and only if the moves that failed since the last successful reset add up to nothing, or to the place it began at if there was none. |
| PanTilt.DeviceFollowsIff | mjpg-streamer/mjpg-streamer-experimental/plugins/input_control/input_uvc.c:250-284 | In every reachable state of the controller the device is where the tracker says if and only if that sum is nothing, when the position is valid, or the place it began at, when it is not. |
| PanTilt.DeviceFollows | mjpg-streamer/mjpg-streamer-experimental/plugins/input_control/input_uvc.c:280-284 | In particular, from a successful reset on, while every move succeeds. |
| Pixels.Row | mjpg-streamer/mjpg-streamer-experimental/plugins/input_uvc/jpeg_utils.c:175-198 | A row is converted from any phase and offset, and both are right for the pixel behind it. |
| Pixels.Image | mjpg-streamer/mjpg-streamer-experimental/plugins/input_uvc/jpeg_utils.c:168-202 | The rows handed over are the row-major pixels, also when rows have an odd width. |
| Pixels.PixelAt | mjpg-streamer/mjpg-streamer-experimental/plugins/input_uvc/jpeg_utils.c:179-192 | Pixel p of the image comes from the four bytes at 4 * (p / 2): brightness at 0 or 2 and U, V at 1, 3 for YUYV; at 1 or 3 and 0, 2 for UYVY. |
| Pixels.ConversionIsStandard | mjpg-streamer/mjpg-streamer-experimental/plugins/input_uvc/jpeg_utils.c:186-192 | For all Y, U and V, each component is that of the conversion in section 7 of ITU-T T.871, limited and rounded down, within 0.044, 0.141 and 0.184. |
| Pixels.ColourComesBack | mjpg-streamer/mjpg-streamer-experimental/plugins/input_uvc/jpeg_utils.c:186-192 | For a colour that is not limited, brightness computed back from it is Y within 1.1, and its colour differences are U and V within 1.1. |
| Pixels.Neutral | mjpg-streamer/mjpg-streamer-experimental/plugins/input_uvc/jpeg_utils.c:186-192 | Neutral chroma gives the brightness in all three components. |
| Pixels.OnlyTheFrameMatters | mjpg-streamer/mjpg-streamer-experimental/plugins/input_uvc/jpeg_utils.c:168-202 | The image depends on the 2 * width * height bytes of the frame only, if and only if the number of pixels is even. |
| Pixels.UyvyIsSwapped | mjpg-streamer/mjpg-streamer-experimental/plugins/input_uvc/jpeg_utils.c:240-273 | The UYVY image is the YUYV image of the frame with adjacent bytes exchanged. |
| Pixels.PackInvertsUnpack | mjpg-streamer/mjpg-streamer-experimental/plugins/input_uvc/jpeg_utils.c:230-233 | The expansion of RGB565 loses nothing. |
| Pixels.UnpackOfPack | mjpg-streamer/mjpg-streamer-experimental/plugins/input_uvc/jpeg_utils.c:230-233 | Packing a colour and expanding it again clears its low-order bits. |
| Pixels.Layout565 | mjpg-streamer/mjpg-streamer-experimental/plugins/input_uvc/jpeg_utils.c:230-233 | The two bytes are, low byte first, five bits of red, six of green and five of blue. |
| Destination.Manager.constructor | mjpg-streamer/mjpg-streamer-experimental/plugins/input_uvc/jpeg_utils.c:56-67 | Nothing has been written. |
| Destination.Manager.PutByte | mjpg-streamer/mjpg-streamer-experimental/plugins/input_uvc/jpeg_utils.c:74-86 | After every byte the output and the used part of the buffer are everything written, in order. |
| Destination.Manager.EmptyOutputBuffer | mjpg-streamer/mjpg-streamer-experimental/plugins/input_uvc/jpeg_utils.c:74-86 | A full buffer is moved to the output. |
| Destination.Manager.TermDestination | mjpg-streamer/mjpg-streamer-experimental/plugins/input_uvc/jpeg_utils.c:94-103 | At the end the output is exactly what was written. |
| Destination.Compress | mjpg-streamer/mjpg-streamer-experimental/plugins/input_uvc/jpeg_utils.c:56-103 | For any byte sequence, the output is the sequence and `written` its length. |

## Left out

- The quantisation tables, the sharpness sums and the Gaussian weights of the autofocus plugin: floating point.
- Dht.HuffmanTables.ParseTable: the four look-up arrays are one array of records, and a segment whose counts exceed the 162 places of a table is outside its precondition.
- Dht.HuffmanTables.ParseDht: segments are given by the tables they serialise; a length field that ends inside a table is not modelled.
- Scan.ReadTable: DC size 0 means no bits and difference 0, where the C shifts by 32 are undefined; the DC predictor is an unbounded integer.
- Scan.DecodeScan: the number of units is a parameter, since it comes from floating-point arithmetic on the picture size; DC symbols above 16, for which `mask` has no entry, are outside its precondition.
- Scan.ScanRoundTrip: it says nothing of scans whose code bits the decoder does not see; `Misread.ScanRoundTripIff` does.
- Misread.ScanRoundTripIff: AC tables in which another symbol without bits comes before the end of block are outside its precondition; with such tables zeros that are read too much may stand for a run before the end of a block.
- StandardTables.DecodeCompleted: the search for markers is not modelled; the places of the frame header and of the scan data are parameters.
- Multipart.SendStream: a write is complete or fails; partial writes are not modelled, nor is the growth of the local frame buffer.
- Extractor.Proxy.Take: `on_image_received` is always set.
- Extractor.Proxy.ExtractData: `should_stop` is a number of bytes after which it is seen.
- Service.EveryoneCanBeServed: it says that a client can be served, not that it will be: no scheduler, and no fairness, is assumed.
- LengthReader.StreamReadBack: the stream is one that was not cut off; the repository has no such client, it reads the headers as section 5.1 of RFC 2046 and section 3.3.2 of RFC 7230 have it.
- Broadcast.ConsumersGetPictures: runs with an empty frame of the encoder are outside its precondition; `EmptyFrames` shows what they do.
- EmptyFrames.ExclusionIff: unlocking a mutex that another thread holds, or nobody, is undefined in POSIX; the model lets it become free, as a plain mutex does.
- Fragments.Assembler.Callback: the transmission-failed flag counts as an end flag, as in the code; the optional time stamp is left to `Broadcast`.
- IoBuffer.Connection.Read: a failed read ends the connection; the level of -1 that the code leaves behind is not used again.
- IoBuffer.Connection.ReadHeaders: what the lines say (User-Agent, Authorization) is not looked at.
- DhtSplice.MemcpyPicture: the inserted bytes are a parameter of any contents; `StandardTables` has those of the code.
- FileNames.NameOrder: years outside 1000 to 9999, which `strftime` prints with another number of digits, are not compared.
- FileRing.Recorder.MaintainRingbuffer: unlink succeeds, and `scandir` sorts in byte order (the C locale); `scandir` is a parameter that returns the sorted listing.
- FileRing.Recorder.StorePicture: the fixed-name link, the command and the single-file MJPG mode do not touch the pictures of the folder.
- PanTilt.Controller.InputCmd: arguments for which the C integer arithmetic overflows are outside its precondition.
- Pixels.Image: the YUYV and the UYVY loop are one method with the byte positions as a parameter; the RGB24 copy is left out.
- Destination.Manager.PutByte: of libjpeg only its use of `next_output_byte` and `free_in_buffer` is modelled; the output must be large enough, as the code demands.
- Sockets, ioctl, threads' cancellation and signals, memory allocation, option parsing and the other plugins (ZeroMQ, UDP, RTSP, viewer, PTP2, OpenCV, file input): foreign calls around the same loops.
- JSON, CGI, MIME types and command parameters of the HTTP server, and all Python files: easy members or glue.
