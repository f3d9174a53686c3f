# Verified model of the vendored codecs

The repository is a game server; what computes in it are the codecs in `dep/utils`:
`stb_image.h` (readers), `stb_image_write.h` (writers) and `Base64.cpp`. Most of them come
as pairs. This project models the pairs and proves that each reader undoes its writer, what
the readers do on every input in the terms of the format's standard, and that the fast forms
in the code (bit reservoirs, lookup tables, deferred reductions, branch-free predictors)
equal the simple ones.

How the modules go together:

- **zlib.** `BitMath` treats a bit stream as a number: its next n bits are `Low(v, n)`, what
  follows them `Shr(v, n)`, so that the zeros beyond the end of the input cost nothing.
  `Canonical` and `ZCodes` are the canonical prefix codes, `ZHuffman` the reader's tables,
  `BitReservoir` its bit buffer, `LZ77` its output buffer. `Deflate` and `DeflateStream` say
  what a stream of RFC 1951 is and what it expands to, `StreamEnd` how far it may reach past
  the input that holds it, and `DeflateFormat` what the bits of one mean; `Inflate` reads one. `ZTables`,
  `ZMatcher`, `ZWriter`, `Adler` and `ZCompress` are the compressor. `ZlibRoundTrip` joins
  the two.
- **GIF.** `GifLzw` is the dictionary machine, `GifCanvas` the picture and the interlaced
  order, `GifRaster` the decoder with its tables and cursor, `GifPicture` a whole frame,
  `GifFormat` what its bytes mean.
- **PNG.** `PngFilter` and `PngImage` are the line filters, `Adam7` the interlacing,
  `PngInterlaced` a whole interlaced image, `PngFormat` what the bytes of either mean,
  `PngRoundTrip` a whole image through filters and zlib.
- **JPEG.** `JpegHuffman`, `JpegLookup`, `JpegFastAc` and `JpegReader` are the reader's
  tables, what they make of a stream, and its bit buffer; `JpegBlock` the coefficients of a
  block as fields, which `JpegWriter` writes. `JpegMeaning` says what the bits of a block
  mean on any stream, `JpegDecode` decodes them so, and `JpegCoded` shows that what the
  writer writes means the block. `JpegScan` is a whole scan of interleaved components,
  `JpegTables` the tables built into the writer, `JpegFormat` what bits and tables mean.
- **TGA, HDR, CRC-32, Base64.** `TgaRle`, `HdrRle`, `Crc32`, `Base64`.

Readers are proved against a description of the format and not against the writer: the
inflater's contract is two-sided for every input, the JPEG block decoder is determined on
every stream, the GIF theorem holds for every encoder, the TGA and HDR readers take packets
by any encoder. The descriptions in turn are tied to the standards: the `Format` modules and
the lemmas beside the tables and layouts of the others say in numbers and plain arithmetic
what these must be, so that it is not enough for a reader, a writer and their description to
agree. Where a method has a ghost parameter `coded`, it says whether the input is known to be
such; without it the method is proved to stay within its bounds.

Seven things the code does not do for all inputs, with the exact condition:

- compressing no data gives a stream that does not inflate (`ZlibRoundTrip.RoundTrip`);
- the inflater takes zeros for bits past the end of the input, so that an input may hold a
  stream that RFC 1951 would call truncated (`ZlibRoundTrip.TruncatedHolds`); what it
  accepts ends near the input (`StreamEnd.EndsNear`);
- the inflater's buffer does not grow from an initial size of zero (`LZ77.DoublingReaches`);
- the GIF decoder gives up when an encoder defers its clear code beyond 8192 entries
  (`GifLzw.DecodeEncoded`, `GifLzw.LimitReached`), although GIF89a Appendix F allows that;
- with a JPEG table of 256 symbols that all have codes of at most nine bits, the code of the
  last symbol is read as another symbol or as ten bits (`JpegLookup.CanonicalIff`,
  `JpegLookup.RightUnlessMissed`, `JpegLookup.LookupMissesOne`), which the assertion in
  the code may notice;
- the check for products that fit a short is wrong for some negative second factors, which
  no caller passes (`JpegDecode.Mul2shortsExact`, `JpegDecode.Mul2shortsWrong`);
- `Base64::decode_length` counts line breaks as text (`Base64.LengthWithBreaks`).

`dafny verify dfyconfig.toml` checks the project.

## Model

| member | source | states |
|---|---|---|
| `ZlibRoundTrip.RoundTrip` | dep/utils/stb_image_write.h:895-1022 | Inflating what the compressor made of the data, for every quality and every positive initial buffer size, succeeds if and only if there was data, and then gives exactly the data |
| `ZlibRoundTrip.TruncatedHolds` | dep/utils/stb_image.h:4202-4212 | An input can hold a stream that ends past it, in the zeros the reader adds: a header and the three bits of a block with fixed codes |
| `ZlibRoundTrip.StoredMissing` | dep/utils/stb_image.h:4429-4431 | Without the check for it, a stored block of which all bytes are missing would be such a stream too; it is not accepted |
| `ZlibRoundTrip.EmptyFails` | dep/utils/stb_image_write.h:985-999 | The stream the compressor makes of no data (stored fallback with an empty loop) is not a stream of any blocks, whatever expansion is claimed for it |
| `ZlibRoundTrip.DecodedIs` | dep/utils/stb_image.h:4541-4555 | The decoder's two-sided contract and the uniqueness of expansions leave only one result for a stream that expands to the data |
| `BitReversal.BitReverseIsRev` | dep/utils/stb_image.h:4107-4122 | The mask-and-swap reversal with its final shift is the reversal of the low bits, for every width up to 16 |
| `BitReversal.BitRev` | dep/utils/stb_image_write.h:849-857 | The bit-by-bit loop computes the same reversal, so writer and reader agree |
| `BitReversal.PartnersReverse` | dep/utils/stb_image.h:4107-4114 | The four swaps of groups of 1, 2, 4 and 8 bits together move bit i to bit 15 - i |
| `BitMath.Arithmetic` | dep/utils/stb_image.h:4216-4222 | The shifts and masks by which all streams are described are multiplication, quotient and remainder by a power of two |
| `BitMath.ByteOfLE` | dep/utils/stb_image.h:4209-4210 | The bits of a byte string come lowest bit first |
| `Canonical.FitsIsKraft` | dep/utils/stb_image.h:4139-4149 | The per-length overflow checks accept a count of codes exactly when the Kraft inequality holds |
| `Canonical.LengthUnique` | dep/utils/stb_image.h:4229-4237 | A 16-bit word lies in the code interval of at most one length, so the limit search finds the only candidate |
| `ZCodes.AcceptedIsKraft` | dep/utils/stb_image.h:4135-4149 | A list of code lengths is accepted exactly when its Kraft sum is at most 1, the separate `bad sizes` check included |
| `ZCodes.PrefixFree` | dep/utils/stb_image.h:4138-4166 | No code of an accepted list is a prefix of another (RFC 1951 section 3.2.2) |
| `DeflateFormat.ShortestCode` | dep/utils/stb_image.h:4138-4166 | The rules of RFC 1951 section 3.2.2: the first of the shortest codes is all zeros, ... |
| `DeflateFormat.NextCode` | dep/utils/stb_image.h:4138-4166 | ... codes of one length are consecutive in the order of their symbols, ... |
| `DeflateFormat.LongerCode` | dep/utils/stb_image.h:4138-4166 | ... and the first code of the next length is the last one plus one, with zeros at its end |
| `ZCodes.MatchUnique` | dep/utils/stb_image.h:4243-4271 | A bit stream starts with the code of at most one symbol |
| `ZCodes.PackedCodeMatches` | dep/utils/stb_image.h:4151-4166 | A stream starts with symbol i exactly when its low bits are the reversed canonical code of i |
| `ZCodes.WordToSymbol` | dep/utils/stb_image.h:4228-4240 | Between two limits, the arithmetic of the slow path gives the rank of a symbol whose code the stream starts with |
| `ZCodes.RankInjective` | dep/utils/stb_image.h:4153-4157 | Different symbols have different places in the sorted tables, so none is overwritten |
| `ZHuffmanTables.ZHuffman.Build` | dep/utils/stb_image.h:4124-4169 | Table building succeeds exactly for accepted length lists, and then the tables hold the code: first codes, limits, sorted symbols and every one of the 512 fast entries |
| `ZHuffmanTables.FastEntryMeaning` | dep/utils/stb_image.h:4155-4164 | A fast entry is zero exactly when no code of up to 9 bits matches the index, and otherwise names the symbol and length that do |
| `ZHuffmanTables.FastBitsSuffice` | dep/utils/stb_image.h:4263-4269 | Nine bits decide whether a stream starts with a given code of at most nine bits |
| `BitReservoir.BitReader.FillBits` | dep/utils/stb_image.h:4202-4212 | Refilling keeps the unread bit stream as it is, whatever the input; the guard against stray high bits never holds |
| `BitReservoir.BitReader.Receive` | dep/utils/stb_image.h:4214-4222 | Returns the next n bits of the unread stream and drops exactly those; never more than 32 bits are held |
| `BitReservoir.BitReader.Refill` | dep/utils/stb_image.h:4246-4262 | At the end of the input sixteen zero bits are added once, which does not change the stream extended by zeros; it fails only when bits past the input have been consumed already |
| `BitReservoir.BitReader.Decode` | dep/utils/stb_image.h:4243-4271 | Fast table and slow path are one decoder: a symbol returned is the one the stream starts with and its code is consumed; a failure means that no symbol starts there or that bits past the input have been consumed already |
| `BitReservoir.BitReader.DecodeSlowPath` | dep/utils/stb_image.h:4224-4241 | The search finds the symbol whose code the stream starts with, and fails only if there is none; the checks on `b` and `size[b]` never fail |
| `BitReservoir.BitReader.DrainBytes` | dep/utils/stb_image.h:4415-4422 | Draining yields at most three of the four header bytes and leaves no bits; the count is never negative |
| `BitReservoir.BitReader.ReadFourBytes` | dep/utils/stb_image.h:4415-4425 | The four header bytes are the next 32 bits of the stream, partly from the reservoir and partly from the input |
| `BitReservoir.BitReader.TakeBytes` | dep/utils/stb_image.h:4429-4433 | Copying len bytes from the input consumes exactly 8 * len bits of the stream |
| `LZ77.CopyBackUnique` | dep/utils/stb_image.h:4348-4354 | The expansion of a match is the only sequence that extends the output by len bytes with period dist |
| `LZ77.CopyBackPeriodic` | dep/utils/stb_image.h:4348-4354 | Every byte a match adds equals the one dist before it, also where source and target overlap |
| `LZ77.OutputBuffer.RepeatByte` | dep/utils/stb_image.h:4349-4351 | The one-byte run is the general copy at distance 1 |
| `LZ77.OutputBuffer.CopyForward` | dep/utils/stb_image.h:4352-4354 | The forward byte loop, run in place over overlapping ranges, gives the declarative expansion |
| `LZ77.OutputBuffer.Expand` | dep/utils/stb_image.h:4273-4293 | The capacity is doubled until the room asked for is there, and the contents stay; it fails only when it may not grow or 2^31 bytes do not suffice |
| `LZ77.DoublingReaches` | dep/utils/stb_image.h:4282-4285 | Doubling reaches the room asked for exactly when it starts from a positive capacity; from zero the loop would not end |
| `LZ77.OutputBuffer.Repeat` | dep/utils/stb_image.h:4343-4354 | A match of any length is expanded, with the buffer grown when needed |
| `LZ77.OutputBuffer.Append` | dep/utils/stb_image.h:4430-4434 | A stored block's bytes are appended |
| `Deflate.WrittenIsRead` | dep/utils/stb_image_write.h:879-881 | Fields packed least significant bit first are read back in order and leave the rest of the stream |
| `Deflate.TokenUnique` | dep/utils/stb_image.h:4309-4357 | At most one literal or match starts at a place of the stream |
| `DeflateFormat.TokenMeans` | dep/utils/stb_image.h:4313-4354 | What a token stands for, by the rules of RFC 1951 section 3.2.5 in closed form: one byte, or a length and a distance back |
| `DeflateFormat.LengthRule` | dep/utils/stb_image.h:4295-4301 | The length symbols and their extra bits in closed form |
| `DeflateFormat.DistRule` | dep/utils/stb_image.h:4303-4307 | The distance symbols and their extra bits in closed form |
| `DeflateFormat.OpMeans` | dep/utils/stb_image.h:4384-4403 | What the operations 0 to 18 do to the list of code lengths |
| `DeflateFormat.BlockSays` | dep/utils/stb_image.h:4489-4505 | What the three bits in front of a block say |
| `DeflateFormat.StoredSays` | dep/utils/stb_image.h:4409-4436 | A stored block bit by bit: it starts at a byte boundary, with its length and the complement, and its bytes are the output |
| `DeflateFormat.FixedSays` | dep/utils/stb_image.h:4489-4505 | After them come the tokens in the fixed codes, ... |
| `DeflateFormat.DynamicSays` | dep/utils/stb_image.h:4489-4505 | ... or a description and the tokens in the codes it describes |
| `Deflate.ExpandConcat` | dep/utils/stb_image.h:4309-4357 | Expanding two runs of tokens one after the other is expanding their concatenation |
| `DeflateStream.HeaderUnique` | dep/utils/stb_image.h:4359-4407 | At most one dynamic header is written at a place of the stream, its run-length coded list of code lengths included |
| `DeflateStream.BlockUnique` | dep/utils/stb_image.h:4489-4506 | At most one block, stored, fixed or dynamic, starts at a place of the stream |
| `DeflateStream.StreamUnique` | dep/utils/stb_image.h:4489-4507 | A stream has at most one division into blocks up to a final one |
| `DeflateStream.ExpansionUnique` | dep/utils/stb_image.h:4481-4508 | An input has at most one expansion, and one way to it |
| `DeflateStream.DezigzagOrder` | dep/utils/stb_image.h:4361 | The order is that of RFC 1951 section 3.2.7 by its rule: 16, 17, 18 and 0, and then from 8 outwards |
| `DeflateStream.DezigzagOnto` | dep/utils/stb_image.h:4361-4376 | It reaches each of the 19 symbols, whose place is given in closed form |
| `DeflateStream.HeaderSays` | dep/utils/stb_image.h:4367-4407 | What the bits of a description say: the three counts from their fields, the code length of every symbol from the three bits at its place or 0 past the last one stored, and the listed lengths split between literals and distances |
| `StreamEnd.BlocksInside` | dep/utils/stb_image.h:4489-4506 | Every block of a stream that an input holds, extended by zeros, starts within the input |
| `StreamEnd.TokensEnd` | dep/utils/stb_image.h:4309-4357 | A block of tokens ends at most 62 bits after the last bit that is set: where only zeros are left it can only end |
| `StreamEnd.EndsNear` | dep/utils/stb_image.h:4481-4508 | A stream that is accepted ends within the input if its last block is stored, otherwise at most 62 bits past it, or 15 bits past its code lengths if these end past it already |
| `FixedCode.LengthCode` | dep/utils/stb_image.h:4452-4463 | The default lengths are 8, 9, 7 and 8 in their four ranges and give exactly the codes the writer's `huff1` to `huff4` macros hard-wire (RFC 1951 section 3.2.6) |
| `FixedCode.DistanceCode` | dep/utils/stb_image.h:4464-4467 | All 32 fixed distance codes are their own five-bit numbers |
| `Inflate.Inflater.ReadToken` | dep/utils/stb_image.h:4313-4355 | One turn of the loop reads the one token that starts there and expands it, ends at the end-of-block code, or fails, and then no block at this place could have been finished in what is left of the input and the buffer |
| `Inflate.Inflater.ReadMatch` | dep/utils/stb_image.h:4335-4342 | Length and distance are those of the match that follows; failure means that no match follows or the input has run out |
| `Inflate.Inflater.ParseHuffmanBlock` | dep/utils/stb_image.h:4309-4357 | Succeeds only with the tokens of the one block that stands there, all consumed, and the output their LZ77 expansion; fails only if there is none or no room for it |
| `Inflate.Inflater.ParseUncompressedBlock` | dep/utils/stb_image.h:4409-4436 | A stored block is read as RFC 1951 section 3.2.4 lays it out, its bytes from within the input, or none starts here or the input or room is missing |
| `Inflate.Inflater.ReadLens` | dep/utils/stb_image.h:4379-4403 | The list of code lengths is that of the run-length operations that stand there, with no run past the end; or there is no such list |
| `Inflate.Inflater.ComputeHuffmanCodes` | dep/utils/stb_image.h:4359-4407 | The tables hold the two codes the dynamic header describes and the header is consumed; the counts and the code length of every symbol are the bits at their places in the stream; or there is no acceptable header |
| `Inflate.Inflater.ParseBlocks` | dep/utils/stb_image.h:4489-4507 | Through any sequence of blocks: success means exactly the blocks of the stream were expanded, failure that there is no such sequence or no room |
| `Inflate.Inflater.ParseZlibHeader` | dep/utils/stb_image.h:4438-4450 | Accepts exactly the two-byte headers, not at the very end, that are a multiple of 31, name no preset dictionary and say method 8; the stream starts behind them |
| `Inflate.ZlibDecode` | dep/utils/stb_image.h:4541-4555 | For every input: what is returned is the expansion of the block sequence that the input, extended by zeros, holds, and that ends near it; and every input that holds one which ends within it and expands to at most 2^31 bytes is accepted |
| `ZTables.SameTables` | dep/utils/stb_image_write.h:901-904 | The writer's length and distance tables equal the reader's (stb_image.h lines 4295 to 4307) |
| `ZTables.LengthEntry` | dep/utils/stb_image.h:4295-4301 | The tables follow the rule of RFC 1951 section 3.2.5, so that the ranges adjoin |
| `ZTables.DistEntry` | dep/utils/stb_image.h:4303-4307 | The same for distances |
| `ZTables.LengthBucket` | dep/utils/stb_image_write.h:960 | The search loop stops at the one bucket that holds the length |
| `ZTables.DistBucket` | dep/utils/stb_image_write.h:963 | The same for distances up to 32767 |
| `ZMatcher.CountMatch` | dep/utils/stb_image_write.h:859-865 | Counts the bytes that agree, at most 258: these agree and the next ones do not |
| `ZMatcher.MatchRepeats` | dep/utils/stb_image_write.h:957-966 | A match of that length at that distance reproduces the data, even when it overlaps itself |
| `ZMatcher.FindMatch` | dep/utils/stb_image_write.h:924-933 | The match found is at least 3 bytes long, within the window, as long as any in the chain, and the last such one; or there is none |
| `ZMatcher.BetterLater` | dep/utils/stb_image_write.h:941-955 | Says exactly whether a longer match starts at the next byte |
| `ZMatcher.HashTable.Insert` | dep/utils/stb_image_write.h:934-939 | Every position in the table is before the cursor and no chain exceeds twice the quality, since a full one first loses its older half; only this chain changes |
| `ZCompress.Search` | dep/utils/stb_image_write.h:922-955 | The match chosen is the best in the chain of this hash unless a longer one starts one byte later, and the position enters the table |
| `ZCompress.Round` | dep/utils/stb_image_write.h:921-971 | The token written is the one that rule asks for; it has length 3 to 258 and distance 1 to 32767 if a match, and stands for the data from the cursor to the next |
| `ZCompress.EmitMatch` | dep/utils/stb_image_write.h:957-966 | The code and extra bits written are those of the one token with that length and distance |
| `ZCompress.WriteTokens` | dep/utils/stb_image_write.h:911-978 | The fixed-code block holds tokens that expand to exactly the data. Over the whole run each is the one the rule asks for, from the table of exactly the starts of the tokens before it, up to the last three bytes, which are literals |
| `ZMatcher.ChosenMatch` | dep/utils/stb_image_write.h:924-955 | The rule in terms of the data: a match that is chosen repeats bytes within the window, and no other position of its chain there has a longer match or, if later, one as long |
| `ZMatcher.ChosenNow` | dep/utils/stb_image_write.h:941-955 | ... and no position of the next chain has a longer one for the next byte |
| `ZMatcher.ChosenLiteral` | dep/utils/stb_image_write.h:957-970 | A literal where the chain has a match of three bytes or more means that some position of the next chain has a longer one for the next byte |
| `ZMatcher.MixValues` | dep/utils/stb_image_write.h:867-877 | Values of the hash for some bytes |
| `ZCompress.StoreBlocks` | dep/utils/stb_image_write.h:984-999 | The stored form of the data, in blocks of at most 32767 bytes, the last marked final |
| `ZCompress.Compress` | dep/utils/stb_image_write.h:895-1022 | The stream holds blocks that expand to the data and is never longer than the stored form; it starts with 78 5E and its last four bytes are, most significant first, the two sums of RFC 1950: the length plus the bytes weighted by their distance from the end, and one plus the bytes, modulo 65521 |
| `ZWriter.BitWriter.Add` | dep/utils/stb_image_write.h:839-847 | The bytes and the pending bits are the fields written so far, least significant bit first |
| `ZWriter.BitWriter.AddSymbol` | dep/utils/stb_image_write.h:883-889 | The four ranges of the macro write the fixed code of the symbol |
| `ZWriter.BitWriter.PadToByte` | dep/utils/stb_image_write.h:976-978 | Padding with zero bits stops at the next byte boundary |
| `Adler.Adler32` | dep/utils/stb_image_write.h:1001-1011 | Reducing once per block gives the two sums in closed form, one plus the bytes and the length plus the weighted bytes, modulo 65521 |
| `Adler.AdlerSums` | dep/utils/stb_image_write.h:1001-1011 | Reducing at every byte, as RFC 1950 section 2.2 defines it, gives these sums too |
| `Adler.NoOverflow` | dep/utils/stb_image_write.h:1007-1008 | Within 5552 bytes neither sum reaches 2^32 |
| `Adler.AdlerStep` | dep/utils/stb_image_write.h:1007-1008 | One unreduced step is congruent to one reduced step |
| `GifRaster.Gif.ProcessRaster` | dep/utils/stb_image.h:6691-6774 | For every byte string: the code is accepted exactly when its declarative expansion is, and the picture is the expansion painted pixel by pixel along the cursor's path |
| `GifRaster.Gif.OutGifCode` | dep/utils/stb_image.h:6654-6689 | The recursion ends, because every prefix is a smaller code, and paints the entry's phrase in order |
| `GifRaster.Gif.AddEntry` | dep/utils/stb_image.h:6749-6757 | The new entry is the old phrase and the first symbol of the current one; also when the code is the entry itself, although `code == avail` is tested after the increment and never holds |
| `GifRaster.Gif.DataCode` | dep/utils/stb_image.h:6744-6768 | A data code is accepted exactly when the state of Appendix F accepts it, and leads to its next state |
| `GifRaster.Gif.OneCode` | dep/utils/stb_image.h:6729-6771 | Clear, end and data codes step the state machine of GIF89a Appendix F |
| `GifRaster.Gif.NextByte` | dep/utils/stb_image.h:6719-6727 | Bits at hand and unread sub-blocks together remain the same stream |
| `GifRaster.Gif.NextRow` | dep/utils/stb_image.h:6677-6688 | After the last pixel of a row the cursor stands at the next row of the four-pass order |
| `GifRaster.Gif.NextPass` | dep/utils/stb_image.h:6683-6687 | The inner loop ends and skips the passes that have no rows |
| `GifRaster.Gif.Descriptor` | dep/utils/stb_image.h:6845-6888 | A frame is accepted exactly when it lies within the picture and has a table of colours, its own or the picture's; its rows are to be visited in plain or interlaced order, in the colours of that table |
| `GifRaster.Gif.ParseColourTable` | dep/utils/stb_image.h:6597-6606 | The entries read are three bytes of the stream each, red, green and blue in this order, with the transparent one marked; the others stay as they were |
| `GifPicture.DecodeFrame` | dep/utils/stb_image.h:6843-6893 | From a descriptor on, for sub-blocks that start with any LZW coding of a text, whatever they hold after it: the frame shows the colour of every index at its place, row by row in plain or interlaced order, and nothing else changes; it fails exactly when the frame is not acceptable or the clear code was deferred too long |
| `GifFormat.FramePixel` | dep/utils/stb_image.h:6843-6893 | What `DecodeFrame` shows, in the bytes of the stream: index i * w + c is at column c of the i-th row in order of a frame where the descriptor says; with a table of more than e colours in the frame, index e shows bytes 9 + 3e, 10 + 3e and 11 + 3e from the descriptor's start as red, green and blue, or nothing if it is the transparent one |
| `GifFormat.TableBytes` | dep/utils/stb_image.h:6882-6888 | All 256 colours of a frame: from its own table, beyond it those of an earlier frame, or the picture's |
| `GifRaster.Gif.AcceptableFrame` | dep/utils/stb_image.h:6850-6888 | When a frame is acceptable, in the bytes of its descriptor |
| `GifFormat.RowAt` | dep/utils/stb_image.h:6677-6688 | Which row comes i-th, in closed form: the four passes of GIF89a Appendix E |
| `GifFormat.SubBlock` | dep/utils/stb_image.h:6719-6727 | A sub-block is its length and that many bytes; a length of 0 ends the data |
| `GifFormat.FirstCodes` | dep/utils/stb_image.h:6700-6715 | The roots, and the width of the first code |
| `GifFormat.ControlCode` | dep/utils/stb_image.h:6729-6743 | The code 2^n for code size n starts over, the one after it ends the data |
| `GifFormat.PhraseCode` | dep/utils/stb_image.h:6744-6771 | Any other code: which phrase it stands for, the one about to be defined included, what is remembered, and which codes are errors |
| `GifFormat.Widening` | dep/utils/stb_image.h:6763-6766 | Codes get a bit wider exactly when the table is full for their width, up to twelve bits |
| `GifRaster.Gif.Plot` | dep/utils/stb_image.h:6664-6688 | One pixel goes to the cursor's place unless it is transparent, and the cursor moves on |
| `GifRaster.TakeCode` | dep/utils/stb_image.h:6728-6771 | One step of the decoder is one step of the declarative expansion |
| `GifLzw.PhraseRead` | dep/utils/stb_image.h:6744-6768 | At every moment the decoder knows the code an encoder is about to use, the newest one included |
| `GifLzw.EncodedExpands` | dep/utils/stb_image.h:6718-6773 | From any reachable pair of states, the decoder recovers the encoder's text or runs into its table limit |
| `GifLzw.DecodeEncoded` | dep/utils/stb_image.h:6691-6774 | Any LZW coding of a text, by whatever choice of phrases and clears, decodes to the text if and only if no run between clears exceeds the 8192 entries; otherwise decoding fails |
| `GifLzw.LimitReached` | dep/utils/stb_image.h:6750-6753 | For every code size there are such codings that are not decoded: a long text of one symbol, sent one root at a time without a clear code |
| `GifLzw.GrowFits` | dep/utils/stb_image.h:6763-6766 | The code width is at every step the one the encoder uses |
| `GifCanvas.RowsOnce` | dep/utils/stb_image.h:6677-6688 | The interlaced order of GIF89a Appendix E has every row once, four passes in turn |
| `GifCanvas.RowOrderDistinct` | dep/utils/stb_image.h:6677-6688 | No row comes twice, all are within the frame |
| `GifCanvas.CursorMoves` | dep/utils/stb_image.h:6664-6688 | After any number of pixels the cursor is where that many steps of the order lead |
| `GifCanvas.PixelAt` | dep/utils/stb_image.h:6664-6676 | Pixel n of the stream goes to column n mod width of row n / width in the order, and nothing else touches that place |
| `GifCanvas.PixelElsewhere` | dep/utils/stb_image.h:6664-6676 | Outside the frame nothing changes |
| `PngRoundTrip.RoundTrip` | dep/utils/stb_image_write.h:1128-1178 | Filtering, compressing, inflating and defiltering give back every row, for every choice of filters and every compression level |
| `PngImage.FilterRoundTrip` | dep/utils/stb_image_write.h:1146-1176 | Defiltering what the writer filtered gives back every row |
| `PngFilter.PaethAgree` | dep/utils/stb_image.h:4657-4668 | The branch-free predictor equals the writer's for all integers; it is the one of the three nearest to a + b - c, and of several the left one before the upper one (PNG section 9.4) |
| `PngFilter.FilterUnique` | dep/utils/stb_image.h:4755-4785 | A filtered line, its type and the line above determine the line |
| `PngFilter.FilteredImageUnique` | dep/utils/stb_image.h:4737-4787 | The filter data determine the image |
| `PngFilter.EncodePngLine` | dep/utils/stb_image_write.h:1092-1126 | The line is that of the standard for its type, although the first row uses another map |
| `PngImage.ChooseLine` | dep/utils/stb_image_write.h:1150-1173 | The type is the one forced, or the first whose line has the least sum of magnitudes |
| `PngImage.FilterImage` | dep/utils/stb_image_write.h:1146-1176 | The data to be compressed are the filtered image of PNG section 9 |
| `PngImage.RestoreByte` | dep/utils/stb_image.h:4755-4785 | Each case of the reader undoes the standard's filter for one byte, the special codes of the first row included |
| `PngImage.DefilterRow` | dep/utils/stb_image.h:4754-4785 | The workspace line becomes the one whose filtered line this is |
| `PngImage.CreateImageRaw` | dep/utils/stb_image.h:4696-4810 | Succeeds exactly when there is data for every row and every type is known, and then the output is the image whose filter data these are |
| `PngFormat.ImageByte` | dep/utils/stb_image.h:4737-4787 | What that image is, byte by byte: each byte is that of the data plus 0, the byte to its left, the one above, the mean of both rounded down or the Paeth predictor, by the type byte of its row |
| `PngFormat.FilteredByte` | dep/utils/stb_image_write.h:1092-1126 | What the writer's line is, byte by byte |
| `PngFormat.TypesKnown` | dep/utils/stb_image.h:4743-4749 | Success means a line for every row, with a type of at most 4 |
| `PngFormat.TypeUnknown` | dep/utils/stb_image.h:4743-4749 | Failure with enough data means a row with a type above 4 |
| `PngFormat.WrittenRow` | dep/utils/stb_image_write.h:1099-1100 | Row j of the filter data is row j of the picture, counted from its other end when flipped |
| `PngFormat.CostGrows` | dep/utils/stb_image_write.h:1156-1160 | The estimate is the sum of the bytes taken as signed ones, without their signs |
| `Adam7.PassUnique` | dep/utils/stb_image.h:4873-4895 | Every pixel lies on the grid of exactly one pass, at one place of it |
| `Adam7.InPass` | dep/utils/stb_image.h:4880-4881 | The rounded-up sizes are exact: a pixel is in its pass exactly when it is in the image |
| `Adam7.SizesSum` | dep/utils/stb_image.h:4880-4881 | The seven passes together have width times height pixels |
| `Adam7.Deinterlace` | dep/utils/stb_image.h:4873-4900 | Every place is written, counted, and within bounds |
| `Adam7.EveryPixel` | dep/utils/stb_image.h:4888-4895 | Every pixel of the image has been written exactly once, with its pixel of its pass |
| `PngInterlaced.CreateInterlaced` | dep/utils/stb_image.h:4861-4903 | An interlaced image succeeds exactly when every pass that has pixels has data for all its rows, of known filter types; then every pixel is the one of its pass, whose filter data are at that pass's offset |
| `PngFormat.InterlacedPixel` | dep/utils/stb_image.h:4888-4895 | From which column and row of which pass every pixel comes |
| `PngFormat.PassRule` | dep/utils/stb_image.h:4874-4877 | Which pixels each of the seven passes has, by their coordinates modulo 8 (PNG section 8.2) |
| `PngFormat.PassSizeRule` | dep/utils/stb_image.h:4880-4881 | How many columns and rows each pass has |
| `PngFormat.PassData` | dep/utils/stb_image.h:4882-4898 | The data of a pass follow those of the pass before; a pass without pixels has none |
| `PngInterlaced.PassUnambiguous` | dep/utils/stb_image.h:4882-4887 | The filter data of a pass determine its pixels |
| `JpegScan.RoundTrip` | dep/utils/stb_image_write.h:1522-1597 | A whole scan of three interleaved components, subsampled or not, written with two pairs of tables and read with the matching ones, is read if and only if the decoder accepts every DC coefficient, and then every coefficient of every component times its quantiser is restored at its place; each component has its own DC prediction |
| `JpegTables.RoundTrip` | dep/utils/stb_image_write.h:1399-1462 | The same with the tables the writer has built in, without any condition on tables |
| `JpegTables.LumaAcMatches` | dep/utils/stb_image_write.h:1402-1444 | The luminance AC codes are the canonical code of the counts and values the writer puts in the file, for all 162 symbols |
| `JpegTables.ChromaAcMatches` | dep/utils/stb_image_write.h:1414-1462 | The same for the chrominance AC codes |
| `JpegTables.LumaDcMatches` | dep/utils/stb_image_write.h:1400-1425 | The same for the luminance DC codes |
| `JpegTables.ChromaDcMatches` | dep/utils/stb_image_write.h:1412-1426 | The same for the chrominance DC codes |
| `JpegHuffman.Huffman.Build` | dep/utils/stb_image.h:2003-2046 | Succeeds exactly for counts of at most 256 codes that fit their lengths, and then the tables hold the code of ITU-T T.81 Annex C |
| `JpegHuffman.StartsUnique` | dep/utils/stb_image.h:2016-2030 | The code is prefix-free: a stream starts with at most one symbol |
| `JpegFormat.CodesInOrder` | dep/utils/stb_image.h:2016-2030 | The codes are those of ITU-T T.81 figure C.2: the first is all zeros, each is the one before it plus one, with zeros at its end if it is longer |
| `JpegHuffman.FastLookup` | dep/utils/stb_image.h:2104-2115 | An entry names the symbol a stream starts with; if there is none, no code of up to nine bits starts there but that of symbol 255, whose index is the `not accelerated` flag |
| `JpegLookup.CanonicalIff` | dep/utils/stb_image.h:2097-2146 | Fast table and search are the decoder of ITU-T T.81 Annex C, for every stream, exactly when not all of 256 symbols have codes of at most nine bits |
| `JpegLookup.RightUnlessMissed` | dep/utils/stb_image.h:2097-2146 | For every accepted table and every stream: they are wrong exactly on the streams that start with the short code of symbol 255 |
| `JpegLookup.LookupWrong` | dep/utils/stb_image.h:2117-2139 | On these the search ends at ten bits at once and gives one of the last four indices, so that another symbol is returned or ten bits are dropped for a shorter code |
| `JpegLookup.LookupMissesOne` | dep/utils/stb_image.h:2097-2146 | Such a table and stream: 255 symbols of eight bits and one of nine, whose code followed by zeros is read as ten bits of the symbol before |
| `JpegLookup.LookupInTable` | dep/utils/stb_image.h:2137-2139 | The index is within the table for every accepted table and every stream, so the check for it never fails |
| `JpegHuffman.SymbolOfWord` | dep/utils/stb_image.h:2123-2140 | Between two limits the slow path's index is a symbol whose code the word starts with |
| `JpegReader.JpegStream.HuffDecode` | dep/utils/stb_image.h:2097-2146 | For every accepted table: the symbol returned and the bits dropped are those the tables lead to, an error means that there is none or its bits may be missing; on a stream that is not missed this is the canonical decoder |
| `JpegReader.LookedMissed` | dep/utils/stb_image.h:2097-2146 | On a stream that is missed, decoding fails or drops ten bits for a code of at most nine |
| `JpegReader.JpegStream.TakeSlow` | dep/utils/stb_image.h:2133-2145 | Past the search, the symbol is the one found by its limits, within the table |
| `JpegReader.JpegStream.Grow` | dep/utils/stb_image.h:2075-2091 | Growing the buffer keeps the unread bits: stuffed zeros and fill bytes taken out, zeros after a marker |
| `JpegReader.JpegStream.ExtendReceive` | dep/utils/stb_image.h:2153-2166 | The value of the next n bits, extended; or zero when they have run out |
| `JpegFastAc.BuildFastAc` | dep/utils/stb_image.h:2050-2073 | Every entry combines run, value and length as the table of codes says |
| `JpegFastAc.FastAcAgrees` | dep/utils/stb_image.h:2050-2073 | A nonzero entry gives the same run, value and number of bits as decoding the symbol and then its magnitude |
| `JpegBlock.ExtendMagnitude` | dep/utils/stb_image.h:2148-2166 | Extending the bits the writer makes of a value gives the value |
| `JpegBlock.ZigzagInverse` | dep/utils/stb_image_write.h:1250-1251 | The writer's zigzag and the reader's table (stb_image.h lines 2194 to 2207) are inverse |
| `JpegFormat.ZigzagWalk` | dep/utils/stb_image.h:2194-2207 | The table is the walk of ITU-T T.81 figure 5: from the corner along the diagonals, up the even ones and down the odd ones |
| `JpegFormat.BlockPlaces` | dep/utils/stb_image.h:2255-2258 | What a restored block is: coefficient k of the walk times the quantiser of its place, there, as a 16-bit number |
| `JpegFormat.CategoryRule` | dep/utils/stb_image_write.h:1318-1326 | The categories and bits of table F.1, for all integers |
| `JpegFormat.ExtendRule` | dep/utils/stb_image.h:2148-2166 | Extending n bits gives the value of category n with these bits |
| `JpegFormat.ShortRule` | dep/utils/stb_image.h:2258 | The conversion to short keeps the number modulo 65536 |
| `JpegFormat.RunCoded` | dep/utils/stb_image_write.h:1374-1391 | A run of r zeros and a coefficient of category s: the symbol 16r + s and the bits of the coefficient |
| `JpegFormat.ZerosCoded` | dep/utils/stb_image_write.h:1381-1387 | Sixteen zeros that are not the last: the symbol F0 |
| `JpegFormat.EndCoded` | dep/utils/stb_image_write.h:1392-1394 | Zeros up to the end: the symbol 00, unless none are left |
| `JpegFormat.BlockCoded` | dep/utils/stb_image_write.h:1355-1395 | A block is the category of its DC difference, the bits of that and the AC coefficients |
| `JpegFormat.DcRule` | dep/utils/stb_image.h:2216-2222 | What a symbol says of the DC difference: its category, an error above 15 |
| `JpegFormat.AcRule` | dep/utils/stb_image.h:2247-2259 | What a symbol of two nibbles does among the AC coefficients: skip, end, or place a value |
| `JpegDecode.AddintsExact` | dep/utils/stb_image.h:1070-1075 | The check accepts exactly the sums that are 32-bit integers |
| `JpegDecode.Mul2shortsExact` | dep/utils/stb_image.h:1078-1084 | With C's truncating division, the check accepts exactly the products that are 16-bit integers if the second factor is not negative, as quantisers are; and the condition under which it is right for negative ones |
| `JpegDecode.Mul2shortsWrong` | dep/utils/stb_image.h:1078-1084 | It is not for all: two negative factors are compared the wrong way round |
| `JpegDecode.FastStep` | dep/utils/stb_image.h:2237-2245 | On every stream, a nonzero entry of the combined table is the step that decoding a symbol and then its magnitude makes: run, coefficient and bits |
| `JpegCoded.RunStep` | dep/utils/stb_image.h:2254-2259 | A run and a coefficient bring the decoder to the next position of the coded block |
| `JpegCoded.AcsArrive` | dep/utils/stb_image.h:2231-2261 | The symbols that the writer makes of AC coefficients mean these coefficients |
| `JpegCoded.BlockArrives` | dep/utils/stb_image.h:2210-2263 | The bits the writer makes of a block mean the block, with exactly its bits, if its DC coefficient fits, and otherwise an error |
| `JpegMeaning.FoundIs` | dep/utils/stb_image.h:2097-2146 | A symbol the stream starts with is the one the tables lead to, if they can find it |
| `JpegDecode.DecodeCoefficient` | dep/utils/stb_image.h:2231-2261 | On every stream one turn of the loop takes the step that the next symbol says, by either table, if its bits are sure to be there, and fails if there is no symbol |
| `JpegDecode.DecodeDiff` | dep/utils/stb_image.h:2215-2222 | On every stream the DC difference is what the symbol and its magnitude bits say, if they are sure to be there; a symbol above 15 is an error |
| `JpegDecode.DecodeBlock` | dep/utils/stb_image.h:2210-2263 | For every accepted pair of tables and every stream: the block, the prediction and the rest of the stream are what the symbols mean one after the other, as far as their bits are sure; a wrong symbol or a DC coefficient that does not fit is an error; the indices stay in bounds |
| `JpegWriter.BitWriter.WriteBits` | dep/utils/stb_image_write.h:1253-1268 | The bytes with the stuffing taken out, and the pending bits, are the fields written so far, most significant bit first |
| `JpegWriter.CalcBits` | dep/utils/stb_image_write.h:1318-1326 | Size category and bits of a value (T.81 section F.1.2.1); for zero, which no caller passes, the size is one |
| `JpegWriter.BitWriter.ProcessDU` | dep/utils/stb_image_write.h:1355-1395 | A block is written as its DC difference, its runs and coefficients, sixteen-zero codes and end of block |
| `JpegWriter.BitWriter.WriteZeros` | dep/utils/stb_image_write.h:1380-1387 | As many sixteen-zero codes as there are, and fewer than sixteen zeros left |
| `JpegWriter.UnstuffStuffed` | dep/utils/stb_image.h:2078-2089 | The reader takes out exactly the zeros the writer stuffed |
| `JpegFormat.ByteOfMsb` | dep/utils/stb_image.h:2075-2091 | The bits of a byte come most significant first |
| `JpegScan.WriteScan` | dep/utils/stb_image_write.h:1522-1597 | The entropy-coded data of a scan are the fields of its units in macroblock order, each predicted from the block of its component before, stuffed, and end in a marker |
| `JpegScan.WriteSubsampled` | dep/utils/stb_image_write.h:1550-1567 | A macroblock of four luminance blocks and one of either chrominance, with the tables and predictions of each |
| `JpegScan.WritePlain` | dep/utils/stb_image_write.h:1589-1591 | The same for one block of each component |
| `JpegFormat.UnitOrder` | dep/utils/stb_image_write.h:1550-1591 | Which component each block of a macroblock belongs to |
| `JpegFormat.PredictionIs` | dep/utils/stb_image_write.h:1355-1356 | The prediction is the DC coefficient of the last block of the component, 0 for the first |
| `JpegScan.WriterOrder` | dep/utils/stb_image.h:2982-2998 | The reader's nested loops over components and sampling factors visit the units in the order in which the writer makes them |
| `JpegScan.ReadScan` | dep/utils/stb_image.h:2979-3008 | Reading such data gives the blocks, for any number of components with any sampling factors, tables and quantisers, or some DC coefficient does not fit |
| `JpegScan.ReadSingle` | dep/utils/stb_image.h:2953-2978 | The same for a scan of one component, row by row |
| `Crc32.Crc` | dep/utils/stb_image_write.h:1065-1069 | The table-driven loop is the complement of dividing the message bit by bit by the CRC polynomial (PNG section 5.5) |
| `Crc32.TableIs` | dep/utils/stb_image_write.h:1029-1063 | Each of the 256 table entries is eight shift steps of its index |
| `Crc32.RowXor` | dep/utils/stb_image_write.h:1029-1063 | The table is linear: an entry is the exclusive or of the first of its row and the first row's of its column |
| `Crc32.StepXor` | dep/utils/stb_image_write.h:1067-1068 | A shift step is linear over exclusive or |
| `Crc32.ByteStep` | dep/utils/stb_image_write.h:1067-1068 | Eight steps of a register are a byte shift and the table entry of its low byte |
| `Crc32.NextDivides` | dep/utils/stb_image_write.h:1067-1068 | One turn of the loop divides by eight bits of the message |
| `Crc32.StepRule` | dep/utils/stb_image_write.h:1029-1063 | A step shifts right and takes away the polynomial EDB88320 if a one leaves |
| `Crc32.BitByBit` | dep/utils/stb_image_write.h:1065-1069 | What is divided: a byte enters at the low end and eight steps follow |
| `Crc32.EndOfFile` | dep/utils/stb_image_write.h:1065-1069 | The checksum of the bytes of `IEND` is AE426082 |
| `TgaRle.RoundTrip` | dep/utils/stb_image_write.h:532-609 | Reading the packets, inverting the rows and swapping the colours gives the image that was written, upside down if the writer was told to flip |
| `TgaRle.FindPacket` | dep/utils/stb_image_write.h:551-580 | The kind and length of the next packet, both determined: a run goes on as long as pixels are equal, a literal as long as pixels two apart differ, up to 128 |
| `TgaRle.WriteRow` | dep/utils/stb_image_write.h:550-594 | A row's packets have at most 128 pixels, stay within the row and hold exactly its pixels |
| `TgaRle.WriteImage` | dep/utils/stb_image_write.h:541-596 | The rows follow one another in the order asked for |
| `TgaRle.WrittenPixel` | dep/utils/stb_image_write.h:550-560 | Which pixel of the image comes where: the rows from the bottom up, or from the top down when flipped |
| `TgaRle.SwappedBytes` | dep/utils/stb_image_write.h:597-601 | Red, green and blue are stored as blue, green and red; one or two components stay as they are |
| `TgaRle.Reader.ReadPixels` | dep/utils/stb_image.h:5970-6017 | For packets by any encoder the pixels read are theirs, in order; for any other bytes some pixels |
| `TgaRle.NextPacket` | dep/utils/stb_image.h:5975-5982 | The command byte gives the packet's length and kind |
| `TgaRle.PixelFirst` | dep/utils/stb_image.h:5993-6013 | Between packets and within, the pixel taken is the next one |
| `TgaRle.Invert` | dep/utils/stb_image.h:6019-6036 | The swaps in place turn the rows upside down, the middle row with itself included |
| `TgaRle.SwapColours` | dep/utils/stb_image.h:6045-6056 | First and third component change places from three components on |
| `TgaRle.ReadImage` | dep/utils/stb_image.h:5969-6061 | The picture is the packets' pixels, bottom or top row first as the header says, with the colours put right |
| `HdrRle.RoundTrip` | dep/utils/stb_image_write.h:672-759 | A scanline of four planes is read back without reaching an error: byte i of plane c is component c of pixel i |
| `HdrRle.WritePlane` | dep/utils/stb_image_write.h:725-756 | The packets have dumps of at most 128 and runs of at most 127 bytes and hold exactly the plane |
| `HdrRle.FindRun` | dep/utils/stb_image_write.h:727-735 | The first place where three equal bytes begin, or the end |
| `HdrRle.WriteRun` | dep/utils/stb_image_write.h:656-662 | The assertion on the length always holds |
| `HdrRle.WriteDump` | dep/utils/stb_image_write.h:664-670 | The assertion on the length always holds |
| `HdrRle.Reader.ReadPacket` | dep/utils/stb_image.h:7260-7277 | Succeeds exactly when the count byte asks for at least one and at most the bytes left of the row; then the packet goes to its component of its pixels, and nothing else changes |
| `HdrRle.Reader.ReadPlane` | dep/utils/stb_image.h:7259-7278 | Packets by any encoder that add up to the width restore the plane without error |
| `HdrRle.Reader.ReadScanline` | dep/utils/stb_image.h:7230-7278 | Header and four planes in turn |
| `Base64.RoundTrip` | dep/utils/Base64.cpp:171-201 | Decoding the text of any bytes, with or without line breaks, gives the bytes |
| `Base64.Encode` | dep/utils/Base64.cpp:99-132 | The text is that of RFC 4648 section 4, with a line feed before every 77th letter when asked for |
| `Base64.Alphabet` | dep/utils/Base64.cpp:37-51 | The alphabet of RFC 4648 table 1, both ways, and the padding |
| `Base64.GroupRule` | dep/utils/Base64.cpp:110-128 | The four letters of one, two or three bytes: their bits, six at a time, and padding |
| `Base64.TextRule` | dep/utils/Base64.cpp:105-131 | The text is the first group, behind a line feed if a positive multiple of 76 letters has been written, and the text of the rest |
| `Base64.Decode` | dep/utils/Base64.cpp:171-201 | The bytes of the groups, line breaks skipped; the last group may lack a letter |
| `Base64.BytesRule` | dep/utils/Base64.cpp:183-197 | The bytes of any four letters, padding or not |
| `Base64.DecodeTo` | dep/utils/Base64.cpp:204-247 | The other decoder stores and counts the same bytes, touches nothing else of the buffer, and only counts when there is none |
| `Base64.DecodeBoth` | dep/utils/Base64.cpp:99-247 | Both decoders restore what was encoded |
| `Base64.LengthWithoutBreaks` | dep/utils/Base64.cpp:250-260 | Without line breaks the computed length is the decoded length |
| `Base64.LengthWithBreaks` | dep/utils/Base64.cpp:250-260 | With line breaks it is right exactly for data of up to 57 bytes, which fit one line |
| `Base64.TextShape` | dep/utils/Base64.cpp:105-131 | Four letters for every three bytes begun, the breaks, and the padding of the last group |
| `Base64.GroupBytes` | dep/utils/Base64.cpp:110-128 | Shifts and masks of a group of one, two or three bytes are undone by those of the decoder |
| `Base64.SignedCharsAgree` | dep/utils/Base64.cpp:110-128 | The masks give the same letters whether `char` is signed or not |

## Left out

Not modelled:

- Allocation failure, failure strings, stdio and callback plumbing; buffers are sequences or arrays, the byte source is a sequence.
- Overflow of `int` sizes and offsets near 2^31: the round trips bound the data so that the length of the stored form, which the compressor computes with `int`, is one; that its buffer may grow past that before it is compared is not modelled. The limits of `stbi__zexpand` are modelled.
- The bitwise or that adds bits to a buffer is modelled as a sum, which it is, since the bits below are free (`Valid` of each buffer says so).
- Constant tables are functions by cases, local C arrays of the table builders are sequences or arrays of exactly the indices used.
- `stbi__zbuf` is split into its bit reader and its output buffer, which `Inflater` joins.
- Decoding into a fixed buffer and without a header are covered by `Inflater` with its flags, their four wrappers are not written out; an initial size of zero is excluded, since the code may then not end.
- PNG: chunks, CRC framing of chunks, palettes, depths other than 8, alpha expansion, the iPhone variant. `PngInterlaced` defilters all passes before it places the first; the code alternates.
- JPEG: DCT and quantisation (floating point), inverse DCT, colour conversion, markers and headers, progressive scans, restart intervals, where in a component's plane a block goes. The rows and columns of macroblocks are one count. A coefficient outside the size categories of the tables is excluded, as in baseline JPEG.
- GIF: the file header, the graphic control extension (its flags and transparent index are given), animation and disposal. A colour table is a value, so that frames share no memory; its entries are kept as they are painted, red first, where the code keeps them blue first and turns them round when it paints.
- TGA: header, palette, 16-bit pixels, the path without run-length coding; a pixel is one value of one to four bytes, so moving its bytes one at a time is not modelled.
- HDR: conversion between float and RGBE, header, the flat path for narrow or wide images (the reader says `Flat` and stops).
- BMP, PSD, PIC and PNM loaders, format tests and `info` functions: format plumbing that would add only easy members.
- `Base64::encode` from a file: the same loop behind `fread`. Texts with letters outside ASCII, or whose last group has one or two letters, on which the decoders read outside their table or text.
- The headers under `src/`, the scripts and tools under `utils/` and `sql/`: constants, I/O and database access.

Weaker than one might expect:

- Inflate.Inflater.ParseBlocks: does not say which of the streams are accepted that end past the input, in the zeros the reader adds; this depends on how full the reservoir was when the input ended.
- Inflate.ZlibDecode: leaves the same open, but for how far they reach. The trailer's checksum is not looked at, as in the code.
- Inflate.Inflater.ParseHuffmanBlock: says nothing of the output when it fails, since the code discards it.
- GifLzw.DecodeEncoded: is for code sizes 1 to 11, more than the 2 to 8 that GIF allows; with 0 the end code does not fit the initial width, and with 12 the initial width exceeds the twelve bits of GIF89a Appendix F. The decoder's own contract covers 0 to 12.
- JpegReader.JpegStream.HuffDecode: does not describe the buffer after a failure, after which the code stops.
- JpegDecode.DecodeBlock: says nothing from the first symbol on whose bits are not sure to come before the marker, where the code may take zeros or stop.
- JpegScan.ReadScan: has no restart markers, as the writer makes none.
- JpegScan.ReadSingle: has no restart markers either.
- TgaRle.WriteRow: does not say that the packets are few, only `TgaRle.FindPacket` determines each.
- HdrRle.WritePlane: does not say that the packets are few.
- LZ77.OutputBuffer.Expand: does not model a failing `realloc`.
- PngImage.CreateImageRaw: is for samples of eight bits and no alpha channel to add.
- TgaRle.Reader.ReadPixels: is for pixels stored as they are, not for palette indices and 16-bit pixels.
