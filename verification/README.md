# Verified models of AthenX's decoders and small libraries

A Dafny model of the code in AthenX 3.0 that turns untrusted bytes into data: the zlib,
GIF, PNG and JPEG decoders of `include/stb_images.h`, the intrusive list of
`include/fat_list.h`, the Internet checksum of `drivers/net/utils.c` and the formatter of
`libc/printf.c`.  `dafny verify dfyconfig.toml` checks all of it.

## What is modelled

Each decoder comes in three parts: a specification that knows nothing of the decoder's tables
and buffers, the decoder itself as classes, arrays and loops, proved against it, and an encoder
written after the standard.  Whatever the encoder writes, the decoder reads back.

* **zlib.** `CanonicalCode` gives Huffman codes from code lengths; `InflateSpec` says which
  tokens, blocks and streams the zero-extended input spells and what they mean;
  `ZHuffman` and `Inflate` are the tables, the prefetching bit reader, the growing output
  buffer and the block parsers.  `InflateAhead` gives what the reader has fetched as a
  function of the stream.  A call succeeds if and only if the input spells a stream whose
  output fits the buffer and along which the reader never runs out of input to look ahead
  into, and then the output is the meaning of that stream, the only one spelled.  `DeflateHeader`
  and `DeflateWriter` write every kind of block, with the order of the code-length symbols, the
  symbols of lengths and distances and the fixed codes computed by formulas.
* **GIF.** `GifSpec` is LZW over strings, the sub-block payload and the interlaced row order;
  `Gif` is the linked code table, the bit loop and the drawing cursor; `GifStandard` compares
  the raster decoder with the GIF89a specification; `GifWriter` is any LZW encoder, and `GifImage`
  whole frames with their colour table and background.
* **PNG.** `PngFilter` is filtering and its inverse; `PngRow`, `PngExpand` and `PngImage` are
  the in-place loops for filtering, unpacking and alpha; `Adam7` and `PngInterlace` are
  de-interlacing, `PngPack` and `PngCut` its inverse; `PngPixels` states the law of reconstruction
  pixel by pixel; `PngIdat` is the accumulation of IDAT chunks.
* **JPEG.** `JpegSpec` is the entropy-coded segment read bit by bit and the AC tokens of a
  block; `JpegHuffman` and `Jpeg` are the tables, the combined AC lookup, the bit buffer over
  stuffed bytes and the AC loop with both of its paths; `JpegWriter` codes blocks from their
  coefficients.
* **List, checksum, printf.** `FatList` is the pointer structure against sequences of nodes;
  `Checksum` is the 32-bit computation against RFC 1071; `PrintfSpec` is the text a format
  stands for, `PrintfDirective`, `PrintfConversion`, `PrintfNumerals`, `PrintfAlternate` and
  `PrintfLength` how it compares with ISO C11, and `Printf` the bounded writer with its 32-bit index.
  The C library is built by `i686-elf-gcc -m32` (`libc/makefile:1-2`): `int`, `long`, `size_t`,
  `ptrdiff_t` and pointers have 32 bits, and `long long` and `intmax_t` 64.

`InflateLimits`, `InflateSymbols`, `JpegLimits` and `PrintfOverflow` hold inputs on which the code
departs from what it implements.
Shifts and masks are integer functions (`Bits`), with `|` written as `+` where the operands
share no bits; `BitWriter` turns numbers into bits and bits into bytes.  Tables of fixed size that are only read after construction are sequence-valued
fields; output images, code tables and buffers that are updated in place are arrays.
Allocation limits, file contents and variadic arguments are parameters.

## What the proofs found

* `include/stb_images.h:4250-4252`, `4281-4282` and `4458`: these guards are unreachable.
* `include/stb_images.h:4318-4326`: an expandable buffer of capacity zero would double forever
  (`Inflate.DoublingReaches`); the model asks for a positive capacity there.
* `include/stb_images.h:4291-4295`: fewer than sixteen buffered bits at the end of the data are
  taken for the end of the stream, even if the next code is among them.  The raw stream
  4b 4c 02 00 is complete and means "ab", and is refused (`InflateLimits.RawRefused`).  Sixteen
  bits of input after a stream, such as a zlib trailer, always prevent this
  (`InflateAhead.AmpleStream`); the exact condition is in `Inflate.Decompress`.
* `include/stb_images.h:4403-4406`: dynamic headers that list 287 or 288 literal and length symbols
  are taken, although section 3.2.7 of RFC 1951 ends at 286.  The streams decoded against the
  standard are exactly those with such a header (`InflateSymbols.ReadersAgree`); every block that is
  written with one is decoded (`InflateSymbols.LongBlockTaken`), and there are some
  (`InflateSymbols.LongStreamTaken`).  Symbols 286 and 287 are rejected when used.
* `include/stb_images.h:6837`: the GIF dictionary goes on growing to 8192 entries where the
  format stops at 4096 and keeps a full dictionary, and a raster that makes more strings
  between clear codes is refused.  On rasters of code sizes 2 to 11 this is the only difference
  (`GifStandard.AgreesUnlessFull`); a legal raster that meets it is in
  `GifStandard.ZeroRasterRefused`, and the encoders that meet it are those of
  `GifWriter.AnyEncoder`.  Code size 12, which the format does not have, is taken as well
  (`include/stb_images.h:6786`, `GifStandard.TwelveTaken`).
* `include/stb_images.h:6989-6990`: the background is copied from the palette as it stands in memory,
  where entries are in blue-green-red order, and is right only if its red and blue are equal
  (`GifImage.BackgroundColour`).  Background index zero is never filled in
  (`GifImage.FillBackground`).
* `include/stb_images.h:6831-6833`: a raster without an initial clear code is refused.  Appendix F of
  GIF89a only tells encoders to send one; a decoder that does without it differs on exactly the
  rasters named by `GifStandard.ClearFirst`.
* `include/stb_images.h:6843`: the test for the code being defined compares with the index after
  its increment and never holds; the other branch reads the entry just written, so the result
  is right all the same (`Gif.Decoder.AddCode`).
* `include/stb_images.h:2063-2075`: with 256 symbols of which the last has at most nine bits, that
  symbol's lookup entry equals the not-accelerated flag and ten bits are taken for it
  (`Jpeg.Decoder.HuffDecode`).  No other table is affected (`Jpeg.UsableIff`); 255 codes of
  eight bits and one of nine make such a table (`JpegLimits.FullTableUnusable`).
* `libc/printf.c:583`: the index has 32 bits, and the result is an `int`.  The length returned is that of
  the text if and only if it is below 2^31; from 2^32 characters on the text writes over its own start
  in the buffer (`Printf.Vsnprintf`, with the format `%4294967295cAB` in
  `PrintfOverflow.OverflowExample`).
* `libc/printf.c:191-198` and `651-655`: widths and precisions are cut to 32 bits, and a negative `*`
  precision counts as zero, where ISO C11 takes it as omitted; otherwise directives are read as the
  standard says (`PrintfDirective.ReadingIff`).  `%.*s` with -1 prints nothing.
* `libc/printf.c:233-243`: with `-` a precision adds no zeros, and the 32-character buffer cuts
  off precisions and zero-padded widths above 32 and a sign that does not fit.  The exact
  condition is `PrintfNumerals.StandardIff`, and for whole conversions
  `PrintfConversion.IntegerIff`; `%-.3d` and `%.33d` of 5 are examples.
* `libc/printf.c:246-252`: `#` can take back significant digits, exactly when
  `PrintfAlternate.HashKeepsValue` says so; `PrintfAlternate.AlternateIff` and
  `PrintfAlternate.AlternateZeroIff` say when the text with `#` is the standard one.
* `libc/printf.c:88`: `long long` support is disabled, so integer conversions with `ll` or `j`
  print nothing and leave their argument to the next conversion (`PrintfLength.SkippedIff`).

## Model

| member | source | states |
|---|---|---|
| `Bits.BitReverse16Correct` | include/stb_images.h:4153-4160 | for every 16-bit word the four masked exchanges of stbi__bitreverse16 compute the bit-by-bit reversal |
| `Bits.BitReverseCorrect` | include/stb_images.h:4162-4168 | stbi__bit_reverse of an n-bit code is its n bits in the opposite order |
| `Bits.FullReverse` | include/stb_images.h:4274 | reversing a whole code buffer depends on its low 16 bits only |
| `Bits.ExchangeBit` | include/stb_images.h:4155-4158 | each exchange step moves every bit to its partner position and drops bits from 16 on |
| `Bits.RevInvolution` | include/stb_images.h:4162-4168 | reversing the low n bits twice gives them back |
| `Bits.RevField` | include/stb_images.h:4273-4274 | reversing buffered stream bits turns the packing order of data elements into that of Huffman codes (section 3.1.1 of RFC 1951) |
| `Bits.FieldSplit` | include/stb_images.h:4247-4257 | consecutive bit fields of the stream concatenate: what prefetching appends |
| `Bits.FieldTakeDrop` | include/stb_images.h:4259-4267 | taking and dropping low bits of the buffer is reading from, and moving on in, the stream |
| `Bits.ByteAt` | include/stb_images.h:4242-4245 | eight aligned bits are the next byte, or zero past the end of the input |
| `CanonicalCode.FitsIffNotOversubscribed` | include/stb_images.h:4184-4195 | the Kraft sum fits the code space if and only if no length hands out more codes than it has |
| `CanonicalCode.PrefixFree` | include/stb_images.h:4170-4215 | the canonical code of one symbol is never a prefix of another symbol's code |
| `CanonicalCode.SpellsUnique` | include/stb_images.h:4288-4305 | a bit stream spells at most one symbol at a position |
| `CanonicalCode.NamesUnique` | include/stb_images.h:4269-4286 | sixteen bits start with the code of at most one symbol |
| `CanonicalCode.SlotUnique` | include/stb_images.h:4197-4203 | different coded symbols occupy different places of the sorted symbol list |
| `CanonicalCode.SlotBound` | include/stb_images.h:4197-4203 | the place of every coded symbol lies inside the list |
| `CanonicalCode.FirstAtLimit` | include/stb_images.h:4184-4195 | the pre-shifted limits never decrease, and each is the first code of the next length |
| `CanonicalCode.AboveLimit` | include/stb_images.h:4275-4277 | a window at or above the limit of a length starts with no code of that length |
| `CanonicalCode.BelowLimit` | include/stb_images.h:4275-4282 | below the first limit not yet ruled out exactly one symbol starts the window, and the offset arithmetic finds its place |
| `BitWriter.FieldRead` | include/stb_images.h:4259-4267 | a number written least significant bit first is the field read at its place |
| `BitWriter.CodeRead` | include/stb_images.h:4273-4274 | a code written most significant bit first is the code read at its place |
| `ZHuffman.Table.Build` | include/stb_images.h:4170-4215 | the table is built if and only if the lengths are not oversubscribed; then every array agrees with the canonical code |
| `ZHuffman.Table.AssignLimits` | include/stb_images.h:4184-4195 | first codes, first slots and pre-shifted limits of all lengths; fails exactly on oversubscription |
| `ZHuffman.Table.PlaceSymbols` | include/stb_images.h:4197-4213 | every coded symbol is stored in its slot, and each fast entry names the symbol whose code starts the window |
| `ZHuffman.CountSizes` | include/stb_images.h:4176-4180 | counts of symbols per length |
| `ZHuffman.CheckSizes` | include/stb_images.h:4181-4183 | the early test rejects only lists that are oversubscribed |
| `ZHuffman.FillFast` | include/stb_images.h:4204-4210 | the stride loop writes exactly the windows that start with the code |
| `ZHuffman.HitsUnique` | include/stb_images.h:4204-4210 | no two symbols claim the same nine-bit window |
| `ZHuffman.WindowSpells` | include/stb_images.h:4297-4303 | a short code claims the window of the next nine bits if and only if the stream spells it |
| `ZHuffman.FastMiss` | include/stb_images.h:4297-4304 | an empty fast entry means that no code of at most nine bits is spelled |
| `InflateSpec.RangesTile` | include/stb_images.h:4338-4350 | length and distance ranges tile 3..258 and 1..32768 without gap or overlap, except that 258 has its own symbol |
| `InflateSpec.FixedComplete` | include/stb_images.h:4488-4503 | the fixed code lengths fill the code space exactly |
| `DeflateHeader.LengthOfSymbol` | include/stb_images.h:4397-4412 | each code-length symbol gets the three-bit field with its own number, given by a formula: 16, 17, 18, 0, then 8 and its neighbours going outwards; symbols beyond the fields sent have no code |
| `DeflateHeader.RunsRead` | include/stb_images.h:4415-4439 | single lengths, repeats of the last length and runs of zeros of both kinds, in any order, are read back |
| `DeflateHeader.HeaderRead` | include/stb_images.h:4395-4443 | every dynamic header that an encoder writes, with any runs and any code for the lengths, is read back: both codes and where the body starts |
| `DeflateHeader.PlainGood` | include/stb_images.h:4395-4443 | every pair of realisable codes of the sizes in question has a header |
| `DeflateWriter.LengthCodeIs` | include/stb_images.h:4338-4344 | the symbol and extra bits of each length from 3 to 258, computed from its highest bits, mean that length in the tables |
| `DeflateWriter.DistCodeIs` | include/stb_images.h:4346-4350 | the same for distances from 1 to 32768 |
| `DeflateWriter.FixedCodeIs` | include/stb_images.h:4488-4503 | the fixed lengths give every symbol the code in the table of section 3.2.6 of RFC 1951 |
| `DeflateWriter.FixedDistanceIs` | include/stb_images.h:4488-4503 | the fixed distance codes are the numbers themselves in five bits |
| `DeflateWriter.StreamRead` | include/stb_images.h:4517-4543 | stored, fixed and dynamic blocks of bytes and copies are spelled by their bits, block by block |
| `DeflateWriter.RawRoundTrip` | include/stb_images.h:4517-4543 | every stream of such blocks, with two bytes or more after it, is decoded to the text that its bytes and copies make |
| `DeflateWriter.ZlibRoundTrip` | include/stb_images.h:4474-4543 | the same with the header of section 2.2 of RFC 1950 for every window size and level |
| `InflateSpec.TokenUnique` | include/stb_images.h:4352-4393 | at most one literal or match is spelled at a position |
| `InflateSpec.BodyPrefix` | include/stb_images.h:4352-4393 | whatever tokens have been read so far are a prefix of the block's only reading |
| `InflateSpec.BodyUnique` | include/stb_images.h:4352-4393 | a block body has at most one reading |
| `InflateSpec.RepeatPeriodic` | include/stb_images.h:4384-4390 | a match copies with period equal to its distance, also when it overlaps its own output |
| `InflateSpec.BlockUnique` | include/stb_images.h:4524-4541 | at most one block of any type is spelled at a position |
| `InflateSpec.StreamPrefix` | include/stb_images.h:4524-4541 | blocks read so far are a proper prefix of the stream's only reading |
| `InflateSpec.StreamUnique` | include/stb_images.h:4517-4543 | a DEFLATE stream has at most one reading, so its meaning is a function of the data |
| `InflateSpec.InflatePart` | include/stb_images.h:4517-4543 | a stream with a meaning gives every prefix a meaning that is no longer |
| `InflateAhead.DeadEndRejects` | include/stb_images.h:4358-4382 | after a failing step no continuation of the stream is a decodable block |
| `InflateAhead.NothingRecoverable` | include/stb_images.h:4517-4543 | once a block cannot be decoded, no stream at this start can |
| `InflateAhead.FetchTokensPart` | include/stb_images.h:4288-4296 | if the reader can read a body to its end, it can read each of its tokens in turn |
| `InflateAhead.FetchStreamSnoc` | include/stb_images.h:4517-4543 | the read-ahead over a stream is that over its blocks in turn |
| `InflateAhead.AmpleToken` | include/stb_images.h:4288-4296 | with sixteen bits of input after it, a token is read whatever has been fetched |
| `InflateAhead.AmpleStream` | include/stb_images.h:4288-4296 | sixteen bits of input after a stream are enough to read all of it |
| `InflateLimits.RawRefused` | include/stb_images.h:4288-4296 | four bytes of raw DEFLATE that mean "ab" and that no call can decode, whatever the output buffer |
| `InflateSymbols.TreesAgree` | include/stb_images.h:4403-4406 | a header that the reader takes, with the input it has fetched, is one of section 3.2.7 of RFC 1951 if and only if it lists fewer than 287 literal and length symbols; the others list 287 or 288 |
| `InflateSymbols.StreamAgrees` | include/stb_images.h:4517-4543 | a stream is one of the standard if and only if it is spelled and none of its headers lists too many symbols |
| `InflateSymbols.ReadersAgree` | include/stb_images.h:4517-4543 | a reader of the standard that looks ahead as far decodes exactly the data that this one decodes and whose headers are not too long, to the same bytes |
| `InflateSymbols.LongBlockTaken` | include/stb_images.h:4403-4439 | every block written with codes for 287 or 288 symbols is decoded to its text, where RFC 1951 admits no stream |
| `InflateSymbols.LongStreamTaken` | include/stb_images.h:4403-4439 | there are such blocks: an empty one is decoded into a buffer of any size |
| `Inflate.ZBuf.Get8` | include/stb_images.h:4242-4245 | the next input byte, or zero at the end without advancing |
| `Inflate.ZBuf.FillByte` | include/stb_images.h:4250-4255 | one round of prefetching appends the next byte of the stream; the overflow guard never fires |
| `Inflate.ZBuf.FillBits` | include/stb_images.h:4247-4257 | after prefetching, the buffer still is the zero-extended stream at the same position and holds all whole bytes that 32 bits can take |
| `Inflate.ZBuf.Receive` | include/stb_images.h:4259-4267 | the next n bits of the stream, the position moves by n, and the end of the bits fetched moves as the read-ahead function says |
| `Inflate.ZBuf.DecodeSlow` | include/stb_images.h:4269-4286 | finds the unique symbol of ten or more bits, or proves there is none; both corruption guards are unreachable |
| `Inflate.ZBuf.Decode` | include/stb_images.h:4288-4305 | -1 if and only if no symbol is spelled or fewer than sixteen bits are buffered at the end of the input; otherwise the symbol spelled |
| `Inflate.ZBuf.ZExpand` | include/stb_images.h:4307-4336 | contents are kept while the buffer doubles; it succeeds if and only if the needed size is within what doubling can reach under the allocator's limit |
| `Inflate.DoublingReaches` | include/stb_images.h:4318-4326 | doubling reaches a positive size if and only if the capacity is not zero |
| `Inflate.ZBuf.PutLiteral` | include/stb_images.h:4359-4363 | appends one byte if and only if there is room, and else leaves the output unchanged |
| `Inflate.ZBuf.PutMatch` | include/stb_images.h:4380-4390 | appends the periodic copy of the match if and only if there is room |
| `Inflate.ZBuf.CopyRun` | include/stb_images.h:4385-4387 | the one-byte run equals the general copy at distance one |
| `Inflate.ZBuf.CopyBytes` | include/stb_images.h:4388-4390 | the byte-by-byte overlapping copy yields the periodic extension |
| `Inflate.ZBuf.ReadMatch` | include/stb_images.h:4371-4378 | length and distance of the match token spelled, or no decodable continuation |
| `Inflate.ZBuf.ParseMatch` | include/stb_images.h:4371-4390 | a match token is read and its copy appended, or nothing decodable follows |
| `Inflate.ZBuf.ParseToken` | include/stb_images.h:4355-4391 | one token is read and applied, or the block ends, or nothing decodable follows |
| `Inflate.ZBuf.ParseHuffmanBlock` | include/stb_images.h:4352-4393 | success: the tokens spelled up to the end symbol have been applied to the output and the read-ahead is that of the body; failure: no decodable reading exists; the loop ends on every input |
| `Inflate.ZBuf.ReadCounts` | include/stb_images.h:4403-4405 | the three counts of a dynamic header |
| `Inflate.ZBuf.ReadCodeLengthLens` | include/stb_images.h:4408-4412 | code-length code lengths in the permuted order, which `DeflateHeader.LengthOfSymbol` gives by symbol |
| `Inflate.ZBuf.ReadRepeat` | include/stb_images.h:4423-4430 | how often each of the three repeat symbols repeats |
| `Inflate.FillRun` | include/stb_images.h:4435 | a run of equal code lengths is appended to those read so far |
| `Inflate.ZBuf.ReadCodeLengths` | include/stb_images.h:4415-4439 | the run-length coded list of code lengths; it succeeds if and only if the list is spelled without overrun and the reader does not run out of input |
| `Inflate.ZBuf.ComputeHuffmanCodes` | include/stb_images.h:4395-4443 | succeeds if and only if the header spells two realisable codes and can be read; then the two tables are those of section 3.2.7 of RFC 1951 |
| `Inflate.ZBuf.ParseUncompressedBlock` | include/stb_images.h:4445-4472 | a stored block after alignment, header bytes taken first from the bit buffer; failure means no stored block that fits |
| `Inflate.ZBuf.DrainBits` | include/stb_images.h:4452-4457 | whole buffered bytes become header bytes in order |
| `Inflate.ZBuf.ParseBlock` | include/stb_images.h:4524-4541 | one block of any type and the final flag |
| `Inflate.ZBuf.ParseZlibHeader` | include/stb_images.h:4474-4486 | accepts exactly the two-byte headers with method 8, right check bits, no preset dictionary and data after them |
| `Inflate.ZBuf.ParseZlib` | include/stb_images.h:4517-4543 | success if and only if the header is good and a stream is spelled that fits and can be read; then the output is its meaning |
| `Inflate.Decompress` | include/stb_images.h:4545-4628 | for both kinds of output buffer, with or without header: a result if and only if the first buffer is granted, the header is good and the input spells a stream whose output fits the capacity reachable and along which the reader does not run out of input; the result is the meaning of that stream |
| `GifSpec.RowsOnce` | include/stb_images.h:6765-6774 | the four interlace passes visit every row of every image height exactly once |
| `GifImage.RowOrderSorted` | include/stb_images.h:6765-6774 | interlaced rows are sent sorted by the groups of Appendix E of GIF89a and down the image in each group; others down the image |
| `GifStandard.StepFits` | include/stb_images.h:6819-6852 | in every state that codes lead to, the width is the fewest bits that hold the number of strings, and twelve from 4096 strings on |
| `GifStandard.AgreesUnlessFull` | include/stb_images.h:6777-6860 | from any pair of matching states, a raster that makes more than 8192 strings between clear codes is refused, and every other one, corrupt or not, means what Appendix F of GIF89a says; the standard decoder has its own width, the fewest bits that hold the number of strings |
| `GifStandard.RasterAgrees` | include/stb_images.h:6777-6860 | for every code size, a whole raster is decoded as Appendix F of GIF89a says if and only if it does not overflow the table or is corrupt anyway, and one of size 0, 1 or 12, which the format does not have, if and only if it is refused |
| `GifStandard.SameStep` | include/stb_images.h:6812-6860 | one code keeps the decoder and the standard one in step, or overflows the table |
| `GifStandard.ZeroRasterRefused` | include/stb_images.h:6835-6837 | a raster with a meaning under Appendix F that is refused with too many codes |
| `GifStandard.ClearFirst` | include/stb_images.h:6831-6833 | on which rasters asking for an initial clear code makes a difference |
| `GifStandard.TwelveTaken` | include/stb_images.h:6786 | a raster of code size 12 that is taken, where the format has none |
| `GifWriter.UnblockBlocked` | include/stb_images.h:6805-6813 | a payload written in sub-blocks is read back |
| `GifWriter.ActionsRead` | include/stb_images.h:6804-6859 | from any pair of matching states, what an encoder sends is what the standard decoder receives, and the decoder overflows exactly if too many strings are sent without a clear code |
| `GifWriter.AnyEncoder` | include/stb_images.h:6777-6860 | whatever strings an encoder chooses and wherever it clears its table, its raster is decoded to its indices if and only if it makes no more than 8192 strings between clear codes |
| `GifWriter.GreedySends` | include/stb_images.h:6777-6860 | the usual encoder, which takes the longest string and clears a full table, sends its indices and stays within the limit |
| `GifWriter.RasterRoundTrip` | include/stb_images.h:6777-6860 | every sequence of indices can be written and is read back |
| `GifImage.ParseColorTable` | include/stb_images.h:6681-6690 | the entries are loaded from red, green and blue bytes of the file, one of them transparent, and the others are left alone |
| `GifImage.DrawnColour` | include/stb_images.h:6752-6762 | a colour is drawn with the red, green and blue of the file, in this order and opaque, and the transparent one is not drawn |
| `GifImage.FrameRoundTrip` | include/stb_images.h:6740-6860 | every image, interlaced or not, can be written as a raster that is taken and makes every cell of the frame show the red, green and blue of the image there |
| `GifImage.FillBackground` | include/stb_images.h:6983-6994 | after the first frame, untouched pixels get the bytes of the background entry and become opaque, unless the index is zero |
| `GifImage.BackgroundColour` | include/stb_images.h:6989-6990 | those bytes are the background colour if and only if its red and blue are equal |
| `Gif.TableExtend` | include/stb_images.h:6835-6843 | adding an entry keeps every stored chain equal to its string |
| `Gif.CodeCases` | include/stb_images.h:6819-6857 | the branches on a code coincide with the cases of the string decoder |
| `Gif.Feed` | include/stb_images.h:6805-6813 | one more byte of the sub-block payload, or its end |
| `Gif.Decoder.constructor` | include/stb_images.h:6947-6970 | cursor, limits and interlace state of an image descriptor inside the canvas |
| `Gif.Decoder.InitCodes` | include/stb_images.h:6787-6797 | the roots stand for the one-index strings |
| `Gif.Decoder.AddCode` | include/stb_images.h:6835-6843 | the new entry is the previous string and the first index of the current one, also for the code being defined |
| `Gif.Decoder.OutCode` | include/stb_images.h:6740-6775 | emits the whole string of a code in order; recursion ends because prefixes are smaller |
| `Gif.Decoder.Draw` | include/stb_images.h:6752-6762 | writes the colour of one pixel, only if opaque enough, with the order of the table entry reversed, and marks it |
| `Gif.Decoder.Plot` | include/stb_images.h:6750-6775 | one index is drawn at its interlaced place, or dropped when the image is full |
| `Gif.Decoder.Advance` | include/stb_images.h:6763-6774 | the cursor moves to the next pixel of the row order |
| `Gif.Decoder.NextRow` | include/stb_images.h:6769-6773 | the pass loop reaches the next row of the order and ends |
| `Gif.Decoder.OnCode` | include/stb_images.h:6819-6857 | one code is handled as the string decoder does, with the same errors; `GifStandard.StepFits` says what its width is |
| `Gif.Decoder.TakeCode` | include/stb_images.h:6815-6857 | one turn of the loop is one step of the string decoder on the payload bits |
| `Gif.Decoder.DecodeLoop` | include/stb_images.h:6804-6859 | the indices emitted are those of the string decoder on the payload |
| `Gif.Decoder.ProcessRaster` | include/stb_images.h:6777-6860 | success if and only if the string decoder accepts, and then the image is painted with exactly its indices |
| `Gif.PixelDistinct` | include/stb_images.h:6752-6773 | different indices go to different pixels |
| `Gif.PixelCovers` | include/stb_images.h:6752-6773 | every pixel of the frame is reached |
| `Gif.PaintPixel` | include/stb_images.h:6752-6762 | a pixel shows the index drawn there and no later one |
| `Gif.PaintElsewhere` | include/stb_images.h:6740-6775 | pixels outside the drawn part keep their value |
| `PngFilter.PaethNearest` | include/stb_images.h:4695-4704 | the Paeth predictor is a neighbour nearest to a + b - c, with ties broken in the order a, b, c |
| `PngFilter.ReconAt` | include/stb_images.h:4789-4806 | each byte is its filtered byte plus the prediction from the bytes already reconstructed |
| `PngFilter.RowRoundTrip` | include/stb_images.h:4757-4806 | unfiltering a filtered row gives the row back, for every filter type and row above |
| `PngFilter.ReconImageAt` | include/stb_images.h:4737-4833 | every row is reconstructed against the finished row before it |
| `PngFilter.ImageRoundTrip` | include/stb_images.h:4737-4833 | unfiltering inverts filtering for every image and every choice of filter types |
| `PngRow.ChooseCorrect` | include/stb_images.h:4686-4693 | the synthetic first-row filters predict as the standard ones do below a row of zeros |
| `PngRow.PlainRow` | include/stb_images.h:4757-4806 | the in-place loops reconstruct the row and touch nothing else |
| `PngRow.AlphaPixel` | include/stb_images.h:4808-4821 | one pixel is reconstructed from neighbours that stand apart by the output pixel size |
| `PngRow.AlphaRow` | include/stb_images.h:4757-4832 | reconstruction with room for alpha gives the same samples, and both alpha bytes are opaque |
| `PngRow.LowAlpha` | include/stb_images.h:4824-4831 | the separate pass sets the low alpha byte of 16-bit rows |
| `PngExpand.SampleBound` | include/stb_images.h:4844-4886 | a scaled sample fits a byte, and the largest grey sample becomes 255 |
| `PngExpand.NoClobber` | include/stb_images.h:4841-4886 | unpacking towards the left never overwrites a packed byte that is still to be read |
| `PngExpand.UnpackRow` | include/stb_images.h:4838-4886 | the right-aligned packed row becomes one byte per sample in place, trailing padding ignored |
| `PngExpand.InsertAlpha` | include/stb_images.h:4887-4905 | the backward loop spreads the pixels in place and inserts opaque alpha |
| `PngImage.Geometry` | include/stb_images.h:4711-4730 | how row bytes, stride and pixel size relate for each bit depth |
| `PngImage.UnfilterRow` | include/stb_images.h:4737-4833 | one row is reconstructed and earlier rows are untouched |
| `PngImage.WidenRow` | include/stb_images.h:4838-4906 | one packed row becomes its samples, with alpha if asked for, and other rows are untouched |
| `PngImage.Mad3Means` | include/stb_images.h:1015-1038 | the overflow tests by division are exact: they pass if and only if all factors, products and the sum fit an int |
| `PngImage.LengthFits` | include/stb_images.h:4721-4735 | where the output can be allocated, the 32-bit length of the filtered data does not wrap |
| `PngImage.Reconstruct` | include/stb_images.h:4730-4906 | with the output allocated: accepted if and only if enough data, known filters and a wide enough output row are there, and then every row is finished |
| `PngImage.CreateRaw` | include/stb_images.h:4709-4906 | the pass is accepted if and only if its output can be allocated, its row size fits an int, and enough data, known filters and a wide enough output row are there; then every output row is the finished form of the reconstructed row |
| `PngImage.PassRoundTrip` | include/stb_images.h:4709-4906 | any image filtered with known types is acceptable and gives its rows back |
| `PngPixels.LooksBack` | include/stb_images.h:4719-4750 | filters look back by a whole pixel, and at least a byte (section 6.2 of RFC 2083) |
| `PngPixels.RowRebuilt` | include/stb_images.h:4757-4806 | each byte of a row of any bit depth is rebuilt by filter type 0 to 4 from its filtered byte and the bytes one pixel back, above, and above that |
| `PngPixels.PixelRebuilt` | include/stb_images.h:4709-4833 | for 8 and 16 bit samples, each sample byte delivered is rebuilt from its filtered byte and the same byte of the pixels to the left, above and above left in the output, with or without alpha |
| `PngPixels.AlphaApart` | include/stb_images.h:4808-4832 | from the same data, the colours delivered are the same with and without alpha added, and every alpha byte added is 255 |
| `PngPixels.GreyScaled` | include/stb_images.h:4838-4886 | packed grey samples are scaled to full range exactly, and palette indices are kept |
| `Adam7.PatternIs` | include/stb_images.h:4937-4940 | the pass of every pixel is that of the eight by eight pattern of section 2.6 of RFC 2083 |
| `Adam7.Partition` | include/stb_images.h:4937-4964 | each image pixel is the target of exactly one pixel of one pass |
| `Adam7.InsideIff` | include/stb_images.h:4944-4945 | a pass pixel exists if and only if its target lies inside the image |
| `Adam7.PlaceOne` | include/stb_images.h:4955-4958 | one copy puts one more pixel in its place and overwrites none |
| `PngInterlace.DecodePass` | include/stb_images.h:4944-4951 | one pass is decoded from its own part of the data, if and only if it is acceptable and can be allocated; empty passes take none |
| `PngInterlace.CopyPixel` | include/stb_images.h:4957-4958 | copying the bytes of a pixel changes that pixel of the image and no other |
| `PngInterlace.ScatterPass` | include/stb_images.h:4953-4960 | the loops of one pass put every pixel of the pass in its place in the flat image and keep those of earlier passes |
| `PngInterlace.CreateInterlaced` | include/stb_images.h:4923-4967 | an interlaced image is accepted if and only if it can be allocated and each of its passes is acceptable and can be allocated, and every pixel of the flat image is the pixel of its finished pass |
| `PngCut.PassesRoundTrip` | include/stb_images.h:4937-4951 | seven passes filtered one after the other are all acceptable, each with its own rows, whatever the rows and the filters |
| `PngCut.InterlacedRoundTrip` | include/stb_images.h:4923-4967 | from such data every place of the image receives the samples that the passes hold for it and opaque alpha if the shape adds it, packed samples included |
| `PngPack.SampleOfByte` | include/stb_images.h:4838-4880 | each sample of a packed byte can be taken out again |
| `PngPack.UnpackPacked` | include/stb_images.h:4838-4880 | unpacking inverts packing of 1, 2 and 4 bit samples, up to the widening of grey ones |
| `PngCut.CutRoundTrip` | include/stb_images.h:4923-4967 | an image of any bit depth cut into its seven passes, packed and filtered in any way is acceptable and comes back, with narrow samples widened and alpha added as the shape asks |
| `PngIdat.SignedTest` | include/stb_images.h:5249 | the signed comparison detects exactly the totals that reach 2^31 |
| `PngIdat.Reach` | include/stb_images.h:5254-5255 | the doubling loop reaches its size without wrapping |
| `PngIdat.Collector.Grow` | include/stb_images.h:5250-5261 | doubling keeps the contents and never wraps, and it succeeds if and only if the size it reaches is granted |
| `PngIdat.Collector.OnIdat` | include/stb_images.h:5239-5265 | the payload is appended if and only if it is not too long, the total stays below 2^31, the buffer can hold it and the data are there; otherwise the contents stay |
| `PngIdat.Collector.Collect` | include/stb_images.h:5239-5265 | after any run of chunks the buffer is the concatenation of the IDAT payloads, or of those before the first chunk refused |
| `JpegSpec.TokenUnique` | include/stb_images.h:2261-2291 | at most one run, size and value is spelled at a position |
| `JpegSpec.ReadsUnique` | include/stb_images.h:2261-2291 | a block of AC coefficients has at most one reading |
| `JpegSpec.ReadsOn` | include/stb_images.h:2261-2291 | a whole block extends every unfinished reading by a token inside the segment |
| `JpegSpec.ZigzagInverse` | include/stb_images.h:2224-2237 | the table lists every cell once in zigzag order, computed from its row and column, and then the last cell |
| `JpegSpec.StoreLater` | include/stb_images.h:2287-2288 | storing at one zigzag index touches no coefficient before it |
| `JpegHuffman.SlotIsIndex` | include/stb_images.h:2036-2062 | in the size list, code order is table order |
| `JpegHuffman.Table.Build` | include/stb_images.h:2033-2077 | the table is built if and only if there are at most 256 symbols and no length runs out of codes; then all arrays agree with the code of Annex C of ITU-T T.81 |
| `JpegHuffman.Table.ListSizes` | include/stb_images.h:2036-2044 | the size list with its final zero; fails on the 257th symbol |
| `JpegHuffman.Table.AssignCodes` | include/stb_images.h:2046-2062 | codes, offsets and pre-shifted limits; fails exactly when a length runs out of codes |
| `JpegHuffman.Table.CodesOfLength` | include/stb_images.h:2052-2054 | consecutive codes for the symbols of one length |
| `JpegHuffman.Table.FillTable` | include/stb_images.h:2063-2075 | each lookup entry names the symbol whose code starts the window; the flag means none does, except possibly symbol 255 |
| `JpegHuffman.FillWindows` | include/stb_images.h:2066-2074 | one symbol is written to exactly the windows that start with its code |
| `JpegHuffman.BuildFastAc` | include/stb_images.h:2080-2103 | a word for every window that holds a whole short coefficient code whose value fits a byte, zero elsewhere |
| `JpegHuffman.Unpack` | include/stb_images.h:2268-2275 | run, total length and signed value come out of the packed word, which is never zero |
| `JpegHuffman.MagnitudeIs` | include/stb_images.h:2094 | the magnitude bits cut from the window are the segment bits after the code |
| `Jpeg.Decoder.constructor` | include/stb_images.h:2966-2977 | an empty buffer at the start of a scan |
| `Jpeg.Decoder.AfterFill` | include/stb_images.h:2110-2111 | the byte after a 0xff and any fill bytes |
| `Jpeg.Decoder.Grow` | include/stb_images.h:2105-2121 | buffered bits stay the segment with stuffing removed; it stops short only at a marker, with the whole segment buffered |
| `Jpeg.Decoder.HuffDecode` | include/stb_images.h:2127-2176 | the value of the unique symbol spelled, or failure only if none is spelled inside the segment; an eclipsed symbol 255 takes ten bits instead of its own length |
| `Jpeg.Decoder.HuffSlow` | include/stb_images.h:2153-2175 | the search for longer codes; the bounds test on the symbol never fails for other symbols |
| `Jpeg.Decoder.ExtendReceive` | include/stb_images.h:2183-2196 | receive and extend of section F.2.2.1 of ITU-T T.81; if a marker cuts the bits short, zero and nothing consumed |
| `Jpeg.Decoder.PutCoef` | include/stb_images.h:2287-2288 | the value read is dequantised, cut to 16 bits and stored in zigzag order |
| `Jpeg.Decoder.ApplySymbol` | include/stb_images.h:2279-2289 | a decoded symbol ends the block, skips coefficients or stores one, as the token it spells says, and touches none before the index; `JpegWriter.WordsPlace` says where tokens put coefficients |
| `Jpeg.CombinedMeans` | include/stb_images.h:2080-2103 | a word of the combined table is the token that symbol decoding and receive/extend spell |
| `Jpeg.Decoder.FastAc` | include/stb_images.h:2267-2275 | the combined lookup takes the same bits and yields the same run and value as the plain path |
| `Jpeg.Decoder.SlowAc` | include/stb_images.h:2276-2290 | the plain path reads the token, advances the index and stores the coefficient |
| `Jpeg.Decoder.AcStep` | include/stb_images.h:2261-2291 | both paths meet one contract: same index advance, same bits, same stored coefficient; if a token lies inside the segment the step succeeds |
| `Jpeg.Decoder.DecodeAc` | include/stb_images.h:2259-2292 | whenever the segment holds a whole block, exactly that block is read and its coefficients stored; otherwise the coefficients of the tokens inside the segment are stored and only later ones may have been written |
| `Jpeg.UsableIff` | include/stb_images.h:2063-2075 | every code can be told from the not-accelerated flag if and only if symbol 255 is absent or longer than nine bits |
| `JpegLimits.FullTableUnusable` | include/stb_images.h:2033-2077 | counts of a table that is built although its last symbol cannot be told from the not-accelerated flag |
| `JpegWriter.ExtendExtra` | include/stb_images.h:2183-2196 | the size and bits that section F.1.2.1 of ITU-T T.81 gives a coefficient are extended to that coefficient |
| `JpegWriter.ExtraExtend` | include/stb_images.h:2183-2196 | and the bits of any size are those of the coefficient they extend to |
| `JpegWriter.WordsRead` | include/stb_images.h:2259-2292 | coefficients written as runs, sizes and bits, with a symbol for every sixteen zeros, are read as their tokens |
| `JpegWriter.WordsPlace` | include/stb_images.h:2279-2289 | the tokens put every coefficient at its own zigzag index, dequantised, and leave the others alone |
| `JpegWriter.BlockRoundTrip` | include/stb_images.h:2259-2292 | any block of AC coefficients, written with any code that has its symbols, is read as a whole block whose coefficients are those written, dequantised |
| `JpegWriter.SegmentStuffed` | include/stb_images.h:2105-2121 | stuffed bytes are taken out again up to the next marker |
| `JpegWriter.FileRoundTrip` | include/stb_images.h:2105-2292 | the same from the bytes of a file, packed, filled up with ones, stuffed and followed by a marker |
| `JpegWriter.ShortIs` | include/stb_images.h:2288 | the conversion to 16 bits keeps the value modulo 2^16, and every value that fits |
| `FatList.List.constructor` | include/fat_list.h:46-51 | the empty list |
| `FatList.List.Remove` | include/fat_list.h:55-69 | the node is deleted from the sequence; only its neighbours and the ends are written |
| `FatList.List.InsertAfter` | include/fat_list.h:73-86 | the new node follows the given one; only the nodes involved are written |
| `FatList.List.InsertBefore` | include/fat_list.h:90-103 | the new node precedes the given one; only the nodes involved are written |
| `FatList.List.InsertFirst` | include/fat_list.h:107-121 | the sequence grows at the front |
| `FatList.List.InsertLast` | include/fat_list.h:125-134 | the sequence grows at the back |
| `FatList.List.IsEmpty` | include/fat_list.h:138-143 | true exactly for the empty sequence |
| `FatList.List.PopHead` | include/fat_list.h:147-158 | returns and removes the first node, or null |
| `FatList.List.Traverse` | include/fat_list.h:37 | visits every node once in order and ends |
| `FatList.List.Run` | include/fat_list.h:46-158 | every run of calls performs the same run on the sequence, keeps all links mutually inverse and touches no other node |
| `FatList.DeleteLinks` | include/fat_list.h:60-68 | relinking the neighbours links the shortened sequence |
| `FatList.InsertLinks` | include/fat_list.h:79-102 | relinking three nodes links the longer sequence |
| `FatList.InsertRemove` | include/fat_list.h:55-103 | the writes of an insertion followed by those of the removal leave every link of the list as it was |
| `Checksum.CalculateChecksum` | drivers/net/utils.c:39-48 | the result is the checksum of section 1 of RFC 1071 if and only if the sum fits 32 bits, in particular for at most 65537 words |
| `Checksum.FoldStep` | drivers/net/utils.c:44-46 | folding shrinks the sum and keeps it modulo 65535 |
| `Checksum.NormIff` | drivers/net/utils.c:44-46 | two positive sums give the same checksum if and only if they are congruent modulo 65535 |
| `Checksum.SumOrder` | drivers/net/utils.c:41-43 | the sum does not depend on the order of the words |
| `Checksum.WrapIff` | drivers/net/utils.c:40-43 | every carry lost out of 32 bits changes the checksum |
| `Checksum.StoreThenVerify` | drivers/net/utils.c:39-48 | with the checksum stored in a zero word, the checksum of the whole is 0 |
| `Checksum.OneWordError` | drivers/net/utils.c:39-48 | a change of one word goes unnoticed if and only if it swaps 0x0000 and 0xffff among other non-zero words |
| `Printf.Output.Put` | libc/printf.c:135-140 | the character is stored if its index is below the bound, and the index advances modulo 2^32 either way |
| `Printf.LastPosition` | libc/printf.c:135-140 | which character of a text of any length an index of 32 bits is left with |
| `Printf.HoldsStep` | libc/printf.c:135-140 | one more character changes only the index it is sent to |
| `Printf.Output.PadAfter` | libc/printf.c:218-223 | trailing spaces counted by the distance of two wrapping indices |
| `Printf.Output.OutRev` | libc/printf.c:202-226 | the conversion buffer backwards, padded to the width on the side the flags ask for |
| `Printf.Output.NtoaFormat` | libc/printf.c:230-280 | zeros, prefix, sign and padding |
| `Printf.Output.NtoaLong` | libc/printf.c:284-304 | the whole text of an integer conversion |
| `Printf.PutDigits` | libc/printf.c:295-301 | digits least significant first, as many as the 32-byte buffer holds |
| `Printf.AddHash` | libc/printf.c:245-265 | the alternate-form prefix, which may take back one or two characters |
| `Printf.Output.PutCharacter` | libc/printf.c:788-806 | the %c conversion with padding |
| `Printf.Output.PutString` | libc/printf.c:808-832 | the %s conversion with precision and padding |
| `Printf.Strnlen` | libc/printf.c:174-179 | the length, but at most the given maximum |
| `Printf.Atoi` | libc/printf.c:191-198 | a decimal number in 32-bit arithmetic, and where it ends |
| `Printf.ReadFlags` | libc/printf.c:613-624 | all flags, in any order and number, as `PrintfDirective.FlagsAre` names them |
| `Printf.ReadWidth` | libc/printf.c:626-641 | the width field, where a negative argument asks for left justification |
| `Printf.ReadPrecision` | libc/printf.c:643-656 | the precision field |
| `Printf.ReadLength` | libc/printf.c:658-692 | the length field, with the type sizes of the i686 ABI |
| `Printf.ReadDirective` | libc/printf.c:608-692 | flags, width, precision and length field, with arguments taken for * |
| `Printf.IntegerFormat` | libc/printf.c:703-731 | base and flags that reach the digit conversion |
| `Printf.IntegerValue` | libc/printf.c:733-765 | the argument as the type that the length field and the specifier name |
| `Printf.Output.PutInteger` | libc/printf.c:696-768 | an integer conversion sends its text and takes its argument, or does neither for a type wider than long |
| `Printf.Output.Emit` | libc/printf.c:694-861 | one conversion sends its text and takes its arguments |
| `Printf.Terminate` | libc/printf.c:864-865 | the terminator goes to the end of the text or of the buffer |
| `Printf.NotOverwritten` | libc/printf.c:580-869 | a text of less than 2^32 characters is not written over |
| `Printf.Vsnprintf` | libc/printf.c:580-869 | the result is the length of the whole text modulo 2^32 as an int, equal to the length if and only if it is below 2^31; every index of the buffer holds the last character sent to it, and for texts below 2^32 characters that is the bounded prefix with a terminator |
| `PrintfOverflow.OverflowExample` | libc/printf.c:580-869 | %4294967295cAB returns 1 and leaves B and a terminator at the start of the buffer |
| `PrintfDirective.NumberCut` | libc/printf.c:191-198 | the number read is the decimal one modulo 2^32 |
| `PrintfDirective.FlagsAre` | libc/printf.c:613-624 | a flag is set if and only if its character is among those before the first character that is no flag: 0 for zeros, - for left justification, + and space for signs, # for the alternate form |
| `PrintfDirective.ModifierIs` | libc/printf.c:658-692 | the length field is the length modifier hh, h, l, ll, j, z or t that stands there, if any |
| `PrintfDirective.ReadingIff` | libc/printf.c:608-692 | a directive is read as ISO C11 reads it, with flags by their characters and length modifiers by name, if and only if its numbers fit 32 bits and no negative argument gives its precision |
| `PrintfDirective.NegativePrecisionExample` | libc/printf.c:651-655 | %.*s with -1 prints nothing, where the standard prints the string |
| `PrintfConversion.ValueConverted` | libc/printf.c:733-765 | the argument is converted to the type of its length modifier: the only value of that type congruent to it |
| `PrintfConversion.IntegerIff` | libc/printf.c:694-768 | an integer conversion without # takes one argument and prints the text of section 7.21.6.1 of ISO C11, with the base and sign of its specifier, if and only if digits, sign, precision and width leave room for it |
| `PrintfConversion.StringSpaced` | libc/printf.c:808-832 | a string is cut to the precision and padded to the width with spaces, after it with - and before it otherwise |
| `PrintfConversion.CharSpaced` | libc/printf.c:788-806 | the same for a character |
| `PrintfNumerals.DigitsValue` | libc/printf.c:295-301 | the digits denote the value |
| `PrintfNumerals.DigitsAreNumeral` | libc/printf.c:295-301 | a numeral that fits the buffer comes out whole and without leading zeros |
| `PrintfNumerals.NumeralLength` | libc/printf.c:284-301 | a number of n bits has at most n digits in base two and 1 + n/3 digits in the other bases |
| `PrintfNumerals.NumeralFits` | libc/printf.c:284-301 | numerals of 32-bit values fit the 32-character buffer in every base, and take at most 11 characters except in base two |
| `PrintfNumerals.PaddingOff` | libc/printf.c:728-731 | the flags of an integer conversion never ask for zero padding together with a precision |
| `PrintfNumerals.StandardIff` | libc/printf.c:230-304 | without #, the text of every 32-bit value is that of section 7.21.6.1 of ISO C11 if and only if left justification drops no precision zeros and digits, zeros and sign fit the buffer (or a lost space sign is made up for by padding) |
| `PrintfNumerals.LeftExample` | libc/printf.c:233-243 | %-.3d of 5 is not the standard text |
| `PrintfNumerals.PrecisionExample` | libc/printf.c:233-243 | %.33d of 5 has 32 characters, where the standard asks for 33 |
| `PrintfAlternate.HashKeepsValue` | libc/printf.c:246-252 | with #, the text of every value but zero denotes that value if and only if a precision is given, or the number of digits is neither the width nor, for hexadecimal zero-padded within the buffer, one less |
| `PrintfAlternate.AlternateIff` | libc/printf.c:230-304 | with #, the octal or hexadecimal text of a value other than zero is that of ISO C11 if and only if a condition on the number of digits, the precision, the width and the flags holds |
| `PrintfAlternate.AlternateZeroIff` | libc/printf.c:285-291 | the same for zero, which loses its # |
| `PrintfAlternate.HashExample` | libc/printf.c:246-252 | %#4x of 0x1234 does not denote 0x1234 |
| `PrintfLength.WideIff` | libc/printf.c:658-692 | a directive names a type wider than long if and only if ll or j stands before its specifier |
| `PrintfLength.SkippedIff` | libc/printf.c:733-765 | an integer conversion prints nothing and leaves its argument if and only if ll or j stands before its specifier |
| `PrintfLength.LongLongExample` | libc/printf.c:733-741 | %lld prints nothing whatever its argument |

## Left out

- Inflate.ZBuf.constructor: takes a positive capacity for an expandable buffer, as the growth loop does not end otherwise.
- GifStandard.AgreesUnlessFull: covers minimum code sizes 2 to 11, because the format starts at 2 and with 12 the root codes alone exceed the standard's 4096 entries; `GifStandard.RasterAgrees` covers all sizes.
- GifStandard.SameStep: the same.
- GifStandard.StepFits: the same.
- GifWriter.AnyEncoder: covers code sizes 2 to 8, as colour indices have at most eight bits.
- Jpeg.Decoder.DecodeAc: does not say which coefficients are written after the segment has run out.
- Printf.Vsnprintf: a format that ends inside a directive, an argument of the wrong type and single strings of 4 GiB are excluded, as the source's behaviour is undefined or truncated there; `fmt` is the contents of a C string.
- PrintfAlternate.AlternateIff: leaves out base two, for which ISO C11 has no conversion, and signs, which the bases with `#` never have.
- The Adler-32 trailer of zlib streams, which the source does not read.
- The byte swap of 16-bit PNG samples (include/stb_images.h:4907-4918), palettes, transparency keys and chunk headers: they would only add easy members.
- Failure strings and logging.
- GIF headers, extensions, disposal between frames and the file position after the end code.
- JPEG DC coefficients, progressive scans, restart intervals, dequantisation range checks, the inverse DCT, upsampling and colour conversion.
- BMP, PSD, TGA, HDR, PIC and PNM loaders.
- Floating-point conversions of printf and its other output functions.
- ext4, FAT, the kernel heap, virtual memory and the scheduler.
