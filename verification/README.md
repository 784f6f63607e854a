# Verified models of kernel components

This project models parts of a hobby operating system kernel in Dafny and proves
what they promise. The image decoders are the ones the kernel uses for its font
textures; page tables, heap and file system reads are the kernel's own.

| component | modules | what is modelled |
|---|---|---|
| Common | `Options`, `Products`, `Buffers` | missing values; products under a name, for linear proofs; bytes written over a part of a buffer |
| Bits | `Bits`, `BitReverse`, `BitStream`, `BitStrings` | machine words as natural numbers with the C shifts and masks; byte strings as bit streams padded with zeros; strings of bits and the bytes that hold them |
| DEFLATE (RFC 1950, RFC 1951) | `Canonical`, `PrefixDecode`, `ZHuffman`, `InflateSpec`, `Inflate`, `Deflate` | canonical prefix codes; table builder; bit reader; decoder over a growing buffer; every conforming encoding of every list of blocks |
| PNG | `PngFilter`, `PngRows`, `PngLines`, `PngImage`, `PngExpand`, `PngPacked`, `PngPixels`, `PngRaw`, `PngExact`, `Adam7`, `PngInterlace`, `PngPasses`, `PngInterlaced`, `PngInterlacedPacked` | filters; reconstruction in the output buffer; in-place sample expansion; interlacing; the encoder's side |
| GIF (GIF89a Appendix F) | `GifRaster`, `GifLzw`, `GifStandard`, `GifEncoder` | LZW decoder against a dictionary of strings; pixel writer with interlacing; the decoder of the standard; every encoder |
| JPEG (ITU-T T.81) | `JpegTable`, `JpegStream`, `JpegDecode`, `JpegBlock`, `JpegZigzag`, `JpegScan`, `JpegEncoder` | Huffman tables; bit buffer with byte stuffing and markers; combined AC table; sequential block and scan decoder; every encoder of such scans |
| Memory | `FramePool`, `PageTable`, `HeapMemory`, `Heap` | free frames; four-level page tables edited through their self-map; next-fit heap with its headers in memory |
| XML | `XmlLexer`, `XmlParser`, `XmlPrinter` | tokenizer, parser, and the printed format |
| Strings, files, paths | `Utf`, `ByteString`, `Fat32`, `Path` | UTF-8 strings in a growing buffer; FAT32 chained reads; path canonicalisation |

Code that changes things step by step is a class or an array method whose
contract ties the new state to a specification function of the old one. The
specification functions are written from the standards the code implements, and
the main theorems relate them to encoders, reference semantics or invariants:
DEFLATE, PNG (interlaced and packed images included), GIF, sequential JPEG, XML,
UTF-8 and UTF-16 come with round trips over all valid inputs. For DEFLATE, GIF and
JPEG the encoder is any conforming one, not a particular compressor. LZW and the two
Huffman decoders refine simple reference decoders, and heap and page tables keep
their invariants over every run of operations.

Where code and specification use one function or constant (a table, an order, a
predictor, a cast, a byte layout, a character class), a lemma or a contract states its
values in literals or by a law of the standard: for example `InflateSpec.SizesInOrder`,
`PngFilter.PaethLaw`, `PngPixels.ImageRight`, `GifRaster.PictureShown`, `JpegBlock.ShortLaw`,
`Utf.EncodeLaw`, `Fat32.Volume.Layout`.

## Where the code differs from what one expects

* **PNG, fewer than 8 bits per sample.** Packed rows are stored at the right ends
  of their slots in the output buffer, but the pointer to the row above is not
  moved along (`kernel/src/common/stb_image.cpp:3597-3610`). Rows after the first
  that use the filters up, average or Paeth then read the beginning of the slot
  above, which holds former contents of the buffer. `PngExact.ImageExact` says
  exactly when the final image is still right for all buffer contents, and
  `PngExact.BadContents` gives contents that spoil it in every other case.
  `PngInterlacedPacked.InterlacedExact` is the condition for interlaced images:
  every nonempty pass must be right by itself. `PngPacked.PackedExact` is the
  stricter condition under which the packed rows agree in their spare bits as well.
* **`strstr` never reports an occurrence at the very end**
  (`kernel/src/libc/string.cpp:19-27`), so a trailing `.` or `..` survives path
  canonicalisation. `ByteString.StrStr` says exactly what is found and `Path.Resolved`
  exactly when the result is fully resolved; `ByteString.EndSearch` and
  `Path.TrailingDot` are inputs that fail.
* **XML: a printed root without children is not accepted again**, because the
  root parser does not know the empty-element form. `XmlPrinter.ParseUndoesPrint`
  covers both cases.
* **GIF: a comment promises support for data without a starting clear code**
  (`kernel/src/common/stb_image.cpp:5193`); the code rejects such data
  (line 5225). The model follows the code. `GifStandard.HeadlessExact` says exactly
  when the promise is kept, `GifStandard.HeadlessInput` is an input for which it is
  not. The test whether a code equals the next entry is made after the entry counter
  was advanced and never succeeds; the case is still handled right, because the new
  entry's first colour is already set.
* **GIF: a full table ends the image.** GIF89a lets an encoder go on with a full
  table of 4096 entries, to which nothing is added any more. The code calls the
  next data code corrupt (`kernel/src/common/stb_image.cpp:5229`), and the
  reference decoder `GifLzw.Decode` does as the code does. `GifStandard.StandardDecode`
  is the decoder of the standard; `GifStandard.RasterExact` says exactly for which
  rasters the two agree, `GifEncoder.RasterRoundTrip` which encoders are affected,
  and `GifEncoder.FullTableInput` gives a picture that is lost.
* **GIF: an image without columns is drawn outside its area.** The image descriptor
  is accepted with width 0 (`kernel/src/common/stb_image.cpp:5297`). If it has
  rows, the first pixel of each goes to the column right of the area, at the right
  edge of the canvas to the next row or behind the buffer.
  `GifRaster.ConfinedExactly` gives the condition (at least one column, or no
  height), `GifRaster.ZeroWidthEscapes` an input.
* **A memory region that starts at a page boundary loses a page**, because a whole
  page is subtracted for the part before the boundary
  (`kernel/src/common/mem.cpp:43`).
* **zlib: the Adler-32 checksum behind the data is not looked at.** Inflation
  stops behind the final block.
* **`pop_back` leaves no terminating zero.** The model asks only that the byte
  behind the contents is no continuation byte, which is what iteration needs, and
  that some zero follows, which is where a search stops. `ByteString.String.Find`
  searches the text up to that zero. After `pop_back` this is what is left if and
  only if the dropped point is 0 and no other point is (`ByteString.String.PopBack`);
  when the string held no zero, it is still the text before the call.
  `ByteString.StaleSearch` is an input for which the two searches differ.

## Model

| member | source | states |
|---|---|---|
| BitReverse.BitReversalIsRev | kernel/src/common/stb_image.cpp:3071-3086 | The four mask-and-shift swaps of `stbi__bitreverse16` followed by the right shift reverse the lowest `bits` bits of a word, for every word and width up to 16. |
| Canonical.EndIsKraft | kernel/src/common/stb_image.cpp:3101-3112 | The running code counter of the builder is the Kraft sum of the lengths so far, so the overflow test is a test of the Kraft inequality. |
| Canonical.CodesOrdered | kernel/src/common/stb_image.cpp:3101-3130 | The codes the counters hand out obey RFC 1951 section 3.2.2: consecutive within a length in symbol order, shorter ones lexicographically first, none a prefix of another. |
| PrefixDecode.MatchUnique | kernel/src/common/stb_image.cpp:3179-3209 | At any position of any bit stream at most one symbol has its code there. |
| PrefixDecode.FirstRangeMatch | kernel/src/common/stb_image.cpp:3185-3191 | The first length whose range ends beyond the reading is the length of the code, and the offset into the range is the symbol's rank: the arithmetic the slow path relies on. |
| PrefixDecode.NoMatch | kernel/src/common/stb_image.cpp:3185-3188 | A reading beyond the last range is the start of no code at all. |
| ZHuffman.HitUnique | kernel/src/common/stb_image.cpp:3121-3127 | Distinct short codes claim disjoint sets of fast-table entries, so filling one never overwrites another. |
| ZHuffman.Table.CountSizes | kernel/src/common/stb_image.cpp:3094-3098 | The histogram of the code lengths, without the unused length 0. |
| ZHuffman.Table.AssignRanges | kernel/src/common/stb_image.cpp:3101-3113 | The running counters give first code, preshifted range end and first symbol of every length, and the test inside the loop rejects exactly the lists whose Kraft sum exceeds 1. |
| ZHuffman.Table.EnterSymbols | kernel/src/common/stb_image.cpp:3114-3130 | Every symbol is entered at its sorted position, and in the fast table at exactly the indices that begin with its code. |
| ZHuffman.Table.FillResidue | kernel/src/common/stb_image.cpp:3122-3126 | The stride loop writes exactly the indices whose low bits are the reversed code. |
| ZHuffman.Table.Build | kernel/src/common/stb_image.cpp:3088-3132 | Accepts a list of lengths if and only if its Kraft sum is at most 1, and then all six arrays are those of its canonical code, every fast entry set exactly when a code of at most 9 bits stands in the low bits of its index. |
| Inflate.ZBuf.Get8 | kernel/src/common/stb_image.cpp:3154-3158 | The next input byte, or zero behind the last one. |
| Inflate.ZBuf.FillBits | kernel/src/common/stb_image.cpp:3160-3167 | Refilling keeps the denoted bit stream: accumulator and unread bytes together stand at the same bit position, with more than 24 bits buffered. |
| Inflate.ZBuf.Receive | kernel/src/common/stb_image.cpp:3169-3177 | Returns the next n bits of the stream, least significant first, and moves on by exactly n bits. |
| Inflate.ZBuf.HuffmanDecodeSlowpath | kernel/src/common/stb_image.cpp:3179-3195 | When no code of up to 9 bits matches, returns the one symbol whose code comes next and consumes exactly its length, or -1 if and only if no code matches. |
| Inflate.FastIsMatch | kernel/src/common/stb_image.cpp:3197-3207 | A fast-table entry is nonzero if and only if a code of at most 9 bits matches, and then it names that symbol and its length. |
| Inflate.SearchLength | kernel/src/common/stb_image.cpp:3185-3187 | The search stops at the first length whose range ends beyond the reading, or at the sentinel. |
| Inflate.ZBuf.HuffmanDecode | kernel/src/common/stb_image.cpp:3197-3209 | Fast table plus slow path return the one symbol whose canonical code is next and consume exactly its length, or -1 if and only if there is none. |
| Inflate.ZBuf.Expand | kernel/src/common/stb_image.cpp:3211-3227 | Growing the output buffer keeps all earlier output, and succeeds exactly when the doubled size stays within what the allocator grants. |
| InflateSpec.CopyLaw | kernel/src/common/stb_image.cpp:3274-3280 | A copy satisfies out[n+i] = out[n+i-dist] for every length and distance, overlapping ones included. |
| InflateSpec.LengthRanges | kernel/src/common/stb_image.cpp:3229-3235 | The length base and extra-bit tables partition the lengths 3 to 258: the ranges are adjacent, and only 258 itself is denoted twice. |
| InflateSpec.DistRanges | kernel/src/common/stb_image.cpp:3237-3241 | The distance tables partition the distances 1 to 32768. |
| InflateSpec.LengthBases | kernel/src/common/stb_image.cpp:3229-3232 | The bases of the length symbols are those of RFC 1951 section 3.2.5, entry by entry. |
| InflateSpec.LengthExtras | kernel/src/common/stb_image.cpp:3234-3235 | So are their extra bits. |
| InflateSpec.DistBases | kernel/src/common/stb_image.cpp:3237-3238 | And the bases of the distance symbols. |
| InflateSpec.DistExtras | kernel/src/common/stb_image.cpp:3240-3241 | And their extra bits. |
| InflateSpec.SizesInOrder | kernel/src/common/stb_image.cpp:3287-3301 | The k-th transmitted code length code length belongs to the k-th symbol of the list 16, 17, 18, 0, 8, 7, 9, 6, 10, 5, 11, 4, 12, 3, 13, 2, 14, 1, 15; symbols that are not reached have none. |
| InflateSpec.OverrunExact | kernel/src/common/stb_image.cpp:3289-3323 | A repetition leaves its place exactly if there is nothing to repeat or it goes past the 455 lengths that the code has room for. |
| InflateSpec.HeaderLaw | kernel/src/common/stb_image.cpp:3293-3327 | An accepted dynamic header has as many code lengths as it says, and none of its three codes is oversubscribed. |
| InflateSpec.PairLaw | kernel/src/common/stb_image.cpp:3269-3280 | A pair is accepted if and only if its distance reaches no further back than the output and its length finds room. |
| InflateSpec.StoredLaw | kernel/src/common/stb_image.cpp:3344-3357 | A stored block is accepted if and only if its two lengths are complements, its bytes are there and they find room; then they are appended. |
| InflateSpec.HeaderFields | kernel/src/common/stb_image.cpp:3361-3373 | A zlib header is accepted if and only if its method is 8, its dictionary flag is off and its two bytes are a multiple of 31; window size and level do not matter. |
| Inflate.ZBuf.CopyMatch | kernel/src/common/stb_image.cpp:3274-3280 | Both copying loops, the run of one byte at distance 1 and the general one, leave exactly the LZ77 copy of the output so far. |
| Inflate.ZBuf.ReadPair | kernel/src/common/stb_image.cpp:3262-3268 | Length and distance of a pair are base plus extra bits, the distance symbol decoded in between, exactly as the specification of a pair says. |
| Inflate.ZBuf.EmitMatch | kernel/src/common/stb_image.cpp:3269-3280 | Fails exactly when the distance reaches before the output or the output cannot grow enough; otherwise appends the copy. |
| Inflate.ZBuf.EmitByte | kernel/src/common/stb_image.cpp:3250-3254 | Appends one literal, growing the buffer when it is full; fails exactly when it cannot grow. |
| Inflate.ZBuf.DecodeOne | kernel/src/common/stb_image.cpp:3247-3281 | One round of the symbol loop is one step of the meaning of a block: a literal, a copy, the end, or failure. |
| Inflate.ZBuf.ParseHuffmanBlock | kernel/src/common/stb_image.cpp:3243-3283 | The symbol loop refines the recursive meaning of a compressed block: same success, same output, same end position, for any two tables. |
| Inflate.ZBuf.ReadCodeLengthSizes | kernel/src/common/stb_image.cpp:3297-3301 | The transmitted code length code lengths end up at their symbols, in the order of the standard, all others are zero. |
| Inflate.ZBuf.ReadLength | kernel/src/common/stb_image.cpp:3306-3323 | One code length symbol appends a length, a repetition or a run of zeros. |
| Inflate.ZBuf.ReadCounts | kernel/src/common/stb_image.cpp:3293-3302 | The three counts and the code length code of a dynamic header. |
| Inflate.ZBuf.ReadLengthList | kernel/src/common/stb_image.cpp:3304-3325 | The run-length coded code lengths are expanded as RFC 1951 section 3.2.7 says, and accepted only if they fill the list exactly. |
| Inflate.ZBuf.ComputeHuffmanCodes | kernel/src/common/stb_image.cpp:3285-3329 | A dynamic header is accepted exactly when all three codes fit the code space, and then both tables decode the codes it transmits. |
| Inflate.ZBuf.ReadStoredHeader | kernel/src/common/stb_image.cpp:3335-3347 | The four header bytes are those behind the next byte boundary, however many bytes the accumulator had buffered, and the reader is left exactly behind them. |
| Inflate.ZBuf.AlignToByte | kernel/src/common/stb_image.cpp:3335-3336 | Discards the bits before the next byte boundary and no others. |
| Inflate.ZBuf.DrainByte | kernel/src/common/stb_image.cpp:3339-3343 | Takes the next byte of the stream out of the accumulator. |
| Inflate.ZBuf.CopyStored | kernel/src/common/stb_image.cpp:3352-3357 | Appends the next len input bytes, growing the buffer as needed. |
| Inflate.ZBuf.ParseUncompressedBlock | kernel/src/common/stb_image.cpp:3331-3358 | A stored block is accepted exactly when its length check holds and its bytes are there and fit; they are appended unchanged. |
| Inflate.ZBuf.ParseZlibHeader | kernel/src/common/stb_image.cpp:3360-3371 | Accepts exactly the RFC 1950 headers with a right check value, no preset dictionary and method 8. |
| Inflate.ZBuf.InitDefaults | kernel/src/common/stb_image.cpp:3374-3384 | The range-filling loops give the fixed code lengths of RFC 1951 section 3.2.6. |
| Inflate.ZBuf.ParseBlock | kernel/src/common/stb_image.cpp:3396-3410 | One block of any type decodes to its meaning; type 3 and bad headers fail. |
| Inflate.ZBuf.ParseBlocks | kernel/src/common/stb_image.cpp:3393-3412 | The block loop ends at the final block with the concatenated meaning of the blocks. |
| Inflate.ZBuf.ParseZlib | kernel/src/common/stb_image.cpp:3386-3413 | The whole decoder succeeds exactly on the streams that denote output that fits, and then with exactly that output. |
| Deflate.TokensDecode | kernel/src/common/stb_image.cpp:3243-3283 | Any list of literals and length-distance pairs, encoded with any usable pair of codes, decodes to what the tokens denote, with the reader right behind the end-of-block code. |
| Deflate.HeaderDecodes | kernel/src/common/stb_image.cpp:3285-3329 | Every conforming transmission of two codes (any code length code, any use of the repeat symbols) is read back as these codes. |
| Deflate.InflateInverts | kernel/src/common/stb_image.cpp:3243-3413 | For every list of stored, fixed and dynamic blocks and every conforming bit encoding of it, inflation succeeds with exactly the denoted bytes and stops behind the final block, whatever bits follow. |
| Deflate.ZlibRoundTrip | kernel/src/common/stb_image.cpp:3386-3413 | Compressing any valid list of blocks to bytes, under a zlib header with any window size and level, and inflating gives the denoted bytes back. |
| PngFilter.ReconInvertsFilter | kernel/src/common/stb_image.cpp:3562-3675 | Reconstructing a filtered row gives the row back for all five filters, every row above and every pixel size (PNG specification, section 9). |
| PngFilter.UndoIsRecon | kernel/src/common/stb_image.cpp:3553-3661 | The special filters for the first row and the special cases for the first pixel are the general predictor with zeros outside the image. |
| PngFilter.PaethLaw | kernel/src/common/stb_image.cpp:3562-3571 | The Paeth predictor is one of its three neighbours, none is nearer to left + above - corner, and ties go to the left one, then to the one above. |
| PngFilter.PredictRight | kernel/src/common/stb_image.cpp:3615-3657 | For each of the five filter types the reconstructed byte is the one of PNG section 9.2, as an equation in the filtered byte and the three neighbours. |
| PngRows.UnfilterRow | kernel/src/common/stb_image.cpp:3615-3657 | Unfiltering a row in the output buffer stores a row whose every byte obeys the equation of its filter over the left, upper and corner bytes, and touches no other byte. |
| PngRows.UnfilterRowAlpha | kernel/src/common/stb_image.cpp:3615-3675 | The same while an opaque alpha byte is inserted behind every pixel, with left and upper neighbours found across the inserted bytes. |
| PngLines.RowsOfFiltered | kernel/src/common/stb_image.cpp:3596-3675 | Whatever filter is chosen for each row, reconstructing all rows gives the image back. |
| PngLines.LinesOfSerialized | kernel/src/common/stb_image.cpp:3596-3601 | Splitting the data into filter bytes and rows undoes their concatenation, whatever follows. |
| PngImage.Reconstruct | kernel/src/common/stb_image.cpp:3596-3675 | The row loop for 8-bit samples fails exactly at an unknown filter, and otherwise leaves exactly the denoted rows, with alpha if asked for, in the buffer; every byte obeys the equation of its filter. |
| PngPixels.ImageRight | kernel/src/common/stb_image.cpp:3596-3675 | Every byte of the image that the lines denote obeys the equation of its filter over the bytes of the pixels to the left, above and above left, and alpha is 255. |
| PngPacked.ReconstructPacked | kernel/src/common/stb_image.cpp:3605-3656 | The row loop for packed samples stores rows at the right ends of their slots; the "row above" it uses is the left end of the slot above, so the result is stated over the former buffer contents. |
| PngPacked.PackedExact | kernel/src/common/stb_image.cpp:3597-3610 | Packed rows come out right in all bits, the spare ones at the end of a row included, for all former buffer contents if and only if rows fill their slots or no row but the first uses a filter that looks up. |
| PngPacked.SeenRight | kernel/src/common/stb_image.cpp:3605-3656 | The rows that the code computes obey the equations of their filters over the bytes it takes for the row above. |
| PngPacked.BadJunk | kernel/src/common/stb_image.cpp:3597-3610 | Outside that condition there are buffer contents that make a byte of a packed row come out wrong. |
| PngPacked.FullSlots | kernel/src/common/stb_image.cpp:3609 | Packed rows fill their slots only in images one pixel wide without alpha, and never overflow them. |
| PngExpand.ReadBeforeWrite | kernel/src/common/stb_image.cpp:3682-3728 | In every row width and depth the byte that holds a sample is never left of the place the sample is written to. |
| PngExpand.UnpackRow | kernel/src/common/stb_image.cpp:3682-3728 | The in-place left-to-right unpacking reads each packed byte before overwriting it and yields exactly the scaled samples. |
| PngExpand.InsertAlpha | kernel/src/common/stb_image.cpp:3729-3737 | The right-to-left alpha insertion never clobbers an unread sample. |
| PngExpand.SamplesOfPacked | kernel/src/common/stb_image.cpp:3682-3728 | Unpacking packed samples gives the samples back, scaled. |
| PngExpand.FitLaw | kernel/src/common/stb_image.cpp:3682-3728 | Samples of 1, 2 and 4 bits are the numbers below 2, 4 and 16. |
| PngExpand.ScaleLaw | kernel/src/common/stb_image.cpp:3573 | The greatest grey sample of each depth becomes 255; palette indices are not scaled. |
| PngRaw.ExpandRow | kernel/src/common/stb_image.cpp:3680-3748 | Expansion of one row inside its slot: scaled samples, alpha behind each if asked for, nothing else changed. |
| PngRaw.ExpandRows | kernel/src/common/stb_image.cpp:3680-3748 | The expansion pass treats every row so. |
| PngRaw.CreateRaw | kernel/src/common/stb_image.cpp:3576-3752 | The whole function: accepts exactly data of the right length with known filters (exact length for a whole image, at least that for a pass) and leaves the denoted image. |
| PngRaw.AcceptsLaw | kernel/src/common/stb_image.cpp:3588-3602 | Accepted are exactly the data with y lines of (n * x * depth + 7) / 8 bytes behind a filter type of at most 4, no byte more for a whole image. |
| PngRaw.RoundTrip8 | kernel/src/common/stb_image.cpp:3576-3675 | For every 8-bit image, channel count and per-row choice among the five filters, the filtered data are accepted and denote the image, with alpha 255 inserted when asked for. |
| PngRaw.LinesBack | kernel/src/common/stb_image.cpp:3597-3610 | The decoder finds the filtered lines of a packed image as the encoder made them, for every choice of filters, and they denote the rows. |
| PngRaw.CellsOfPacked | kernel/src/common/stb_image.cpp:3680-3738 | The final bytes of a packed row are its samples, scaled, with opaque alpha if asked for. |
| PngExact.ImageExact | kernel/src/common/stb_image.cpp:3576-3748 | The exact condition at the level of the image: with fewer than 8 bits per sample the final image is the one that the lines denote, for all former buffer contents, if and only if rows fill their slots (one pixel wide, no alpha) or every row but the first is safe: its filter does not look up, or it is a single bit that average leaves alone (filtered byte divisible by 128). |
| PngExact.BadContents | kernel/src/common/stb_image.cpp:3597-3656 | For every image with an unsafe row, buffer contents with which that row of the final image differs from the standard. |
| PngExact.SamplesRoundTrip | kernel/src/common/stb_image.cpp:3576-3748 | Packing, filtering and decoding: for every image of 1-, 2- or 4-bit samples, every safe choice of filters and every former buffer content the data are accepted, and every sample stands in the output, scaled, with alpha 255 behind it when asked for. |
| Adam7.SizesExact | kernel/src/common/stb_image.cpp:3770-3771 | Pass sizes are the exact ceilings: they count precisely the columns and rows of the pass that lie in the image. |
| Adam7.Partition | kernel/src/common/stb_image.cpp:3764-3781 | Each pixel of an image of any size is in exactly one pass, at exactly one place, and every place of every pass is a pixel. |
| Adam7.Pattern | kernel/src/common/stb_image.cpp:3764-3767 | The pass of every pixel is the one of the 8x8 square in PNG section 8.2. |
| PngInterlace.ScatterPass | kernel/src/common/stb_image.cpp:3778-3785 | The copying loops put every pixel of a pass at its place and leave all others alone. |
| PngInterlace.Deinterlace | kernel/src/common/stb_image.cpp:3754-3794 | Fails exactly when a nonempty pass is not acceptable at its offset in the data; otherwise every pixel of the image is the pixel at its place in its pass. |
| PngInterlace.PixelBytes | kernel/src/common/stb_image.cpp:3776-3783 | Pixel (x, y) is the outN bytes behind (y * w + x) * outN. |
| PngInterlaced.PassDecodes | kernel/src/common/stb_image.cpp:3772-3790 | Every pass is found where the encoder put it and denotes the pixels extracted from the image. |
| PngInterlaced.InterlacedRoundTrip | kernel/src/common/stb_image.cpp:3754-3794 | De-interlacing the filtered passes extracted from an 8-bit image, with any filters, gives every pixel of the image back. |
| PngPasses.PassFound | kernel/src/common/stb_image.cpp:3767-3790 | In a stream of the lines of the nonempty passes, of any depth, every pass is accepted and its lines are found where the encoder put them. |
| PngInterlacedPacked.InterlacedExact | kernel/src/common/stb_image.cpp:3754-3794 | With fewer than 8 bits: all pixels of the interlaced image are right for all former contents of the buffers, if and only if the lines of every nonempty pass are safe. |
| PngInterlacedPacked.CollectedPixels | kernel/src/common/stb_image.cpp:3754-3794 | The image put together from the passes shows at every place the pixel computed over the former contents of its pass. |
| PngInterlacedPacked.PackedRoundTrip | kernel/src/common/stb_image.cpp:3754-3794 | De-interlacing the packed and filtered passes of an image with 1, 2 or 4 bits gives every sample back at its pixel, scaled and with alpha if asked for, if the lines of every nonempty pass are safe. |
| GifRaster.RowsPermutation | kernel/src/common/stb_image.cpp:5161-5169 | For every height the rows visited, in plain and in interlaced mode, are a permutation of 0 to h-1. |
| GifRaster.RowsVisited | kernel/src/common/stb_image.cpp:5158-5169 | Interlaced rows come in the order of GIF89a Appendix E: every 8th from 0, every 8th from 4, every 4th from 2, every 2nd from 1. |
| GifRaster.OffsetsDisjoint | kernel/src/common/stb_image.cpp:5147-5169 | Distinct pixels of an image have disjoint places inside the canvas. |
| GifRaster.PaintStands | kernel/src/common/stb_image.cpp:5147-5169 | After n pixels the cursor stands where pixel n of the raster goes. |
| GifRaster.PaintExact | kernel/src/common/stb_image.cpp:5138-5170 | Drawing pixels one by one gives their picture: the k-th pixel at the k-th place of the raster or interlace order, transparent ones left alone, no other byte changed. |
| GifRaster.PictureShown | kernel/src/common/stb_image.cpp:5150-5157 | In the picture pixel k shows bytes 2, 1, 0, 3 of its palette entry if the fourth is at least 128, and what was there before otherwise; every other byte is as before. |
| GifRaster.OnScreen | kernel/src/common/stb_image.cpp:5297-5306 | An image descriptor that is accepted lies inside the screen. |
| GifRaster.PlaceOnScreen | kernel/src/common/stb_image.cpp:5300-5306 | Pixel k of its image is pixel (x + k % w, y + row) of the screen. |
| GifRaster.ConfinedExactly | kernel/src/common/stb_image.cpp:5138-5170 | All pixels stay inside the area of the image, for every raster, if and only if the area has a column or no byte of height. |
| GifRaster.ZeroWidthEscapes | kernel/src/common/stb_image.cpp:5147-5156 | An image of width 0 and height 1 at the right edge of a canvas of one pixel: its first pixel lies behind the canvas. |
| GifLzw.Gif.MoveOn | kernel/src/common/stb_image.cpp:5158-5169 | One pixel on: the next column, the next row, or the first row of the next interlace pass that has one. |
| GifLzw.Gif.PutPixel | kernel/src/common/stb_image.cpp:5147-5169 | Draws one more pixel of the raster and moves on; pixels beyond the image are dropped. |
| GifLzw.ChainedExtends | kernel/src/common/stb_image.cpp:5227-5232 | Adding a code keeps the table invariant: every live chain has strictly decreasing prefixes, spells its dictionary string, and `first` is the head of that string. |
| GifLzw.Gif.InitCodes | kernel/src/common/stb_image.cpp:5187-5191 | The table starts with the single colours. |
| GifLzw.Gif.AddCode | kernel/src/common/stb_image.cpp:5227-5232 | The three field writes make the entry of the previous string followed by the head of the current one, also when the current code is that very entry. |
| GifLzw.Gif.OutCode | kernel/src/common/stb_image.cpp:5138-5170 | The recursive writer terminates on every live code and draws exactly the code's string, first colour first. |
| GifLzw.Gif.HandleCode | kernel/src/common/stb_image.cpp:5224-5246 | One data code, the code-equals-next-entry case included, extends the dictionary and draws its string as the string-dictionary semantics says, or is refused exactly where that semantics refuses it. |
| GifLzw.FetchByte | kernel/src/common/stb_image.cpp:5199-5207 | The bit buffer is fed from the sub-blocks as from one string of data bytes, up to the empty block. |
| GifLzw.TakeCode | kernel/src/common/stb_image.cpp:5209-5211 | The low bits of the buffer are the next code of the stream. |
| GifLzw.Widen | kernel/src/common/stb_image.cpp:5238-5241 | The mask test makes codes one bit wider exactly when the table has filled the present width, up to 12 bits. |
| GifLzw.WidthReached | kernel/src/common/stb_image.cpp:5238-5241 | At every width the loop reaches, the mask test `(avail & codemask) == 0 && avail <= 0x0FFF` is the rule of GIF89a: the table has 2^width entries and fewer than 4096; the widths reached stay that way. |
| GifLzw.WidthLaw | kernel/src/common/stb_image.cpp:5238-5241 | Codes get one bit wider when the table has 8, 16, ..., 2048 entries at the widths 3, 4, ..., 11, and at no other size. |
| GifLzw.ClearLaw | kernel/src/common/stb_image.cpp:5180-5181 | The clear code is the number of colours. |
| GifLzw.Gif.HandleAny | kernel/src/common/stb_image.cpp:5212-5246 | One code of any kind: clear, end or data; the outcome of the rest of the raster is that of the reference decoder in the new state. |
| GifLzw.Gif.DecodeRaster | kernel/src/common/stb_image.cpp:5172-5249 | The decoder fails exactly where the reference decoder over a dictionary of strings finds the data corrupt, and otherwise draws exactly its pixels. |
| GifLzw.Gif.ProcessRaster | kernel/src/common/stb_image.cpp:5172-5249 | The canvas becomes, byte by byte, the picture of the reference decoder's pixels. |
| GifStandard.DecodersAgree | kernel/src/common/stb_image.cpp:5224-5229 | From every state, over all data: the code's decoder is corrupt where a data code follows another one while the table has 4096 entries, and is the decoder of GIF89a everywhere else. |
| GifStandard.RasterExact | kernel/src/common/stb_image.cpp:5225-5229 | For every raster: the code agrees with GIF89a if and only if no data code follows another one over a full table, or the standard calls the raster corrupt as well. |
| GifStandard.HeadlessExact | kernel/src/common/stb_image.cpp:5193-5226 | For every raster: data that begin with neither the clear nor the end code are called corrupt, so the promise to decode without a starting clear code holds if and only if the data do not begin so, or are corrupt anyway. |
| GifStandard.HeadlessInput | kernel/src/common/stb_image.cpp:5193-5226 | A raster of one colour and the end code that is a picture by the promise and corrupt to the code. |
| GifEncoder.DecodeInverts | kernel/src/common/stb_image.cpp:5172-5249 | From every state that follows the encoder: GIF89a's decoder gives the pixels of every parse back, and the table is overfull exactly where the parse sends a code after one that found no room. |
| GifEncoder.RasterRoundTrip | kernel/src/common/stb_image.cpp:5172-5249 | For every pixel list, every parse of it into dictionary strings with clear codes anywhere, and every cut into sub-blocks: the standard gives the pixels back; the code does exactly if the parse does not run over the full table, and calls the raster corrupt otherwise. |
| GifEncoder.CompressRoundTrip | kernel/src/common/stb_image.cpp:5172-5249 | The same for the bytes that packing the codes and cutting them into the longest sub-blocks gives. |
| GifEncoder.PlainParses | kernel/src/common/stb_image.cpp:5214-5223 | Every pixel list over the palette has a parse that never runs over the table. |
| GifEncoder.FullTableInput | kernel/src/common/stb_image.cpp:5228-5229 | A raster of 3840 pixels that GIF89a decodes and the code calls corrupt. |
| JpegTable.SortedPosition | kernel/src/common/stb_image.cpp:1108-1112 | In the size list each symbol stands at its rank by length, so index and rank agree. |
| JpegTable.HitUnique | kernel/src/common/stb_image.cpp:1130-1141 | At most one short code stands at the top of a 9-bit window. |
| JpegTable.Huffman.ListSizes | kernel/src/common/stb_image.cpp:1108-1112 | The size list of ITU-T T.81 Figure C.1, with its terminating zero. |
| JpegTable.Huffman.AssignCodes | kernel/src/common/stb_image.cpp:1114-1128 | The code counter numbers all symbols canonically and rejects exactly the counts whose Kraft sum exceeds 1. |
| JpegTable.Huffman.FillFast | kernel/src/common/stb_image.cpp:1130-1142 | Every window that begins with a short code gets its symbol, every other one 255. |
| JpegTable.Huffman.Build | kernel/src/common/stb_image.cpp:1105-1143 | Accepts the code counts if and only if their Kraft sum is at most 1; then codes, range ends, symbol offsets and the direct table are those of the canonical code (ITU-T T.81 Annex C). |
| JpegStream.Peek | kernel/src/common/stb_image.cpp:1201-1222 | The top n bits of the left-justified buffer are the next n bits of the stream, zeros past its end included. |
| JpegStream.Consume | kernel/src/common/stb_image.cpp:1208-1209 | Shifting n bits out of the buffer moves the denoted position on by n. |
| JpegDecode.Decoder.GrowBuffer | kernel/src/common/stb_image.cpp:1173-1188 | Filling the buffer removes stuffed zero bytes, stops at a marker, and keeps the denoted position. |
| JpegDecode.FetchByte | kernel/src/common/stb_image.cpp:1176-1184 | What the next one or two input bytes mean: a data byte, a data byte with a stuffed zero, or the end of the data at a marker. |
| JpegDecode.Decoder.SlowDecode | kernel/src/common/stb_image.cpp:1214-1239 | The search through the preshifted range ends finds the one longer code that comes next, or that there is none. |
| JpegDecode.Decoder.HuffDecode | kernel/src/common/stb_image.cpp:1194-1240 | Direct table plus range search return the value of the one symbol whose code comes next and consume its length; failure means that there is no code or that it runs past the data. |
| JpegDecode.Decoder.ExtendReceive | kernel/src/common/stb_image.cpp:1248-1260 | The rotate-and-mask form of RECEIVE and EXTEND returns the signed value of the next n bits and moves on by n. |
| JpegDecode.BuildFastAc | kernel/src/common/stb_image.cpp:1148-1171 | Every entry of the combined table is the one that belongs to the short code at the top of its index, or zero. |
| JpegDecode.AcAgrees | kernel/src/common/stb_image.cpp:1148-1171 | Whenever an entry is nonzero, its run, value and bit count equal those of Huffman decoding followed by RECEIVE and EXTEND on the same bits, for every stream that starts with its window and every valid table. |
| JpegDecode.AcNonzero | kernel/src/common/stb_image.cpp:1161-1168 | An entry is nonzero if and only if a short code with its magnitude bits fits in nine bits and the value fits in a signed byte. |
| JpegBlock.NextAc | kernel/src/common/stb_image.cpp:1322-1349 | One coefficient, through the combined table or the slow path, is the coefficient of ITU-T T.81 section F.2.2.2. |
| JpegBlock.DecodeDc | kernel/src/common/stb_image.cpp:1307-1314 | The DC difference of ITU-T T.81 section F.2.2.1. |
| JpegBlock.DecodeAc | kernel/src/common/stb_image.cpp:1318-1350 | The coefficient loop terminates, stays inside the block, and stores exactly the coefficients the bit stream denotes. |
| JpegBlock.DecodeBlock | kernel/src/common/stb_image.cpp:1302-1352 | A block decodes to the coefficients of the standard whichever of them came out of the combined table; it fails only when a code is missing or the block runs past the data. |
| JpegBlock.ShortLaw | kernel/src/common/stb_image.cpp:1317-1347 | The cast of a coefficient gives the 16-bit number congruent to it, which is the coefficient itself where it fits. |
| JpegZigzag.NumberOfPlace | kernel/src/common/stb_image.cpp:1285-1299 | The place the table gives to coefficient k is the one that carries number k in Figure A.6 of T.81. |
| JpegZigzag.PlaceOfNumber | kernel/src/common/stb_image.cpp:1285-1299 | Every place of the block is reached, so the first 64 entries of the table are a permutation. |
| JpegScan.DecodeScan | kernel/src/common/stb_image.cpp:2042-2058 | The loop over the blocks of one component predicts every DC coefficient from the block before, and yields the blocks of the standard or fails where they are missing. |
| JpegEncoder.ExtendMagnitude | kernel/src/common/stb_image.cpp:1248-1260 | EXTEND gives back every nonzero value from its category and the magnitude bits of the encoder. |
| JpegEncoder.AcInverts | kernel/src/common/stb_image.cpp:1321-1350 | From any coefficient on, every conforming choice of AC symbols (runs, sixteen zeros, end of block) is decoded to the dequantized coefficients in their places. |
| JpegEncoder.DcInverts | kernel/src/common/stb_image.cpp:1307-1318 | The DC difference comes back from its symbol and magnitude bits. |
| JpegEncoder.BlockRoundTrip | kernel/src/common/stb_image.cpp:1302-1352 | Every conforming coding of a block, at any position of any stream, is decoded to the block, every place holding coefficient times quantizer where that fits 16 bits, and the decoder stops behind it. |
| JpegEncoder.ScanRoundTrip | kernel/src/common/stb_image.cpp:2042-2058 | The same, products included, for every list of blocks, each predicted from the one before. |
| JpegEncoder.UnstuffedStuffed | kernel/src/common/stb_image.cpp:1173-1188 | Stuffing any bytes and reading them up to the next marker or the end of the input gives the bytes. |
| JpegEncoder.SegmentRoundTrip | kernel/src/common/stb_image.cpp:2042-2058 | Any coding of any blocks, filled up with ones, packed, stuffed and followed by a marker, denotes those blocks to the decoder. |
| JpegEncoder.BlockEncoded | kernel/src/common/stb_image.cpp:1302-1352 | Every block whose categories the tables have is coded: the procedure of Figure F.2 gives conforming symbols. |
| PageTable.EntryNumbers | kernel/src/x8664/map.cpp:30-74 | The shifted and masked entry numbers are the mixed-radix numbers of the address's own 9-bit indices. |
| PageTable.WindowAddresses | kernel/src/x8664/map.cpp:30-74 | The virtual address of `entries[t]` at each level is canonical and consists of self-map indices followed by the indices of the address. |
| PageTable.WindowWalk | kernel/src/x8664/map.cpp:30-74 | The hardware walk of such an address through the self-map ends in the frame of the table selected by the address's own upper indices. |
| PageTable.WindowShowsTable | kernel/src/x8664/map.cpp:30-74 | Each `entries[t]` access, pushed through the hardware walk, lands on the table entry selected by the address's own index. |
| PageTable.RootAlone | kernel/src/x8664/map.cpp:30-33 | A root table that holds nothing but its entry to itself is such a tree, and maps no page. |
| PageTable.AddTableKeepsTree | kernel/src/x8664/map.cpp:34-42 | Linking a fresh cleared frame keeps the tables a tree with the root mapped into itself. |
| PageTable.AddTableKeepsWalks | kernel/src/x8664/map.cpp:34-42 | Linking an empty table changes no translation. |
| PageTable.LeafTableUnique | kernel/src/x8664/map.cpp:72-76 | In a tree, pages that share a lowest table agree in all upper indices. |
| PageTable.LeafWrite | kernel/src/x8664/map.cpp:76-97 | Writing a lowest entry changes the translation of that one page. |
| PageTable.RightsOfLeaf | kernel/src/x8664/map.cpp:36-96 | The rights the hardware grants are those of the lowest entry, since upper entries are permissive. |
| PageTable.AddressSpace.EnsureTable | kernel/src/x8664/map.cpp:34-70 | Makes one level of the path exist, taking a frame exactly when it is missing, and changes no translation; a new table is zeroed and linked by the word of its address with the five lowest bits set. |
| PageTable.AddressSpace.EnsurePath | kernel/src/x8664/map.cpp:30-70 | The three upper levels of the path exist afterwards, exactly the missing tables were taken from the pool, and no translation changed. |
| PageTable.AddressSpace.SetLeaf | kernel/src/x8664/map.cpp:72-97 | Writing the lowest entry through its window sets the translation of that page and of no other. |
| PageTable.AddressSpace.Map | kernel/src/x8664/map.cpp:26-98 | Afterwards the address translates to the given physical address (all 52 bits of it) with the given rights, every other page translates as before, the tables stay a tree, and exactly the missing tables were taken from the pool. |
| PageTable.AddressSpace.Unmap | kernel/src/x8664/map.cpp:100-138 | Returns the frame the address was mapped to, or 0, and removes the translation of that page only; the tables stay a tree. |
| PageTable.MapAndUnmap | kernel/src/x8664/map.cpp:26-138 | After mapping any 52-bit physical address, unmapping returns its page, and every other translation is as it was. |
| PageTable.LinkedEntry | kernel/src/x8664/map.cpp:34-40 | A zero entry becomes the word of the new page with the five lowest bits set. |
| PageTable.ZeroWords | kernel/src/x8664/map.cpp:41 | A new table consists of zero words. |
| FramePool.Pool.GetFreePage | kernel/src/common/mem.cpp:28-39 | Hands out the next page of the free regions; all remaining pages differ from it and from each other, so no page is handed out twice. |
| FramePool.Pool.AddRegion | kernel/src/common/mem.cpp:41-49 | Adds whole pages from the first page boundary inside the region on: as many as fit, one fewer when the region starts at a boundary; all pages of the pool stay distinct. |
| HeapMemory.StoreLoad | kernel/src/common/mem.cpp:7-11 | A 64-bit store to a field of a header is read back, and changes no other field of that header and no header elsewhere. |
| HeapMemory.StoreKeeps | kernel/src/common/mem.cpp:7-11 | A store to a field keeps all headers in memory, the one field updated, and changes no byte outside the headers. |
| Heap.PayloadOutside | kernel/src/common/mem.cpp:51-110 | No header of any block reaches into the payload of a block. |
| Heap.PayloadKept | kernel/src/common/mem.cpp:51-110 | Stores to headers change no byte of any payload. |
| Heap.PayloadWrites | kernel/src/common/mem.cpp:51-126 | Whatever is written into payloads, all headers in memory stay as they are. |
| Heap.BlocksDisjoint | kernel/src/common/mem.cpp:51-110 | Blocks with their headers never overlap. |
| Heap.Conservation | kernel/src/common/mem.cpp:51-110 | Lengths plus headers always add up to the arena. |
| Heap.SplitReady | kernel/src/common/mem.cpp:62-72 | A split keeps the invariant: headers tile the arena in address order, list order is that order closed into a ring, lengths stay multiples of 16, no two neighbours are free. |
| Heap.MergeReady | kernel/src/common/mem.cpp:93-108 | A merge keeps tiling, ring and lengths, and live blocks. |
| Heap.Heap.Touch | kernel/src/common/mem.cpp:52-57 | The first use turns the zeroed header into one free block that fills the arena. |
| Heap.Heap.SplitBlock | kernel/src/common/mem.cpp:64-70 | The seven stores of a split, made in memory in this order, leave the headers of the split and write nothing but headers. |
| Heap.Heap.SwallowedByPrev | kernel/src/common/mem.cpp:96-98 | The three stores of a merge with the block in front, made in memory, leave the headers of the merge and write nothing but headers. |
| Heap.Heap.SwallowNext | kernel/src/common/mem.cpp:105-107 | The same for the block behind. |
| Heap.Heap.MergePrev | kernel/src/common/mem.cpp:93-100 | A free block that ends where the freed one begins swallows it; live blocks and ring stay. |
| Heap.Heap.MergeNext | kernel/src/common/mem.cpp:102-108 | The block swallows a free one that begins where it ends; afterwards no two neighbours are free. |
| Heap.Heap.FindFit | kernel/src/common/mem.cpp:59-60 | The next-fit search ends within one lap of the ring, at the first free block from the last used one that is large enough. |
| Heap.Heap.Malloc | kernel/src/common/mem.cpp:51-76 | Returns a new block at least as large as requested, disjoint from all live ones, which keep their place and their contents although headers are written into the same memory; the invariant and the ring position of `last_used` are kept. |
| Heap.Heap.Free | kernel/src/common/mem.cpp:78-110 | Removes exactly that block from the live ones, which keep their contents, and leaves no two adjacent free blocks; neither message branch is taken. |
| Heap.Heap.Realloc | kernel/src/common/mem.cpp:112-126 | Keeps the first min(old length, new size) bytes and the contents of every other live block, through the header stores of both calls and the copy. |
| Heap.Heap.LiveBlocks | kernel/src/common/mem.cpp:52-57 | Blocks in use lie in the arena of 32 MiB, each behind its 32-byte header, and never overlap. |
| Heap.Heap.FirstRoom | kernel/src/common/mem.cpp:52-57 | Before the first use there is room for a request if and only if it is at most 32 MiB. |
| XmlLexer.Scanner.Tok | kernel/src/common/Xml.cpp:39-98 | The tokenizer returns the token of the remaining text and moves right behind it. |
| XmlLexer.Scanner.Next | kernel/src/common/Xml.cpp:39-98 | Successive calls give the token list of the text; every token but the end of the file advances the index. |
| XmlLexer.SpaceLaw | kernel/src/common/Xml.cpp:22-42 | Space, tab, carriage return and line feed are skipped, and nothing else. |
| XmlLexer.NameLaw | kernel/src/common/Xml.cpp:29-37 | A name goes up to the first blank or one of the six signs. |
| XmlLexer.InstructionSkipped | kernel/src/common/Xml.cpp:47-54 | An instruction is skipped up to its first end mark, whatever it holds. |
| XmlLexer.CommentSkipped | kernel/src/common/Xml.cpp:55-64 | A comment is skipped up to its first end mark, whatever it holds. |
| XmlParser.Insert | kernel/src/libc/vectormap:15-26 | The search loop of the attribute map replaces the value of a known name or appends. |
| XmlParser.PutUnknown | kernel/src/libc/vectormap:15-26 | A new attribute goes to the end. |
| XmlParser.PutKnown | kernel/src/libc/vectormap:15-26 | The first attribute of a known name is overwritten in its place. |
| XmlParser.BareName | kernel/src/common/Xml.cpp:108-120 | A name without a value means the same as the name with the value "true". |
| XmlParser.ReadAttributes | kernel/src/common/Xml.cpp:108-122 | The attribute loop reads exactly the attributes of the grammar, bare names getting the value "true". |
| XmlParser.ReadContent | kernel/src/common/Xml.cpp:125-141 | Children up to a slash, and a closing tag whose name agrees with the opening one as C strings. |
| XmlParser.XmlParse | kernel/src/common/Xml.cpp:100-152 | Terminates on every admissible text and returns exactly the element of the grammar, read through the `<` behind it, or fails exactly when there is none. |
| XmlParser.XmlRead | kernel/src/common/Xml.cpp:154-203 | Returns exactly the document of the grammar, or fails exactly when the tokens are none. |
| XmlParser.DocumentShape | kernel/src/common/Xml.cpp:154-203 | An accepted document is enclosed in an opening and a closing tag of the same name, as far as the C library sees names, with nothing behind them. |
| XmlParser.ElementShape | kernel/src/common/Xml.cpp:100-152 | An accepted element begins with its tag name and ends with `> <`. |
| XmlParser.CTextLaw | kernel/src/common/Xml.cpp:130-141 | Names are compared up to their first zero. |
| XmlPrinter.ReadNode | kernel/src/common/Xml.cpp:205-230 | Printed text of any valid element, at any depth, is read as the tokens of that element. |
| XmlPrinter.AttributesBack | kernel/src/common/Xml.cpp:109-122 | Attribute tokens with distinct names are parsed back in order. |
| XmlPrinter.ElementBack | kernel/src/common/Xml.cpp:100-152 | The tokens of any valid element are parsed back to it, nested ones included. |
| XmlPrinter.ParseUndoesPrint | kernel/src/common/Xml.cpp:154-243 | For every tree with valid and unique names, parsing its printed text gives the same tree and consumes all input if its root has a child, and fails if it has none. |
| Utf.DecodeEncode | kernel/src/libc/string:182-199 | Decoding the bytes that `push_back` writes for a value gives the value, for all values of up to 21 bits. |
| Utf.EncodeLaw | kernel/src/libc/string:216-235 | The bytes are those of the table in RFC 3629 section 3: the shortest form, the lead byte telling the length, six bits in every further byte. |
| Utf.LeadsCount | kernel/src/libc/string:112-119 | The bytes that are not continuation bytes are as many as the points. |
| Utf.Utf16RoundTrip | kernel/src/libc/string:237-257 | Every sequence of code points comes back from its UTF-16 encoding (RFC 2781 section 2.2). |
| Utf.LoneSurrogate | kernel/src/libc/string:237-257 | A surrogate that does not begin a pair reads as U+FFFD. |
| ByteString.StrStr | kernel/src/libc/string.cpp:19-27 | Finds the first occurrence of one zero-terminated text in another unless it is at the very end: the search answers if and only if there is an occurrence before the last place. |
| ByteString.EndSearch | kernel/src/libc/string.cpp:19-27 | "b" occurs in "ab", at the end, and is not found. |
| ByteString.StrLen | kernel/src/libc/string.cpp:5-9 | Counts the bytes before the first zero of a buffer. |
| ByteString.MemMove | kernel/src/libc/string.cpp:58-70 | Moves overlapping bytes correctly in either direction. |
| ByteString.String.Utf16Char | kernel/src/libc/string:237-257 | Reads the next point, a surrogate pair or U+FFFD for a lone surrogate, and moves behind it. |
| ByteString.String.AppendUtf16 | kernel/src/libc/string:41-49 | Building from UTF-16 gives the encoding of the points of the text. |
| ByteString.String.Reserve | kernel/src/libc/string:120-128 | Growing keeps the contents. |
| ByteString.String.PushBack | kernel/src/libc/string:216-235 | Appends exactly one encoded point and a terminator. |
| ByteString.String.PopBack | kernel/src/libc/string:140-143 | Drops exactly the last point. The contents are terminated afterwards if and only if the dropped point is 0 and no 0 is left; a terminated string is searched as it was before. |
| ByteString.String.Length | kernel/src/libc/string:112-119 | Counts the points. |
| ByteString.String.Replace | kernel/src/libc/string:88-97 | The contents with one range replaced, whatever the three lengths are. |
| ByteString.String.Find | kernel/src/libc/string:145-149 | Searches the text up to the first zero of the buffer, and answers where `strstr` does. That text is the contents if and only if the byte behind the contents is zero and no other zero comes before it. |
| ByteString.StaleSearch | kernel/src/libc/string:140-149 | "b" is found in the "ab" that `pop_back` has left of "abc", and not in the text "ab". |
| ByteString.Iterator.Next | kernel/src/libc/string:172-176 | From one point to the next, also to the end of a string that `pop_back` has shortened. |
| ByteString.Iterator.Previous | kernel/src/libc/string:177-181 | Back to the point before. |
| ByteString.Iterator.Get | kernel/src/libc/string:182-199 | The point at the iterator. |
| Fat32.Volume.BytesSplit | kernel/src/common/fat.cpp:195-211 | Reading m + n bytes of a cluster chain is reading m and then n from behind them, so any split of a read is the whole read. |
| Fat32.Volume.Layout | kernel/src/common/fat.cpp:78-100 | The table has four bytes to an entry, lowest first, 28 bits of which count; the clusters follow from number 2 on. |
| Fat32.Volume.ByteOfChain | kernel/src/common/fat.cpp:195-211 | Byte k of a chained read is byte d of the m-th cluster of the chain, where k = m * cluster size + d. |
| Fat32.Volume.NextCluster | kernel/src/common/fat.cpp:78-92 | Sector and offset arithmetic finds the entry of the cluster in the table. |
| Fat32.Volume.ReadCluster | kernel/src/common/fat.cpp:94-100 | The data of a cluster begin at its sector. |
| Fat32.File.Seek | kernel/src/common/fat.cpp:213-240 | Stands at the offset afterwards, also on a cluster boundary, where it stays in the cluster before with no bytes left. |
| Fat32.File.ReadPart | kernel/src/common/fat.cpp:197-209 | One round of the reading loop delivers the next bytes and, with no bytes left in the cluster, moves on to the next one. |
| Fat32.File.Read | kernel/src/common/fat.cpp:195-211 | Terminates and delivers exactly the bytes of the concatenated cluster chain from the current offset, leaving the file behind them. |
| Path.DropIdle | kernel/src/libc/path:39-49 | Empty and dot components do not change what a path means. |
| Path.DropPair | kernel/src/libc/path:51-61 | A name followed by two dots does not either. |
| Path.SplitLaw | kernel/src/libc/path:36-64 | The components joined by slashes are the path, and none of them holds a slash. |
| Path.WalkLaw | kernel/src/libc/path:36-64 | Empty components and dots stay, two dots go up, any other component goes down. |
| Path.CutKeeps | kernel/src/libc/path:45-61 | Cutting from one slash to another creates no new `//` or `/./`, so the later loops keep what the earlier ones achieved. |
| Path.UpStep | kernel/src/libc/path:51-61 | The third rewriting keeps the meaning: what it removes in front of `/..` is always a real name. |
| Path.DropDots | kernel/src/libc/path:39-43 | The first loop ends, keeps the meaning, and leaves no `/./` before the end. |
| Path.DropSlashes | kernel/src/libc/path:45-49 | The second loop ends, keeps the meaning and the first loop's work, and leaves no `//` before the end. |
| Path.SlashBefore | kernel/src/libc/path:53-57 | The backward scan finds the slash in front of the name and the length to replace. |
| Path.DropUps | kernel/src/libc/path:51-61 | The third loop ends, keeps the meaning and the earlier work, and leaves no `/../` before the end. |
| Path.Canonical | kernel/src/libc/path:36-64 | Terminates; the result leads to the same directory, holds no `//`, no `/./` and no `/../`, and ends with the last component of the given path. |
| Path.Resolved | kernel/src/libc/path:36-64 | The result consists of proper names only, if and only if the last component of the given path is one. |
| Path.TrailingDot | kernel/src/libc/path:36-64 | "/a/." keeps its dot: the result denotes the directory "/a" and is not resolved. |

## Left out

Limits of the code, stated as preconditions:

- Inflate.ZBuf.ParseZlib: conforming symbols are assumed (no length symbol 286 or 287, no distance symbol 30 or 31, no repetition before the first code length, no undecodable code length symbol, no run that overruns the 455 code lengths), because the code compiles its assertions to nothing and goes on with undefined values.
- Inflate.ZBuf.ReadPair: the same for length and distance symbols: 286 and 287, 30 and 31 have no base value.
- Inflate.ZBuf.ReadLength: the same for code lengths: no undecodable symbol, no repetition first, no overrun.
- Inflate.ZBuf.Expand: the allocator is a limit on the buffer size it grants; the doubling of 32-bit sizes near 2^31 is not modelled.
- PngRaw.CreateRaw: depth below 8 comes with one channel, as in every image that reaches it; sizes are unbounded, the caller limits them; a failing allocation is not modelled, since the output buffer is passed in.
- JpegTable.Huffman.Build: fewer than 256 symbols, because 255 marks an entry that is not accelerated.
- JpegBlock.DecodeDc: DC symbols up to 15, the sizes that have an entry in the mask table the code indexes.
- JpegBlock.DecodeBlock: DC symbols up to 15; integers are unbounded before the cast to 16 bits; a shift by more than 24 bits, which the code makes only with a zero byte when the segment has run out, gives zero.
- GifLzw.Gif.ProcessRaster: minimum code size 2 to 8 and an area inside the canvas whose pixels stay inside it (at least one column, or no height); where the input stands after the end code is not modelled.
- GifLzw.Gif.DecodeRaster: the same area.
- GifRaster.PaintExact: the same area; what happens otherwise is said by `GifRaster.ConfinedExactly` and `GifRaster.ZeroWidthEscapes`.
- JpegScan.DecodeScan: one component, no restart intervals; the inverse transform of each block is left out. DC symbols up to 15.
- JpegEncoder.ScanRoundTrip: coefficients come back as 16-bit numbers, unchanged where their products with the quantizers fit; blocks of one component.
- PageTable.AddressSpace.Map: no large pages and no slot-511 address on the walked path; the loader's upper entries are permissive; translation caches are not modelled.
- FramePool.Pool.AddRegion: the region holds at least one whole page behind its first boundary and overlaps no page that is still free.
- Heap.Heap.Malloc: some free block fits, otherwise the search never ends.
- Heap.Heap.Free: the pointer is a live block or null; the endless loops on corruption and double free, which are then never reached, are not modelled, nor are writes of a client beyond its block.
- XmlLexer.Scanner.Tok: comments and instructions are terminated and no token starts with an apostrophe, on which the tokenizer would not advance; the text is followed by a zero and no token has a zero inside, where copies of it would stop; line and column counters feed only compiled-out messages.
- XmlParser.XmlRead: the whole text meets what `XmlLexer.Scanner.Tok` asks for, also behind the place where the parser has already stopped.
- XmlParser.XmlParse: the same condition on the text; nodes are values, built from growing lists of attributes and children; ownership and deletion on failure are not modelled.
- ByteString.String.PushBack: values of up to 21 bits, on a string with a buffer; the default-constructed string without one is not modelled. Copies by `strcpy`, comparison and `substr` are left out.
- ByteString.String.Find: from the beginning of the string.
- Fat32.Volume.ReadCluster: data clusters, which have numbers from 2 on.
- Fat32.File.Seek: from the start of the file and inside it; cluster numbers below 2 and the root directory of FAT16 are left out, as the 16-bit test can never be true. The disk is a total function from addresses to bytes.
- Path.Canonical: absolute paths that never climb above the root and hold no zero byte, where `strcpy` would stop.

Parts of these files that would only add easy members or need a device or a
floating-point model:

- PNG chunk parsing, palettes, transparency colours and the iPhone variant.
- JPEG progressive scans, IDCT, colour conversion, resampling and marker parsing.
- GIF headers, colour tables and animation.
- BMP, TGA, PSD, PIC, PNM and HDR loaders; SIMD kernels; callback input.
- `calloc`, `operator new` and messages of the heap; the 32-bit page-table code.
- The lazily initialised flag of the fixed DEFLATE tables: the model fills them anew.
- FAT long names, directories and writes; relative seeks.
- Deque, sorted vector map, StarFS, drivers, interrupts, console, fonts and shell.
