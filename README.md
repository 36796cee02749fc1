# Huffman tables and the block encoder of the JPEG codec

This project models `HuffmanTable`, the Huffman-coding object of the
ImageProcessorCore JPEG codec, in Dafny. It covers both sides of the object.

**Decoding side.** A table arrives as its BITS list (the number of codes of
each length 1..16) and its HUFFVAL list. The constructor then builds, on
arrays, the tables of ITU-T T.81 (ISO/IEC 10918-1):

- Figure C.1 (`GenerateSizeTable`): the size list;
- Figure C.2 (`GenerateCodeTable`): the canonical codes;
- Figure F.15 (`GenerateDecoderTables`): MINCODE, MAXCODE and VALPTR.

**Encoding side.** `InitHuffmanCodes` turns four tables into (code, size)
matrices with 12 DC rows and 255 AC rows, indexed by symbol. The tables are
DC and AC luminance and DC and AC chrominance. `HuffmanBlockEncoder`
codes one 8x8 block as sections F.1.2.1 and F.1.2.2 of T.81 describe:

- the DC difference against the predictor: its category and its raw bits;
- the AC coefficients in zig-zag order: ZRL for every sixteen zeros, a
  run/size symbol with raw bits for each non-zero coefficient, and EOB
  when the block ends in zeros.

Every code goes through `BufferIt`, a 24-bit bit register. The register
writes whole bytes and stuffs a 0x00 after every 0xFF (section F.1.2.3).
`FlushBuffer` writes what is left, padding the last byte with zero bits.
`Extend` (Figure F.12) is the decoder's inverse of the encoder's raw-bit
convention.

Modules, in dependency order:

- `Power`: powers of two and `Shl`, the unbounded `<<`.
- `CanonicalCodes`: the size list and code list of Annex C as values.
  Proves that the codes are prefix-free, fit their sizes and are
  consecutive within a length.
- `BitPacking`: bit strings, bytes, byte stuffing. `Emitted` states what
  the stream holds once some bits have been written and the rest are
  pending.
- `BitRegister`: the 24-bit window of the register and the arithmetic of
  the packer loop.
- `PackerSteps`: one byte of the packer loop, and the end of
  `FlushBuffer`, stated through `Emitted`.
- `BlockCoding`: the coding of a block as a list of emissions. These are a
  DC category code, an AC symbol code, or raw magnitude bits. The module
  also holds `Extend`, a reference decoder and the round trip between
  them.
- `DecoderTables`: what the Figure F.15 tables mean, and the finding
  about 16-bit codes held in `short`.
- `TableBuilding`: the per-table loops of `InitHuffmanCodes` on arrays.
- `JpegHuffman`: the class `HuffmanTable` with its fields, the loops of
  the constructor and of the encoder, and the output stream `ByteSink`.

The register is specified by a ghost field `pending`, the bits not yet
written. `RegisterValid` says that `bufferPutBits == |pending|` and that
`bufferPutBuffer` holds `pending` left-justified in 24 bits. Each
encoder method ends in the state `Emitted(old bytes, new bytes, bits
fed, pending)`: the stream grew by the stuffed bytes of every bit fed in
except the pending ones. `HuffmanBlockEncoder` promises that the bits fed
in are exactly `StreamBits(BlockEmissions(diff, acs), dc rows, ac rows)`:
each emission's code taken from its table row, or its raw bits.
`BlockRoundTrip` proves that those emissions decode back to the block.

## Model

| member | source | states |
|---|---|---|
| BlockCoding.Extend | src/ImageProcessorCore/Formats/Jpg/New/HuffmanTable.cs:89-103 | For t >= 1, any t raw bits extend to a value whose magnitude lies in [2^(t-1), 2^t), that is, of category t. The value is positive exactly when the top raw bit is set. For t = 0, `1 << -1` is the least int, so diff comes back unchanged. |
| BlockCoding.ExtendMagnitude | src/ImageProcessorCore/Formats/Jpg/New/HuffmanTable.cs:89-103 | For every difference d, Extend applied to the low Category(d) bits of the encoder's temp2 gives d back. This includes d = 0, where `1 << -1` leaves the value unchanged. |
| BlockCoding.MagnitudeSign | src/ImageProcessorCore/Formats/Jpg/New/HuffmanTable.cs:93-100 | For d != 0, the raw bits are at least 2^(t-1) (Extend's `diff < vt` fails) exactly when d is positive. |
| BlockCoding.BitLength | src/ImageProcessorCore/Formats/Jpg/New/HuffmanTable.cs:337-342 | The number of halvings before n reaches 0 is 0 only for n = 0. Otherwise it is the t with 2^(t-1) <= n < 2^t. |
| JpegHuffman.HuffmanTable.DcCategory | src/ImageProcessorCore/Formats/Jpg/New/HuffmanTable.cs:330-342 | The DC loop yields the category of the difference as nbits. temp2 is the difference, minus 1 when it is negative. |
| JpegHuffman.HuffmanTable.AcCategory | src/ImageProcessorCore/Formats/Jpg/New/HuffmanTable.cs:370-382 | For a non-zero coefficient, the AC loop (which counts the first bit before it tests) yields the same category and temp2. |
| JpegHuffman.HuffmanTable.HuffmanBlockEncoder | src/ImageProcessorCore/Formats/Jpg/New/HuffmanTable.cs:322-396 | Sets both table counts to 2. The register is fed exactly the bits of the block's emissions: the DC code and bits, then the ZRL, run/size and EOB symbols, through rows of DC_matrix[DCcode] and AC_matrix[ACcode]. Whole bytes go to the stream, stuffed. Fewer than 8 bits stay pending. |
| JpegHuffman.HuffmanTable.EncodeDc | src/ImageProcessorCore/Formats/Jpg/New/HuffmanTable.cs:329-350 | The DC part feeds row Category(diff) of the DC matrix, then the raw bits when the category is not 0. These are exactly DcEmissions(diff). |
| JpegHuffman.HuffmanTable.SendCoded | src/ImageProcessorCore/Formats/Jpg/New/HuffmanTable.cs:344-350 | One table row, then nbits raw bits of temp2 unless nbits is 0, consume the first one or two emissions still to send. |
| JpegHuffman.HuffmanTable.EncodeAcs | src/ImageProcessorCore/Formats/Jpg/New/HuffmanTable.cs:352-395 | The AC loop over k = 1..63 sends exactly AcEmissions of the 63 zig-zag coefficients. The loop invariant keeps the emissions still owed equal to AcEmissions(rest of the coefficients, current run). |
| JpegHuffman.HuffmanTable.EncodeAc | src/ImageProcessorCore/Formats/Jpg/New/HuffmanTable.cs:361-389 | A non-zero coefficient after a run r sends r/16 ZRLs, then row 16*(r%16)+category, then the raw bits. |
| JpegHuffman.HuffmanTable.SendZrls | src/ImageProcessorCore/Formats/Jpg/New/HuffmanTable.cs:363-368 | The ZRL loop sends row 0xF0 once per sixteen zeros and leaves run == r % 16. |
| JpegHuffman.HuffmanTable.SendEob | src/ImageProcessorCore/Formats/Jpg/New/HuffmanTable.cs:392-395 | Row 0 (EOB) is sent exactly when a run of zeros is still open. |
| BlockCoding.BlockRoundTrip | src/ImageProcessorCore/Formats/Jpg/New/HuffmanTable.cs:322-396 | Decoding a block's emissions (category, Extend of the raw bits, runs, ZRL, EOB) against prec gives back the DC value and the 63 AC coefficients. This holds whenever AC categories fit a nibble. |
| BlockCoding.AcRoundTrip | src/ImageProcessorCore/Formats/Jpg/New/HuffmanTable.cs:352-395 | After a run of r zeros, the AC emissions decode to that run followed by the coefficients. |
| BlockCoding.EobExactlyAtEnd | src/ImageProcessorCore/Formats/Jpg/New/HuffmanTable.cs:392-395 | For every coefficient list, EOB is the last emission exactly when the block ends in zeros, and no other emission is EOB. |
| JpegHuffman.HuffmanTable.BufferIt | src/ImageProcessorCore/Formats/Jpg/New/HuffmanTable.cs:474-501 | The `size` low bits of `code` join the pending bits. Every complete byte leaves, with 0x00 after 0xFF. Fewer than 8 bits remain, held in the register as its invariant requires. |
| JpegHuffman.HuffmanTable.FlushBuffer | src/ImageProcessorCore/Formats/Jpg/New/HuffmanTable.cs:109-135 | The stream gains the stuffed bytes of the pending bits, padded with zero bits to a whole byte. |
| BitRegister.Merge | src/ImageProcessorCore/Formats/Jpg/New/HuffmanTable.cs:479-482 | The window has only zero bits below position 24 - putBits, and the masked code shifted to 24 - putBits lies entirely below it, so the `|` merge is an addition. Merging gives the window of the pending bits followed by the new ones. |
| BitRegister.TakeByte | src/ImageProcessorCore/Formats/Jpg/New/HuffmanTable.cs:484-497 | `(putBuffer >> 16) & 0xFF` is the value of the first eight pending bits. `putBuffer << 8`, kept to 24 bits, is the window of the rest. |
| BitRegister.PadByteBits | src/ImageProcessorCore/Formats/Jpg/New/HuffmanTable.cs:130-134 | With 1..7 bits left, the final byte is those bits followed by zeros. It is never 0xFF, so no stuffing is needed. |
| PackerSteps.EmitByte | src/ImageProcessorCore/Formats/Jpg/New/HuffmanTable.cs:484-497 | One pass of the packer loop moves the first eight pending bits to the stream as one stuffed byte. |
| PackerSteps.EmitPad | src/ImageProcessorCore/Formats/Jpg/New/HuffmanTable.cs:130-134 | The padded last byte completes the stuffed bytes of the padded stream. |
| PackerSteps.EmitWhole | src/ImageProcessorCore/Formats/Jpg/New/HuffmanTable.cs:115-128 | When no bits are left, the stream already holds all the bytes. |
| PackerSteps.EmittedChain | src/ImageProcessorCore/Formats/Jpg/New/HuffmanTable.cs:474-501 | Two packer calls in a row write what one call on the joined bits would write. |
| BitPacking.UnstuffStuff | src/ImageProcessorCore/Formats/Jpg/New/HuffmanTable.cs:489-493 | Removing the 0x00 after each 0xFF gives back the bytes before stuffing. |
| BitPacking.StuffedMarkers | src/ImageProcessorCore/Formats/Jpg/New/HuffmanTable.cs:489-493 | Every 0xFF in stuffed output is followed by 0x00. |
| BitPacking.UnpackPack | src/ImageProcessorCore/Formats/Jpg/New/HuffmanTable.cs:486-487 | The bytes cut from a bit string spell that bit string, MSB first. |
| JpegHuffman.HuffmanTable.FromTable | src/ImageProcessorCore/Formats/Jpg/New/HuffmanTable.cs:54-64 | Keeps BITS and HUFFVAL. lastk is the number of codes. The size and code arrays hold the size list and canonical codes. MINCODE, MAXCODE and VALPTR are the Figure F.15 tables of BITS. The encoder matrices stay unset. |
| JpegHuffman.HuffmanTable.ForEncoding | src/ImageProcessorCore/Formats/Jpg/New/HuffmanTable.cs:65-85 | bitsList and val list the four tables in the order DC lum, AC lum, DC chr, AC chr. The matrices encode those tables. The register is empty. |
| JpegHuffman.HuffmanTable.GenerateSizeTable | src/ImageProcessorCore/Formats/Jpg/New/HuffmanTable.cs:399-412 | huffmanSize[..lastk] is the size list of BITS, and lastk counts the codes. Entries past lastk are untouched. |
| JpegHuffman.HuffmanTable.GenerateCodeTable | src/ImageProcessorCore/Formats/Jpg/New/HuffmanTable.cs:415-432 | huffmanCode[..lastk] holds the canonical codes of BITS. The entries from lastk on keep their old values. |
| JpegHuffman.CodeTableLoop | src/ImageProcessorCore/Formats/Jpg/New/HuffmanTable.cs:417-431 | The 256 passes of Figure C.2 store the canonical codes in hc[..n]. The 0 after the sizes stops them, and hc[n..] is unchanged. |
| JpegHuffman.HuffmanTable.GenerateDecoderTables | src/ImageProcessorCore/Formats/Jpg/New/HuffmanTable.cs:435-465 | For each length l+1, MINCODE and MAXCODE are its first and last codes and VALPTR maps a code to its HUFFVAL position. A length without codes keeps -1, -1 and its old VALPTR. |
| JpegHuffman.DecoderLoop | src/ImageProcessorCore/Formats/Jpg/New/HuffmanTable.cs:437-464 | The sixteen passes build every entry of the Figure F.15 tables. |
| JpegHuffman.DecoderLength | src/ImageProcessorCore/Formats/Jpg/New/HuffmanTable.cs:440-463 | One pass builds entry i and leaves the other fifteen unchanged. |
| DecoderTables.DecoderFindsSymbol | src/ImageProcessorCore/Formats/Jpg/New/HuffmanTable.cs:435-465 | Every code of length l+1 lies in [MINCODE, MAXCODE], and VALPTR takes it to its own position. |
| DecoderTables.DecoderAcceptsOnlyCodes | src/ImageProcessorCore/Formats/Jpg/New/HuffmanTable.cs:435-465 | Conversely, a value in [MINCODE, MAXCODE] is the code of the symbol VALPTR gives, and that symbol has length l+1. |
| CanonicalCodes.CodesPrefixFree | src/ImageProcessorCore/Formats/Jpg/New/HuffmanTable.cs:415-432 | No canonical code is a prefix of another. |
| CanonicalCodes.CodesBounded | src/ImageProcessorCore/Formats/Jpg/New/HuffmanTable.cs:415-432 | With a Kraft sum of at most 1, each code is below 2^size. |
| CanonicalCodes.CodesConsecutive | src/ImageProcessorCore/Formats/Jpg/New/HuffmanTable.cs:422-427 | Codes of one length are consecutive. |
| CanonicalCodes.SizeListSorted | src/ImageProcessorCore/Formats/Jpg/New/HuffmanTable.cs:399-412 | The size list is non-decreasing. |
| JpegHuffman.HuffmanTable.InitHuffmanCodes | src/ImageProcessorCore/Formats/Jpg/New/HuffmanTable.cs:142-309 | The four matrices are new, have 12 or 255 rows of sizes 0..16, and encode the four given tables symbol by symbol. |
| JpegHuffman.HuffmanTable.EncoderMatrices | src/ImageProcessorCore/Formats/Jpg/New/HuffmanTable.cs:144-304 | Builds the chrominance tables first, then the luminance ones, through one pair of 257-entry scratch arrays. Each matrix encodes its table. |
| TableBuilding.NewEncoderTable | src/ImageProcessorCore/Formats/Jpg/New/HuffmanTable.cs:144-198 | A new zeroed matrix encodes the table, with every size 0..16. |
| TableBuilding.BuildEncoderTable | src/ImageProcessorCore/Formats/Jpg/New/HuffmanTable.cs:167-198 | Row s of the matrix gets the (code, size) of the last position that lists s. Other rows are untouched. |
| TableBuilding.FillSizes | src/ImageProcessorCore/Formats/Jpg/New/HuffmanTable.cs:167-177 | Writes the size list, returns the number of codes, and leaves later entries alone. |
| TableBuilding.AssignCodes | src/ImageProcessorCore/Formats/Jpg/New/HuffmanTable.cs:179-192 | The loop stopped by the 0 sentinel assigns the canonical codes to huffcode[..lastp]. The entries from lastp on, such as a previous table's tail, are unchanged. |
| TableBuilding.AssignRun | src/ImageProcessorCore/Formats/Jpg/New/HuffmanTable.cs:184-188 | The positions holding size si get consecutive canonical codes. The next position's code is the running code shifted up to its size. The entries from the returned position on are unchanged. |
| TableBuilding.StoreCodes | src/ImageProcessorCore/Formats/Jpg/New/HuffmanTable.cs:194-198 | Each listed symbol's row holds the entry of its last position. Unlisted rows are unchanged. |
| TableBuilding.EncodedSizes | src/ImageProcessorCore/Formats/Jpg/New/HuffmanTable.cs:194-198 | Sizes in a built matrix are 0..16, and 0 exactly for symbols the table does not list. |
| TableBuilding.EncodedCodesFit | src/ImageProcessorCore/Formats/Jpg/New/HuffmanTable.cs:479 | Each matrix code fits its size, so BufferIt's mask keeps it whole. |
| TableBuilding.EncodedPrefixFree | src/ImageProcessorCore/Formats/Jpg/New/HuffmanTable.cs:194-198 | Codes of two different symbols in a matrix are never prefixes of one another. |
| DecoderTables.ToShort | src/ImageProcessorCore/Formats/Jpg/New/HuffmanTable.cs:16 | The C# short cast keeps a value congruent modulo 2^16 and inside [-32768, 32768). |
| DecoderTables.ShortKeepsShorterCodes | src/ImageProcessorCore/Formats/Jpg/New/HuffmanTable.cs:417-426 | With a Kraft sum of at most 1, every code shorter than 16 bits survives the `short` code and array unchanged. Only 16-bit codes can wrap. |
| DecoderTables.MinMaxAsWritten | src/ImageProcessorCore/Formats/Jpg/New/HuffmanTable.cs:445-456 | The MINCODE and MAXCODE of one length as the source computes them. Each code is read back through `short` and compared with the running entries, and an entry of -1 counts as unset for MINCODE. MAXCODE ends as the greatest of its start value and the read-back codes. MINCODE ends as one of those values, and when no code reads back as -1 it is the least of them (its start value counting only if it is not -1). |
| DecoderTables.ShortCodesLoseLength16 | src/ImageProcessorCore/Formats/Jpg/New/HuffmanTable.cs:447-455 | See Findings. |

## Left out

- Integer widths: `short` arrays and locals are modelled as unbounded integers. The C# `int` register never overflows in the model, because its value stays below 2^24 and only bits 16..23 are read. For the code tables the difference matters in two cases. First, neither the source nor FromTable excludes a BITS list whose Kraft sum exceeds 1. For such a list the source's `short code` (lines 419-429) wraps at 16 bits at any length: BITS with two codes of length 1 and one of length 15 gives codes 0, 1 and 0x8000, and the source stores -32768 where the model keeps 0x8000. Second, with a valid table, ShortKeepsShorterCodes shows that only 16-bit codes can wrap, which is the case under Findings.
- The register is kept to its low 24 bits after each shift. The source lets bits above bit 23 accumulate and masks them off on read. Bytes written are the same.
- Merge: the source combines with `|`. The model uses `+`. Merge's first two ensures prove that the operands occupy disjoint bit ranges: the window is a multiple of 2^(24 - |pending|), and the shifted code is below it. So on these operands `|` and `+` agree.
- BufferIt requires `bufferPutBits + size <= 24`, which holds on every call the encoder makes (pending < 8, size <= 16).
- HuffmanBlockEncoder: requires DC categories below 12. The DC matrices have 12 rows and row Category(diff) is read, so a larger category makes the source throw an index exception. It also requires every AC category to be at most 14, which is narrower than the source. At line 384 the run r is at most 15, and the AC matrices have 255 rows (lines 146-147). So the source reads past the end exactly when `16*r + nbits >= 255`: a category of 15 or more after a run of 15, or a larger category after a shorter run (for example, 31 after a run of 14). When the row is in range but the category is 15 or more, the category spills into the run nibble, and the source sends row 16*r + nbits, which is another symbol's row. Categories above 14 are excluded outright because T.81 limits AC categories to 10 for 8-bit samples and to 14 for 12-bit samples, so no conforming block reaches them. The model says nothing about blocks with an AC category of 15 or more.
- HuffmanBlockEncoder: the source works on 32-bit `int`, and the model on unbounded integers under the category bounds above. Three source behaviours fall outside those bounds and are not modelled. First, when `zigzag[0] - prec` is `int.MinValue`, `temp = -temp` wraps back to `int.MinValue`; the arithmetic shift `temp >>= 1` then stays at -1, and the DC loop at lines 337-342 never ends. Second, an AC coefficient of `int.MinValue` makes the loop `while ((temp >>= 1) != 0)` at lines 379-382 run forever in the same way. Third, when the 32-bit subtraction `zigzag[0] - prec` overflows, the source encodes the wrapped difference, while the model's requirement `Category(zigzag[0] - prec) < 12` is stated on the exact difference and excludes such inputs.
- HuffmanBlockEncoder takes the zig-zag map as a parameter; `ZigZag.ZigZagMap` is not part of this model.
- HuffmanBlockEncoder receives prec by value and does not update the predictor. The caller does that, and neither is modelled here.
- FlushBuffer writes the pending bits but does not reset `bufferPutBits`/`bufferPutBuffer`, as in the source. Its padding is 0 bits, as the source writes it. T.81's convention pads the last byte of an entropy-coded segment with 1 bits, which decoders do not depend on.
- ForEncoding builds the matrices through EncoderMatrices, the same procedure InitHuffmanCodes uses, instead of calling InitHuffmanCodes on the new object.
- FromTable runs the three Figure procedures through the same loops (FillSizes, CodeTableLoop, DecoderLoop) on the new arrays, instead of calling GenerateSizeTable, GenerateCodeTable and GenerateDecoderTables.
- FromTable requires 1 to 255 codes. With no codes, the Figure C.2 loop of the source runs past the end of huffmanSize, because every entry equals si = 0. With 256 codes it has no terminating 0. Both end in an index exception, which is not modelled.
- The four standard tables are parameters. `JpegHuffmanTable`'s constants, `HUFFMAN_MAX_TABLES`, `JPEG_DC_TABLE`, `JPEG_AC_TABLE`, `ImageHeight` and `ImageWidth` are not used by the modelled operations.
- `DC_matrix` and `AC_matrix` (the two-element arrays of matrices) are modelled by `DcTable`/`AcTable`, which select matrix 0 or 1.
- Streams are modelled as `ByteSink`, the sequence of bytes written. I/O errors are not modelled.
- The split of HuffmanBlockEncoder into EncodeDc, EncodeAcs, EncodeAc, SendZrls, SendCoded, SendNext and SendEob is proof structure. Their bodies are the source's statements in order.

## Findings

| source | as written | input that shows it | evidently intended | confidence | as-written member | corrected member |
|---|---|---|---|---|---|---|
| src/ImageProcessorCore/Formats/Jpg/New/HuffmanTable.cs:447-455 | Codes are stored in `short[] huffmanCode`, so a 16-bit code from 0x8000 up reads back negative. For length 16, MINCODE and MAXCODE become the least and greatest values read back, and MAXCODE starts at -1. When every length-16 code is 0x8000 or above, as in the standard AC tables, every value reads back negative and MAXCODE stays -1, so no length-16 code is inside [MINCODE, MAXCODE]. When the length-16 codes straddle 0x8000, MINCODE is -32768 (0x8000 read back) and MAXCODE is the greatest code below 0x8000. The codes below 0x8000 then fall inside the range, but VALPTR is computed from -32768, so they map to the wrong symbols. | BITS with one code of length 1 and one of length 16: codes 0 and 0x8000. MINCODE[15] = -32768, MAXCODE[15] = -1. | MINCODE[15] = MAXCODE[15] = 0x8000 and VALPTR[15] = 1 - 0x8000, as Figure F.15 gives on unsigned 16-bit codes. | not executed | DecoderTables.ShortCodesLoseLength16, DecoderTables.MinMaxAsWritten | JpegHuffman.HuffmanTable.GenerateDecoderTables |
