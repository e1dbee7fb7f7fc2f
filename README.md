# tagcode in Dafny

This is a Dafny model of the tag-data decoding core of the RSP software toolkit's `tagcode`
package (Go). It has two layers.

**The bit-slicing engine** (`bitextract`):
- `BitExtractor` copies a bit range of a byte buffer into the fewest whole bytes, right-aligned. Bit 0 is the most significant bit of byte 0.
- `BitExploder` chains extractors at cumulative offsets taken from a list of field widths.
- `BitReader` is a cursor that reads one field at a time.
- `SplitWidths` parses a list of widths out of a configuration string.

**The codecs built on it:**
- the SGTIN-96 and SGTIN-198 decoder as `epc/sgtin.go` writes it, with the headers, partition table and field layout of the GS1 EPC Tag Data Standard 1.12, range checks, the GS1 mod-10 check digit, the GTIN-14 and the pure-identity URI. Its SGTIN-198 serial is not the standard's 7-bit text (see Left out);
- the 7-bit packed ASCII decoder, GS1 percent escaping and the GS1 character-set predicates (`epc/ascii.go`);
- the tag-URI decoder (`bittag/bittag.go`) and its older twin (`bittag.go`). It checks an RFC 4151 tagging entity ("tag:" authority "," date), turns tag bytes into numeric fields, renders them as a dot-separated URI and reads that URI back.

Layout:
- `bits.dfy`: the reference meaning of a bit range. `BitString` gives 8 bits per byte, most significant first. `BitsValue(src, start, len)` is the number those bits spell. `ExtractedBytes` is the right-aligned bytes the extractor must produce. The module also holds `BigEndian` and the byte arithmetic (shifts, `|`, `&`) written on integers.
- `text.dfy`: Go strings as byte sequences. It has `strings.Split`/`SplitN`/`Join`/`TrimSpace`, `strconv.Atoi`/`ParseUint`, and decimal and zero-padded rendering.
- `wrappers.dfy`: `Option`, `Result` and `Outcome` (an error or nothing).
- `bitextract.dfy`, `bitfields.dfy`, `sgtin.dfy`, `ascii.dfy`, `bittag.dfy`, `legacy_bittag.dfy`: one module per Go file of the core.

How Go maps onto the model:
- A Go panic is a `requires`; a returned `error` is a `Failure`/`Fail` value. Error texts are not modelled.
- Structs the code updates in place are classes: `BitExtractor`, `BitExploder`, `BitReader` and the two decoders.
- Value structs are datatypes: `SGTIN` and `BitTag`.
- Loops that fill buffers are methods over arrays, proved against the reference functions.

## Model

| member | source | states |
|---|---|---|
| BitExtract.LayoutOf | bitextract/bitextract.go:76-94 | the precomputed layout means what it should: byteStart holds the first bit, dstLen is the fewest whole bytes, rshift is 0..7 with lshift = 8 - rshift, srcLen is dstLen or dstLen+1, aligned iff rshift = 0, the previous-byte case iff shifted with srcLen = dstLen, and the mask keeps the head bits |
| BitExtract.DescribesUnique | bitextract/bitextract.go:76-94 | those facts pin the layout down: any layout with them is LayoutOf(start, len) |
| BitExtract.GoBounds | bitextract/bitextract.go:76-84 | SetBounds' own formulas (start/8, len/8 + ifAligned, the srcEndByte arithmetic, 8 - srcEndOffset - 1, the ifAligned mask) give exactly LayoutOf |
| BitExtract.GoArithmetic | bitextract/bitextract.go:76-83 | the integer identities behind GoBounds: byte index, byte count, window length and right shift agree with the Go expressions |
| BitExtract.LayoutLonger | bitextract/bitextract.go:77-84 | New(s, l+8) has dstLen one larger and the same byteStart, rshift, lshift and mask |
| BitExtract.LayoutLater | bitextract/bitextract.go:77-84 | New(s+8, l) has byteStart one larger and the same dstLen, rshift, lshift and mask |
| BitExtract.LayoutNextBit | bitextract/bitextract.go:77-84 | moving the start one bit keeps dstLen, moves byteStart by at most one and moves the shifts by one unless they wrap |
| BitExtract.WindowArithmetic | bitextract/bitextract.go:77-80 | the source window starts in the byte of the first bit, ends rshift bits past the last bit on a byte boundary, and spans dstLen or dstLen+1 bytes (dstLen when aligned) |
| BitExtract.MaskHead | bitextract/bitextract.go:150 | dest[0] &= mask keeps the low head bits of the byte and leaves it at most mask |
| BitExtract.BitExtractor.SetBounds | bitextract/bitextract.go:66-96 | panics unless start >= 0, len >= 1 and start+len does not overflow; afterwards the extractor is valid and its fields are LayoutOf(start, len) |
| BitExtract.BitExtractor.constructor | bitextract/bitextract.go:52-56 | New(start, len) panics under the same conditions as SetBounds and gives a valid extractor for bits [start, start+len) |
| BitExtract.BitExtractor.ByteLength | bitextract/bitextract.go:37-39 | the byte count is the fewest whole bytes holding len bits |
| BitExtract.BitExtractor.Buffer | bitextract/bitextract.go:42-44 | a fresh zeroed array of ByteLength bytes |
| BitExtract.BitExtractor.ExtractTo | bitextract/bitextract.go:121-151 | panics unless the source covers the window and the destination has dstLen bytes; writes exactly ExtractedBytes (the bit-string reference) into dest[0..dstLen) with dest[0] <= mask; every other byte of dest is unchanged |
| BitExtract.FillAligned | bitextract/bitextract.go:134-135 | the aligned case copies the source window, which is the reference bytes before masking |
| BitExtract.FillPrev | bitextract/bitextract.go:136-142 | the previous-byte loop produces the reference bytes before masking and leaves the rest of dest alone |
| BitExtract.FillNext | bitextract/bitextract.go:143-148 | the next-byte loop produces the reference bytes before masking and leaves the rest of dest alone |
| BitExtract.BitExtractor.Extract | bitextract/bitextract.go:115-119 | returns ByteLength bytes equal to the reference bytes, whose big-endian value is the value of bits [start, start+len) |
| BitExtract.BitExtractor.ExtractUInt64 | bitextract/bitextract.go:107-113 | with dstLen <= 8, returns the value of bits [start, start+len), below 2^len and 2^64 |
| BitExtract.ExtractorFits | bitextract/bitextract.go:121-126 | a buffer holding the extractor's bits covers its source window, and 64 bits or fewer need at most 8 destination bytes |
| Bits.ExtractedValue | bitextract/bitextract.go:121-151 | the big-endian value of the reference bytes is the value of the bit range |
| Bits.BitsReference | bitextract/bitextract.go:121-151 | the value of a bit range is the number spelled by that slice of the buffer's bit string, MSB first |
| BitFields.FirstNonPositive | bitextract/bitfields.go:194-197 | the index of the first width <= 0 (or the length): every width before it is positive |
| BitFields.OffsetMonotone | bitextract/bitfields.go:192-201 | field offsets grow by at least each field's width |
| BitFields.ExplodedBytesMonotone | bitextract/bitfields.go:201 | the byte offsets of the exploded fields grow by each field's byte count |
| BitFields.ByteCountCeil | bitextract/bitfields.go:201 | a field's byte count is ceil(w/8) |
| BitFields.ExplodedBytesExample | bitextract/bitfields.go:201 | widths [1,8,16,2,9,17] need 10 bytes once exploded |
| BitFields.WindowFits | bitextract/bitfields.go:47-53 | data with enough bits covers every extractor's source window |
| BitFields.FieldOfValue | bitextract/bitfields.go:61-70 | exploded field i's big-endian value is the value of bits [offset_i, offset_i + w_i) |
| BitFields.NewExtractors | bitextract/bitfields.go:192-202 | the SetWidths loop: extractor i starts at the sum of earlier widths with length w_i, bitLength is the sum, expByteLen grows by each field's byte count; the loop stops at the first width <= 0 |
| BitFields.BitExploder.SetWidths | bitextract/bitfields.go:187-204 | an error, with nothing changed, for no widths; the error names the first width <= 0; extractors at cumulative offsets; expByteLen is added to its old value, not reset |
| BitFields.NewBitExploder | bitextract/bitfields.go:22-30 | succeeds iff the widths are non-empty and all positive, and then the exploder is valid, with expByteLen = the sum of ceil(w_i/8) |
| BitFields.BitExploder.NumFields | bitextract/bitfields.go:155-157 | the number of fields is the number of widths, at least one |
| BitFields.BitExploder.BitLength | bitextract/bitfields.go:206-208 | the offset of the last field plus its width |
| BitFields.BitExploder.ExplodedByteLength | bitextract/bitfields.go:78-80 | at least the bytes all exploded fields need |
| BitFields.BitExploder.Buffer | bitextract/bitfields.go:144-152 | NumFields slices of one fresh zeroed array; slice i has field i's byte count and the slices follow one another |
| BitFields.Carve | bitextract/bitfields.go:144-152 | the carving loop lays the slices end to end at the exploded byte offsets |
| BitFields.BitExploder.DataFits | bitextract/bitfields.go:46-53 | len(data)*8 >= bitLength iff every extractor's source window lies inside the data |
| BitFields.BitExploder.ExplodeTo | bitextract/bitfields.go:61-70 | each destination slice holds its field's reference bytes; bytes outside the slices are unchanged |
| BitFields.ExtractAll | bitextract/bitfields.go:66-69 | the extraction loop fills every destination, writes to disjoint slices and leaves earlier ones intact |
| BitFields.BitExploder.Explode | bitextract/bitfields.go:46-55 | an error iff len(data)*8 < bitLength; otherwise field i is the reference bytes of bits [offset_i, offset_i + w_i), with that big-endian value |
| BitFields.BitExploder.NewBitReader | bitextract/bitfields.go:90-94 | a reader at field 0 around its own fresh copy of the exploder (same widths, extractors and lengths); the SetData error when the data is short |
| BitFields.BitExploder.Copy | bitextract/bitfields.go:91-92 | the value-receiver copy: a fresh, valid exploder with the same widths, extractors, bit length and byte length |
| BitFields.ReaderKeepsWidths | bitextract/bitfields.go:91-92 | a reader made before a later SetWidths on its exploder keeps the old widths and bit length, and stays valid |
| BitFields.BitReader.Reset | bitextract/bitfields.go:98-100 | only the cursor goes back to 0 |
| BitFields.BitReader.SetData | bitextract/bitfields.go:103-111 | short data is an error with the state unchanged; otherwise the data is replaced and the cursor is 0 |
| BitFields.BitReader.Read | bitextract/bitfields.go:122-137 | EOF with nothing changed after the last field; ShortBuffer without advancing when p is too small; otherwise p is zeros then the field right-aligned, with the field's value, the cursor advances and len(p) is returned |
| BitFields.ExtractRight | bitextract/bitfields.go:131-134 | zero-fill then extract into the tail gives zeros followed by the field, with the same big-endian value |
| BitFields.RightAligned | bitextract/bitfields.go:131-134 | leading zeros do not change a big-endian value |
| BitFields.BitExploder.FieldInto | bitextract/bitfields.go:126-134 | p becomes zeros followed by field i's bytes and holds field i's value |
| BitFields.SplitWidths | bitextract/bitfields.go:170-184 | the loop computes ReadAll over strings.Split(conf, delim) for any delimiter, the empty one included, parsing each piece after TrimSpace |
| BitFields.ParsedWidth | bitextract/bitfields.go:173-180 | an error for a piece names that piece's index |
| BitFields.ReadAllMeaning | bitextract/bitfields.go:172-183 | succeeds iff every piece parses, and then yields each piece's value in order; otherwise the error is that of the first bad piece |
| BitFields.SplitWidthsMeaning | bitextract/bitfields.go:170-184 | the same for SplitWidths: success iff every trimmed piece is a valid integer; the error carries the index of the first bad one |
| BitFields.ReadAllFailed | bitextract/bitfields.go:174-180 | the first failure ends the loop: later pieces do not matter |
| BitFields.SplitWidthsRoundTrip | bitextract/bitfields.go:170-184 | widths rendered in decimal and joined by a delimiter that is not a digit, sign or space parse back to the same widths |
| BitFields.RenderedReads | bitextract/bitfields.go:173-177 | a 64-bit integer rendered in decimal parses back to itself |
| BitFields.SplitWidthsDigits | bitextract/bitfields.go:170-184 | with the empty delimiter, a configuration of single ASCII digits reads as one width per digit |
| Text.AtoiFormatInt | bitextract/bitfields.go:177 | strconv.Atoi reads back any int64 that strconv renders |
| Text.AtoiErrors | bitextract/bitfields.go:177-180 | with digits the text after an optional sign: a syntax error iff digits is empty or holds a non-digit before its leading value passes 2^64-1; a range error iff that leading value passes 2^64-1, or all of digits is a number outside the int64 range; what Atoi accepts starts with a sign or a digit |
| Text.ParseUint | epc/sgtin.go:177 | strconv.ParseUint(s, 10, bits) succeeds iff s is a non-empty digit string worth less than 2^bits, with that value; a range error iff its leading digits are worth 2^bits or more, even when a non-digit follows; otherwise a syntax error |
| Text.ScanUintMeaning | epc/sgtin.go:177 | the left-to-right scan with Go's cutoff and 64-bit wrap-around tests stops at whichever comes first, the first non-digit or the first digit that takes the value past maxVal |
| Text.TrimSpaceShape | bitextract/bitfields.go:173-176 | TrimSpace keeps one slice of the string: before it only Unicode white-space runes (ASCII \t \n \v \f \r and space, U+0085, U+00A0, U+1680, U+2000-U+200A, U+2028, U+2029, U+202F, U+205F, U+3000 in UTF-8), after it only such runes, and the slice neither starts nor ends with one; it is empty iff the string is all white-space runes |
| Text.TrimSpaceIdempotent | bitextract/bitfields.go:173 | trimming twice gives what trimming once gives |
| Text.JoinSplit | bitextract/bitfields.go:172 | joining the pieces of strings.Split on a non-empty separator gives back the string |
| Text.SplitJoin | bitextract/bitfields.go:172 | splitting pieces that lack the separator after joining them gives back the pieces |
| Text.ExplodePieces | bitextract/bitfields.go:172 | strings.Split with an empty separator gives non-empty pieces, each one whole UTF-8 sequence (or one byte that starts none) |
| Text.JoinExplode | bitextract/bitfields.go:172 | those pieces joined with nothing between them give back the string |
| Text.ExplodeAscii | bitextract/bitfields.go:172 | on ASCII text they are the single bytes, in order |
| Sgtin.TablesArePowers | epc/sgtin.go:298-318 | maxItems[p] = 10^p and maxPrefix[p] = 10^(12-p) - 1 |
| Sgtin.ValidateRanges | epc/sgtin.go:143-166 | Pass iff the indicator is 0..9, the partition 0..6, the item reference below 10^p, the company prefix below 10^(12-p), and the serial 1..20 bytes; the filter is not checked; the first failing check names the error |
| Sgtin.NewSGTIN | epc/sgtin.go:84-94 | the SGTIN holds the given values, with Pass iff they are in range |
| Sgtin.CanSGTIN96 | epc/sgtin.go:173-186 | Pass iff the serial is non-empty decimal digits worth less than 2^38 with no leading '0' unless it is "0" |
| Sgtin.Serial96Canonical | epc/sgtin.go:177-184 | a serial SGTIN-96 accepts is the decimal rendering of its value |
| Sgtin.DecimalSerial96 | epc/sgtin.go:177-184 | the decimal rendering of any number below 2^38 is accepted |
| Sgtin.Weight | epc/sgtin.go:243 | ((d1-i) & 1) << 1 \| 1 is 3 at odd positions and 1 at even ones |
| Sgtin.CheckSum | epc/sgtin.go:241-247 | the digit loop computes CheckSumOf: each digit of n times its weight, 0 for n = 0 |
| Sgtin.CheckSumDigits | epc/sgtin.go:241-247 | checkSum of a digit string's value is the weighted sum of its digits |
| Sgtin.CheckSumParity | epc/sgtin.go:238-240 | only the parity of d1 matters |
| Sgtin.CheckDigit | epc/sgtin.go:250-257 | the check digit is 0..9 and brings the weighted sum to a multiple of ten |
| Sgtin.CheckDigitUnique | epc/sgtin.go:250-257 | no other digit does |
| Sgtin.CheckDigitCompletes | epc/sgtin.go:255-256 | the data sum plus the check digit is a multiple of ten |
| Sgtin.CheckDigitSingle | epc/sgtin.go:250-257 | with one non-zero digit d at position p (item reference, company prefix or indicator), the check digit is 10-d at even p and (10 - 3d mod 10) mod 10 at odd p |
| Sgtin.GTIN | epc/sgtin.go:189-202 | the GTIN ends in the check digit |
| Text.PaddedAny | epc/sgtin.go:197-201 | fmt's %0*d: zero-padded to a width 0..10^6; left-justified with spaces for a width -10^6..-1; "%!(BADWIDTH)" then the bare number for a width beyond 10^6 either way |
| Sgtin.GTINBadWidth | epc/sgtin.go:197-201 | for a partition above 10^6 + 12, both padded fields of the GTIN become "%!(BADWIDTH)" followed by the bare number |
| Sgtin.GTINValid | epc/sgtin.go:189-202 | for an in-range SGTIN, the GTIN is 14 digits with a valid GS1 check sum: the indicator, then the company prefix padded to 12-p digits, then the item reference padded to p digits, then the check digit |
| Sgtin.URIFields | epc/sgtin.go:206-220 | for an in-range SGTIN, the URI after its prefix splits into the company prefix padded to 12-p digits, the indicator followed by the item reference padded to p digits (just the indicator for p = 0), and the unescaped serial |
| Sgtin.URI | epc/sgtin.go:206-220 | the URI starts with "urn:epc:id:sgtin:" |
| Sgtin.URIAfterPrefix | epc/sgtin.go:215-219 | what follows the prefix is the three dot-separated fields |
| Sgtin.FilterValues | epc/sgtin.go:392-395 | IsValid holds exactly for 0, 1, 2, 4, 6 and 7 |
| Sgtin.PartitionTable | epc/sgtin.go:259-293 | for each partition the company and IIR widths add up to 44 (so the IIR extractor starts where the company one ends), 10^(12-p) <= 2^companyWidth and 10^(p+1) <= 2^iirWidth |
| Sgtin.Decoded | epc/sgtin.go:327-374 | (corrected) decoding succeeds iff the header is 0x30 with 12 bytes or 0x36 with 25 bytes and the partition field is at most 6 |
| Sgtin.DecodedAsWritten | epc/sgtin.go:327-374 | what the code returns succeeds under exactly the same conditions |
| Sgtin.DecodeSGTIN | epc/sgtin.go:327-374 | the method reads the fields with the extractor tables, splits the IIR as line 363 does, and returns DecodedAsWritten(b) |
| Sgtin.DecodedValue | epc/sgtin.go:347-373 | (corrected) a decoded SGTIN has the filter and partition bits, the company prefix from companyExt[p], and the indicator and item reference split correctly from iirExt[p]'s value |
| Sgtin.DecodedAsWrittenValue | epc/sgtin.go:347-373 | what the code returns has the same filter, partition, company prefix, indicator and serial, and the item reference of SplitIIRAsWritten |
| Sgtin.DecodersAgree | epc/sgtin.go:359-364 | the code and the corrected decoding fail on the same input and differ only in the item reference; they agree iff decoding fails, p = 0 or the indicator is 0 |
| Sgtin.DecodedAsWrittenFields | epc/sgtin.go:347-373 | what the code returns: filter at most 7, partition 0..6, company prefix within its width, item reference 0 for p = 0, and the 44 bits after the partition are company·2^iirWidth + indicator·10^(p+1) + itemRef for p > 0 (company·2^iirWidth + indicator for p = 0) |
| Sgtin.IndicatorZero | epc/sgtin.go:359-362 | the indicator is 0 iff the IIR field is below 10^p |
| Sgtin.DecodedFields | epc/sgtin.go:347-373 | (corrected) on success the filter is at most 7, the partition 0..6, the company prefix fits its width, the item reference is below 10^p, and the 44-bit region is company·2^iirWidth + indicator·10^p + itemRef |
| Sgtin.DecodeRecovers | epc/sgtin.go:327-374 | (corrected) bits laid out from an in-range SGTIN decode back to its company prefix, indicator and item reference |
| Sgtin.DecodedSerial96 | epc/sgtin.go:338 | the SGTIN-96 serial the code returns is the decimal of the 38 serial bits, so it always passes CanSGTIN96 |
| Sgtin.SerialOf | epc/sgtin.go:332-343 | the SGTIN-96 serial is the decimal of bits 58..95; SGTIN-198's is Go's "%d" of the 18 extracted bytes |
| Sgtin.ByteSliceTextReads | epc/sgtin.go:343 | "%d" of a byte slice is "[" + the bytes in decimal separated by spaces + "]", from which every byte reads back |
| Sgtin.ReadHeaderFields | epc/sgtin.go:347-354 | the filter and partition are bits 8..10 and 11..13 |
| Sgtin.ReadNumberFields | epc/sgtin.go:356-357 | the company prefix and IIR are the values of companyExt[p] and iirExt[p] |
| Sgtin.ReadSerial | epc/sgtin.go:332-346 | the serial text read through serial96Ext or serial198Ext is SerialOf(b) |
| Sgtin.SplitIIR | epc/sgtin.go:359-364 | (corrected) indicator·10^p + itemRef = iir with 0 <= itemRef < 10^p |
| Sgtin.SplitIIRAsWritten | epc/sgtin.go:359-364 | as written, itemRef = iir - indicator·10^p·10 falls short of the corrected one by 9·indicator·10^p when p > 0 |
| Sgtin.SplitIIRAsWrittenAgrees | epc/sgtin.go:359-364 | the two agree iff p = 0 or the indicator is 0 |
| Sgtin.SplitIIRAsWrittenExample | epc/sgtin.go:363 | iir 12 in partition 1 splits as written into (1, -88), and correctly into (1, 2) |
| Sgtin.AsWrittenOutOfRange | epc/sgtin.go:359-364 | an SGTIN-96 with non-zero partition and indicator and an in-range company prefix passes ValidateRanges under the corrected split, while the code's item reference is negative and ValidateRanges fails with BadItemRef |
| Sgtin.ItemRefTestP4Ranges | epc/sgtin_test.go:103 | the test tag 301000181C2CC193A8B43711 (and any SGTIN-96 with its first eight bytes) decodes as written to item reference -354170 and fails with BadItemRef(4, -354170); the corrected split gives indicator 4, item reference 5830, and passes |
| Sgtin.ItemRefTestP1Ranges | epc/sgtin_test.go:105 | the test tag 30244032EACFF145202001E8 (and any SGTIN-96 with its first eight bytes) decodes as written to item reference -531 and fails with BadItemRef(1, -531); the corrected split gives indicator 6, item reference 9, and passes |
| Ascii.NewAsciiExtracts | epc/ascii.go:29-38 | eight valid 7-bit extractors starting at bits 0, 7, 6, 5, 4, 3, 2, 1 |
| Ascii.ExtractorLands | epc/ascii.go:121-126 | extractor (8-offset+i) mod 8 on data[i - (i+7-offset)/8:] starts exactly at bit offset+7i |
| Ascii.Decoded | epc/ascii.go:110-141 | the output has (8·len - offset)/7 characters (none when that is not positive); out[i] is the 7-bit value of bits [offset+7i, offset+7i+7) and below 128; nullTerm is the first null or the length; extra iff a non-null follows the first null; for empty output, extra iff the data is one non-null byte |
| Ascii.DecodeASCIIAt | epc/ascii.go:110-141 | panics unless 0 <= offset <= 7; returns Decoded(data, offset) |
| Ascii.UnpackChars | epc/ascii.go:120-135 | the loop fills outdata with the characters and tracks nullTerm (-1 until a null) and extra |
| Ascii.DecodeStep | epc/ascii.go:124-134 | one iteration appends the next character and updates nullTerm and extra |
| Ascii.FirstNullSpec | epc/ascii.go:128-139 | FirstNull is the index of the first null, with none before it |
| Ascii.HasExtraSpec | epc/ascii.go:132-134 | HasExtra iff a non-null follows the first null |
| Ascii.NullMark | epc/ascii.go:120-139 | -1 exactly when there is no null |
| Ascii.GetASCII | epc/ascii_test.go:24-54 | the test packer: the bit string is offset zeros, 7 bits per character, then zero padding to a byte |
| Ascii.DecodePacked | epc/ascii_test.go:24-54 | decoding packed text at its offset gives the text, plus one null when the padding holds a whole character, with nullTerm and extra taken from the text |
| Ascii.DecodePackedText | epc/ascii_test.go:56-100 | for null-free text, decoding gives the text before nullTerm = its length, and extra is false |
| Ascii.PackerLength | epc/ascii_test.go:30-45 | the packer's bit string is the marker byte, ones for the offset, 7 bits per character and the zero padding |
| Ascii.EscapeByte | epc/ascii.go:40-50 | null is dropped, any other byte outside " # % & / < > ? is kept as it is, and what comes out holds no null and no reserved byte but '%' |
| Ascii.Escape | epc/ascii.go:157-159 | the escaped text has no null and no reserved byte other than '%' |
| Ascii.UnescapeEscape | epc/ascii.go:157-175 | UnescapeGS1(EscapeGS1(s)) is s without its nulls, hence s itself for null-free s |
| Ascii.EscapeDropNulls | epc/ascii.go:49 | escaping ignores nulls |
| Ascii.EscapeUnescape | epc/ascii.go:157-175 | escaping, unescaping and escaping again gives the first escaping |
| Ascii.EscapePlain | epc/ascii.go:157-159 | text with no null or reserved byte escapes to itself |
| Ascii.UnescapePlain | epc/ascii.go:173-175 | text with none of the eight escape sequences (e.g. "%10") unescapes to itself |
| Ascii.Unescape | epc/ascii.go:52-61 | unescaping never lengthens text |
| Ascii.Table | epc/ascii.go:64-84 | entry c of a character table is set iff c is in the set |
| Ascii.EncodableFrom | epc/ascii.go:182-196 | the scan accepts iff every byte before the first null is at most 127 and in the table, and every byte after it is null |
| Ascii.IsGS1AIEncodable | epc/ascii.go:182-196 | (corrected) true iff every byte before the first null is a GS1 AI character and only nulls follow it; the empty string is valid; bytes above 127 fail |
| Ascii.IsGS1CompPartEncodable | epc/ascii.go:201-215 | (corrected) the same with the component/part character set |
| Ascii.IsGS1AIEncodableAsWritten | epc/ascii.go:182-196 | with the [127] table, defined only when no byte 127 precedes the first null, where it agrees with the corrected predicate |
| Ascii.IsGS1CompPartEncodableAsWritten | epc/ascii.go:201-215 | the same for the component/part table |
| Ascii.DelPastTable | epc/ascii.go:191 | "\x7F" has 127 & 0x7F equal to the table length, so the written code indexes past its table; the corrected predicates reject it |
| Ascii.LowSevenBits | epc/ascii.go:191 | & 0x7F leaves a byte at most 127 unchanged |
| BitTag.GroupsShape | bittag/bittag.go:19 | the regex's repeated group matches exactly label bytes and dots with no two dots in a row and no trailing dot |
| BitTag.AuthorityPatternShape | bittag/bittag.go:19 | the authority regex as written accepts exactly a lower-case letter followed by such a dot-separated run |
| BitTag.AuthorityMatchesPattern | bittag/bittag.go:19 | (corrected) every authority the corrected check accepts also matches the regex |
| BitTag.AuthorityParts | bittag/bittag.go:118-121 | (corrected) an authority the corrected check accepts splits on '.' into parts of 1..63 bytes |
| BitTag.AuthorityPatternLongLabel | bittag/bittag.go:19 | "a" followed by 64 'b's matches the regex but has a 65-byte label, which the corrected check refuses |
| BitTag.DaysIn | bittag/bittag.go:144 | a month has 28..31 days, and 29 exactly for February of a leap year |
| BitTag.TaggingEntity | bittag/bittag.go:126-150 | success iff the authority and date are non-empty, the authority is at most 255 bytes and matches the regex as written, and the date is a yyyy-MM-dd calendar date; empty authority, then empty date, then a bad authority are reported in that order; the prefix is "tag:" + authority + "," + date |
| BitTag.TaggingEntityLongLabel | bittag/bittag.go:136 | the check as written accepts "a" followed by 64 'b's, whose label the corrected check refuses |
| BitTag.TaggingEntityUnique | bittag/bittag.go:148 | different tagging entities give different prefixes |
| BitTag.Decoder.SetTaggingEntity | bittag/bittag.go:126-150 | Pass iff TaggingEntity succeeds, which sets the prefix; on an error the prefix is unchanged |
| BitTag.NewDecoder | bittag/bittag.go:99-112 | a tagging-entity error leaves the zero decoder; otherwise the prefix is set, and success iff the widths are non-empty and positive; the exploder is valid on success and zero on failure |
| BitTag.BitTag.String | bittag/bittag.go:53-63 | the builder loop produces the decimal fields joined by '.' ("" for none) |
| BitTag.BitTag.URI | bittag/bittag.go:48-50 | the URI is the prefix, ':' and String |
| BitTag.BitTag.NumFields | bittag/bittag.go:66-68 | the number of fields |
| BitTag.DottedCons | bittag/bittag.go:58-61 | each field but the last is followed by '.' |
| BitTag.RightAlign | bittag/bittag.go:179-182 | PutUint64(buff, 0) then a copy into the tail gives zeros then the field, with the field's big-endian value |
| BitTag.DecodeWith | bittag/bittag.go:163-191 | an error iff len(data)*8 < BitLength; otherwise the tag carries the prefix and field i is the big-endian value of bits [offset_i, offset_i + w_i) |
| BitTag.Decoder.Decode | bittag/bittag.go:163-191 | the decoder's Decode is DecodeWith on its prefix and exploder |
| BitTag.FirstNonNumeral | bittag/bittag.go:208-213 | the index of the first piece that fieldsRegex rejects |
| BitTag.ParseFields | bittag/bittag.go:195-216 | with fields the text after prefix + ":" split at the first NumFields-1 dots: a wrong prefix is BadPrefix; fewer than NumFields pieces is MissingFields(the shortfall); otherwise the first piece that is not a digit run is BadField(its index); success iff the prefix matches, there are NumFields pieces and all are digit runs, and then the result is those pieces, which join with '.' into the text after the prefix |
| BitTag.ParseJoined | bittag/bittag.go:195-216 | any non-empty list of digit runs, leading zeros included, joined with '.' after prefix + ":" parses back to that list |
| BitTag.URIRoundTrip | bittag/bittag.go:197-216 | Fields of a tag's URI succeeds and gives its fields in decimal |
| BitTag.URIUnique | bittag/bittag.go:24-27 | two tags with the same prefix and field count have the same URI only if their fields are equal |
| BitTag.Decoder.DecodedRoundTrip | bittag/bittag.go:197-216 | a tag the decoder could produce reads back through Fields as its decimal fields |
| BitTag.FieldAt | bittag/bittag.go:223-232 | (corrected) success iff Fields succeeds and 0 <= idx < NumFields, and then the value is that piece |
| BitTag.FieldRoundTrip | bittag/bittag.go:223-232 | Field of a tag's URI gives field idx in decimal for every index in range and an error otherwise |
| BitTag.FieldGuardPastEnd | bittag/bittag.go:228 | the guard idx > len(fields) lets idx = NumFields through on a valid URI, where the corrected Field errors |
| BitTag.DecodeExample | bittag/bittag_test.go:27-35 | widths [8,48,40] on bytes 0F00000000000C00000014D2 give the fields 15, 12, 5330 |
| BitTag.EntityExample | bittag/bittag_test.go:30-31 | "test.com" with "2019-01-01" is a valid tagging entity |
| BitTag.DottedExample | bittag/bittag_test.go:38-39 | the fields 15, 12, 5330 render as "15.12.5330" |
| BitTag.URIExample | bittag/bittag_test.go:38-41 | that tag's URI is prefix + ":15.12.5330", and its field 2 is "5330" |
| LegacyBitTag.BitTagDecoder.SetTaggingEntity | bittag.go:179-203 | the same checks and prefix as the newer decoder; on an error the prefix is unchanged |
| LegacyBitTag.NewBitTagDecoder | bittag.go:32-45 | the same error propagation and resulting state as NewDecoder |
| LegacyBitTag.BitTagDecoder.Decode | bittag.go:108-136 | an error iff len(data)*8 < BitLength; otherwise the tag carries the prefix and each field's big-endian value |
| LegacyBitTag.BitTagDecoder.DecodedRoundTrip | bittag.go:142-161 | a tag the legacy decoder could produce reads back through its Fields as its decimal fields |

## Left out

- BitExtractor concurrency (bitextract/bitextract.go:26-27): concurrent use is not modelled.
- BitExtract.BitExtractor.ExtractUInt64: gets a fresh zeroed 8-byte array instead of a `sync.Pool` buffer, because reusing pool buffers is resource management with no effect on the result.
- The package-level extractor tables (`asciiExtracts`, `filterExt`, `companyExt`, …): built where they are used (`Ascii.NewAsciiExtracts`, `Sgtin.ReadNumberFields`) rather than kept as globals, because Dafny has no mutable globals; they hold the same bounds.
- BitExtract.BitExtractor: the bit length is a ghost field; the Go struct does not keep it.
- Hex-string entry points: `BitExploder.DecodeString`, `Decoder.DecodeString`, `BitTagDecoder.DecodeString`, `DecodeSGTINString`, `SGTINToGTIN14` and `SGTINToPureURI`. They wrap `encoding/hex` around the byte-level operations the model covers.
- Error values: error texts and `errors.Wrapf` chains are not modelled. Each error is a variant that keeps only the numbers it reports.
- BitFields.BitExploder.ExplodeTo: requires the destination slices to be disjoint from one another. Go also accepts overlapping destinations, where fields are written in order and the last writer wins, and a destination that aliases `data`; neither is modelled, and `data` is passed as a value.
- Text.ParseUint: models only bit sizes 1 to 64 and base 10, the arguments the code passes (38 for the SGTIN-96 serial, 64 inside Atoi).
- Text.Atoi: `int` is taken to be 64 bits wide.
- Sgtin.DecodeSGTIN: the item reference is the code's as-written split (see Findings); `Sgtin.Decoded` is the corrected decoding the other lemmas use.
- Sgtin.SerialOf: the SGTIN-198 serial is Go's `%d` of the 18 extracted bytes (epc/sgtin.go:343), as the code writes it. The Tag Data Standard, and the tests at epc/sgtin_test.go:91-94 and :107, expect something else: the 20 seven-bit characters up to the first null, percent-escaped, with characters after a null refused. That decoding is not what the code does and is not modelled; `Ascii.Decoded` and `Ascii.Escape` are its parts.
- SGTIN fields are unbounded integers: Go's 64-bit wrap-around of `12 - partition` for partitions near the int64 minimum is not modelled.
- Sgtin.Decoded: the `filter > 7` check (epc/sgtin.go:348-350) cannot fail, since a 3-bit field is at most 7. The model has no such branch, and `DecodedFields` proves the bound.
- `FilterValue.String` (epc/sgtin.go:397-415): display text only.
- Sgtin.URI: escapes nothing, like the code. The serial is put in verbatim; `EscapeGS1` is not applied (epc/sgtin.go:206-220).
- Sgtin.ValidateRanges: checks neither the filter nor the serial's character set, like the code.
- Ascii.GetASCII: the test packer requires every character below 128, which is what the test feeds it. `fmt`'s `%08b` of a wider byte would not give 8 bits.
- Ascii.DecodeASCIIAt: produces bytes, not runes. Go's `string(outdata)` of 7-bit bytes is the same bytes, and no Unicode handling is involved.
- Date checking: `time.Parse("2006-01-02", date)` is modelled as 4 digits, '-', a 2-digit month 1..12, '-', and a 2-digit day valid for that month and year. Go's other parse behaviour (signs, errors for out-of-range years) is not modelled.
- Fields wider than 64 bits: `uint64` and `*big.Int` are both `nat`. `BitTag.DecodeWith` computes the value the same way for both branches of the loop.
- `FormatField` and `HexField` (bittag/bittag.go:73-81; bittag.go:74-82) format a field with a caller-given `fmt` verb, which is library formatting.
- `Decoder.Prefix` (bittag/bittag.go:91-93) is a getter for `uriPrefix`, which the model reads directly.
- Zero exploder: BitTag.Decoder.Decode, LegacyBitTag.BitTagDecoder.Decode and BitFields.BitExploder.NewBitReader require a valid exploder, and BitTag.ParseFields and BitTag.FieldAt require at least one field. A decoder whose construction failed, or a zero `Decoder{}`, has a zero exploder. On it Go's Fields succeeds with no fields (`strings.SplitN(_, ".", 0)` is nil), Field then fails for every index, and a reader returns EOF at once. None of this is modelled.
- BitTag.DecodeWith: `Explode`'s own error cannot occur after Decode's length check (bittag/bittag.go:170-173), so that branch is not modelled.
- BitTag.Decoder.Fields and BitTag.Decoder.Field delegate to `BitTag.ParseFields` and `BitTag.FieldAt`, whose contracts state the behaviour; they carry no contract of their own. The same holds for `LegacyBitTag.BitTagDecoder.Fields` and `Field`.
- Legacy authority check: the older `bittag.go` makes the same checks as `bittag/bittag.go` (bittag.go:179-203 against bittag/bittag.go:126-150, with the same `authorityRegex` at line 19 of both), so the two decoders share `BitTag.TaggingEntity`.
- Legacy tags: `bittag.go`'s `BitTag` has the same fields, `String` and `URI` as the newer one, so both decoders use `BitTag.BitTag`.
- SetBounds overflow: `start + len < 0` (an int overflow) is modelled as the precondition `start + len <= MaxInt`. For the same reason, `NewDecoder`, `NewBitTagDecoder` and `NewBitExploder` require the positive widths to sum to at most MaxInt.

## Findings

| source | as written | input that shows it | evidently intended | confidence | as-written member | corrected member |
|---|---|---|---|---|---|---|
| epc/sgtin.go:363 | itemRef = iir - indicator·10^p·10 | partition 1 with IIR field 12 (indicator 1) gives item reference -88 | itemRef = iir - indicator·10^p, the low p digits (2); the intent rests on the Tag Data Standard's IIR layout, the `maxItems` = 10^p table and GTIN()'s p-digit padding of itemRef, while the tests at epc/sgtin_test.go:103 and :105 encode the split as written (they expect "Item reference out of range", which only the as-written split produces) | medium (the package's own tests rely on the as-written split); not executed | Sgtin.SplitIIRAsWritten, Sgtin.SplitIIRAsWrittenExample, Sgtin.DecodedAsWritten, Sgtin.DecodeSGTIN, Sgtin.DecodersAgree, Sgtin.AsWrittenOutOfRange, Sgtin.ItemRefTestP4Ranges, Sgtin.ItemRefTestP1Ranges | Sgtin.SplitIIR, Sgtin.Decoded, Sgtin.DecodedFields, Sgtin.DecodeRecovers |
| epc/ascii.go:64 | the character tables are [127]uint8 and are indexed with s[i] & 0x7F | "\x7F" indexes entry 127 of a 127-entry array, so the call panics | 128-entry tables, where "\x7F" is simply not encodable | high; not executed | Ascii.IsGS1AIEncodableAsWritten, Ascii.DelPastTable | Ascii.IsGS1AIEncodable |
| bittag/bittag.go:228 | Field rejects only idx > len(fields) | on a valid 3-field URI, idx = 3 passes the guard and fields[3] is out of range; a negative idx also passes | reject idx < 0 and idx >= len(fields) | high; not executed | BitTag.FieldGuardAsWritten, BitTag.FieldGuardPastEnd | BitTag.FieldAt |
| bittag/bittag.go:19 | labels are bounded by a repeated group `(\.[-a-z0-9]{1,63}\|[-a-z0-9]{1,63})*` whose runs can be concatenated | "a" followed by 64 'b's matches, although its one label has 65 bytes | every dot-separated part has 1 to 63 bytes, as the error message promises | high; not executed | BitTag.AuthorityPattern, BitTag.AuthorityPatternLongLabel, BitTag.TaggingEntity, BitTag.TaggingEntityLongLabel | BitTag.Authority, BitTag.AuthorityParts, BitTag.AuthorityMatchesPattern |
