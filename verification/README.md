# Image encoders and core library of LibretroDroid, modelled in Dafny

This project models the algorithms of LibretroDroid that compute something rather than pass it on, and proves what they
are for. It has four parts.

* **Image encoders** (`stb_image_write.h`). The DEFLATE compressor with its hash chains, lazy matching and stored
  fallback; PNG filters, chunks and checksums; the JPEG entropy coder; the TGA and Radiance run-length coders behind the
  64-byte write buffer. For each format there is a small reference decoder, written after the standard and not after the
  encoder, and the proof that it undoes the encoder. Modules `Inflate`, `DeflateTokens`, `ZlibOutput`, `StoredBlocks`,
  `Adler32`, `LazyMatching`, `ZlibCompress`, `Crc32`, `PngFilter`, `PngChunks`, `Png`, `JpegBits`, `JpegEntropy`,
  `JpegScan`, `JpegScanLaws`, `JpegTables`, `JpegStandard`, `WriteContext`, `RunLength`, `Tga`, `Hdr`; `PngLaws` and `KnownAnswers`
  say byte by byte what an encoder and its decoder could otherwise agree to get wrong together.
* **The configuration store** (`config_file.c`). A linked list of entries with a map as its index: reading with bounded
  includes, set, unset, append, the in-place merge sort, and a dump that the parser must read back. The class `Config`
  keeps the source's fields; its methods are proved against functions on lists of items, and the laws are proved about
  those. Modules `CStrings`, `ConfigOrder`, `ConfigList`, `ConfigText`, `ConfigDump`, `ConfigItems`, `ConfigRoundTrip`,
  `ConfigSorted`, `ConfigReload`, `ConfigReference`, `ConfigStore`, `ConfigWrite`, `ConfigRuns`,
  `ConfigSyntax`.
* **Paths** (`file_path.c`). The normaliser that walks over bytes with an index into a fixed buffer equals a stack of
  segments, and relative paths are undone by resolving them. Modules `PathSegments`, `PathResolve`, `PathLaws`,
  `PathRelative`, `PathRewrites`.
* **Smaller algorithms**: the glob matcher (`Fnmatch`, `FnmatchLaws`), the CD frame cache (`Cdrom`), UTF-16, UTF-8 and UTF-32 (`Utf`,
  `UtfDecode`), the looping voice mixer (`Mixer`), the search for the ZIP end record (`Zip`) and base64 (`Base64`).

`Bytes` and `Prelude` hold what the others share. A byte is an `int` from 0 to 255, a word of 32 bits an `int` below
2^32 with the wrap written out; the CRC alone works on bit vectors. A C string is an array of characters with a NUL, and
`Holds` says which string it holds.

Where the code does not do what its documentation or its shape suggests, the model follows the code, a lemma gives the
exact condition, and where it helps another gives an input:

* `stbi_zlib_compress` turns the empty input into a stream without any block: the result decodes if and only if there is
  data (`ZlibCompress.Compress`, `ZlibCompress.EmptyDecodesToNothing`).
* The PNG writer filters a first pixel that a row without pixels does not have; `Png.RowsStay` says for which images it
  stays inside its buffers.
* `config_unset` forgets the map entry but leaves later entries under the key in the list: list and map part if and only
  if the key occurred more than once (`ConfigStore.Config.Unset`).
* The merge takes the right half on ties, so a sorted dump reverses which of several assignments wins
  (`ConfigSorted.SortedLookup`), and leaves a map that no longer fits the list unless the keys are distinct
  (`ConfigWrite.Dump`).
* A reference is stored abbreviated or relative to its file, so a dump does not repeat what was read; the references
  survive a reload if and only if storing each anew changes nothing (`ConfigReload.ReferencesReload`, with the input in
  `ConfigReference.StoredOtherwise`).
* `key=value` without a space before the equal sign assigns nothing, because the word runs on to the next space
  (`ConfigDump.SeparatorNeeded`, `ConfigDump.KeyValueIsGlued`).
* Leading slashes of a path are copied without a check of the room (`PathResolve.ResolveRealpath`, with the condition
  unfolded in `PathResolve.WhereItStarts` and inputs in `PathResolve.OnlySlashes`).
* A CD read reports only whether its last frame came; success can be trusted if and only if one frame is enough
  (`Cdrom.TrustedWhenShort`, with the input in `Cdrom.MaskedFailure`).
* Stopping a voice that has already finished calls back once more (`Mixer.StopReportsOnce`).
* `unbase64` leaves its bounds or reports too much on some text that is not whole groups (`Base64.OutcomeIs`,
  `Base64.ReportIsExact`, with inputs in `Base64.Mishaps`).
* A TGA side of 65536 pixels or more wraps in the header (`Tga.WriteTga`).

## Model

| member | source | states |
|---|---|---|
| ZlibCompress.Compress | libretrodroid/src/main/cpp/utils/stb_image_write.h:895-1022 | For every input and every quality, decoding the result by RFC 1950 and RFC 1951 gives the input back, except that the empty input gives a stream no decoder accepts; the result is never longer than `data_len + 6 + 5*ceil(data_len/32767)` bytes; it is exactly the tokens of lazy matching in the fixed code, or the stored form when that is shorter, and the checksum |
| LazyMatching.ChoiceIsUnique | libretrodroid/src/main/cpp/utils/stb_image_write.h:922-971 | The rule of lazy matching (newest of the longest runs, a literal when there is no run of 3 or the next position has a longer one) leaves exactly one token at each position |
| LazyMatching.ChainIsRecent | libretrodroid/src/main/cpp/utils/stb_image_write.h:934-939 | After m positions of one hash its chain is the last m of them while m is at most 2q, and the last q + 1 + (m-1) mod q afterwards |
| LazyMatching.PlanIsUnique | libretrodroid/src/main/cpp/utils/stb_image_write.h:918-974 | Data and quality determine the whole token list: choices while more than 3 bytes are left, literals after that |
| ZlibCompress.DeflatedIsUnique | libretrodroid/src/main/cpp/utils/stb_image_write.h:895-1022 | Data and quality determine every byte of the output |
| ZlibCompress.SearchAll | libretrodroid/src/main/cpp/utils/stb_image_write.h:919-971 | The search stops with at most 3 bytes left, all tokens before being choices of lazy matching |
| ZlibCompress.CompressStep | libretrodroid/src/main/cpp/utils/stb_image_write.h:922-971 | One turn of the search emits exactly one more token and keeps three invariants: the tokens so far expand to the data so far and their bits are the output; each of them is the choice of lazy matching at its position; every chain of the table is that of the positions visited |
| ZlibCompress.EmitAll | libretrodroid/src/main/cpp/utils/stb_image_write.h:910-974 | The whole search loop and the trailing literals: the tokens expand to all of the data and are the planned ones, chosen by lazy matching with a quality of at least 5 while more than 3 bytes are left, then literals |
| ZlibCompress.LongestMatch | libretrodroid/src/main/cpp/utils/stb_image_write.h:924-933 | The match returned agrees with the data on all its bytes, no entry of the chain inside the window has a longer one and no newer entry one as long; there is none exactly when no entry agrees on three bytes |
| ZlibCompress.NextIsBetter | libretrodroid/src/main/cpp/utils/stb_image_write.h:941-955 | The lazy test succeeds exactly when some entry of the next chain matches longer one byte on |
| ZlibCompress.AddToChain | libretrodroid/src/main/cpp/utils/stb_image_write.h:934-939 | Chains keep only earlier positions and never exceed `2*quality`; a full chain loses its older half first; other chains are untouched |
| ZlibCompress.CountMatch | libretrodroid/src/main/cpp/utils/stb_image_write.h:859-865 | The count is the longest common run of the two positions, cut at the limit and at 258 |
| ZlibCompress.CopyReproducesRun | libretrodroid/src/main/cpp/utils/stb_image_write.h:957-966 | A run found in the data is what copying back from its distance produces, also when source and target overlap |
| ZlibCompress.EmitReference | libretrodroid/src/main/cpp/utils/stb_image_write.h:957-966 | A match found in the data becomes one reference with its length and distance, and the tokens so far then expand to the data up to the end of the match |
| ZlibCompress.BitReverse | libretrodroid/src/main/cpp/utils/stb_image_write.h:849-857 | The reversed code, least significant bit first, is the code most significant bit first |
| ZlibCompress.EmitSymbol | libretrodroid/src/main/cpp/utils/stb_image_write.h:882-889 | The bits of every literal and length symbol are its code in the fixed Huffman code of section 3.2.6 of RFC 1951 |
| ZlibCompress.FinishBlock | libretrodroid/src/main/cpp/utils/stb_image_write.h:975-978 | After the end-of-block code and fewer than eight zero bits the output is a whole number of bytes that carry exactly header, tokens, end code and padding |
| ZlibCompress.FixedOutputDecodes | libretrodroid/src/main/cpp/utils/stb_image_write.h:913-916 | The fixed-Huffman form with its checksum decodes to the data |
| ZlibCompress.StoredOutputDecodes | libretrodroid/src/main/cpp/utils/stb_image_write.h:985-999 | The stored form with its checksum decodes to the data exactly when there is some |
| ZlibCompress.EmptyDecodesToNothing | libretrodroid/src/main/cpp/utils/stb_image_write.h:985-1016 | The witness: empty input becomes 78 5E 00 00 00 01, which holds no block and does not decode |
| ZlibOutput.Output.Push | libretrodroid/src/main/cpp/utils/stb_image_write.h:818-837 | Appending keeps the recorded capacity above the count and grows to twice the old capacity plus one exactly when the new element would reach it |
| ZlibOutput.Output.Add | libretrodroid/src/main/cpp/utils/stb_image_write.h:839-847 | Emitted bytes plus bit buffer are always the least-significant-bit-first concatenation of all codes added, and no bit is shifted out of the 32-bit buffer |
| ZlibOutput.Output.Flush | libretrodroid/src/main/cpp/utils/stb_image_write.h:839-847 | Moving bytes out of the bit buffer leaves the bit stream as it is and fewer than eight bits behind |
| KnownAnswers.BitOrders | libretrodroid/src/main/cpp/utils/stb_image_write.h:839-847 | Which end of a number its bits are read from, by example |
| StoredBlocks.StoreBlocks | libretrodroid/src/main/cpp/utils/stb_image_write.h:985-999 | Falling back to stored blocks never needs more room than the buffer already has: the capacity is unchanged |
| StoredBlocks.PushHeader | libretrodroid/src/main/cpp/utils/stb_image_write.h:990-994 | The five bytes before a stored block are its final flag, length and complemented length, and fit without growing |
| StoredBlocks.DecodeStored | libretrodroid/src/main/cpp/utils/stb_image_write.h:987-998 | Stored blocks of non-empty data decode to it, only the last one is marked final, and what follows is left alone |
| Adler32.Sum | libretrodroid/src/main/cpp/utils/stb_image_write.h:1001-1011 | The deferred-modulo loop ends although its first block may be empty, and gives the Adler-32 checksum of section 8.2 of RFC 1950 |
| Adler32.AddByte | libretrodroid/src/main/cpp/utils/stb_image_write.h:1007 | Inside a block both running sums stay congruent to the checksum and below 2^32 |
| Adler32.BoundFits | libretrodroid/src/main/cpp/utils/stb_image_write.h:1004-1010 | The bound on the second sum after a block of `i` bytes stays below 2^32 exactly up to 5552 |
| Adler32.BlockLengthIsLargest | libretrodroid/src/main/cpp/utils/stb_image_write.h:1004-1010 | Blocks of `n` bytes can be summed without wrapping 32 bits, whatever their bytes and the reduced sums before, if and only if `n` is at most 5552 |
| Adler32.BoundAttained | libretrodroid/src/main/cpp/utils/stb_image_write.h:1004-1010 | Bytes of 255 after the largest reduced sums attain the bound |
| KnownAnswers.AdlerOfZeros | libretrodroid/src/main/cpp/utils/stb_image_write.h:1001-1011 | The checksum of n zeros is 1 in the first sum and n modulo 65521 in the second |
| KnownAnswers.AdlerOfOne | libretrodroid/src/main/cpp/utils/stb_image_write.h:1007-1016 | One byte counts in both sums, which are written second sum first, high byte first |
| DeflateTokens.DecodeTokens | libretrodroid/src/main/cpp/utils/stb_image_write.h:957-975 | The bits of any valid token list decode to its expansion, and what follows is left alone |
| DeflateTokens.Snoc | libretrodroid/src/main/cpp/utils/stb_image_write.h:957-970 | Emitting one more token appends its bits and applies it to the bytes expanded so far |
| DeflateTokens.DecodeSymbolBits | libretrodroid/src/main/cpp/utils/stb_image_write.h:883-889 | The decoder reads every symbol from 0 to 287 back from its fixed code: codes of 7, 8 and 9 bits never collide |
| DeflateTokens.DecodeMatchArguments | libretrodroid/src/main/cpp/utils/stb_image_write.h:960-965 | Every length 3 to 258 and distance 1 to 32767 is rebuilt from code and extra bits |
| DeflateTokens.LengthTableIsStandard | libretrodroid/src/main/cpp/utils/stb_image_write.h:901-902 | The writer's length tables are those of section 3.2.5 of RFC 1951 |
| DeflateTokens.DistanceTableIsStandard | libretrodroid/src/main/cpp/utils/stb_image_write.h:903-904 | The writer's distance tables are those of section 3.2.5 of RFC 1951 |
| DeflateTokens.LengthCodeIs | libretrodroid/src/main/cpp/utils/stb_image_write.h:960 | The scan finds the only code whose interval holds the length |
| Crc32.StbiwCrc32 | libretrodroid/src/main/cpp/utils/stb_image_write.h:1024-1071 | The table form equals bit-at-a-time division by the CRC-32 polynomial, for every input |
| Crc32.EncodingCrc32 | libretrodroid/src/main/cpp/libretro/libretro-common/encodings/encoding_crc32.c:62-122 | The table form continues the division from any earlier checksum |
| Crc32.TableIsDivision | libretrodroid/src/main/cpp/utils/stb_image_write.h:1029-1063 | Each of the 256 literal table words is eight division steps of its index |
| Crc32.EightStepsAreOneLookup | libretrodroid/src/main/cpp/utils/stb_image_write.h:1067-1068 | Eight division steps of any 32-bit register are one shift and one look-up |
| Crc32.ChecksumContinues | libretrodroid/src/main/cpp/libretro/libretro-common/encodings/encoding_crc32.c:118-121 | Starting from 0 the two implementations agree, and a checksum continues over concatenated data |
| Crc32.BurstDetected | libretrodroid/src/main/cpp/utils/stb_image_write.h:1024-1071 | Two messages that differ only inside four consecutive bytes never have the same checksum |
| Crc32.CheckIend | libretrodroid/src/main/cpp/utils/stb_image_write.h:1024-1071 | The checksum of `IEND` is AE426082, and that of nothing is 0 |
| PngFilter.ReconstructFiltered | libretrodroid/src/main/cpp/utils/stb_image_write.h:1083-1126 | Undoing any of the five filters of section 6 of RFC 2083 gives the row back, whatever the row above |
| PngLaws.FiltersMean | libretrodroid/src/main/cpp/utils/stb_image_write.h:1092-1126 | Each filter subtracts what RFC 2083 says: nothing, the byte to the left, the one above, half their sum, the predictor; zero stands outside the image |
| PngLaws.PredictorIsNearest | libretrodroid/src/main/cpp/utils/stb_image_write.h:1083-1090 | The predictor is the nearest of left, above and upper left to left plus above minus upper left, in that order on ties |
| PngFilter.EncodePngLine | libretrodroid/src/main/cpp/utils/stb_image_write.h:1092-1126 | For every row, orientation and filter the line buffer holds the filtered row of RFC 2083, the row above the first being zero; nothing outside image and buffer is touched if and only if the row has a pixel or its filter only copies |
| Png.BestFilter | libretrodroid/src/main/cpp/utils/stb_image_write.h:1150-1170 | The adaptive choice is the first of the five filters with the least sum of absolute residuals, as long as that sum fits an int; it stays inside the line buffer if and only if the row has a pixel |
| PngLaws.ResidualCounts | libretrodroid/src/main/cpp/utils/stb_image_write.h:1157-1161 | A residual counts for its distance from zero, going round at 256 |
| Png.FilterImage | libretrodroid/src/main/cpp/utils/stb_image_write.h:1145-1174 | The filtered buffer is a sequence of scanlines, each with the forced filter or, while residual sums fit an int, the least-residual one; it is built without overrun if and only if every row stays inside |
| Png.RowsStay | libretrodroid/src/main/cpp/utils/stb_image_write.h:1128-1174 | Every row stays inside the line buffer if and only if the image has a column, or no row, or filter 0 is forced, or filter 2 for a single row |
| Png.UnfilterScanlines | libretrodroid/src/main/cpp/utils/stb_image_write.h:1145-1174 | A decoder that undoes the filters row by row gets the rows back, whichever filters were used |
| PngLaws.RowBytesAre | libretrodroid/src/main/cpp/utils/stb_image_write.h:1092-1100 | Byte k of a written row is the byte of the buffer that stride, orientation and channel count name |
| Png.WritePngToMem | libretrodroid/src/main/cpp/utils/stb_image_write.h:1128-1212 | For every stride, channel count, orientation, filter setting and compression level, parsing the chunks, checking each CRC, inflating and undoing the filters gives back size, channels and pixels exactly when there is a pixel; with a dimension of zero the file is rejected, or the line buffer is overrun, exactly as foretold; every file is framed around the scanlines of that filter setting as compressed at that level |
| Png.WpCrc | libretrodroid/src/main/cpp/utils/stb_image_write.h:1077-1081 | The checksum appended covers tag and data of the chunk just written |
| PngChunks.ParseFile | libretrodroid/src/main/cpp/utils/stb_image_write.h:1182-1208 | Header, data and end chunk are parsed back with matching checksums and nothing left over |
| PngChunks.DecodeFile | libretrodroid/src/main/cpp/utils/stb_image_write.h:1182-1208 | A written file decodes exactly as its pixel data does, unless a dimension is zero |
| PngLaws.FileStarts | libretrodroid/src/main/cpp/utils/stb_image_write.h:1182-1198 | A file begins with the eight bytes of the signature and an IHDR chunk of 13 bytes with width, height, depth 8, colour type and three zeros |
| PngLaws.DataChunk | libretrodroid/src/main/cpp/utils/stb_image_write.h:1200-1202 | The chunk of the pixels is the length of the zlib stream most significant byte first, IDAT, the stream and four bytes of checksum |
| PngLaws.FileEnds | libretrodroid/src/main/cpp/utils/stb_image_write.h:1203-1208 | It ends with the twelve known bytes of an empty IEND chunk |
| JpegBits.BitWriter.WriteBits | libretrodroid/src/main/cpp/utils/stb_image_write.h:1253-1268 | Written bytes with stuffing removed, followed by the pending bits, are always the most-significant-bit-first concatenation of the codes; fewer than eight bits stay pending and the buffer never loses one |
| JpegBits.UnstuffStuff | libretrodroid/src/main/cpp/utils/stb_image_write.h:1257-1263 | Removing the stuffed zero bytes gives the entropy-coded bytes back |
| JpegBits.EveryFFIsStuffed | libretrodroid/src/main/cpp/utils/stb_image_write.h:1260-1262 | Every FF byte is followed by 00 |
| JpegEntropy.CalcBits | libretrodroid/src/main/cpp/utils/stb_image_write.h:1318-1326 | For every nonzero value the category is its bit length and the bits are those section F.1.2.1 of ITU-T T.81 prescribes, for negative values too |
| JpegEntropy.ProcessDU | libretrodroid/src/main/cpp/utils/stb_image_write.h:1355-1395 | The bits appended for a block are its DC difference, its run/size codes with any number of 16-zero codes, and an end of block exactly when zeros trail |
| JpegEntropy.DecodeBlockBits | libretrodroid/src/main/cpp/utils/stb_image_write.h:1355-1395 | For any prefix-free tables with the needed codes, decoding the bits of a block (section F.2.2 of ITU-T T.81) gives the same 64 coefficients across zero runs of any length, and leaves what follows |
| JpegEntropy.DecodeCode | libretrodroid/src/main/cpp/utils/stb_image_write.h:1362-1390 | With prefix-free codes a decoder finds exactly the symbol that was coded |
| JpegScan.DecodeScanBits | libretrodroid/src/main/cpp/utils/stb_image_write.h:1566-1591 | All blocks of a scan come back, with one DC prediction per component |
| JpegScan.WriteBlocks | libretrodroid/src/main/cpp/utils/stb_image_write.h:1566-1591 | The blocks of a scan append their bits in order, each against the prediction of its own component |
| JpegScanLaws.CodableMeans | libretrodroid/src/main/cpp/utils/stb_image_write.h:1566-1591 | A scan can be encoded if and only if every block can, against the last block of its own component |
| JpegScanLaws.ScanMeans | libretrodroid/src/main/cpp/utils/stb_image_write.h:1566-1591 | The bits of a scan are those of its blocks, each against the last block of its own component, component 0 with the luminance tables and the others with the chrominance ones |
| JpegScan.EncodeSegment | libretrodroid/src/main/cpp/utils/stb_image_write.h:1566-1598 | For any usable tables, the bytes of a whole scan, unstuffed and decoded, give every coefficient back; the last byte is filled with ones and every FF is stuffed |
| JpegTables.SymbolIsOk | libretrodroid/src/main/cpp/utils/stb_image_write.h:1425-1462 | Each entry of the four literal code tables agrees with the counts and the symbol list that the file header carries: its code lies in the interval of its length, at the place of its symbol |
| JpegStandard.StandardTablesAreUsable | libretrodroid/src/main/cpp/utils/stb_image_write.h:1425-1462 | The four literal tables have every code a baseline scan needs, and no code starts another |
| JpegStandard.CanonicalIsPrefixFree | libretrodroid/src/main/cpp/utils/stb_image_write.h:1425-1462 | Codes that follow their lengths' counts as section C.2 of ITU-T T.81 prescribes never start one another |
| JpegStandard.HeaderDescribesCodes | libretrodroid/src/main/cpp/utils/stb_image_write.h:1399-1424 | A decoder that knows only the counts and symbols of the file header (section F.2.2.3 of ITU-T T.81) reads back every symbol that the literal tables code |
| JpegStandard.EncodeStandardSegment | libretrodroid/src/main/cpp/utils/stb_image_write.h:1425-1598 | With the tables the writer really uses, every coefficient of every encodable scan comes back |
| WriteContext.Context.Write1 | libretrodroid/src/main/cpp/utils/stb_image_write.h:399-404 | What reached the callback plus what is in the 64-byte buffer is the unbuffered byte stream, and the callback is called exactly when the buffer is full |
| WriteContext.Context.Write3 | libretrodroid/src/main/cpp/utils/stb_image_write.h:406-416 | Three bytes join the stream in order, whatever the buffer held, and the callback is called exactly when fewer than three are free |
| WriteContext.Context.Flush | libretrodroid/src/main/cpp/utils/stb_image_write.h:386-392 | After a flush the callback has seen the whole stream |
| Tga.PacketLength | libretrodroid/src/main/cpp/utils/stb_image_write.h:563-591 | A packet has 1 to 128 pixels of one row; a run holds equal pixels and is as long as it can be, a literal stops before a pixel that equals the one two back |
| Tga.WriteRow | libretrodroid/src/main/cpp/utils/stb_image_write.h:559-605 | The packets written for a row decode to the row pixel for pixel and none crosses its end |
| Tga.DecodePackets | libretrodroid/src/main/cpp/utils/stb_image_write.h:593-603 | Any list of valid packets decodes to its expansion and leaves what follows |
| Tga.WriteTga | libretrodroid/src/main/cpp/utils/stb_image_write.h:532-608 | The file decodes to the image in its orientation if and only if both sides fit the 16-bit header fields; a negative side is refused and nothing is written |
| KnownAnswers.TgaHeader | libretrodroid/src/main/cpp/utils/stb_image_write.h:532-608 | The 18 header bytes: type 10 or 11, sides low byte first, bits a pixel and of alpha |
| Tga.WritePixel | libretrodroid/src/main/cpp/utils/stb_image_write.h:418-449 | Colour is written blue first, alpha last |
| Hdr.FindRun | libretrodroid/src/main/cpp/utils/stb_image_write.h:727-735 | The first run of three equal bytes, or the end |
| Hdr.EncodePlane | libretrodroid/src/main/cpp/utils/stb_image_write.h:725-756 | The packets of a component decode to it and leave what follows: literals of 1 to 128, runs of 1 to 127, told apart by the length byte; no literal spells out a run of three |
| Hdr.DecodePackets | libretrodroid/src/main/cpp/utils/stb_image_write.h:656-670 | Any list of valid packets decodes to its expansion |
| Hdr.Dump | libretrodroid/src/main/cpp/utils/stb_image_write.h:736-742 | The bytes up to the next run become literals, and nothing but literals, of at most 128 that add up to them |
| Hdr.WriteRun | libretrodroid/src/main/cpp/utils/stb_image_write.h:743-755 | A run of any length becomes runs of its byte, and nothing but runs, of at most 127 that add up to it |
| Hdr.WriteScanline | libretrodroid/src/main/cpp/utils/stb_image_write.h:672-758 | A scanline decodes to its pixels for every width: flat below 8 and from 32768 on, four run-length coded planes behind a header otherwise |
| ConfigOrder.CompareTransitive | libretrodroid/src/main/cpp/libretro/libretro-common/file/config_file.c:52-68 | The comparator is transitive, and its ties are too, for keys and entries without one alike |
| ConfigOrder.MergeSortSorted | libretrodroid/src/main/cpp/libretro/libretro-common/file/config_file.c:70-138 | The sort leaves any list in order of the comparator |
| ConfigOrder.CompareAntisymmetric | libretrodroid/src/main/cpp/libretro/libretro-common/file/config_file.c:52-68 | Swapping its arguments turns the comparator's sign around |
| ConfigOrder.LowerMeans | libretrodroid/src/main/cpp/libretro/libretro-common/file/config_file.c:57-66 | Keys are compared with each of the 26 capitals as its small letter and every other character as itself |
| ConfigOrder.CompareMeans | libretrodroid/src/main/cpp/libretro/libretro-common/file/config_file.c:52-68 | At most means: without a key, or one key begins the other, or has the smaller letter where they first differ; a tie means the same letters or no key on both sides |
| ConfigOrder.SortedAlphabetically | libretrodroid/src/main/cpp/libretro/libretro-common/file/config_file.c:70-138 | In the sorted list entries without a key stand first and the others in that order |
| ConfigOrder.MergeSort | libretrodroid/src/main/cpp/libretro/libretro-common/file/config_file.c:70-138 | The sorted list has exactly the same items |
| ConfigOrder.MergeSortReversesTies | libretrodroid/src/main/cpp/libretro/libretro-common/file/config_file.c:118-127 | The sort is not stable: entries that compare equal come out in the opposite of their original order, always |
| ConfigList.Halve | libretrodroid/src/main/cpp/libretro/libretro-common/file/config_file.c:87-98 | Two pointers, one at twice the speed, cut a list of two or more nodes in halves |
| ConfigList.MergeStep | libretrodroid/src/main/cpp/libretro/libretro-common/file/config_file.c:105-135 | One turn moves exactly one node, the left one exactly when the right list is empty or the left key is strictly below, from its list to the end of the result |
| ConfigList.MergeLists | libretrodroid/src/main/cpp/libretro/libretro-common/file/config_file.c:104-137 | Two disjoint acyclic lists are relinked into one acyclic list of the same nodes, in the order of the merge, with nothing allocated and no key touched |
| ConfigList.MergeSortList | libretrodroid/src/main/cpp/libretro/libretro-common/file/config_file.c:71-138 | The in-place sort ends and leaves an acyclic list of exactly the same nodes, those without a key first and the others alphabetically, writing only their `next` fields |
| ConfigText.StripComment | libretrodroid/src/main/cpp/libretro/libretro-common/file/config_file.c:159-206 | A line that starts with `#` gives the comment; elsewhere a `#` cuts the line unless one quote stands before it and one after it |
| ConfigText.ExtractValue | libretrodroid/src/main/cpp/libretro/libretro-common/file/config_file.c:208-265 | The value is the text up to the next quote when quoted, else the printable word, empty when there is none |
| ConfigText.ReadAssignment | libretrodroid/src/main/cpp/libretro/libretro-common/file/config_file.c:595-645 | A line assigns exactly when an equal sign follows its first word and spaces |
| ConfigText.ReadDirective | libretrodroid/src/main/cpp/libretro/libretro-common/file/config_file.c:518-593 | A comment is an include or a reference exactly when it starts with that word and a space and something follows |
| ConfigText.ReadLine | libretrodroid/src/main/cpp/libretro/libretro-common/file/config_file.c:507-651 | Cutting the line buffer in place gives the same line as the reference parser on strings, for every line |
| ConfigSyntax.WordAssigned | libretrodroid/src/main/cpp/libretro/libretro-common/file/config_file.c:245-259 | A key, at least one blank, an equal sign and a word without quotes assign exactly that word, whatever blanks stand around and whatever unprintable text or comment follows |
| ConfigSyntax.QuotedAssigned | libretrodroid/src/main/cpp/libretro/libretro-common/file/config_file.c:223-241 | A quoted value is what stands between the quotes, whatever follows the second one |
| ConfigSyntax.QuotedHash | libretrodroid/src/main/cpp/libretro/libretro-common/file/config_file.c:180-194 | A `#` between the quotes belongs to the value, and nothing after it starts a comment |
| ConfigSyntax.QuotedRemark | libretrodroid/src/main/cpp/libretro/libretro-common/file/config_file.c:180-202 | A `#` after the closing quote starts a comment, and the value stays |
| ConfigSyntax.NothingAssigned | libretrodroid/src/main/cpp/libretro/libretro-common/file/config_file.c:261-264 | An equal sign with nothing printable after it assigns the empty string |
| ConfigSyntax.NoEqualSign | libretrodroid/src/main/cpp/libretro/libretro-common/file/config_file.c:624-637 | A line without an equal sign assigns nothing |
| ConfigSyntax.IncludeMeans | libretrodroid/src/main/cpp/libretro/libretro-common/file/config_file.c:529-571 | `#include` takes a word or a quoted text, and is ignored when nothing printable follows |
| ConfigSyntax.ReferenceMeans | libretrodroid/src/main/cpp/libretro/libretro-common/file/config_file.c:575-589 | `#reference` takes the same, the empty path too, and is ignored only when nothing at all follows |
| ConfigSyntax.OtherComment | libretrodroid/src/main/cpp/libretro/libretro-common/file/config_file.c:518-527 | Any other comment is passed over |
| ConfigSyntax.SettingFound | libretrodroid/src/main/cpp/libretro/libretro-common/file/config_file.c:479-492 | The first line that assigns a key gives its value, when no include stands before it |
| ConfigSyntax.SilentLine | libretrodroid/src/main/cpp/libretro/libretro-common/file/config_file.c:507-651 | A line that neither assigns nor includes changes no answer |
| ConfigSyntax.IncludeAnswers | libretrodroid/src/main/cpp/libretro/libretro-common/file/config_file.c:545-571 | An include answers for every key its file assigns, with the file's answer, and for no other; not when the file is missing or sixteen includes are open already |
| ConfigSyntax.ReadWord | libretrodroid/src/main/cpp/libretro/libretro-common/file/config_file.c:839-862 | A store read from a file that begins with such a line answers with its word |
| ConfigDump.DumpLineParses | libretrodroid/src/main/cpp/libretro/libretro-common/file/config_file.c:1465-1466 | A dumped line parses back to its key and value if and only if they are faithful: a printable non-empty key without quote or `#` where it would cut, and a value without a quote; a `#` in the value and an empty value survive |
| ConfigDump.SeparatorNeeded | libretrodroid/src/main/cpp/libretro/libretro-common/file/config_file.c:595-645 | A word followed by an equal sign, with no comment in the line, assigns what follows if and only if a space stands between the two |
| ConfigDump.GluedAssignsNothing | libretrodroid/src/main/cpp/libretro/libretro-common/file/config_file.c:595-645 | A word assigns nothing, even with an equal sign in it |
| ConfigDump.KeyValueIsGlued | libretrodroid/src/main/cpp/libretro/libretro-common/file/config_file.c:595-645 | The witness: the line `key=value` is ignored |
| ConfigItems.LookupAppend | libretrodroid/src/main/cpp/libretro/libretro-common/file/config_file.c:479-492 | Of two lists one after the other, the first one's assignment wins |
| ConfigItems.SetLookup | libretrodroid/src/main/cpp/libretro/libretro-common/file/config_file.c:1233-1294 | After a set the key has the new value and every other key its old one |
| ConfigItems.UnsetOthers | libretrodroid/src/main/cpp/libretro/libretro-common/file/config_file.c:1296-1320 | Unset changes no other key |
| ConfigItems.UnsetGone | libretrodroid/src/main/cpp/libretro/libretro-common/file/config_file.c:1296-1320 | After unset the key is gone from the list if and only if it occurred at most once |
| ConfigItems.SelfInclude | libretrodroid/src/main/cpp/libretro/libretro-common/file/config_file.c:545-550 | A file that includes only itself ends at the depth limit: one nameless entry a level |
| ConfigRoundTrip.DumpRoundTrip | libretrodroid/src/main/cpp/libretro/libretro-common/file/config_file.c:1463-1468 | Parsing a dump gives back exactly the entries it wrote if and only if each of them is faithful and the list has no line break in it |
| ConfigRoundTrip.ExpandReadable | libretrodroid/src/main/cpp/libretro/libretro-common/file/config_file.c:423-714 | No run of the parser, at any include depth, gives an entry that spans lines |
| ConfigRoundTrip.OneEach | libretrodroid/src/main/cpp/libretro/libretro-common/file/config_file.c:653-714 | A text has at most as many entries as lines, and line i is the assignment of entry i when they are as many |
| ConfigSorted.LookupIsFirst | libretrodroid/src/main/cpp/libretro/libretro-common/file/config_file.c:479-492 | Lookup finds the first assignment to a key |
| ConfigSorted.SortReversesAssignments | libretrodroid/src/main/cpp/libretro/libretro-common/file/config_file.c:1454-1457 | Sorting reverses the order of the assignments to each key |
| ConfigSorted.SortedLookup | libretrodroid/src/main/cpp/libretro/libretro-common/file/config_file.c:1454-1457 | After a sort the last assignment to a key comes first in the list |
| ConfigSorted.DumpedLookup | libretrodroid/src/main/cpp/libretro/libretro-common/file/config_file.c:1441-1468 | A dump read back gives each key of the file its first value, or its last one when the dump was sorted |
| ConfigSorted.DistinctDumpedLookup | libretrodroid/src/main/cpp/libretro/libretro-common/file/config_file.c:1441-1468 | With distinct keys and no included entries a dump read back gives every key the value it had, sorted or not |
| ConfigSorted.SortHeld | libretrodroid/src/main/cpp/libretro/libretro-common/file/config_file.c:70-138 | Sorting the nodes and sorting what they hold give the same list |
| ConfigSorted.DumpIsPrinted | libretrodroid/src/main/cpp/libretro/libretro-common/file/config_file.c:1463-1468 | A dump prints a key, an equal sign between two blanks and the quoted value, a line for each entry with both that is not read-only |
| ConfigSorted.SortedDump | libretrodroid/src/main/cpp/libretro/libretro-common/file/config_file.c:1454-1468 | The lines of a sorted dump are in alphabetical order of their keys |
| ConfigReload.ReferenceLineParses | libretrodroid/src/main/cpp/libretro/libretro-common/file/config_file.c:1447-1452 | A dumped reference is read back if and only if it holds no quote |
| ConfigReload.IncludeLineParses | libretrodroid/src/main/cpp/libretro/libretro-common/file/config_file.c:1476-1480 | A dumped include is read back if and only if it holds no quote and is not empty |
| ConfigReload.DumpReloads | libretrodroid/src/main/cpp/libretro/libretro-common/file/config_file.c:1441-1481 | A whole dump read back gives the same includes, as entries the config's own ones followed by what the includes contribute, and as references each old one with forward slashes, stored anew |
| ConfigReload.ReferencesReload | libretrodroid/src/main/cpp/libretro/libretro-common/file/config_file.c:407-421 | The references survive a dump and a reload if and only if storing each of them anew leaves it as it is |
| ConfigReload.LoadDumpLoad | libretrodroid/src/main/cpp/libretro/libretro-common/file/config_file.c:1470-1481 | A text that is loaded, dumped with its stored references and loaded again, with includes to any depth, keeps the value of every key, except that an entry of its own now wins over an include that came before it |
| ConfigReference.StoredOtherwise | libretrodroid/src/main/cpp/libretro/libretro-common/file/file_path.c:1276-1318 | The witness: in /x/main.cfg the reference /x/y.cfg is stored as y.cfg |
| ConfigReference.RelativeToFile | libretrodroid/src/main/cpp/libretro/libretro-common/file/file_path.c:1310-1317 | The relative form of a path against a config file is that against the file's directory |
| ConfigReference.RelativeFormMeans | libretrodroid/src/main/cpp/libretro/libretro-common/file/file_path.c:1296-1308 | The relative form of a path in normal form, resolved against the config file, is that path again |
| ConfigReference.RelativeFormSettles | libretrodroid/src/main/cpp/libretro/libretro-common/file/file_path.c:1276-1318 | A reference that is stored in its relative form is stored in the same form when it is read back from a dump |
| ConfigReload.BorrowedAreIncluded | libretrodroid/src/main/cpp/libretro/libretro-common/file/config_file.c:280-299 | Whatever is read-only after loading came from the includes the text names, in their order |
| ConfigStore.Config.Append | libretrodroid/src/main/cpp/libretro/libretro-common/file/config_file.c:472-494 | A parsed entry joins the end of the list, and the map only under a key that is new; list and map keep agreeing |
| ConfigStore.Config.AddChildList | libretrodroid/src/main/cpp/libretro/libretro-common/file/config_file.c:268-353 | The child's entries follow the parent's, marked read-only; the merged map again gives each key its first entry |
| ConfigStore.MarkReadOnly | libretrodroid/src/main/cpp/libretro/libretro-common/file/config_file.c:280-299 | One pass over the list marks every entry read-only and changes nothing else |
| ConfigStore.Config.AddSubConf | libretrodroid/src/main/cpp/libretro/libretro-common/file/config_file.c:533-571 | An include adds the entries of the file at the resolved path, expanded one level deeper, and nothing when it cannot be opened; its path is remembered either way, and the store stays valid |
| ConfigStore.Config.ParseLine | libretrodroid/src/main/cpp/libretro/libretro-common/file/config_file.c:507-651 | A line makes of entries and includes what the reference expansion says, whatever the depth; a reference joins the list in the form it is stored in |
| ConfigStore.Config.ReadText | libretrodroid/src/main/cpp/libretro/libretro-common/file/config_file.c:653-714 | After reading a text the list is its expansion, the map agrees with it, the includes are those the text names, and the references those it names in their stored form |
| ConfigStore.Config.Load | libretrodroid/src/main/cpp/libretro/libretro-common/file/config_file.c:423-505 | Loading fails exactly when the file is missing; otherwise the list is the expansion of the file with its includes, references are stored relative to it, and it ends even when files include each other in a circle |
| ConfigStore.Config.Get | libretrodroid/src/main/cpp/libretro/libretro-common/file/config_file.c:1146-1155 | The map gives the value of the first list entry under the key |
| ConfigStore.Config.SetString | libretrodroid/src/main/cpp/libretro/libretro-common/file/config_file.c:1233-1294 | In place or at the end, list and map agree again; the file counts as modified exactly when something changed |
| ConfigStore.Config.AddEntry | libretrodroid/src/main/cpp/libretro/libretro-common/file/config_file.c:1275-1293 | A key the map does not know becomes a new last entry that the map finds |
| ConfigStore.Config.Unset | libretrodroid/src/main/cpp/libretro/libretro-common/file/config_file.c:1296-1320 | List and map still agree if and only if the key occurred at most once |
| ConfigStore.Config.AppendFile | libretrodroid/src/main/cpp/libretro/libretro-common/file/config_file.c:783-815 | The entries of the appended file go in front and take precedence; nothing changes when it is missing |
| ConfigStore.NewFromPath | libretrodroid/src/main/cpp/libretro/libretro-common/file/config_file.c:839-862 | A new store from a file holds the file's expansion, its includes and its stored references, or there is none exactly when the file is missing |
| ConfigStore.IndexConcat | libretrodroid/src/main/cpp/libretro/libretro-common/file/config_file.c:314-350 | Two indexed lists joined are indexed by the two maps joined, the first list winning |
| ConfigStore.UnsetIndexed | libretrodroid/src/main/cpp/libretro/libretro-common/file/config_file.c:1309-1318 | A map without the key indexes the list without its first entry if and only if that was the only one |
| ConfigWrite.SortList | libretrodroid/src/main/cpp/libretro/libretro-common/file/config_file.c:1454-1457 | The in-place sort of the entries is the sort of what they hold |
| ConfigWrite.WriteEntries | libretrodroid/src/main/cpp/libretro/libretro-common/file/config_file.c:1463-1468 | The text written is that of the entries that have a key and are not read-only, in list order |
| ConfigWrite.Dump | libretrodroid/src/main/cpp/libretro/libretro-common/file/config_file.c:1441-1481 | The text is that of the references with forward slashes, the entries in list order and the includes; a dump leaves the list alphabetical or as it was and the map alone, so list and map agree afterwards if and only if it was not sorted or the keys are distinct; the references keep their forward slashes |
| ConfigWrite.MakePortable | libretrodroid/src/main/cpp/libretro/libretro-common/file/config_file.c:1447-1450 | Every reference gets forward slashes before it is printed |
| ConfigWrite.SortedIndex | libretrodroid/src/main/cpp/libretro/libretro-common/file/config_file.c:1454-1461 | The old map indexes the sorted list if and only if the keys are distinct |
| ConfigRuns.StepTable | libretrodroid/src/main/cpp/libretro/libretro-common/file/config_file.c:268-353 | One operation changes the first-entry view of the list as it changes a plain map if and only if it is not an unset of a key that occurs more than once |
| ConfigRuns.RunTable | libretrodroid/src/main/cpp/libretro/libretro-common/file/config_file.c:783-815 | The same over every run of read, append, set and unset |
| ConfigRuns.ApplyAll | libretrodroid/src/main/cpp/libretro/libretro-common/file/config_file.c:1233-1320 | After any run of operations on a valid store, list and map agree and every key is found with the value a plain map would give |
| ConfigRuns.Session | libretrodroid/src/main/cpp/libretro/libretro-common/file/config_file.c:839-1320 | A store read from any file with its includes, changed by any run and asked for any key, answers what a plain map would |
| PathResolve.ResolveRealpath | libretrodroid/src/main/cpp/libretro/libretro-common/file/file_path.c:795-864 | For every path and working directory the byte-index loop on the buffers overruns its buffer exactly when the path is one of those that do; otherwise it does what the segment-stack normaliser does: the same failures, the same output cut to the caller's length; a failure leaves the path alone |
| PathResolve.LeadingSlashes | libretrodroid/src/main/cpp/libretro/libretro-common/file/file_path.c:819-821 | The copy of leading slashes stays in the buffer if and only if they are no more than its bytes |
| PathResolve.WhereItStarts | libretrodroid/src/main/cpp/libretro/libretro-common/file/file_path.c:819-862 | A path overruns the buffer if and only if it starts with more slashes than the buffer has bytes, or with just as many and is not refused |
| PathResolve.OnlySlashes | libretrodroid/src/main/cpp/libretro/libretro-common/file/file_path.c:819-862 | The witness family: a path of nothing but slashes overruns the buffer if and only if it has PATH_MAX_LENGTH of them |
| PathResolve.RefusedInTime | libretrodroid/src/main/cpp/libretro/libretro-common/file/file_path.c:819-858 | PATH_MAX_LENGTH slashes and a name are refused before anything is overrun |
| PathResolve.WalkBytes | libretrodroid/src/main/cpp/libretro/libretro-common/file/file_path.c:823-862 | The loop over bytes is the walk over segments, byte for byte |
| PathResolve.OneSegment | libretrodroid/src/main/cpp/libretro/libretro-common/file/file_path.c:827-857 | Each branch of the loop does to the buffer what its segment does to the stack, and leaves the read index after the next slash |
| PathResolve.Climb | libretrodroid/src/main/cpp/libretro/libretro-common/file/file_path.c:830-844 | `..` is refused exactly at the root or after an empty segment, else it drops exactly the last segment |
| PathResolve.Copy | libretrodroid/src/main/cpp/libretro/libretro-common/file/file_path.c:849-857 | A name is refused exactly when it would not fit, else it is copied with the byte after it |
| PathLaws.ResolveFails | libretrodroid/src/main/cpp/libretro/libretro-common/file/file_path.c:823-858 | Resolving fails if and only if a `..` climbs above the root, or above extra leading slashes, or the running output would pass the limit |
| PathLaws.OutputIsClean | libretrodroid/src/main/cpp/libretro/libretro-common/file/file_path.c:861-864 | An output has no `.`, no `..` and no empty segment inside, keeps its leading slashes and fits the buffer |
| PathLaws.Idempotent | libretrodroid/src/main/cpp/libretro/libretro-common/file/file_path.c:795-864 | Resolving an output again, from any working directory, changes nothing |
| PathRewrites.DotIsNothing | libretrodroid/src/main/cpp/libretro/libretro-common/file/file_path.c:845-846 | `.` means nothing, inside a path and at its start |
| PathRewrites.SlashesMerge | libretrodroid/src/main/cpp/libretro/libretro-common/file/file_path.c:847-848 | Two slashes inside a path are one |
| PathRewrites.UpTakesBack | libretrodroid/src/main/cpp/libretro/libretro-common/file/file_path.c:830-843 | A name followed by `..` can be left out, if the name itself could be resolved |
| PathRewrites.UnderWorkingDirectory | libretrodroid/src/main/cpp/libretro/libretro-common/file/file_path.c:805-816 | A relative path is resolved as if the working directory stood before it |
| PathRewrites.NamesBelow | libretrodroid/src/main/cpp/libretro/libretro-common/file/file_path.c:849-857 | Names below the working directory come out behind it, spelled as they are |
| PathRelative.PathBaseDir | libretrodroid/src/main/cpp/libretro/libretro-common/file/file_path.c:593-612 | The path is cut after its last slash or backslash; one without becomes `./`; a path of at most one character is left alone |
| PathRelative.PathRelativeTo | libretrodroid/src/main/cpp/libretro/libretro-common/file/file_path.c:886-922 | For every path and base the buffer holds one `../` for each slash left in the base and the path from where they part, cut to its length |
| PathRelative.FillResolveRelative | libretrodroid/src/main/cpp/libretro/libretro-common/file/file_path.c:936-948 | An absolute path is copied; any other one is joined to the directory of the reference and resolved, cut to the length at each step; it stays inside its buffers if and only if the path is absolute or the join does not overrun the resolver's, as in every buffer up to the path limit |
| PathRelative.RelativeRoundTrip | libretrodroid/src/main/cpp/libretro/libretro-common/file/file_path.c:886-948 | For absolute paths in normal form and a base that ends in a slash, resolving the relative path against the base gives the path back, when the buffer is long enough |
| PathRewrites.DirectoryOf | libretrodroid/src/main/cpp/libretro/libretro-common/file/file_path.c:593-612 | The directory of a path is everything up to the last slash or backslash, `./` when there is none, and the path itself when it has at most one character |
| PathRewrites.BareReference | libretrodroid/src/main/cpp/libretro/libretro-common/file/file_path.c:936-948 | Against a reference without a directory a relative path is resolved as it is |
| PathRewrites.ReferenceInDirectory | libretrodroid/src/main/cpp/libretro/libretro-common/file/file_path.c:936-948 | Against a reference in a directory it is resolved behind that directory, a backslash ending one too |
| PathRewrites.ShortReference | libretrodroid/src/main/cpp/libretro/libretro-common/file/file_path.c:598-599 | A reference of at most one character is put straight before the path |
| PathRewrites.FillBeside | libretrodroid/src/main/cpp/libretro/libretro-common/file/file_path.c:936-948 | The buffer holds the working directory and the name, for a name beside a reference without a directory |
| Fnmatch.RlFnmatch | libretrodroid/src/main/cpp/libretro/libretro-common/compat/compat_fnmatch.c:33-122 | The matcher succeeds if and only if the pattern is well-formed and the whole text divides into pieces that fit its stars, any-characters, sets, escapes and literals; it ends on every input |
| Fnmatch.MatchStar | libretrodroid/src/main/cpp/libretro/libretro-common/compat/compat_fnmatch.c:48-74 | A star matches exactly when what follows it matches the text from some place on |
| Fnmatch.MatchOne | libretrodroid/src/main/cpp/libretro/libretro-common/compat/compat_fnmatch.c:76-121 | Any token but a star takes one character: the rest of the pattern then decides about the rest of the text, or there is no match at all |
| Fnmatch.InList | libretrodroid/src/main/cpp/libretro/libretro-common/compat/compat_fnmatch.c:76-97 | A set matches exactly when it is closed and the character stands in it |
| Fnmatch.AcceptsMatches | libretrodroid/src/main/cpp/libretro/libretro-common/compat/compat_fnmatch.c:39-121 | Dividing the text into pieces and matching token after token are the same |
| FnmatchLaws.EscapedMatchesItself | libretrodroid/src/main/cpp/libretro/libretro-common/compat/compat_fnmatch.c:101-115 | A text with each character escaped matches itself and nothing else |
| FnmatchLaws.OrdinaryPrefix | libretrodroid/src/main/cpp/libretro/libretro-common/compat/compat_fnmatch.c:111-115 | So does one without `*`, `?`, `[` and a backslash, as it is, in front of any pattern |
| FnmatchLaws.AnyOne | libretrodroid/src/main/cpp/libretro/libretro-common/compat/compat_fnmatch.c:97-100 | `?` takes exactly one character, whichever |
| FnmatchLaws.OneOfSet | libretrodroid/src/main/cpp/libretro/libretro-common/compat/compat_fnmatch.c:76-96 | A closed set takes exactly one of its characters, whatever other meaning they have |
| FnmatchLaws.StarBetween | libretrodroid/src/main/cpp/libretro/libretro-common/compat/compat_fnmatch.c:48-74 | A star between two ordinary texts matches what starts with the one and ends with the other without overlap |
| FnmatchLaws.MalformedMatchesNothing | libretrodroid/src/main/cpp/libretro/libretro-common/compat/compat_fnmatch.c:76-110 | A bracket that is not closed and a backslash at the end match nothing at all |
| Cdrom.LbaRoundTrip | libretrodroid/src/main/cpp/libretro/libretro-common/cdrom/cdrom.c:74-89 | An address survives the change to minute, second and frame if and only if its minute fits a byte |
| Cdrom.MsfRoundTrip | libretrodroid/src/main/cpp/libretro/libretro-common/cdrom/cdrom.c:74-89 | A time survives the change to an address if and only if it is valid |
| KnownAnswers.Addresses | libretrodroid/src/main/cpp/libretro/libretro-common/cdrom/cdrom.c:74-89 | A minute has sixty seconds and a second 75 frames |
| Cdrom.NextIsNextBlock | libretrodroid/src/main/cpp/libretro/libretro-common/cdrom/cdrom.c:91-99 | The increment is plus one in addresses exactly under the stated bounds, in particular for every valid time but the last |
| Cdrom.Stream.Send | libretrodroid/src/main/cpp/libretro/libretro-common/cdrom/cdrom.c:483-567 | One command with its retries takes exactly the answers and retries that the reference attempt takes |
| Cdrom.TriedAgain | libretrodroid/src/main/cpp/libretro/libretro-common/cdrom/cdrom.c:523-566 | A command is carried out if and only if one of its tries is, with no more refusals before it than retries and each of them with key 0, 2, 3, 4 or 6 |
| Cdrom.LostAtOnce | libretrodroid/src/main/cpp/libretro/libretro-common/cdrom/cdrom.c:523-566 | A frame that is not cached and whose first answer is a refusal with any other key does not arrive, and costs exactly one command |
| Cdrom.LostInTheEnd | libretrodroid/src/main/cpp/libretro/libretro-common/cdrom/cdrom.c:534-560 | Eleven refusals with those keys lose the frame after eleven commands |
| Cdrom.AllRescued | libretrodroid/src/main/cpp/libretro/libretro-common/cdrom/cdrom.c:534-550 | When the refusals up to the n-th success have those keys and are no more than the retries, all n frames arrive |
| Cdrom.LateIsForgiven | libretrodroid/src/main/cpp/libretro/libretro-common/cdrom/cdrom.c:534-550 | The witness: a drive that is not ready once and obeys from then on |
| Cdrom.Stream.SendOther | libretrodroid/src/main/cpp/libretro/libretro-common/cdrom/cdrom.c:399-569 | Any other command, all of which skip nothing, returns its data and empties the cache, and never makes the cache wrong |
| Cdrom.Stream.OneFrame | libretrodroid/src/main/cpp/libretro/libretro-common/cdrom/cdrom.c:421-521 | A frame that arrives, from the cache or the drive, is the frame of the disc at its address, and the cache stays right |
| Cdrom.Stream.ReadNext | libretrodroid/src/main/cpp/libretro/libretro-common/cdrom/cdrom.c:421-521 | One frame of a read: the answer and the retries are those of the reference, and the bytes copied are that frame's wanted ones, or none when it does not arrive |
| Cdrom.Stream.ReadFrames | libretrodroid/src/main/cpp/libretro/libretro-common/cdrom/cdrom.c:415-569 | Over all frames of a read the cache stays right, the buffer begins with the bytes delivered by the frames that came, in order and without gaps, and is otherwise as it was |
| Cdrom.Amounts | libretrodroid/src/main/cpp/libretro/libretro-common/cdrom/cdrom.c:430-444 | What is skipped and copied of each frame stays inside the transfer and the caller's buffer even after frames that never came, and inside the frame while none is missing |
| Cdrom.Stream.SendRead | libretrodroid/src/main/cpp/libretro/libretro-common/cdrom/cdrom.c:389-573 | Whatever the drive refuses, the buffer begins with the delivered bytes and is otherwise untouched; the status tells only of the last frame |
| Cdrom.Stream.CdromRead | libretrodroid/src/main/cpp/libretro/libretro-common/cdrom/cdrom.c:1170-1218 | Whatever arrives, the buffer holds exactly the delivered bytes. When every frame arrives, as on a drive that refuses at most ten times and only with keys 0, 2, 3, 4 and 6, those are the `len` bytes at offset `start*2352 + skip`, whatever the cache holds; for a read within one frame success alone implies it; a failure empties the cache |
| Cdrom.AllArrive | libretrodroid/src/main/cpp/libretro/libretro-common/cdrom/cdrom.c:415-569 | A drive that refuses nothing delivers every frame, cached or not |
| Cdrom.AllDelivered | libretrodroid/src/main/cpp/libretro/libretro-common/cdrom/cdrom.c:421-444 | When all frames arrive, the delivered bytes are those of the disc at `lba*2352 + skip` |
| Cdrom.MaskedFailure | libretrodroid/src/main/cpp/libretro/libretro-common/cdrom/cdrom.c:492 | The witness: with its first frame refused, a read of two frames or more reports success though its bytes are not the disc's |
| Cdrom.TrustedWhenShort | libretrodroid/src/main/cpp/libretro/libretro-common/cdrom/cdrom.c:492-573 | Success means that the wanted bytes are there, on every disc, drive and cache, if and only if the read needs at most one frame |
| Cdrom.MaskedRead | libretrodroid/src/main/cpp/libretro/libretro-common/cdrom/cdrom.c:1170-1218 | The same on a stream: a read of two frames or more can report success and leave wrong bytes in the caller's buffer |
| Cdrom.Serve | libretrodroid/src/main/cpp/libretro/libretro-common/cdrom/cdrom.c:373-574 | After any history of reads and other commands, refused and retried in any way, a valid cached frame is the disc's frame at its recorded address |
| Utf.WellFormed | libretrodroid/src/main/cpp/libretro/libretro-common/encodings/encoding_utf.c:98-156 | A unit string is accepted if and only if it is the UTF-16 encoding (section 2.2 of RFC 2781) of some code points, and then of those |
| Utf.Utf16ConvUtf8 | libretrodroid/src/main/cpp/libretro/libretro-common/encodings/encoding_utf.c:98-156 | The conversion succeeds exactly on well-formed input, writes the UTF-8 of section 3 of RFC 3629, and reports the same length with a buffer and without |
| Utf.PutPoint | libretrodroid/src/main/cpp/libretro/libretro-common/encodings/encoding_utf.c:137-151 | Every code point above 7F is written as its two to four bytes |
| Utf.Combine | libretrodroid/src/main/cpp/libretro/libretro-common/encodings/encoding_utf.c:125-135 | Two surrogates give the code point of section 2.2 of RFC 2781 |
| KnownAnswers.UtfExamples | libretrodroid/src/main/cpp/libretro/libretro-common/encodings/encoding_utf.c:98-156 | Examples of RFC 3629 and RFC 2781 |
| Utf.CountExtra | libretrodroid/src/main/cpp/libretro/libretro-common/encodings/encoding_utf.c:137-139 | The loop counts the bytes that follow the first |
| UtfDecode.Utf8ConvUtf32 | libretrodroid/src/main/cpp/libretro/libretro-common/encodings/encoding_utf.c:60-91 | The loop with shifts and ors computes the reference decoding of any bytes, as far as there is room |
| UtfDecode.Utf8Converts | libretrodroid/src/main/cpp/libretro/libretro-common/encodings/encoding_utf.c:60-91 | The UTF-8 of any code points decodes to them, as far as there is room |
| UtfDecode.AnyBytes | libretrodroid/src/main/cpp/libretro/libretro-common/encodings/encoding_utf.c:60-91 | On any bytes at all: forms of one to six bytes are read by their first byte, the others are not checked, and a byte that starts nothing or a form that is cut off ends the conversion |
| UtfDecode.CountLeadingOnes | libretrodroid/src/main/cpp/libretro/libretro-common/encodings/encoding_utf.c:42-52 | The shift loop counts the leading one bits of every byte |
| UtfDecode.Utf8Walk | libretrodroid/src/main/cpp/libretro/libretro-common/encodings/encoding_utf.c:252-273 | A walk over the bytes of a code point returns it and stops right after it |
| UtfDecode.WalkAll | libretrodroid/src/main/cpp/libretro/libretro-common/encodings/encoding_utf.c:252-273 | Walking over UTF-8 text gives its code points one by one |
| UtfDecode.Utf8Len | libretrodroid/src/main/cpp/libretro/libretro-common/encodings/encoding_utf.c:227-241 | The loop counts the bytes before the first NUL that are not continuation bytes |
| UtfDecode.CountsPoints | libretrodroid/src/main/cpp/libretro/libretro-common/encodings/encoding_utf.c:227-241 | The count is the number of code points if and only if none of them is NUL |
| UtfDecode.RoundTrip | libretrodroid/src/main/cpp/libretro/libretro-common/encodings/encoding_utf.c:60-156 | Well-formed UTF-16 converted to UTF-8 decodes to the original code points, and is counted right when no NUL occurs |
| Mixer.SampleAdvance | libretrodroid/src/main/cpp/libretro/libretro-common/audio/audio_mixer.c:994-1036 | Mixing later is mixing from a later state |
| Mixer.RunIsSamples | libretrodroid/src/main/cpp/libretro/libretro-common/audio/audio_mixer.c:994-1036 | Over any sequence of calls a voice contributes the same samples however the output is split: `pcm[k mod length]` when it repeats, its samples and then silence when not |
| Mixer.FinishesOnce | libretrodroid/src/main/cpp/libretro/libretro-common/audio/audio_mixer.c:1024-1027 | A voice that does not repeat finishes once, in the first call that asks for more than it has left |
| Mixer.RepeatsReported | libretrodroid/src/main/cpp/libretro/libretro-common/audio/audio_mixer.c:1012-1021 | A repeating voice reports each new start once, however the output is split |
| Mixer.Voice.MixWav | libretrodroid/src/main/cpp/libretro/libretro-common/audio/audio_mixer.c:994-1036 | The goto loop ends, adds sample k times volume at place k and nothing after, moves position and slot as the reference does, and calls back as often |
| Mixer.Voice.MixAny | libretrodroid/src/main/cpp/libretro/libretro-common/audio/audio_mixer.c:1344-1371 | A voice without a sound adds nothing and stays as it is |
| Mixer.Voice.Release | libretrodroid/src/main/cpp/libretro/libretro-common/audio/audio_mixer.c:939-972 | The slot is free again |
| Mixer.Voice.Stop | libretrodroid/src/main/cpp/libretro/libretro-common/audio/audio_mixer.c:974-992 | The slot is free and the stop is reported, even when the voice had finished |
| Mixer.StopReportsOnce | libretrodroid/src/main/cpp/libretro/libretro-common/audio/audio_mixer.c:974-1027 | Mixed in any portions and then stopped, a sound is reported over exactly once if and only if it is still playing when stopped, that is, if it repeats or the portions do not exceed its samples; otherwise twice |
| Mixer.EndingsOf | libretrodroid/src/main/cpp/libretro/libretro-common/audio/audio_mixer.c:994-1027 | Over any portions the end of a sound is reported once if it ended in them and never if it did not |
| Mixer.AudioMixer.Play | libretrodroid/src/main/cpp/libretro/libretro-common/audio/audio_mixer.c:853-936 | A sound gets a free voice at its start, the others untouched, and is refused exactly when none is free |
| Mixer.AudioMixer.Mix | libretrodroid/src/main/cpp/libretro/libretro-common/audio/audio_mixer.c:1328-1383 | Every voice advances by the frames asked for, and the buffer is the clipped sum of what was in it and all voices at their volumes |
| Mixer.AudioMixer.MixVoices | libretrodroid/src/main/cpp/libretro/libretro-common/audio/audio_mixer.c:1336-1374 | Every voice advances, and the buffer gains the samples of all voices, each at its volume |
| Mixer.ClipAll | libretrodroid/src/main/cpp/libretro/libretro-common/audio/audio_mixer.c:1376-1382 | Every sample of the call is cut, lies between -1 and 1, and no other is touched |
| Mixer.ClipIsNearest | libretrodroid/src/main/cpp/libretro/libretro-common/audio/audio_mixer.c:1376-1382 | The cut sample is the nearest one between -1 and 1 |
| Zip.ReadLe | libretrodroid/src/main/cpp/libretro/libretro-common/file/archive_file_zlib.c:64-72 | Shifted bytes or-ed together are the little-endian number |
| Zip.SignatureBytes | libretrodroid/src/main/cpp/libretro/libretro-common/file/archive_file_zlib.c:432 | The signature test is the test for the bytes 50 4B 05 06 |
| Zip.TestFooter | libretrodroid/src/main/cpp/libretro/libretro-common/file/archive_file_zlib.c:432-437 | A place in the block buffer passes exactly when the end record starts there in the file |
| Zip.FindFooter | libretrodroid/src/main/cpp/libretro/libretro-common/file/archive_file_zlib.c:398-438 | For every file the blocked backward search finds the highest offset whose end record (section 4.3.16 of the ZIP APPNOTE) reaches exactly the end of the file, and fails if and only if there is none |
| Zip.ParseFileInit | libretrodroid/src/main/cpp/libretro/libretro-common/file/archive_file_zlib.c:395-470 | There is no directory without a record; otherwise the last record of the file describes it |
| Zip.RecordMeans | libretrodroid/src/main/cpp/libretro/libretro-common/file/archive_file_zlib.c:432-437 | A record is the bytes 50 4B 05 06, eighteen more, and a comment up to the end of the file as long as the last two of them say |
| Zip.OpenLast | libretrodroid/src/main/cpp/libretro/libretro-common/file/archive_file_zlib.c:439-466 | For the last record the directory is as many bytes as stand at 12 from the offset that stands at 16, with the number at 10 as entries, and there is none if and only if those bytes pass the end of the file |
| Zip.OpenArchive | libretrodroid/src/main/cpp/libretro/libretro-common/file/archive_file_zlib.c:395-470 | An archive of anything, a directory, anything, the record that describes it and its comment is opened to that directory |
| Base64.EncodeIsRfc4648 | libretrodroid/src/main/cpp/libretro/libretro-common/encodings/encoding_base64.c:83-108 | The encoder is section 4 of RFC 4648: the bits in groups of six, padded |
| Base64.RoundTrip | libretrodroid/src/main/cpp/libretro/libretro-common/encodings/encoding_base64.c:69-170 | Decoding undoes encoding, for every byte string |
| Base64.EncodeLength | libretrodroid/src/main/cpp/libretro/libretro-common/encodings/encoding_base64.c:75-79 | Four characters for every three bytes begun |
| Base64.EncodeBase64 | libretrodroid/src/main/cpp/libretro/libretro-common/encodings/encoding_base64.c:69-112 | The buffer holds the encoding and a NUL, exactly as many characters as reported |
| Base64.WriteLast | libretrodroid/src/main/cpp/libretro/libretro-common/encodings/encoding_base64.c:95-108 | One or two last bytes are written as their padded group |
| Base64.ReadPiece | libretrodroid/src/main/cpp/libretro/libretro-common/encodings/encoding_base64.c:140-167 | A group gives its leading bytes, as many as asked for, and no more |
| Base64.DecodeBase64 | libretrodroid/src/main/cpp/libretro/libretro-common/encodings/encoding_base64.c:114-170 | For every text the mishap, if any, is the one foretold by length and padding: too short, no memory, a byte past the end read or written; without one the buffer begins with the output and has the reported length |
| Base64.OutcomeIs | libretrodroid/src/main/cpp/libretro/libretro-common/encodings/encoding_base64.c:126-167 | Reading and writing stay in bounds if and only if the text is not padded, is whole groups, or has one character more and two signs of padding; a byte past the text is read if and only if two are more and one is padding |
| Base64.ReportIsExact | libretrodroid/src/main/cpp/libretro/libretro-common/encodings/encoding_base64.c:126-167 | As many bytes are written as reported if and only if the text is whole groups, or has one character more and not one sign of padding; otherwise padded text leaves its bounds and unpadded text reports too many |
| Base64.Mishaps | libretrodroid/src/main/cpp/libretro/libretro-common/encodings/encoding_base64.c:133-167 | Witnesses: `AB=` has room for one byte and two are due, `AAAA==` room for two and four are due, `A=` is read past its end, `AAAAAA` reports four bytes and writes three |
| Base64.OutputDecodes | libretrodroid/src/main/cpp/libretro/libretro-common/encodings/encoding_base64.c:133-167 | For text of whole groups the bytes written are the decoding, exactly as many as reported |
| Base64.ThereAndBack | libretrodroid/src/main/cpp/libretro/libretro-common/encodings/encoding_base64.c:69-170 | Writing and reading back gives the bytes and their number; the empty string gives none |
| Base64.LetterRoundTrip | libretrodroid/src/main/cpp/libretro/libretro-common/encodings/encoding_base64.c:32-62 | The two alphabet tables are inverse, and no letter is the padding sign |
| KnownAnswers.Alphabet | libretrodroid/src/main/cpp/libretro/libretro-common/encodings/encoding_base64.c:32 | The 64 letters are capitals, small letters, digits, plus and slash |
| KnownAnswers.NotALetter | libretrodroid/src/main/cpp/libretro/libretro-common/encodings/encoding_base64.c:35-62 | What is not a letter is read as an A |
| KnownAnswers.FooVectors | libretrodroid/src/main/cpp/libretro/libretro-common/encodings/encoding_base64.c:69-112 | `f`, `fo` and `foo` give the words that section 10 of RFC 4648 prints |

## Left out

- ZlibCompress.Compress: the lengths must fit an int and every allocation is granted; the source returns NULL otherwise.
- ZlibOutput.Output: the capacity is a number kept beside the output; that the memory itself is moved by `realloc` is not modelled.
- Inflate: the reference decoder reads stored blocks and fixed Huffman codes, which is all the writer uses; dynamic Huffman codes are missing.
- Png.WritePngToMem: the lengths must fit an int; once a buffer is overrun nothing more is said.
- Png.BestFilter: when the residuals of a row could sum up to more than an int holds, only that some filter is chosen and applied.
- JpegStandard.EncodeStandardSegment: file header and end marker are not modelled; of the header only the counts and symbols of the Huffman tables are.
- JpegEntropy.ProcessDU: starts from the 64 integer coefficients in zigzag order, within the baseline categories; DCT, quantisation and subsampling are floating point.
- Hdr.WriteScanline: starts from RGBE pixels; the conversion from floating point and the text header are not modelled.
- Tga.WriteTga: with run lengths switched on; the plain form, like BMP, goes through code with no algorithm in it.
- ConfigOrder.CompareTransitive: case folding is that of the letters A to Z.
- ConfigText.ReadLine: files hold no NUL, and characters are ASCII to `isspace` and `isgraph`; the growing key buffer is a string.
- ConfigStore.Config.AddSubConf: how an include path is made absolute is a parameter; without a base path the source leaves it uninitialised. The list of includes is a sequence.
- ConfigStore.Config.ParseLine: the stored form of a reference is a parameter that `ConfigReference.StoredForm` gives; a config read from a string without a path, to which nothing can be relative, is left out.
- ConfigReference.StoredForm: what the notations for the home and application directories expand to and abbreviate is a parameter.
- ConfigStore.Config.ReadText: `getline` on a file and `strtok` on a string are one function that cuts a text into lines.
- ConfigStore.Config.Load: callbacks for new entries are missing, and `free` of what the list no longer holds.
- ConfigStore.Config.SetString: the flag that promises a file without duplicates is off.
- ConfigWrite.Dump: the text is returned; that it goes to a file is not modelled.
- ConfigRuns.RunTable: includes happen inside reading; a dump is not an operation of a run, because of its own condition.
- PathResolve.ResolveRealpath: without symbolic links, and with the working directory as a clean parameter; it is the POSIX branch, and outside RetroArch builds the function only returns NULL. After an overrun nothing more is said.
- Cdrom.Stream.CdromRead: start times are valid, `skip` is below 2352 and the read ends before minute 256; the frame count is an integer division rounded up, not a `double`.
- Cdrom.Stream.OneFrame: command bytes, transfer buffer and cached frame are values; only the caller's buffer is an array. The drive is a function from addresses to frames and from commands to answers; SCSI calls and the pause before a retry are missing.
- Cdrom.Stream.SendOther: `skip` is 0, as all callers pass it; a command that is refused transfers nothing.
- UtfDecode.Utf8Walk: on text that is UTF-8; the source says it returns garbage otherwise.
- UtfDecode.Utf8Len: the buffer ends in a NUL after its content.
- Mixer.Voice.MixWav: samples are real numbers, so rounding is missing; callbacks are a list of what was reported and do not call the mixer again.
- Mixer.AudioMixer.Mix: volumes and sums are real numbers too.
- Mixer.AudioMixer.Play: WAV sounds only, a sound that repeats has a sample, and there is no locking.
- Zip.ParseFileInit: the file can be read; what follows the directory (entries and their decompression) is not modelled.
- Base64.DecodeBase64: lengths for which `3*len` fits an int; after a mishap nothing more is said about the buffer.
- Base64.EncodeBase64: lengths for which `4*(len+pad)` fits an int.
- Crc32.EncodingCrc32: the table branch; the branch with ARM instructions calls into the compiler.
- Out of scope: JNI, OpenGL, shaders, audio and video output, rumble, environment and input tables, `strlcpy` and `strlcat` except as what they do to a string, image flipping and pixel formats, 7z, OGG, FLAC, MP3 and MOD.
