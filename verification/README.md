# ESO data tools: a verified model

This project models the parts of the repository where a mistake would be hardest to see, and proves what
their code, tests and documentation promise of them.

* **Snappy codec** (`Arithmetic`, `Bytes`, `Bits`, `Memory`, `Buffers`, `Varint`, `Snappy*`). The compressor with its lossy hash
  table, the tag decoder over an arbitrarily cut source, the overlapping copies and the four writers, over
  byte arrays with explicit 32-bit widths. The partner of every result is a reference decoder,
  `SnappyFormat`, which takes one element at a time and one byte at a time, after the "Snappy compressed
  format description", sections 1, 2.1 and 2.2; and for what is written a reference compressor, `SnappyPieces`,
  which compares byte by byte and remembers every position it has looked up.
* **Def compiler** (`Names`, `Directives`, `TypeTree`, `Dependencies`, `Emission`, `DefCompiler`). Nesting of flat type
  names while the map is walked, edges at the level where two paths part, and the order in which
  definitions are written.
* **Compiled and interpreted records** (`CompiledFormat`, `FieldFormat`, `CompiledReader`, `CompiledWriter`, `DynamicRecord`,
  `DynamicParser`, `Agreement`, `Rows`). The generated serializers as lists of typed stream statements, the interpreter of
  the same directives, that the two agree on every byte string and read each of the seventeen field types as it lies in
  the file, and the rows of a def with their lookup by id.
* **Serialization streams** (`Numbers`, `Streams`, `Segments`, `RTree`). Byte orders, streams that write through to
  one another, back-patched segments and recursive R-trees.
* **Projected filesystem** (`Paths`, `ById`, `Enumeration`, `DirectoryScan`, `DirectoryTree`, `Inodes`). Interval
  arithmetic modulo 2^64, the resumable directory scan, and the tree of named inodes.
* **Hash table and archives** (`HashTable`, `Archives`). Lookup and iteration under the probe invariant, and the
  archive that counts when several hold a file.

Buffers are arrays of bytes and pointers are indices into them; `size_t` is 64 bits wide and the host little-endian.
Calls into code outside the repository are parameters: the chunks a source shows, the entries a directory buffer
takes, the comparison of file names, the hash function. An exception is a result (`None` or `false`).

What the code does where its own documentation, or the obvious property, says otherwise:

* A literal whose four length bytes are all 0xff has 2^32 bytes by the format and is empty to the program, because its
  length is computed in 32 bits (`3rdparty/snappy/snappy.cc:719-723`). `SnappyFormat` decodes either way: `Unbounded` is
  the format, `Bits32` the program. `SnappyConformance.Conforms` says exactly when the two agree, and everything
  that is compressed stands for its input by both.
* The decompressor counts what it has peeked in 32 bits (`3rdparty/snappy/snappy.cc:601`), so a source must not show a
  region of 2^32 bytes or more. A source counts such regions (`overlong`), and every result speaks of the case that
  none was shown. What happens otherwise: `Decompressor.NextRegion` for one region, `SnappyLongRegions.OneRegion` for a
  stream shown in one, and `SnappyLongRegions.GoodStreamRefused` for a good stream that is refused.
* `CompressFragment` asks for an output buffer of `MaxCompressedLength` bytes for its block, but `RawCompress` has
  already used some of that for the preamble. A tighter bound is proved, which the space left always meets.
* An input of 2^32 bytes or more compresses to a stream that announces a shorter length, and is rejected.
* A by-id directory whose last child ends at 2^64 - 1 and has keys is listed again by calls after the end, because
  the position wraps to 0: first, when there are keys below the directory, one child for each block of them, which does
  not lie in it, and then everything again. `DirectoryTree.ListedAgain` says what any sequence of calls lists there, and
  `DirectoryTree.EndsIffSafe` that such a scan never ends, and every other does.
* The interpreter files two fields of one name in one place: a def with a field called `version`, or a field
  that is called what an unnamed one would be, loses a value (`Rows.VersionIsLost`,
  `Agreement.UnnamedFieldTakesName`). `Rows.RowsAgree` gives the exact condition.
* A foreign key to a name that is not a def, and a selector that names none, are accepted by the compiler and refused
  by the interpreter (`Agreement.UnknownKeyIsRefused`). `DynamicParser.Known` says which values it refuses, and
  `DynamicParser.ParseField` that it refuses no others.

## Model

| member | source | states |
|---|---|---|
| Snappy.RoundTrip | 3rdparty/snappy/snappy.cc:854-936 | for every input below 2^32 bytes, compressing stays within `MaxCompressedLength` and gives a stream that by the format stands for the input; decompressing gives back the input for every cut of the stream into regions below 2^32 bytes, so for any cut at all of a stream that is itself shorter |
| Snappy.RoundTripToBuffers | 3rdparty/snappy/snappy.cc:1104-1117 | the same into any list of buffers with the room |
| Snappy.RoundTripToSink | 3rdparty/snappy/snappy.cc:1485-1516 | the same into a sink, whatever flat buffer it offers |
| SnappyCompress.Compress | 3rdparty/snappy/snappy.cc:854-936 | the stream written stands for the input, by the format as by the program's own decoder, exactly when the input is shorter than 2^32 bytes (beyond that the 32-bit preamble cannot announce it and both reject); it is the preamble and, for each block of 2^16 bytes and the last, exactly the pieces that the reference compressor calls for under the hash of the block's table; at most 32 + N + N/6 bytes are touched |
| SnappyCompress.UniformStream | 3rdparty/snappy/snappy.cc:412-539 | one byte over and over shrinks to a sixth of its length and 22 bytes at most |
| SnappyCompress.CompressBlocks | 3rdparty/snappy/snappy.cc:868-929 | the loop: the blocks together decode to the input, and each block but the last is full |
| Snappy.RawCompress | 3rdparty/snappy/snappy.cc:1256-1266 | the same into a caller's buffer: the stream, the pieces, and the used length returned |
| SnappyCompress.CompressBlock | 3rdparty/snappy/snappy.cc:891-917 | one block behind earlier output: it decodes to itself alone and leaves all earlier bytes as they were |
| SnappyCompress.ReadFragment | 3rdparty/snappy/snappy.cc:868-889 | a fragment gathered over any number of regions is the next bytes of the source, and the source has moved on by exactly those |
| SnappyCompress.GetHashTable | 3rdparty/snappy/snappy.cc:330-353 | the table size is the least power of two from 256 to 2^14 that holds the input, and the table is cleared |
| SnappyCompress.HashFits | 3rdparty/snappy/snappy.cc:60-71 | the multiplicative hash stays inside the table for every word |
| SnappyCompress.WritePreamble | 3rdparty/snappy/snappy.cc:856-862 | at most five bytes, the seven-bit groups of the length |
| SnappyCompress.PreambleParses | 3rdparty/snappy/snappy.cc:856-862 | which parse back to the length |
| SnappyCompress.BlockRate | 3rdparty/snappy/snappy.cc:73-95 | block after block, what is written stays below seven sixths of what is read |
| SnappyCompress.BlockRoom | 3rdparty/snappy/snappy.cc:73-95 | before every block, what is written plus all the block may touch stays within the documented bound |
| SnappyCompress.AppendBlock | 3rdparty/snappy/snappy.cc:891-917 | a block behind earlier blocks decodes to the input so far and the block |
| SnappyCompress.StreamDecodes | 3rdparty/snappy/snappy.cc:854-936 | preamble and concatenated fragments are one accepted stream |
| SnappyFragment.CompressFragment | 3rdparty/snappy/snappy.cc:412-539 | for any hash function: the fragment decodes to the block and is spelled in exactly the pieces of the reference compressor (`PiecesOfBlock`); 64 equal bytes or more take at most a sixth of their length; no byte outside the reach is written, and the skip loops end |
| SnappyFragment.Scan | 3rdparty/snappy/snappy.cc:441-480 | from wherever it starts, the scan finds what byte-wise search finds (`FindMatch`): the first of the positions it looks up whose four bytes are those at the last position looked up under the same hash, or nothing if none is; the table then holds exactly the positions looked up |
| SnappyFragment.EmitCopies | 3rdparty/snappy/snappy.cc:482-531 | a run of copies writes exactly the pieces that the reference calls for, each as long as the longest common prefix, and goes on as long as the four bytes behind it are those of their candidate; behind the last of them the scan goes on one byte further, or the rest is a literal |
| SnappyPieces.FirstMatch | 3rdparty/snappy/snappy.cc:441-480 | the reference search: it looks up every position for the first 32, every second for the next, and so on; all of them but the one found differ in four bytes from the last position looked up under the same hash, and it finds nothing only if the next lies in the margin |
| SnappyPieces.Skipping | 3rdparty/snappy/snappy.cc:448-463 | behind 32 k bytes without a match, and as long as there are fewer than 32 (k + 1), the search moves on by k + 1 |
| SnappyPieces.UniformBlock | 3rdparty/snappy/snappy.cc:441-531 | a block of one byte over and over is that byte and one copy of the rest |
| SnappyPieces.UniformShrinks | 3rdparty/snappy/snappy.cc:291-316 | and from 64 bytes on takes at most a sixth of its length |
| SnappyFragment.EmitMatch | 3rdparty/snappy/snappy.cc:493-507 | one copy is as long as the longest common prefix and decodes to the matched input |
| SnappyFragment.MatchIsCopy | 3rdparty/snappy/snappy.cc:493-507 | where the input repeats itself at a distance, an overlapping copy of that distance reproduces it |
| SnappyFragment.ShiftedLoad | 3rdparty/snappy/snappy.cc:374-404 | shifting a 64-bit load right by 0 to 4 bytes and cutting it to 32 bits is loading 32 bits that many bytes further on |
| SnappyFragment.RateAfterLiteral | 3rdparty/snappy/snappy.cc:73-95 | a literal of n bytes borrows at most one byte from the rate of 61 out for 60 in |
| SnappyFragment.RateAfterCopy | 3rdparty/snappy/snappy.cc:73-95 | a copy of at least four bytes pays that byte back |
| SnappyFragment.Room | 3rdparty/snappy/snappy.cc:73-95 | the rate, the 15-byte literal overrun and the 4-byte store of 3-byte copies all stay within the reach of the block |
| SnappyMatch.FindMatchLength64 | 3rdparty/snappy/snappy-internal.h:88-136 | returns the length of the longest common prefix, and whether it is below eight, reading nothing past the limit |
| SnappyMatch.FindMatchLength32 | 3rdparty/snappy/snappy-internal.h:138-161 | the 32-bit variant returns the same length |
| SnappyMatch.MatchLengthUnique | 3rdparty/snappy/snappy-internal.h:88-161 | there is one such length, so the two variants agree |
| SnappyMatch.WordDifference | 3rdparty/snappy/snappy-internal.h:150-153 | the lowest set bit of the exclusive or of two loaded words lies in their first unequal byte |
| SnappyMatch.LongWordDifference | 3rdparty/snappy/snappy-internal.h:119-124 | the same for 64-bit words |
| SnappyEmit.EmitLiteral | 3rdparty/snappy/snappy.cc:224-267 | the bytes written are one literal element that decodes to exactly the given bytes, on the fast path and for every length encoding |
| SnappyEmit.EmitCopyAtMost64 | 3rdparty/snappy/snappy.cc:269-289 | the two or three bytes written stand for one copy of that offset and length |
| SnappyEmit.EmitCopy | 3rdparty/snappy/snappy.cc:291-316 | any length from four on is split into pieces of 64 bytes and a rest of 4 to 64, exactly as `CopyPieces` says, that together are one copy of the full length; nothing is touched behind the last piece and the fourth byte of its store |
| SnappyEmit.CopiesJoin | 3rdparty/snappy/snappy.cc:291-316 | pieces with one offset run in sequence equal the single copy of their total length |
| SnappyEmit.LiteralDecodes | 3rdparty/snappy/snappy.cc:224-267 | a literal element appends its bytes behind any output |
| SnappyEmit.CopyElementEncodes | 3rdparty/snappy/snappy.cc:269-289 | an element with the header of a copy stands for that copy behind any output long enough |
| SnappyTags.TableMatchesFormat | 3rdparty/snappy/snappy-internal.h:186-219 | each of the 256 table entries holds the trailer width, length and high offset bits that the format description (sections 2.1 and 2.2) gives its tag |
| SnappyFormat.DecodeConcat | 3rdparty/snappy/snappy.cc:660-763 | decoding two streams one behind the other is decoding the second behind the output of the first |
| SnappyFormat.DecodeExtends | 3rdparty/snappy/snappy.cc:660-763 | an accepted stream only adds to the output that was there |
| SnappyFormat.DecodeBehind | 3rdparty/snappy/snappy.cc:854-936 | a fragment decodes behind earlier blocks as it does alone |
| SnappyFormat.CopyFromSplit | 3rdparty/snappy/snappy.cc:1032-1099 | an overlapping copy in two pieces is one copy |
| SnappyFormat.CopyFromUnique | 3rdparty/snappy/snappy.cc:128-134 | a copy is the only extension in which each new byte equals the one an offset before it |
| SnappyFormat.CopyFromPeriodic | 3rdparty/snappy/snappy.cc:128-134 | and it is such an extension |
| SnappyConformance.LongestLiteral | 3rdparty/snappy/snappy.cc:719-723 | a stored literal length of 0xffffffff denotes 2^32 bytes by the format and none to the program |
| SnappyConformance.OtherHeaders | 3rdparty/snappy/snappy.cc:710-758 | every other header means the same to both |
| SnappyConformance.Conforms | 3rdparty/snappy/snappy.cc:824-844 | the program's verdict and output are the format's if and only if it is not the case that it accepts and a header of that length is met where an element starts |
| SnappyConformance.AcceptedByFormat | 3rdparty/snappy/snappy.cc:824-844 | what the format accepts, the program decodes to the same bytes |
| SnappyConformance.AcceptedByProgramAlone | 3rdparty/snappy/snappy.cc:719-723 | a stream of six bytes that the program accepts and the format rejects |
| SnappyConformance.MetIsLong | 3rdparty/snappy/snappy.cc:719-723 | with such a header the format calls for 2^32 bytes of output or more |
| Varint.Encode32 | 3rdparty/snappy/snappy-stubs-internal.h:507-533 | the bytes written are the seven-bit groups of the value, into any buffer that holds them |
| Varint.Parse32WithLimit | 3rdparty/snappy/snappy-stubs-internal.h:485-505 | parses what the reference parser does, with the same rejections |
| Varint.ParseGroups | 3rdparty/snappy/snappy-stubs-internal.h:485-533 | what is encoded is parsed back, wherever it stands |
| Varint.ShiftLoss | 3rdparty/snappy/snappy.cc:634-655 | shifting a group out of the 32-bit word and back detects exactly the values that do not fit |
| Varint.ParsedFits | 3rdparty/snappy/snappy-stubs-internal.h:485-505 | whatever parses fits 32 bits |
| Bits.Log2Floor | 3rdparty/snappy/snappy-stubs-internal.h:417-431 | the floor of the binary logarithm, -1 for zero |
| Bits.FindLSBSetNonZero | 3rdparty/snappy/snappy-stubs-internal.h:434-446 | the position of the lowest set bit, by halving |
| Bits.FindLSBSetNonZero64 | 3rdparty/snappy/snappy-stubs-internal.h:449-457 | the same for 64 bits |
| Bits.XorSplits | 3rdparty/snappy/snappy-stubs-internal.h:434-446 | below the lowest set bit of an exclusive or the words agree, at it they differ |
| Bytes.MaskedLoad | 3rdparty/snappy/snappy.cc:743-749 | masking a 32-bit load to k bytes reads exactly those k bytes, whatever stale bytes follow |
| SnappyCopy.IncrementalCopySlow | 3rdparty/snappy/snappy.cc:128-134 | every byte written repeats the one an offset before it, and nothing else changes |
| SnappyCopy.IncrementalCopy | 3rdparty/snappy/snappy.cc:139-220 | the same bytes in [op, op_limit) for every distance of at least one, and no write outside [op, buf_limit) |
| SnappyCopy.CopiesAgree | 3rdparty/snappy/snappy.cc:128-220 | two copies of this kind from the same bytes leave the same bytes: the fast form refines the slow one |
| SnappyCopy.RepeatsIsCopy | 3rdparty/snappy/snappy.cc:128-220 | what they leave is the reference copy |
| SnappyCopy.Doubling | 3rdparty/snappy/snappy.cc:178-199 | copying everything between source and cursor doubles the pattern and keeps it |
| SnappyArrayWriter.ArrayWriter.Append | 3rdparty/snappy/snappy.cc:1144-1153 | appends exactly when the announced length allows |
| SnappyArrayWriter.ArrayWriter.AppendFromSelf | 3rdparty/snappy/snappy.cc:1168-1185 | copies exactly when the source lies in the output and the length fits, including the wrap of offset 0 |
| SnappyArrayWriter.ArrayWriter.TryFastAppend | 3rdparty/snappy/snappy.cc:1155-1166 | may decline; when it does not, it appended the bytes |
| SnappyArrayWriter.Validator.Append | 3rdparty/snappy/snappy.cc:1228-1231 | counts with the verdict of the flat writer |
| SnappyArrayWriter.Validator.AppendFromSelf | 3rdparty/snappy/snappy.cc:1235-1241 | counts a copy with the verdict of the flat writer |
| SnappyIOVecWriter.IOVecWriter.Append | 3rdparty/snappy/snappy.cc:987-1015 | appends across buffers with the verdict of the flat writer |
| SnappyIOVecWriter.IOVecWriter.AppendFromSelf | 3rdparty/snappy/snappy.cc:1032-1099 | a self-copy whose source and destination span several buffers is the reference copy |
| SnappyIOVecWriter.IOVecWriter.Locate | 3rdparty/snappy/snappy.cc:1040-1057 | walks back to the buffer and position that lie an offset before the cursor |
| SnappyIOVecWriter.IOVecWriter.OutputIsConcatenation | 3rdparty/snappy/snappy.cc:945-1102 | the output is the front of all buffers taken together |
| SnappyScatteredWriter.ScatteredWriter.Append | 3rdparty/snappy/snappy.cc:1334-1344 | appends with the verdict of the flat writer, in the block or through the slow path |
| SnappyScatteredWriter.ScatteredWriter.SlowAppend | 3rdparty/snappy/snappy.cc:1379-1407 | fills the block and goes on in new ones, each full block of the block size |
| SnappyScatteredWriter.ScatteredWriter.AppendFromSelf | 3rdparty/snappy/snappy.cc:1360-1373 | copies with the verdict of the flat writer |
| SnappyScatteredWriter.ScatteredWriter.SlowAppendFromSelf | 3rdparty/snappy/snappy.cc:1410-1431 | byte by byte from any block, it is the reference copy |
| SnappyScatteredWriter.ScatteredWriter.Flush | 3rdparty/snappy/snappy.cc:1449-1466 | the pieces handed to the sink concatenate to the output, and every piece but the last is a full block |
| SnappyWriter.Writer.Append | 3rdparty/snappy/snappy.cc:690-763 | one contract for all four writers: success exactly while the announced length allows it |
| SnappyWriter.Writer.AppendFromSelf | 3rdparty/snappy/snappy.cc:690-763 | one contract for all four writers: success exactly when source and length fit |
| SnappyWriter.Writer.TryFastAppend | 3rdparty/snappy/snappy.cc:705-716 | never accepts a literal that would leave less than a tag readable |
| SnappyDecompress.Decompressor.DecompressAllTags | 3rdparty/snappy/snappy.cc:660-763 | verdict and output are the reference decoder's, in the program's 32-bit lengths, on the whole input however the source splits it, as long as no region of 2^32 bytes or more is shown; if the first region is the only one, on the input as `Ahead` says it is read; the loop ends in every case |
| SnappyDecompress.Decompressor.RefillTag | 3rdparty/snappy/snappy.cc:766-821 | afterwards a whole tag with its trailer is readable and the input ahead is what `Reread` makes of the region fetched, which is the input itself below 2^32 bytes; or the input is at or inside its last tag |
| SnappyDecompress.Decompressor.Stitch | 3rdparty/snappy/snappy.cc:788-812 | bytes collected from several regions are the next bytes of the input: none lost, repeated or reordered |
| SnappyDecompress.Decompressor.FillScratch | 3rdparty/snappy/snappy.cc:792-805 | the loop: it completes the tag, or the input is too short; a region whose length is a multiple of 2^32 it never leaves |
| SnappyDecompress.Decompressor.ProcessTag | 3rdparty/snappy/snappy.cc:690-760 | one element is consumed and its effect is the reference's |
| SnappyDecompress.Decompressor.CopyLiteral | 3rdparty/snappy/snappy.cc:725-742 | a literal that spans regions is appended whole |
| SnappyDecompress.LiteralVerdict | 3rdparty/snappy/snappy.cc:700-742 | what becomes of a literal is decided by the input and the announced length alone |
| SnappyDecompress.CopyVerdict | 3rdparty/snappy/snappy.cc:743-756 | what becomes of a copy is decided by the output so far and the announced length alone |
| SnappyDecompress.Decompressor.NextRegion | 3rdparty/snappy/snappy.cc:768-776 | fetching a region keeps the input still to be read if and only if the region has fewer than 2^32 bytes; otherwise all but its length modulo 2^32 is read twice |
| SnappyLongRegions.OneRegion | 3rdparty/snappy/snappy.cc:766-821 | a stream whose body is shown as one region is accepted if and only if the bytes that are read twice decode to nothing |
| SnappyLongRegions.GoodStreamRefused | 3rdparty/snappy/snappy.cc:766-832 | a source and a stream of 2^32 + 10 bytes, good by the format and by the reference, that the program refuses |
| Snappy.ReadUncompressedLength | 3rdparty/snappy/snappy.cc:634-655 | the preamble read from the source is what the reference parser reads, with one `Peek` for each byte, and the source stands behind it |
| Snappy.InternalUncompress | 3rdparty/snappy/snappy.cc:824-832 | into any of the four destinations: accepted exactly when the reference accepts, with its output, as long as no region of 2^32 bytes or more is shown; with one such region, the first behind the preamble, exactly as `Read` says |
| Snappy.RawUncompress | 3rdparty/snappy/snappy.cc:1190-1198 | into a flat buffer: the reference's verdict and bytes, under the same condition |
| Snappy.RawUncompressToIOVec | 3rdparty/snappy/snappy.cc:1104-1117 | into buffers: the same verdict, and the buffers one behind the other hold the same bytes |
| Snappy.UncompressToSink | 3rdparty/snappy/snappy.cc:1485-1516 | into a sink: flat when it offers a buffer for the announced length, otherwise block by block; the same verdict and bytes, every piece but the last a full block |
| Snappy.IsValidCompressed | 3rdparty/snappy/snappy.cc:1245-1254 | the verdict alone, also for a stream whose first region has 2^32 bytes or more |
| SnappySource.Source.Peek | 3rdparty/snappy/snappy-sinksource.cc:62-65 | the next region, empty only at the end, without moving |
| SnappySource.Source.Skip | 3rdparty/snappy/snappy-sinksource.cc:67-70 | moves over exactly as many bytes |
| SnappySource.UncheckedByteArraySink.Append | 3rdparty/snappy/snappy-sinksource.cc:74-80 | puts the bytes behind what was appended, also when they already stand there |
| DefCompiler.Compile | ESODefCompiler/ESODefCompiler.cpp:5-24 | unless parents exist and needs are met but lead round in a circle: succeeds exactly when every parent exists, every needed type exists and encloses no type that needs it, and every named type exists; then the output is well ordered: the definition of a field's enum, structure or reference type (or that of an array's elements), of `BaseDef` for a def, and of an alias's target, is complete before the user's fields, and before its heading unless nested in it. What is needed is read off the directives, not off the test that collection makes |
| DefCompiler.UsesAreThese | ESODefCompiler/ESODefCompiler.cpp:73-105 | what dependency collection looks for in a directive is exactly what the directive needs |
| DefCompiler.EmissionOrder | ESODefCompiler/ESODefCompiler.cpp:237-275 | each type is written once, whole and inside its outer types; what a type needs is closed before its fields, and before its heading unless it is nested in it |
| DefCompiler.NeedPrecedes | ESODefCompiler/ESODefCompiler.cpp:107-143 | the order, for one user and one used type at any nesting depths |
| DefCompiler.EdgesAreNeeds | ESODefCompiler/ESODefCompiler.cpp:57-143 | the recorded edges are exactly the needs between siblings at the level where the two paths part |
| DefCompiler.PermittedIfMet | ESODefCompiler/ESODefCompiler.cpp:107-143 | collection accepts a tree exactly when every need is met |
| DefCompiler.AllKnownIfWritable | ESODefCompiler/ESODefCompiler.cpp:466-471 | generation can write every type exactly when every named type was declared |
| DefCompiler.FoundIfDeclared | ESODefCompiler/ESODefCompiler.cpp:171-194 | in the nested tree a name is found exactly when it was declared |
| DefCompiler.Generate | ESODefCompiler/ESODefCompiler.cpp:196-235 | generation from a nested tree: fails exactly when some named type is unknown |
| TypeTree.TypeCollection.NestTypes | ESODefCompiler/ESODefCompiler.cpp:28-55 | either a parent is missing and it throws, or every directive is at the path its name says and leads there, nothing else is in the tree, and no root name has an underscore |
| TypeTree.TypeCollection.Nest | ESODefCompiler/ESODefCompiler.cpp:34-50 | nesting one name keeps every other directive where it is |
| TypeTree.TypeCollection.FindTypeByName | ESODefCompiler/ESODefCompiler.cpp:171-194 | walks the renamed path; `None` where it throws |
| TypeTree.MoveKeeps | ESODefCompiler/ESODefCompiler.cpp:40-47 | erasing at the root and emplacing under the parent conserves all directives |
| TypeTree.NothingNestedYet | ESODefCompiler/ESODefCompiler.cpp:28-55 | map order visits a prefix before its extensions: a name still at the root has nothing nested in it, so moving it loses nothing |
| TypeTree.VisitedInOrder | ESODefCompiler/ESODefCompiler.cpp:28-55 | while the walk erases and advances, the nested names are exactly those before the cursor |
| TypeTree.FindAfterInsert | ESODefCompiler/ESODefCompiler.cpp:46 | an insertion changes one path and no other |
| TypeTree.PlacesDiffer | ESODefCompiler/ESODefCompiler.cpp:28-55 | different names have different places throughout |
| Names.ComposeNestedPath | ESODefCompiler/ESODefCompiler.cpp:35-45 | splitting a name at its underscores loses nothing: no two names share a tree position |
| Names.PrefixLess | ESODefCompiler/ESODefCompiler.cpp:28-29 | a name comes before its extensions in the map |
| Names.LessAt | ESODefCompiler/ESODefCompiler.cpp:28-29 | the order of the map is decided by the first character in which two names differ, and by length if none does |
| Dependencies.DependencyCollector.AddDependency | ESODefCompiler/ESODefCompiler.cpp:107-143 | throws exactly when the name does not resolve or encloses the user; otherwise records the one edge the two paths call for |
| Dependencies.DependencyCollector.ProcessFields | ESODefCompiler/ESODefCompiler.cpp:73-86 | records exactly the names of the fields that are, or are arrays of, an enum, a structure or a polymorphic reference |
| Dependencies.DependencyCollector.ProcessEntry | ESODefCompiler/ESODefCompiler.cpp:88-105 | per directive: structures, defs with their base, aliases; enums need nothing |
| Dependencies.DependencyCollector.ProcessCollection | ESODefCompiler/ESODefCompiler.cpp:57-71 | records exactly the uses at a level and below it |
| Dependencies.DependencyCollector.ProcessAll | ESODefCompiler/ESODefCompiler.cpp:22-23 | afterwards the edges are exactly those the uses in the tree call for |
| Dependencies.EdgeWherePathsPart | ESODefCompiler/ESODefCompiler.cpp:115-142 | two paths call for one edge: at their longest common prefix, between the names that differ |
| Dependencies.NoEdgeInside | ESODefCompiler/ESODefCompiler.cpp:133-135 | a type nested in its user calls for none |
| Emission.Emitter.GenerateTypes | ESODefCompiler/ESODefCompiler.cpp:237-241 | all types of a level are written, once each, in map order save that what a type depends on comes first, in the order of its edges |
| Emission.Emitter.GenerateType | ESODefCompiler/ESODefCompiler.cpp:243-275 | a type is written after everything it depends on, and not again when visited; no more calls are open at once than `Returns` allows |
| Emission.Emitter.WriteType | ESODefCompiler/ESODefCompiler.cpp:257-274 | heading, all nested types, fields, end; the current path is restored |
| Emission.OneOrder | ESODefCompiler/ESODefCompiler.cpp:237-275 | the edges leave no choice: two such outputs with the same order of names at their level are the same, down to the last nested type |
| Emission.WrittenExactly | ESODefCompiler/ESODefCompiler.cpp:237-275 | an event is written exactly when its type is in the tree |
| Emission.WrittenOnce | ESODefCompiler/ESODefCompiler.cpp:253-255 | and only once |
| Emission.NestingOrder | ESODefCompiler/ESODefCompiler.cpp:257-274 | what is nested in a type is written between its heading and its fields |
| Emission.EdgeOrder | ESODefCompiler/ESODefCompiler.cpp:244-251 | along an edge, all that lies in the target is closed before anything in the source is opened |
| Emission.WrittenIsWritable | ESODefCompiler/ESODefCompiler.cpp:508-581 | whatever has been written names only types that exist |
| Emission.ReturnIffAcyclic | ESODefCompiler/ESODefCompiler.cpp:243-251 | the calls that a level makes, each of which first calls itself for everything its type depends on, visited or not, all return if and only if the dependencies of the level have no cycle |
| Emission.ReturnsWithoutCycles | ESODefCompiler/ESODefCompiler.cpp:243-251 | without cycles no more of them are open at once than the level has names |
| DefCompiler.ReturnsIffNoCycles | ESODefCompiler/ESODefCompiler.cpp:237-251 | behind nesting and dependency collection every call at every level returns if and only if the needs of siblings lead round in no circle |
| Rows.RowsAgree | ESOData/Database/ESODatabaseDef.cpp:50-64 | the record of a row that the interpreter reads shows exactly the compiled values in order, behind flags and version, if and only if no field of the row is filed under a name already taken, nor any in a record that lies in it |
| Rows.RowOnDisk | ESOData/Database/ESODatabaseDef.cpp:48-63 | a row is read if and only if its bytes are, field by field, those of the base and the def, by the literal format of each field type |
| Rows.ParseRow | ESOData/Database/ESODatabaseDef.cpp:48-63 | the interpreter accepts a row if and only if the generated code does, every name it looks up for the values read is declared, and the last field called `id`, of the base or the def, is an unsigned number; then it gives the record and the id filed in it |
| Rows.RowId | ESOData/Database/ESODatabaseDef.cpp:63 | the lookup of the id in the record succeeds if and only if the directives have such a field |
| Rows.LoadRows | ESOData/Database/ESODatabaseDef.cpp:48-65 | rows are loaded if and only if every one is accepted; each has its record, and each id leads to the first record that has it |
| Rows.FindRecordById | ESOData/Database/ESODatabaseDef.cpp:250-257 | the first record with the id, or none when no record has it |
| Rows.Deserialize | ESODefCompiler/ESODefCompiler.cpp:380-383 | the generated deserialize reads the base and then the own members |
| Rows.Serialize | ESODefCompiler/ESODefCompiler.cpp:372-375 | the generated serialize writes the base and then the own members at the cursor |
| Rows.RowRoundTrip | ESODefCompiler/ESODefCompiler.cpp:372-383 | deserialize gives back the base and the members that serialize wrote, within the length limits, and whatever follows them |
| Agreement.CompileAll | ESODefCompiler/ESODefCompiler.cpp:390-417 | from directives whose structures are declared and do not contain themselves, generation gives a usable library that matches them |
| Agreement.ErasePresent | ESOData/Database/ESODatabaseDef.cpp:68-242 | what the interpreter adds to a value (definition, key, null) can be taken off again, and gives the compiled value, if and only if no record in the value has a structure that files two fields under one name |
| Agreement.RecordShown | ESOData/Database/ESODatabaseDef.cpp:244-248 | a container shows the values of a structure if and only if every name was new and every value comes through |
| Rows.VersionIsLost | ESOData/Database/ESODatabaseDef.cpp:50-64 | a def with a field called `version`, behind a base with an id: the row is accepted and its version is gone |
| Agreement.UnnamedFieldTakesName | ESOData/Database/ESODatabaseRecord.cpp:17-30 | a structure with a field called `unk_2` and an unnamed second field: the first value is gone |
| DynamicRecord.DecimalSpells | ESOData/Database/ESODatabaseRecord.cpp:17-30 | the number in the name of an unnamed field is the place of the field in decimal digits |
| Agreement.UnknownKeyIsRefused | ESOData/Database/ESODatabaseDef.cpp:173-180 | a key to a name that is no def: the generated code reads it and the interpreter does not |
| Agreement.FieldsInOrder | ESOData/Database/ESODatabaseDef.cpp:244-248 | fields filed under new names appear in order, each with what it shows |
| Agreement.OrderLength | ESOData/Database/ESODatabaseRecord.cpp:17-30 | each collision of names costs one place in the field order, and without one there is a place for each field |
| Agreement.ReadIsTyped | ESODefCompiler/ESODefCompiler.cpp:508-581 | whatever is read fits the C++ type that was declared for it |
| CompiledFormat.CompileStructure | ESODefCompiler/ESODefCompiler.cpp:390-417 | one statement per field, in order, arrays through a sized vector; and for every field one member of the C++ type that its field type calls for, with literal sizes and signs |
| FieldFormat.ReadIffOnDisk | ESOData/Database/ESODatabaseDef.cpp:68-242 | for each of the seventeen field types what one field is in a file, with literal sizes: the generated code reads a value from a position to another if and only if the bytes between are that value's (integers of 1, 2, 4 and 8 bytes of either sign in the stream's byte order, floats in the other, enums of four signed bytes, keys and assets of four, booleans of one, strings, arrays, structures, references of four and four) |
| FieldFormat.FieldsReadIff | ESODefCompiler/ESODefCompiler.cpp:303-308 | and the same of the fields of a structure, one behind the other |
| CompiledReader.ReadType | ESOData/include/ESOData/Serialization/SerializationStream.h:53-103 | reads what the format says for the declared type, or fails where it does |
| CompiledReader.ReadSizedVector | ESOData/include/ESOData/Serialization/SizedVector.h:20-26 | length and elements |
| CompiledReader.ReadStruct | ESODefCompiler/ESODefCompiler.cpp:303-308 | runs the statements in turn |
| CompiledReader.ReadBytes | ESOData/Serialization/SerializationStream.cpp:62-72 | bytes are read in one region |
| CompiledReader.BytesAreElements | ESOData/Serialization/SerializationStream.cpp:62-72 | which gives the same values as reading them one by one |
| CompiledWriter.WriteType | ESOData/include/ESOData/Serialization/SerializationStream.h:47-91 | writes the layout of the value |
| CompiledWriter.WriteSizedVector | ESOData/include/ESOData/Serialization/SizedVector.h:14-18 | length, cut to 32 bits, and elements |
| CompiledWriter.RoundTrip | ESODefCompiler/ESODefCompiler.cpp:284-310 | for every schema and value with strings below 2^16 and vectors below 2^32, `>>` after `<<` is the identity and reads nothing of what follows |
| DynamicParser.ParseField | ESOData/Database/ESODatabaseDef.cpp:68-242 | same prefix consumed and same value as the generated code, and what is consumed is that value's bytes in the file (`OnDisk`); it fails exactly where that fails or a name that the interpreter looks up for the value is not declared as what it looks for |
| DynamicParser.ParseSimple | ESOData/Database/ESODatabaseDef.cpp:70-157 | the same for numbers, floats, strings, enums, keys, booleans and assets, each with its literal width, with the names of enums and keys that are not declared |
| DynamicParser.ParseReference | ESOData/Database/ESODatabaseDef.cpp:199-239 | polymorphic references: the selector's name decides between key, number and nothing, the same eight bytes are read, and a selector that names no def is refused |
| DynamicRecord.DefName | ESOData/Database/ESODatabaseDef.cpp:199-239 | the def that a selector's name stands for: the part before the first `$`, or all of it |
| DynamicParser.ParseElements | ESOData/Database/ESODatabaseDef.cpp:159-171 | arrays, element by element |
| DynamicParser.ParseStructure | ESOData/Database/ESODatabaseDef.cpp:244-248 | fields in turn, each filed in the container |
| Streams.OutputStream.GetRegionForWrite | ESOData/Serialization/OutputSerializationStream.cpp:16-33 | the region stands where the cursor stood, in the buffer at the end of the chain; every cursor of the chain moves alike |
| Streams.OutputStream.SetCurrentPosition | ESOData/Serialization/OutputSerializationStream.cpp:57-61 | seeking moves the whole chain by the same distance |
| Streams.OutputStream.WriteData | ESOData/Serialization/SerializationStream.cpp:52-55 | the bytes replace what stood at the cursor, the buffer grows as needed |
| Streams.OutputStream.WriteArithmetic | ESOData/Serialization/SerializationStream.cpp:12-20 | numbers in the stream's byte order |
| Streams.OutputStream.WriteFloat | ESOData/Serialization/SerializationStream.cpp:32-40 | floats in the opposite order |
| Streams.OutputStream.WriteString | ESOData/Serialization/SerializationStream.cpp:86-93 | length cut to 16 bits, characters, NUL |
| Streams.InputStream.GetRegionForRead | ESOData/Serialization/InputSerializationStream.cpp:19-29 | a region inside the bounds, or failure without moving |
| Streams.InputStream.ReadArithmetic | ESOData/Serialization/SerializationStream.cpp:22-30 | the bytes of a number in memory order |
| Streams.InputStream.ReadString | ESOData/Serialization/SerializationStream.cpp:95-105 | a string as the format has it |
| Streams.StringRoundTrip | ESOData/Serialization/SerializationStream.cpp:86-105 | a string is read back exactly when it is shorter than 65536 characters |
| Streams.ArithmeticRoundTrip | ESOData/Serialization/SerializationStream.cpp:12-30 | numbers and floats are read back in either byte order |
| Streams.PatchedBack | ESOData/include/ESOData/Serialization/SizedSegment.h:20-49 | reserving room, writing behind it and then into it is writing once |
| Streams.OverwrittenTwice | ESOData/Serialization/OutputSerializationStream.cpp:16-33 | two writes one behind the other are one write |
| Segments.WriteSegment | ESOData/include/ESOData/Serialization/SizedSegment.h:20-49 | a segment is its length in the outer byte order followed by its body, at any depth, and the outer cursor ends behind it |
| Segments.NumberInBody | ESOData/include/ESOData/Serialization/SizedSegment.h:20-49 | what a mode means for a number in the body: its bytes reversed, as they are, or in the order outside |
| Segments.WriteBody | ESOData/include/ESOData/Serialization/SizedSegment.h:24-39 | the body is written through a nested stream behind the room for its length |
| Segments.PatchLength | ESOData/include/ESOData/Serialization/SizedSegment.h:43-47 | patching restores every cursor |
| Segments.WriteItems | ESOData/include/ESOData/Serialization/SizedSegment.h:20-49 | items one behind the other |
| Segments.ReadSegment | ESOData/include/ESOData/Serialization/SizedSegment.h:51-71 | reads the body from a stream of its own |
| Segments.ReadItems | ESOData/include/ESOData/Serialization/SizedSegment.h:51-71 | items one behind the other, or failure |
| Segments.SegmentBounded | ESOData/include/ESOData/Serialization/SizedSegment.h:51-71 | a body is read from its own bytes alone, and the outer cursor moves past all of them however many were needed |
| Segments.RoundTrip | ESOData/include/ESOData/Serialization/SizedSegment.h:20-71 | items nested to any depth, with lengths that fit, are read back as written |
| RTree.WriteNode | ESOData/World/FixtureFile.cpp:114-125 | a node writes its level and the children its level calls for |
| RTree.ReadNode | ESOData/World/FixtureFile.cpp:127-138 | a node is read back as its layout says, or fails |
| RTree.NodeRoundTrip | ESOData/World/FixtureFile.cpp:90-146 | reading what was written gives the tree without what its levels hide, and touches nothing behind it |
| RTree.TreeRoundTrip | ESOData/World/FixtureFile.cpp:114-138 | a tree survives writing and reading if and only if every leaf has only items and every inner node only nodes |
| RTree.VisibleIfWellFormed | ESOData/World/FixtureFile.cpp:114-138 | nothing is hidden exactly in well-formed trees |
| ById.ParseByIDName | ESOProjectedFilesystem/ProjectedFilesystem.cpp:19-77 | accepts an empty name, by-id and up to eight names of two hexadecimal digits, and gives the interval of the keys that begin with those bytes |
| ById.NamedByte | ESOProjectedFilesystem/ProjectedFilesystem.cpp:19-77 | the names of two digits of either case, and no others, stand for a byte; the one they spell |
| ById.ParseBytes | ESOProjectedFilesystem/ProjectedFilesystem.cpp:51-66 | every accepted path gives an interval of one of the nine widths, aligned to it |
| ById.NarrowedToChild | ESOProjectedFilesystem/ProjectedFilesystem.cpp:61-65 | setting one byte of both ends narrows a directory to one of its children |
| ById.BuildNameForID | ESOProjectedFilesystem/ProjectedFilesystem.cpp:92-108 | the path of the bytes that the mask covers |
| ById.ListedName | ESOProjectedFilesystem/ProjectedFilesystem.cpp:92-108 | the name listed for a byte has its two lower-case digits |
| ById.MaskByte | ESOProjectedFilesystem/ProjectedFilesystem.cpp:585 | the complement of an interval's width covers exactly the bytes its path fixes |
| ById.NameRoundTrip | ESOProjectedFilesystem/ProjectedFilesystem.cpp:19-77 | parsing the name built for an interval gives the interval back |
| ById.PathRoundTrip | ESOProjectedFilesystem/ProjectedFilesystem.cpp:92-108 | the path of any key at any depth parses to the interval around it |
| Enumeration.ByIdSplit | ESOProjectedFilesystem/ProjectedFilesystem.cpp:391-437 | for the eight directory widths: the byte that names the child a key lies in, and the first key behind that child modulo 2^64; it throws exactly for other widths |
| Enumeration.FoundChild | ESOProjectedFilesystem/ProjectedFilesystem.cpp:475-483 | what lower_bound finds from a child on lies in the first child that has keys |
| Enumeration.NextBlock | ESOProjectedFilesystem/ProjectedFilesystem.cpp:391-437 | the next position is the start of the next child, or 0 behind the last of all keys |
| DirectoryScan.GetDirectoryEnumeration | ESOProjectedFilesystem/ProjectedFilesystem.cpp:439-533 | a call in a pass over the directory lists as much of what is left as the buffer takes and stops there; behind an unsafe directory it goes on at the least of all keys, and lists a key below the directory by itself; it returns the error only when nothing was written |
| DirectoryScan.ScanChildren | ESOProjectedFilesystem/ProjectedFilesystem.cpp:472-533 | the loop: what it lists and where it leaves the scan, from every place a call can start at |
| DirectoryScan.ListChild | ESOProjectedFilesystem/ProjectedFilesystem.cpp:480-530 | one turn: the child of the key found, filtered, refused or listed with its kind and size |
| DirectoryTree.Enumerate | ESOProjectedFilesystem/ProjectedFilesystem.cpp:453-533 | for any directory, filter and sequence of buffer sizes the calls together list what one call after another says (`Run`). With an expression, every name listed matches it; and for a safe directory with room for 256 entries, every child with keys whose name matches (or every child with keys, if there is no expression) is listed exactly once |
| DirectoryTree.Matching | ESOProjectedFilesystem/ProjectedFilesystem.cpp:490-497 | the uninterrupted listing has exactly the children with keys whose names match, each once |
| DirectoryTree.ListedOnce | ESOProjectedFilesystem/ProjectedFilesystem.cpp:453-533 | unless the directory is unsafe (its last child ends at 2^64 - 1 and has keys), any sequence of calls lists the uninterrupted listing, cut to the sum of the buffer sizes, and then nothing more |
| DirectoryTree.ListedAgain | ESOProjectedFilesystem/ProjectedFilesystem.cpp:530-532 | of an unsafe directory, any sequence of calls lists a beginning of this, over and over: the uninterrupted listing, then one child for each block of keys below the directory |
| DirectoryTree.EndsIffSafe | ESOProjectedFilesystem/ProjectedFilesystem.cpp:530-532 | without a filter, what a scan lists is bounded if and only if the directory is not unsafe |
| DirectoryTree.NeverEmpty | ESOProjectedFilesystem/ProjectedFilesystem.cpp:530-532 | of an unsafe directory, no unfiltered call with room for an entry comes back empty |
| DirectoryTree.WholeScan | ESOProjectedFilesystem/ProjectedFilesystem.cpp:472-533 | an uninterrupted call lists the whole directory and leaves the scan behind it or, of an unsafe one, at the least of all keys |
| DirectoryTree.LastDirectoryIsUnsafe | ESOProjectedFilesystem/ProjectedFilesystem.cpp:425-432 | a case: the highest key of all |
| DirectoryTree.GetPlaceholderInfo | ESOProjectedFilesystem/ProjectedFilesystem.cpp:583-604 | a directory is accepted when some key lies in it, a file when its key exists |
| DirectoryTree.ListedIffAccepted | ESOProjectedFilesystem/ProjectedFilesystem.cpp:583-604 | a child is listed exactly when its path is accepted, with the same kind and size |
| DirectoryTree.DescendFromRoot | ESOProjectedFilesystem/ProjectedFilesystem.cpp:439-533 | descending from by-id with one scan per directory reaches exactly the keys of all files, each once and ascending |
| DirectoryTree.Descend | ESOProjectedFilesystem/ProjectedFilesystem.cpp:439-533 | the same below any directory |
| Paths.SplitStep | ESOProjectedFilesystem/ProjectedFilesystem.cpp:33-74 | one turn of a loop over a path takes its next name |
| Inodes.InodeTree.PathToInode | ESOProjectedFilesystem/ProjectedFilesystem.cpp:284-334 | finds all ancestors or the first missing name, where it is missing and the path up to it |
| Inodes.InodeTree.Resolve | ESOProjectedFilesystem/ProjectedFilesystem.cpp:336-344 | gives the inode a path leads to |
| Inodes.InodeTree.CreateInode | ESOProjectedFilesystem/ProjectedFilesystem.cpp:241-282 | one retry per missing ancestor; the path then resolves to the inode returned, everything that resolved still does to the same inode, and what resolves in addition is new; every new inode on the way has as its name the last name of its path, as its full path that path, and is a directory if it is an ancestor and a file if it is the last |
| Inodes.WalkKept | ESOProjectedFilesystem/ProjectedFilesystem.cpp:262 | a new child under a free name changes no path that resolved |
| Inodes.WalkAdded | ESOProjectedFilesystem/ProjectedFilesystem.cpp:262 | and adds only paths to itself |
| Inodes.DepthGrows | ESOProjectedFilesystem/ProjectedFilesystem.cpp:247-264 | creating the first missing name lets the path be followed one name further |
| HashTable.Find | ESOData/include/ESOData/Serialization/HashTable.h:142-166 | at most as many probes as slots, past tombstones, stopping at an empty slot |
| HashTable.VisitAll | ESOData/include/ESOData/Serialization/HashTable.h:134-140 | a loop from begin to end visits the live slots, each once |
| HashTable.Iterator.FindNextValidIndex | ESOData/include/ESOData/Serialization/HashTable.h:119-128 | moves to the next live slot |
| HashTable.LookupFindsAllIff | ESOData/include/ESOData/Serialization/HashTable.h:142-166 | every live slot is what looking up its key finds if and only if keys are distinct and no empty slot lies between a key's home bucket and its slot |
| HashTable.FindAgreesWithIteration | ESOData/include/ESOData/Serialization/HashTable.h:97-166 | under that invariant a key is found exactly when iteration visits it, and in the same slot |
| HashTable.EmptyHomeIsMissed | ESOData/include/ESOData/Serialization/HashTable.h:150-154 | without it, a visited key can be missed |
| Archives.TryReadFileByKey | ESOData/Filesystem/Filesystem.cpp:28-36 | reads from the first archive that holds the key; if that entry cannot be read it is an error, whatever later archives hold |
| Archives.EnumerateArchive | ESOData/Filesystem/Archive.cpp:182-189 | adds the archive's keys, keeping sizes that are there |
| Archives.EnumerateFiles | ESOData/Filesystem/Filesystem.cpp:74-78 | the map of files has exactly the keys some archive holds, each with the size in the archive that reading takes it from: the cached size if the archive has file signatures, the uncompressed size otherwise |

## Left out

* Snappy: the SSE2 paths, big-endian hosts, 32-bit `size_t` and branch hints; the reuse of one working memory between blocks
  (each block has a cleared table); sinks other than the flat one and the collecting one; a region longer than what
  the source says is available; the bytes a decompressor skips when it is destroyed.
- Snappy.UncompressToSink: does not say what is handed to the sink when the stream is rejected, where `Produced` has no
  meaning; the sink is empty at the start.
- SnappyDecompress.Decompressor.DecompressAllTags: with regions of 2^32 bytes or more behind the first, nothing is said but
  that the loop ends; the loop that completes a tag does not end on a region of a multiple of 2^32 bytes that the source
  keeps showing, and there the model stops with `endless`.
* Reading directive files, and the duplicate names that `insertTypes` refuses: the model starts from a map of directives.
* The text of the generated C++ (indentation, punctuation, the spelling of enum values, forward declarations): headings,
  fields and ends are events, serializers are lists of statements. Of a type's trailer only that it writes its fields and closes.
* The dependency lists, which the program keeps in the types themselves, are kept beside the tree under each type's path.
* Cyclic dependencies: calls of `generateType` then do not return (`DefCompiler.ReturnsIffNoCycles`), so `DefCompiler.Compile`
  requires that there is none, also for the directives where an unknown name would end generation ahead of the cycle. The
  "broken dependency" exception cannot occur, because every edge is between types of its level; `Emission.Emitter.GenerateType`
  has no branch for it.
* That the generated C++ compiles: arrays of arrays, which the directive parser refuses, and structures that contain
  themselves directly are excluded. A widened float keeps its bytes.
- DynamicParser.Resolves: a structure field that names a def is not admitted, since generated code would stream it by the
  operators of its base; `Library` could hold such a member and would read the def's own members. The interpreter
  refuses such a field.
* Memory exhaustion, in `vector::resize` and elsewhere.
* Def file headers and deflated segments; round trips that the operators do not support (manifest entries, def file
  headers, the version 3 list of manifests); the rest of fixture files, flat field by field.
- RTree.ReadNode: reads into a new node, and does not say what is left of the children of one that already has some.
* The record cache of the database manager, terrain rows and file id packing.
* Windows calls, callbacks' result codes, threads and locks, services, cryptography, Granny, zlib and Oodle. Reading an
  archive entry is one step that gives its contents or throws.
* The enumeration of named (not by-id) directories, which walks a sorted map from an iterator, and the enumeration of
  file names.
* A path whose first name is not empty: `createInode` then dereferences null, and is not modelled for it.
