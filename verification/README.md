# A verified model of a Subversion client and server

A Dafny model of the parts of the Go repository `go-svn` in which bytes, trees and tables must
agree across functions, and proofs about them. Where modelled Go code changes things step by step
it is a method or a class here, proved against a specification function; the theorems are lemmas
about those functions, over all inputs and all runs. `dafny verify dfyconfig.toml` checks it all.

## What is modelled

1. **svndiff** (`Common` to `EndToEnd`). The rolling-hash differ, window validation and
   application, varints, instructions, sections, windows, the chunked stream and `Apply`.
   `SvndiffFormat` fixes what every instruction byte means and how a window is laid out. The main
   result, `EndToEnd.DeltaRoundTrip`, is an equivalence: diff, encode, decode and apply give the
   target if and only if each window's new data, as stored, fits the decoder's section limit. The
   limit is on the stored bytes, in front of which versions 1 and 2 put a length, so that a chunk
   of 102398 to 102400 incompressible bytes is written but not read back
   (`EndToEnd.IncompressibleChunk`, `EndToEnd.FullWindowOfZerosFails`).
2. **Mergeinfo** (`Rangelists` to `MergeinfoGrammar`). A denotation for range lists, uniqueness of
   canonical forms, `Normalize` and the operations built on the boundary sweep, the algebra they
   obey, and the text format: exactly which texts are read, what they then say, and that printing
   and reading undo each other. Where a law depends on inheritance the exact condition is proved.
   `Normalize` loses a range with a negative start (`Mergeinfo.NegativeStartLost`).
3. **The ra_svn wire** (`Wire` to `EditorEndToEnd`). The item grammar of section 1 of the
   libsvn_ra_svn protocol, which the decoder accepts exactly, up to its limits
   (`WireGrammar.DecodesGrammar`), its encoder, the editor commands of section 3.1.2 byte by byte (`WireText`), and both ends of an
   edit: a sender that names nodes by tokens and a receiver that maps tokens to nodes.
   `EditorSimulation.Simulation` and `EditorEndToEnd.EditDelivered` say that any receiving editor
   sees the calls made on the sending one.
4. **Tree drivers and reports** (`Paths` to `Log`). The path driver's stack machine, with the exact
   condition under which it opens a directory twice; the working copy's report, what it is about
   and why it loses nothing (`CrawlScope`, `CrawlLossless`); location segments and the youngest
   common location; the log, and exactly which merged revisions it shows and where (`MergedTrees`).
5. **Working-copy state** (`WcLock` to `WcDatabase`). Lock exclusion over every run; the layered
   NODES table, its local operations row by row (`WcEffects`) and over all runs, and what a commit
   leaves; pristine texts counted by triggers and vacuumed.
6. **Text translation** (`Subst` to `SubstRoundTrip`). The byte automaton for line endings and
   keywords, what it writes for each of them (`SubstKeyword`), its decomposition into two stages
   that commute, and exactly when a translated file translates back.

Bytes are numbers below 256, Go's 32-bit, 64-bit and truncating arithmetic is written out, and bit
operations are stated as arithmetic. Slices are sequences; buffers, maps and tables that Go updates
are fields of classes. Compressors are tables, assumed only to undo each other where a round trip
is claimed. A checksum over contents is a parameter. Paths in the tree code are sequences of
components, related to their texts in `Paths`. What a Go map's iteration order decides is a
parameter. A receiving editor is the set of call histories whose last call it accepts, so the results
hold for every editor.

## Model

| member | source | states |
|---|---|---|
| `Varint.AppendVarint` | delta/varint.go:11-20 | appends exactly the base-128 encoding of the value, filled backwards in a ten-byte buffer |
| `Varint.EncodeLength` | delta/varint.go:11-20 | at most n bytes exactly when the value has at most n base-128 digits |
| `Varint.EncodeShortest` | delta/varint.go:11-20 | no digit string that denotes the same number is shorter |
| `Varint.ConsumeVarint` | delta/varint.go:40-57 | the slice reader computes the common reading function and leaves the position behind the number |
| `Varint.ReadVarint` | delta/varint.go:22-38 | the stream reader computes the same function as the slice reader and stops at the same byte |
| `Varint.RoundTrip` | delta/varint.go:11-57 | every uint64 reads back, whatever bytes precede and follow it |
| `Varint.ConsumeSucceedsExactlyWhen` | delta/varint.go:40-57 | reading succeeds exactly on a base-128 number of at most ten bytes that fits in 64 bits, and returns that number |
| `Varint.ConsumeRunsOutExactlyWhen` | delta/varint.go:40-57 | of the two errors, the unexpected end is reported exactly when fewer than ten bytes are left and all of them are marked; every other failure is the overflow |
| `Varint.ReadAllOfEncoded` | delta/svndiff_read.go:52-62 | a row of integers, written one behind the other, reads back as that row |
| `Window.Validate` | delta/window.go:61-95 | no error exactly on valid windows; otherwise the first op that does not fit, the wrong total or the negative field is named |
| `Window.ValidExactly` | delta/window.go:61-95 | a window is valid exactly when no size is negative, no op is empty, every byte an op reads exists by the time it is read, and the ops produce as many bytes as the target has |
| `Window.ApplyWindow` | delta/window.go:35-57 | succeeds exactly on valid windows with a source view of the declared length; every index is in bounds and the output has exactly the target length |
| `Window.ExpandDenotes` | delta/window.go:44-56 | the output satisfies every op's copying equation, where target copies read the output itself |
| `Window.DenotesUnique` | delta/window.go:44-56 | the copying equations have exactly one solution, the output |
| `Window.CopyTargetPeriodic` | delta/window.go:49-52 | an overlapping target copy is the periodic extension of the bytes between its offset and the end of the view |
| `Xdelta.RollHashShifts` | delta/xdelta.go:85-89 | rolling by one byte is rehashing the shifted 64-byte block, with 32-bit subtraction and 16-bit truncation written out |
| `Xdelta.RollingHash` | delta/xdelta.go:76-83 | the summing loop computes the block hash without overflow |
| `Xdelta.BuildSourceIndex` | delta/xdelta.go:11-23 | the index built by rolling equals, for each hash, the positions found by rehashing every block |
| `Xdelta.BucketExact` | delta/xdelta.go:11-23 | a bucket lists exactly the positions with that hash, each once and ascending |
| `Xdelta.ExtendMatch` | delta/xdelta.go:39-45 | the innermost loop finds how far source and target agree, at least a block |
| `Xdelta.FindMatch` | delta/xdelta.go:31-53 | the search returns the first longest match among the equal candidates it looks at, or reports that none is equal |
| `Differ.WindowBuilder.AppendLiteral` | delta/xdelta.go:67-74 | appends a New op with the bytes behind the new data so far, and nothing for an empty literal |
| `Differ.BuildWindow` | delta/xdelta.go:25-65 | the window is valid, its New ops run through all new data in order, applying it to the source rebuilds the target, and every op is greedy |
| `Differ.LiteralsAreNew` | delta/xdelta.go:31-57 | no literal position starts a block of the source unless its bucket is longer than 64; then none of the 64 lowest is equal |
| `Differ.CopiesAreLongAndMaximal` | delta/xdelta.go:38-52 | every copy is at least 64 bytes and cannot be extended to the right |
| `Instructions.EncodeInstructions` | delta/svndiff_write.go:115-130 | the encoding loop writes the concatenation of the instructions, whose bytes `SvndiffFormat.SectionMeans` fixes |
| `Instructions.EncodeOpsLength` | delta/svndiff_read.go:16-19 | at most 21 instruction bytes for each target byte |
| `Instructions.LongOpsLength` | delta/svndiff_read.go:16-19 | ops of new data or of at least 64 bytes take no more instruction bytes than they produce |
| `Instructions.DecodeInstructions` | delta/svndiff_read.go:144-185 | the decoding loop computes the decoding function, with the running new-data counter and every check; what an accepted byte means is `SvndiffFormat.InstructionMeans` |
| `Instructions.DecodedIsInOrder` | delta/svndiff_read.go:144-185 | whatever the bytes, accepted ops fit and use the new data in order and up; no accepted counter has wrapped |
| `Instructions.InstructionsRoundTrip` | delta/svndiff_read.go:144-185 | a valid window's instructions decode to its ops exactly when its New ops are sequential and exhaustive, since the encoder drops their offsets |
| `SvndiffFormat.InstructionMeans` | delta/svndiff_read.go:144-185 | by byte value: below 64 a decoded instruction appends that slice of the source, from 64 to 127 it repeats bytes already produced, from 128 to 191 it appends new data at the running counter, and 192 and above are refused |
| `SvndiffFormat.EncodedMeans` | delta/svndiff_write.go:115-130 | the first byte written for an op tells, by the same classes, what the op appends, and holds its length where that is below 64 |
| `SvndiffFormat.SectionMeans` | delta/svndiff_write.go:115-130 | in a whole section the instruction of each op stands behind those of the ops before it, and its first byte tells how the view grows |
| `SvndiffFormat.SectionLayout` | delta/svndiff_write.go:98-152 | a section byte by byte: plain in version 0, else its length and the shorter of compressed and plain; zlib leaves less than 512 bytes alone |
| `SvndiffFormat.WindowLayout` | delta/svndiff_write.go:54-89 | a window is its five integers in order, the instructions and the new data |
| `SvndiffFormat.MagicIsText` | delta/svndiff_write.go:37-47 | a stream begins with the letters SVN and the version |
| `Svndiff.Encoder.constructor` | delta/svndiff_write.go:19-47 | a new encoder has written the magic of its version |
| `Svndiff.Encoder.WriteWindow` | delta/svndiff_write.go:54-89 | fails exactly on a closed encoder or an invalid window, writing nothing; otherwise appends the window's encoding |
| `Svndiff.Encoder.Close` | delta/svndiff_write.go:107-113 | closes without writing |
| `Svndiff.EncodeZlibSection` | delta/svndiff_write.go:132-152 | the zlib section: the length, then the compressed data or the data itself, whichever is shorter |
| `Svndiff.EncodeLz4Section` | delta/svndiff_write.go:98-105 | the LZ4 section: the length, then the compressed data or the data itself, whichever is shorter |
| `Svndiff.SectionRoundTrip` | delta/svndiff_read.go:98-142 | a section reads back exactly when its contents are within the decoder's limit |
| `Svndiff.StoredSectionLength` | delta/svndiff_write.go:98-105 | a section stored with its length in front fits 102400 bytes exactly when its data fits 102397 |
| `Svndiff.NewDecoder` | delta/svndiff_read.go:28-38 | a decoder exists exactly for streams that begin with a known magic |
| `Svndiff.Decoder.NextWindow` | delta/svndiff_read.go:46-96 | header, limits, monotone source offsets, sections, instructions and their checks, and where the reader stops |
| `Svndiff.Decoder.ReadSectionBytes` | delta/svndiff_read.go:98-142 | reads exactly the encoded length, or fails where the stream ends |
| `SvndiffRoundTrip.WindowRoundTrip` | delta/svndiff_read.go:46-96 | the decoder returns exactly the window that was written when, and only when, its sections and offset are within what the decoder accepts |
| `DeltaStream.ReadWindowChunk` | delta/txstream.go:93-100 | up to 102400 bytes, fewer only at the end of the stream |
| `DeltaStream.TxDeltaStream.NextWindow` | delta/txstream.go:32-54 | one window per target chunk over the source chunk of the same number; the end exactly when the target has run out; all target bytes go into the checksum |
| `DeltaApply.DecodedIsValid` | delta/svndiff_read.go:46-96 | whatever the bytes, a window the decoder returns passes Validate, so applying it cannot fail on its ops |
| `DeltaApply.ReadView` | delta/apply.go:50-62 | the reused buffer ends up holding exactly the source view, or the view is out of range |
| `DeltaApply.Apply` | delta/apply.go:31-77 | output and error of the loop over windows, as a function of the stream |
| `EndToEnd.SendStream` | delta/txstream.go:65-83 | an open encoder receives the encoding of the whole delta, is closed, and the checksum is that of the target |
| `EndToEnd.DeltaRoundTrip` | delta/apply.go:31-77 | for all sources and targets, diff, encode, decode and apply yield the target if and only if every window's stored new data fits the decoder's section limit |
| `EndToEnd.DeltaRoundTripVersionZero` | delta/svndiff_read.go:63-63 | in version 0 it holds for every source and target |
| `EndToEnd.IncompressibleChunk` | delta/svndiff_read.go:63-63 | in versions 1 and 2 an incompressible target of one chunk arrives exactly when it is at most 102397 bytes long |
| `EndToEnd.FullWindowOfZerosFails` | delta/svndiff_read.go:63-63 | a concrete stream that the encoder writes and the decoder refuses |
| `EndToEnd.InstructionsFit` | delta/svndiff_read.go:16-19 | the instruction section of a window that buildWindow makes never reaches its limit |
| `EndToEnd.Transfer` | delta/txstream.go:65-83 | sender and receiver as running code: the receiver ends with the target and the sender's checksum whenever the windows fit |
| `Rangelists.CanonicalUnique` | mergeinfo/mergeinfo.go:287-312 | two sorted, disjoint, maximally joined lists with the same meaning are the same list |
| `Rangelists.RemoveRepeats` | mergeinfo/mergeinfo.go:287-298 | the in-place removal of repeated boundaries |
| `Rangelists.Unique` | mergeinfo/mergeinfo.go:287-298 | the boundaries sorted, each once |
| `Rangelists.Combine` | mergeinfo/mergeinfo.go:287-312 | the sweep over boundary intervals with its joining of neighbours |
| `Rangelists.CombinedAt` | mergeinfo/mergeinfo.go:287-312 | the sweep's result is canonical and says of each revision what the predicate says of the boundary interval around it |
| `Mergeinfo.Normalize` | mergeinfo/mergeinfo.go:137-155 | the method computes the normal form |
| `Mergeinfo.NormalizedCanonical` | mergeinfo/mergeinfo.go:137-155 | the normal form of any list is canonical |
| `Mergeinfo.NormalizePreserves` | mergeinfo/mergeinfo.go:140-148 | every revision keeps its meaning exactly when no range that covers anything starts below zero |
| `Mergeinfo.NegativeStartLost` | mergeinfo/mergeinfo.go:140-148 | a concrete range with a negative start that is lost |
| `Mergeinfo.NormalizedFixed` | mergeinfo/mergeinfo.go:137-155 | a list is its own normal form exactly when it is canonical; normalizing is idempotent |
| `Mergeinfo.SameNormalForm` | mergeinfo/mergeinfo.go:137-155 | two lists have one normal form exactly when they have the same meaning |
| `Mergeinfo.CoversInterval` | mergeinfo/mergeinfo.go:314-321 | the first range that spans the interval decides |
| `Mergeinfo.CoveredAt` | mergeinfo/mergeinfo.go:314-321 | over an interval with no boundary inside, that is what the list says of each revision in it |
| `Mergeinfo.CollectBoundaries` | mergeinfo/mergeinfo.go:277-285 | the ends of both lists' ranges |
| `Mergeinfo.Pointwise` | mergeinfo/mergeinfo.go:157-192 | every operation built on the sweep is canonical and pointwise on (present, inheritable) |
| `MergeinfoLaws.MergeAt` | mergeinfo/mergeinfo.go:157-164 | Merge: present if either has the revision, inheritable if either has it so |
| `MergeinfoLaws.IntersectAt` | mergeinfo/mergeinfo.go:166-176 | Intersect: present if both have it; equal inheritance where that is considered, else inheritable if both are |
| `MergeinfoLaws.RemoveAt` | mergeinfo/mergeinfo.go:182-192 | Remove: what is on the whiteboard stays unless erased, with equal inheritance where that is considered |
| `MergeinfoLaws.OperationsCanonical` | mergeinfo/mergeinfo.go:157-192 | every operation returns a canonical list |
| `MergeinfoLaws.MergeCommutes` | mergeinfo/mergeinfo.go:157-164 | Merge is commutative as list equality |
| `MergeinfoLaws.MergeAssociates` | mergeinfo/mergeinfo.go:157-164 | Merge is associative as list equality |
| `MergeinfoLaws.MergeIdempotent` | mergeinfo/mergeinfo.go:157-164 | merging a list with itself normalizes it |
| `MergeinfoLaws.RemoveAndIntersectSplit` | mergeinfo/mergeinfo.go:166-192 | Merge(Remove(b,a), Intersect(a,b)) is Normalize(a): always with inheritance considered, else exactly when b lends a no inheritance; presence is right either way |
| `MergeinfoLaws.DiffRebuilds` | mergeinfo/mergeinfo.go:178-192 | removing what was deleted and merging what was added leads to Normalize(to): always with inheritance considered, else exactly when no shared revision changes it; presence is right either way |
| `MergeinfoLaws.EmptyDifference` | mergeinfo/mergeinfo.go:178-180 | the difference is empty exactly between lists with one normal form |
| `MergeinfoLaws.ToRevs` | mergeinfo/mergeinfo.go:213-221 | exactly the present revisions, each once and ascending |
| `MergeinfoLaws.CombinedLookup` | mergeinfo/mergeinfo.go:260-275 | operations on mergeinfo act path by path and drop empty results |
| `MergeinfoLaws.MergeInfoLaws` | mergeinfo/mergeinfo.go:223-225 | merging mergeinfo is commutative, associative and idempotent |
| `MergeinfoLaws.InfoDiffRebuilds` | mergeinfo/mergeinfo.go:226-234 | a difference of mergeinfo leads from one to the other |
| `MergeinfoLaws.InfoSplits` | mergeinfo/mergeinfo.go:226-234 | removing and intersecting split any mergeinfo |
| `RangelistText.String` | mergeinfo/mergeinfo.go:113-135 | the printed form |
| `RangelistText.ParseRangelist` | mergeinfo/mergeinfo.go:55-89 | the parse of every field, the first error, the search for clashing ranges and the normalization |
| `RangelistText.FindClash` | mergeinfo/mergeinfo.go:81-87 | finds whether two ranges overlap with different inheritance |
| `RangelistText.ParsedIsPrintable` | mergeinfo/mergeinfo.go:55-89 | a parsed list means exactly its fields and can be printed |
| `RangelistText.RangelistRoundTrip` | mergeinfo/mergeinfo.go:113-135 | parsing the printed form of any non-empty canonical list of 64-bit revisions returns it |
| `RangelistText.ReparseStable` | mergeinfo/mergeinfo.go:55-89 | printing a parsed list and parsing it again changes nothing |
| `MergeinfoForm.RangeForm` | mergeinfo/mergeinfo.go:113-135 | a range is printed as its only revision, or its first and last with a dash, and a star if it is not inheritable |
| `MergeinfoForm.RangesForm` | mergeinfo/mergeinfo.go:113-135 | several ranges are printed with commas between them |
| `MergeinfoForm.ReadsAsRange` | mergeinfo/mergeinfo.go:55-89 | the text of a range reads as exactly the revisions from its first to its last |
| `MergeinfoGrammar.FieldExactly` | mergeinfo/mergeinfo.go:61-80 | a field is read as a range exactly when it is one positive 64-bit number, or two ascending ones with a dash, with a star behind it or not and blanks around it |
| `MergeinfoGrammar.ListExactly` | mergeinfo/mergeinfo.go:55-89 | a text is read as a list exactly when it is such fields with commas between them and no revision is given two kinds of inheritance; the list is then the canonical one with their meaning |
| `MergeinfoText.StringInfo` | mergeinfo/mergeinfo.go:91-111 | one line per path with a list, in the given order |
| `MergeinfoText.Parse` | mergeinfo/mergeinfo.go:31-53 | the parse of every line, the first error, and the merging of repeated paths |
| `MergeinfoText.ParsedInfoIsPrintable` | mergeinfo/mergeinfo.go:31-53 | whatever is parsed can be printed again |
| `MergeinfoText.MergeinfoRoundTrip` | mergeinfo/mergeinfo.go:91-111 | printing and parsing gives the normal form back exactly when every path with a list is canonical and free of line breaks and every revision fits in 64 bits |
| `MergeinfoForm.InfoForm` | mergeinfo/mergeinfo.go:91-111 | each path with a list adds a line: the path, a colon and the normalized list |
| `MergeinfoGrammar.LineExactly` | mergeinfo/mergeinfo.go:33-50 | a line is blank, or is a canonical path without dot segments, the last colon and a list, or is in error |
| `MergeinfoGrammar.ErrorExactly` | mergeinfo/mergeinfo.go:33-50 | reading fails with the error of the first line in error |
| `MergeinfoGrammar.InfoExactly` | mergeinfo/mergeinfo.go:33-52 | otherwise a path is there exactly when a line names it, and has the revisions any of its lines gives it, inheritable where any of them says so |
| `MergeinfoGrammar.ReturnsIgnored` | mergeinfo/mergeinfo.go:33-33 | carriage returns in front of line feeds make no difference |
| `Wire.DecodedIsEncodable` | rasvn/marshal.go:66-183 | whatever the bytes, a decoded item is in the encoder's domain: depth, word and string limits |
| `WireRoundTrip.RoundTrip` | rasvn/marshal.go:58-183 | decoding the encoding of any item the encoder accepts returns it and stops exactly behind it, whatever follows |
| `WireRoundTrip.SelfDelimiting` | rasvn/marshal.go:219-258 | two encodings with anything behind them agree only for the same item and the same rest |
| `WireRoundTrip.Stable` | rasvn/marshal.go:58-183 | encoding and decoding a decoded item changes nothing |
| `WireRoundTrip.StreamRoundTrip` | rasvn/marshal.go:58-64 | a stream written item by item reads back as those items, no more and no fewer |
| `WireGrammar.DecodesGrammar` | rasvn/marshal.go:58-183 | the decoder accepts exactly the grammar: an item is returned and reading stops there exactly when the bytes spell it behind any blanks, and the stream has ended exactly when only blanks are left |
| `WireText.LeavesAreText` | rasvn/marshal.go:219-244 | numbers, words and strings as bytes: digits, word or length, colon and bytes, each with a space behind it |
| `WireText.ListIsText` | rasvn/marshal.go:245-254 | a list as bytes: its items between parentheses, each with a space behind it |
| `WireCodec.Decoder.Decode` | rasvn/marshal.go:58-64 | the reader-driven decoder computes the decoding function on all inputs, and terminates |
| `WireCodec.Decoder.DecodeItem` | rasvn/marshal.go:66-80 | the dispatch on the first byte and the nesting limit |
| `WireCodec.Decoder.DecodeNumberOrString` | rasvn/marshal.go:82-118 | digits with the 64-bit overflow check, then a number or a string of limited length |
| `WireCodec.Decoder.DecodeWord` | rasvn/marshal.go:120-139 | a word of limited length |
| `WireCodec.Decoder.DecodeList` | rasvn/marshal.go:141-160 | items up to the closing parenthesis |
| `WireCodec.Encoder.Encode` | rasvn/marshal.go:197-199 | accepts exactly the encodable items and then appends exactly their encoding |
| `WireCodec.Encoder.EncodeItem` | rasvn/marshal.go:219-258 | one item at its depth, refused exactly when outside the limits |
| `EditorCommands.SpellingIsValid` | rasvn/editor_wire.go:68-153 | every command word is one the wire format allows |
| `EditorCommands.CommandRoundTrip` | rasvn/editor_wire.go:68-153 | the receiver recognizes every command word the sender writes as that command |
| `Checksums.ChecksumRoundTrip` | svn/checksum.go:66-91 | a checksum sent in hexadecimal, without its kind, is recovered exactly when its digest has the size of its kind |
| `WireText.HexIsText` | svn/checksum.go:121-121 | a digest is written in lower-case hexadecimal, the high digit of each byte first |
| `WireText.PrefixedIsRead` | svn/checksum.go:66-91 | a checksum with its kind in front is read back, for all three kinds and both MD5 prefixes |
| `EditorWire.RevisionRoundTrip` | rasvn/editor_wire.go:367-378 | every revision, the invalid one included, is read as it was written |
| `EditorWire.CopySourceRoundTrip` | rasvn/editor_wire.go:354-365 | every copy source, present or absent, is read as it was written |
| `EditorWire.ValueRoundTrip` | rasvn/editor_wire.go:209-232 | nil and empty property values stay apart |
| `EditorWire.OptionalChecksumRoundTrip` | rasvn/editor_wire.go:380-395 | an optional checksum is read back exactly when it is well-formed |
| `EditorWire.RequestRoundTrip` | rasvn/editor_wire.go:155-330 | the receiver reads the very call that was written, and the token of the node it opens, exactly when the call's checksum is well-formed |
| `EditorRun.TokensDistinct` | rasvn/commit_editor.go:221-227 | no two of the first 2^64 nodes share a token, and no directory shares one with a file |
| `WireText.TokensAreText` | rasvn/commit_editor.go:221-227 | tokens of directories begin with d, those of files with c, and the counter follows in decimal |
| `WireText.CommandIsText` | rasvn/commit_editor.go:229-320 | every command byte by byte: its word and its parameters in the order of the protocol |
| `EditorDriver.Driver.OpenDirectoryNode` | rasvn/editor_wire.go:155-207 | the editor is called first, and the token is mapped to the new directory if it accepts |
| `EditorDriver.Driver.OpenFileNode` | rasvn/editor_wire.go:155-207 | the same for files |
| `EditorDriver.Driver.PerformDelta` | rasvn/editor_wire.go:234-305 | starting, feeding and ending a text delta, over the map of deltas |
| `EditorDriver.Driver.PerformClose` | rasvn/editor_wire.go:315-330 | a closed node's token is forgotten |
| `EditorDriver.Driver.PerformEnd` | rasvn/editor_wire.go:138-149 | the end of the edit, and an abort that drops the deltas |
| `EditorDriver.Driver.DispatchItem` | rasvn/editor_wire.go:68-153 | parse, token lookup, call and map update for every command, with every error |
| `EditorDriver.Driver.DriveEditor` | rasvn/editor_wire.go:26-66 | commands until the edit ends or one fails, an abort behind a failure |
| `EditorSimulation.ResolveNamed` | rasvn/editor_wire.go:332-352 | tokens resolve exactly when the call is legal, and then to the nodes that were meant |
| `EditorSimulation.StepSimulates` | rasvn/editor_wire.go:68-153 | one legal call is shown to the editor as that call and nothing else, and the token maps keep standing for the open nodes |
| `EditorSimulation.IllegalFails` | rasvn/editor_wire.go:332-352 | an illegal call fails on an unknown token before the editor sees anything |
| `EditorSimulation.Simulation` | rasvn/editor_wire.go:26-66 | for every legal run and every receiving editor: it sees the same calls on the same nodes, each text delta in one piece, up to the first call it refuses, and then an abort |
| `CommitEditor.Editor.SendItem` | rasvn/commit_editor.go:196-219 | an item is sent unless the edit is done or its response has arrived, in which case an abort is sent once; nothing else changes |
| `CommitEditor.Editor.Token` | rasvn/commit_editor.go:221-227 | prefix and counter, which moves on and wraps at 2^64 |
| `CommitEditor.Editor.Command` | rasvn/commit_editor.go:229-320 | calls that open no node |
| `CommitEditor.Editor.OpenDirectoryNode` | rasvn/commit_editor.go:233-247 | calls that open a directory hand out its token |
| `CommitEditor.Editor.OpenFileNode` | rasvn/commit_editor.go:257-271 | calls that open a file hand out its token |
| `CommitEditor.Editor.CloseEdit` | rasvn/commit_editor.go:129-163 | close-edit at most once, with an abort behind it if finishing fails |
| `CommitEditor.Editor.AbortEdit` | rasvn/commit_editor.go:165-194 | abort-edit at most once |
| `CommitEditor.OperateSends` | rasvn/commit_editor.go:221-287 | one call sends its command, and a node's token is the one later calls on it use |
| `CommitEditor.SenderSends` | rasvn/commit_editor.go:196-320 | until the edit is done exactly the commands of the calls have been sent |
| `CommitEditor.DoneStaysDone` | rasvn/commit_editor.go:196-219 | once the edit is done nothing more is sent |
| `CommitEditor.EarlyResponse` | rasvn/commit_editor.go:196-219 | a response arriving before a call turns the run into the run cut off there by an abort |
| `EditorEndToEnd.FitsExactlyWhenSmall` | rasvn/marshal.go:219-258 | the encoder accepts the command of a call exactly when none of its strings exceeds the wire's limit |
| `EditorEndToEnd.EditDelivered` | rasvn/commit_editor.go:196-320 | every legal run on the sending editor reaches the receiving editor, byte for byte over the wire |
| `EditorEndToEnd.EarlyResponseDelivered` | rasvn/commit_editor.go:196-219 | with an early response the receiving editor sees the calls before it and an abort |
| `EditorEndToEnd.DeltaDelivered` | rasvn/editor_wire.go:280-305 | whatever calls lie between its chunks, a text delta arrives as their concatenation |
| `EditorEndToEnd.DeltaApplied` | rasvn/commit_editor.go:281-320 | where the chunks carry an svndiff stream, applying what arrives yields the target exactly when every window fits |
| `Paths.FspathIsCanonical` | svn/path/fspath.go:9-11 | a text is canonical exactly when it is the text of a path |
| `Paths.BetweenSharesPrefix` | delta/pathdriver.go:27-27 | whatever sorts between two texts with a common beginning has that beginning |
| `Paths.UnderExactly` | svn/path/common.go:53-71 | a path lies under another exactly when its text continues the other's behind a slash |
| `PathDriver.HasEmpty` | delta/pathdriver.go:21-26 | whether some target is empty |
| `PathDriver.DriveTo` | delta/pathdriver.go:39-71 | one target: close what is left, open what leads to it, call back, push its editor |
| `PathDriver.DriveSorted` | delta/pathdriver.go:32-79 | the loop over the sorted targets up to the first repeated one, and the closing of what is open |
| `PathDriver.PathDriver` | delta/pathdriver.go:19-80 | the whole driver, with both of its errors |
| `PathDriver.DriveIsWellMade` | delta/pathdriver.go:32-79 | on distinct non-empty paths every call is made on the true parent, closes mirror opens in LIFO order, and only the root is open in the end |
| `PathDriverOrder.SortSorts` | delta/pathdriver.go:27-27 | sorting by bytes is a sorted permutation |
| `PathDriverOrder.NeighboursSuffice` | delta/pathdriver.go:35-38 | comparing neighbours finds every repetition |
| `PathDriverOrder.TargetsOnce` | delta/pathdriver.go:34-72 | the callback is called exactly once for every target, in sorted order |
| `PathDriverOrder.OpenedTwiceExactly` | delta/pathdriver.go:27-72 | a directory is opened twice exactly when it is a target that stays open and a target that continues its text with a byte below the slash sorts between it and a target below it |
| `PathDriverOrder.HighBytesOpenOnce` | delta/pathdriver.go:27-72 | where no path byte is below the slash no directory is opened twice |
| `PathDriverOrder.SortedIsGood` | delta/pathdriver.go:19-38 | the above applies to every drive that ends without an error |
| `Crawl.ReportNode` | wc/crawl.go:71-115 | switched, the parent's revision and the decision to report, for one row |
| `Crawl.Crawl` | wc/crawl.go:22-117 | the calls on the reporter, the empty scope and the missing parent included; which rows they are about is `CrawlScope.ReportIsAboutScope` |
| `CrawlLossless.NodeReadBack` | wc/crawl.go:71-115 | every present row in scope is recovered from the entries alone: revision, repository path, depth, lock token, incompleteness; every other row reads as missing |
| `CrawlLossless.CrawlIsLossless` | wc/crawl.go:22-117 | the report of any well-formed BASE table succeeds and is lossless for the whole scope |
| `CrawlScope.ReportIsAboutScope` | wc/crawl.go:22-117 | every entry is about the target, at depth files a file child, at depth immediates a child, else anything below; and every such row is read back |
| `CrawlScope.NothingToReport` | wc/crawl.go:60-70 | without such a row the report reads as an empty node at revision 0 to be filled where the target is to be created, and else deletes the target |
| `CrawlScope.LeftOutExactly` | wc/crawl.go:71-115 | a present row below the target gets no entry exactly when a reader infers it from its parent: same revision, the place that follows, no lock, not incomplete, and infinite depth for a directory |
| `CrawlScope.NeverLeftOut` | wc/crawl.go:71-115 | the first row and every missing row get an entry |
| `Segments.HistoryLocation` | repos/repos.go:574-581 | the location at a revision |
| `Segments.LocatedUpToNewest` | repos/repos.go:574-581 | a descending history has a location for exactly the revisions up to its newest entry |
| `Segments.GetLocationSegments` | repos/repos.go:539-557 | the segments of the clipped range |
| `Segments.SegmentsTile` | repos/repos.go:539-557 | segments are disjoint, non-empty and within the range, and hold the revisions of their entries |
| `Segments.SegmentsAgree` | repos/repos.go:539-581 | segments tile the revisions from end up to the smaller of start and the newest entry, and agree everywhere with historyLocation |
| `Segments.CommonLocation` | client/merge.go:189-208 | the nested loops over two segment lists |
| `Segments.YoungestCommon` | client/merge.go:189-208 | the result is the largest revision at which both histories are at the same path, invalid exactly when there is none |
| `Segments.YoungestCommonLocation` | client/merge.go:172-209 | the same for the whole function on two histories |
| `MergedLog.MergedLogEntries` | repos/repos.go:328-394 | the recursion over the revisions merged by a revision, terminating on cyclic mergeinfo; what it shows is `MergedTrees.MergedForest` |
| `MergedLog.MergedDelivers` | repos/repos.go:328-394 | every call delivers only revisions not delivered before, each once, and records exactly those |
| `MergedTrees.MergedForest` | repos/repos.go:328-394 | the entries form a forest written parents first, each marked exactly when children follow; at every level each existing revision that a source adds or deletes and that touched that source is delivered, no other is shown, siblings run in the direction of the log, and one is subtractive exactly when the first source that mentions it only deletes it |
| `Log.FilterOf` | repos/repos.go:263-271 | which of the targets a revision is logged for |
| `Log.MatchesIsWanted` | repos/repos.go:255-272 | a revision matches exactly when nothing is asked for or it changed a path at or below where an asked-for node was |
| `Log.HandleOne` | repos/repos.go:255-295 | one revision: skipped, delivered, or delivered with the entries merged by it |
| `Log.Log` | repos/repos.go:230-305 | the loop over the revisions in either direction, with limit and early end |
| `Log.LogOnce` | repos/repos.go:230-305 | no revision is handed out twice, and without limit or error none that touched an asked-for node is missed |
| `Log.LogForest` | repos/repos.go:230-305 | the handler sees a forest with parents first: its roots are wanted revisions in the direction of the log, at most as many as the limit, below each stands what it merged, and a wanted revision is missing only behind the root that reaches the limit |
| `WcLock.ApartShareNothing` | wc/lock.go:78-92 | the two-way cover test is enough: no path is covered by both locks |
| `WcLock.CoversExactly` | wc/lock.go:78-92 | a lock covers its directory and what lies at most its levels below it, or anything below if they are negative |
| `WcLock.ExclusiveExactly` | wc/lock.go:78-92 | locks exclude each other exactly when the test says so of every pair |
| `WcLock.Database.AcquireLock` | wc/lock.go:18-61 | a lock is handed out exactly when the new row is apart from all existing ones, and only then is a row added |
| `WcLock.WCLock.Release` | wc/lock.go:63-76 | the row goes once; a second release does nothing; an error exactly when the row is gone |
| `WcLock.Database.IsWCLocked` | wc/status.go:525-553 | true exactly when some live lock covers the path |
| `WcLock.LocksExclude` | wc/lock.go:18-92 | after any run of acquiring and releasing no path is covered by two live locks, and the live locks are exactly those handed out and not released |
| `WcNodes.TopIsMax` | wc/schema.go:35-36 | NODES_CURRENT is the row with the largest op_depth |
| `WcNodes.CopyMirrors` | wc/local.go:199-264 | a copy has at each place the source's current row, made normal |
| `WcNodes.DeleteHides` | wc/local.go:295-367 | after a delete every place below is unversioned or marked as deleted over an untouched BASE row |
| `WcNodes.MoveRelocates` | wc/local.go:266-293 | what was current at the source is found at the destination, and the source is marked as deleted wherever BASE has it |
| `WcNodes.RevertRestores` | wc/local.go:417-455 | revert at depth infinity makes NODES_CURRENT equal NODES_BASE on the whole subtree and leaves the rest alone |
| `WcNodes.LocalOperationsKeepBase` | wc/local.go:83-455 | no sequence of Add, Copy, Move, Delete and Revert changes the BASE layer or puts a row above its path's depth |
| `WcNodes.RevertUndoesAll` | wc/local.go:417-455 | after any such sequence reverting everything leaves exactly the BASE layer |
| `WcEffects.AddEffect` | wc/local.go:83-160 | an add upserts a row, in its layer, at exactly the places that names on the disk lead to, past nothing ignored and within the depth, for the node found there; every other row is unchanged |
| `WcEffects.CopyIsMadeExactly` | wc/local.go:199-264 | a copy is made exactly between apart places, from a versioned source, to where no row of the new layer is in the way |
| `WcEffects.CopyEffect` | wc/local.go:199-264 | it inserts the current rows of the source in the layer of the destination, made normal, and changes no other row |
| `WcEffects.DeleteEffect` | wc/local.go:295-367 | a delete marks every BASE place below if the root is in BASE, takes away every other row above BASE there, and changes no row elsewhere |
| `WcEffects.MoveEffect` | wc/local.go:266-293 | a move is copy and delete, and for a source with a revision the two marks, which change nothing else |
| `WcEffects.RevertEffect` | wc/local.go:417-513 | a revert takes away exactly the rows above BASE at the places of its depth |
| `WcDatabase.Database.InsertRow` | wc/schema.go:38-39 | the insert trigger keeps every refcount equal to the number of rows with that checksum |
| `WcDatabase.Database.UpdateRow` | wc/schema.go:42-44 | so does the update trigger, with equal checksums and none |
| `WcDatabase.Database.DeleteRow` | wc/schema.go:40-41 | so does the delete trigger |
| `WcDatabase.Database.InstallPristine` | wc/update_editor.go:1029-1043 | a text is installed with refcount 0 unless it is already there |
| `WcDatabase.Database.Add` | wc/local.go:38-160 | the rows added, layer by layer, with refcounts kept |
| `WcDatabase.Database.Copy` | wc/local.go:199-264 | succeeds exactly where it may, and adds the copied rows |
| `WcDatabase.Database.InsertDeleteLayer` | wc/local.go:344-367 | the layer that marks every BASE place as deleted |
| `WcDatabase.Database.Delete` | wc/local.go:295-330 | the layers above are removed and, over BASE, replaced by the delete layer |
| `WcDatabase.Database.Move` | wc/local.go:266-293 | copy, marks and delete as one transition |
| `WcDatabase.Database.Revert` | wc/local.go:417-513 | the layers above BASE go at the places of the depth |
| `WcDatabase.Database.PreparePostCommit` | wc/commit.go:355-393 | a row goes exactly when it lies at or below a deleted path, or above BASE at a changed one; all other rows stay as they are |
| `WcDatabase.Database.Finalize` | wc/commit.go:395-455 | every committed, not deleted path with a BASE row has that row at the new revision, with the sent text or the old one; every other column and row is unchanged, and the refcounts are kept |
| `WcDatabase.CommittedIsCurrent` | wc/commit.go:355-455 | after a commit the BASE row of a committed path is its current row, at the new revision |
| `WcDatabase.Database.WriteBaseFile` | wc/update_editor.go:1009-1027 | an upsert of a BASE row, of an installed text |
| `WcDatabase.Database.Vacuum` | wc/workqueue.go:458-487 | exactly the texts that no row refers to are removed, from the table and from disk |
| `Subst.Translate` | props/subst.go:49-69 | the byte loop computes the translation function, or fails; what is written for a keyword is `SubstKeyword.ExpandedForms`, for a line ending `SubstRoundTrip.LinesReplaced` |
| `Subst.TranslationState.ConsumeByte` | props/subst.go:96-117 | one byte, with a pending carriage return |
| `Subst.TranslationState.EmitEOLBytes` | props/subst.go:119-141 | one line ending in its style or the enforced one, or the mixed-endings error |
| `Subst.TranslationState.EmitText` | props/subst.go:143-166 | one byte of text, collected from a dollar on to the next dollar, line end or 256 bytes |
| `Subst.TranslationState.Close` | props/subst.go:168-178 | the pending carriage return and the keyword held back are written |
| `SubstStages.TwoStages` | props/subst.go:84-178 | the interleaved automaton is line-ending normalization followed by keyword translation, and fails exactly when the first does |
| `SubstLaws.KeywordsCompose` | props/subst.go:143-209 | what two keyword translations do to every candidate, they do to every text |
| `SubstLaws.ExpandingKeepsName` | props/subst.go:180-209 | expanding, in plain or fixed width, gives a candidate that carries the same name |
| `SubstKeyword.NameStands` | props/subst.go:180-186 | the name of a candidate stands behind its first dollar, up to its first colon or last dollar, without the blanks around it |
| `SubstKeyword.ExpandedForms` | props/subst.go:180-209 | byte by byte: plain, the name, a colon and the value between spaces; with two colons, in the width the candidate has, a space, as much of the value as there is room for, and spaces up to the last dollar; too narrow a candidate stays as it is |
| `SubstKeyword.CollapsedForm` | props/subst.go:180-193 | detranslated, the name between two dollars; a candidate whose name is not enabled stays as it is |
| `SubstKeyword.KeywordsInText` | props/subst.go:143-166 | around keywords: what is not between two dollars on one line within 256 bytes is copied, and translation starts afresh behind each candidate |
| `SubstCommute.StagesCommute` | props/subst.go:84-178 | normalizing line endings before or after translating keywords gives the same text, or fails alike |
| `SubstRoundTrip.RepairForgets` | props/subst.go:119-141 | repairing towards one end of line forgets an earlier normalization towards any other |
| `SubstRoundTrip.ReadBackExactly` | props/subst.go:49-73 | detranslate(expand(x)) = detranslate(x) for every text exactly when each value of a name a text can carry is free of dollar, CR and LF and its expansion fits 256 bytes |
| `SubstRoundTrip.CollapsedStays` | props/subst.go:71-73 | detranslating twice is detranslating once, for all keywords and texts |
| `SubstRoundTrip.ExpandedStaysExactly` | props/subst.go:180-209 | with such values expanding twice is expanding once exactly when no value holds two colons in a row |
| `SubstRoundTrip.OutputIsPure` | props/subst.go:119-141 | with an enforced end of line the output holds no other, and with repair there always is an output |
| `SubstRoundTrip.LinesReplaced` | props/subst.go:119-141 | with an enforced end of line every line ending is replaced by it and all other bytes stay |
| `SubstRoundTrip.NothingToDo` | props/subst.go:49-69 | without keywords and end of line every byte stream is copied |
| `SubstRoundTrip.FailsExactly` | props/subst.go:119-141 | translation fails exactly on two line endings of different styles that must be enforced and not repaired |

## Left out

- Xdelta.RollingHash: stated for blocks of 64 bytes, the only length the code hashes; that bound makes the bitwise or an addition.
- Svndiff.Encoder.WriteWindow: the three writes to the stream are one append, so a stream that fails between them is not modelled.
- DeltaApply.Apply: readers and writers that fail by themselves are not modelled.
- EndToEnd.Transfer: the checksum is an abstract function of the target; MD5 itself is not modelled.
- Mergeinfo.Normalize: revisions are unbounded integers, so a start near the smallest 64-bit value does not wrap.
- MergeinfoText.Parse: `TrimSpace` and the path test look at ASCII spaces only, and errors carry no message.
- MergeinfoText.StringInfo: the order of the paths is a parameter; sorting them is not modelled.
- WireCodec.Encoder.Encode: which part of a refused item has already been written is left open, and items of a kind outside the four are not modelled.
- EditorDriver.Driver.DriveEditor: the `finish-replay` command, the failure responses and the draining of commands behind a failure are not modelled.
- EditorDriver.Driver.PerformDelta: the pipe and its goroutine are the concatenation of the chunks, handed to the editor when the delta ends; an editor that refuses a delta does so then.
- EditorSimulation.Simulation: for at most 2^64 calls, because the token counter wraps there.
- CommitEditor.Editor.CloseEdit: authentication and the commit info behind the close are one bit that says whether finishing failed.
- PathDriver.PathDriver: errors of the editor and the callback and the revision passed to `OpenDirectory` are not modelled; which callbacks return an editor is a parameter.
- Crawl.Crawl: a depth that cannot be parsed and errors of the reporter are not modelled; on an error the calls already made are not kept.
- Segments.GetLocationSegments: fetching the node history is a parameter.
- Log.Log: changed paths, histories and the mergeinfo changed by a revision are tables; the contents of an entry other than its revision and its two flags are not modelled, nor is a handler that fails.
- WcLock.Database.AcquireLock: whether the directory is there and the database can be written is one parameter.
- WcNodes.LocalOperationsKeepBase: timestamps, cached sizes, ACTUAL_NODE, LOCK and changed-revision columns are not part of a row.
- WcDatabase.Database.Add: what is on disk is a parameter; property detection and ignore patterns are not modelled.
- WcDatabase.Database.Delete: the test for local modifications and the removal of files on disk are not modelled.
- WcDatabase.Database.Vacuum: the work queue that cleanup runs first is not modelled.
- Subst.Translate: what has been written before a failure is not stated; parsing the line-ending style and the keyword property, and formatting the values, are left out; names are trimmed of ASCII spaces only.
- SubstRoundTrip.ReadBackExactly: for end-of-line settings none, LF, CR and CRLF, and where the way back has the same setting or repairs.
- `TreeBuilder` (delta/inmem.go): the simulation holds for every receiving editor, so none is singled out.
- `WriteTuple`, `ParseTuple` (rasvn/marshal.go): tuples with optional items in the middle do not round-trip, and the rest is a table of types.
- `Reverse`, `Inheritable`, catalogs (mergeinfo/mergeinfo.go): list reversal and filters over the operations that are modelled.
- Conflict resolution by hunks, work queue items and the update editor beyond one BASE row (wc).
- HTTP, XML, TLS, authentication, SQLite, file systems, repository storage, diff and diff3, command line and notifications.
- Contexts and cancellation; Go error values beyond their distinctions named above.
