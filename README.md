# A verified model of a read-only Git object reader

This project is a Dafny model of the core of a small read-only Git reader written in JavaScript. The model covers three source files:

- **`src/packfile.js`** covers several pieces:
  - the base-128 size varint (`readDataSize`);
  - the delta applier (`patchDelta`), with its COPY and INSERT instructions;
  - the `.idx` version 1 and 2 table reader (`_parseIdx`);
  - the prefix binary search over an index (`_binarySearch`);
  - the first-hit search over all indexes (`_findBySha1`);
  - the pack entry header and OFS_DELTA distance decoders (`_findByOffset`, `_resolveDelta`);
  - the `"<type> <size>\0<body>"` framing that `find` returns.
- **`src/git-object-parser.js`** covers:
  - the framing split (`parse`);
  - the commit and tag header/message scanners (`parseCommit`, `parseTag`);
  - actor lines (`parseActor`);
  - blobs (`parseBlob`);
  - the binary tree entry decoder (`parseTree`).
- **`src/ref.js`** covers:
  - the fixed candidate path list (`pathes`);
  - the `packed-refs` line grammar (`parsePackedRefs`);
  - ref resolution with `ref:` indirection and the packed-refs fallback (`resolveRef`).

## How the model is built

**Modules:**

| module | file | covers |
|---|---|---|
| `Wrappers` | `wrappers.dfy` | `Option` and `Result`, plus an `Error` that names why the JavaScript would throw |
| `Bytes` | `bytes.dfy` | bytes as the subset type `byte`, clamped reads and slices, big-endian words, hex and decimal rendering, one-char-per-byte text |
| `Text` | `text.dfy` | JavaScript string order, `trim`, `split`/`join`, and the unary `+` on plain decimal strings |
| `Delta` | `delta.dfy` | `readDataSize` and `patchDelta` |
| `PackEntry` | `pack_entry.dfy` | entry headers and the OFS/REF base references |
| `PackIndex` | `pack_index.dfy` | `_parseIdx` and `_binarySearch` |
| `PackStore` | `pack_store.dfy` | the `Packfile` class |
| `ObjectParser` | `object_parser.dfy` | `git-object-parser.js` |
| `Refs` | `refs.dfy` | `ref.js` |

**How each kind of code is modelled:**

- **Loops.** Every loop of the source is a Dafny `method` with a `while` loop. Its postcondition ties the result to a specification function: `PatchDelta`, `ReadDataSize`, `ReadV2Entries`, `BinarySearch`, `ParseCommit`, `ParseTree`, `Parse`, `ParsePackedRefs` and `ResolveRef`. The properties the source promises are then proved as lemmas about those functions.
- **`patchDelta`.** It fills a freshly allocated `array<byte>` in place.
- **The `Packfile` class.** It is a Dafny class whose `idxs` is fixed by its constructor.
- **File system and zlib.** These are parameters:
  - file contents are maps from names to bytes (or to text, for refs);
  - zlib inflation is a function value of type `Inflater`.
- **Throwing code.** Where the JavaScript throws, the model returns `Err(...)`. Where it returns `undefined`, the model returns `None`.

**Where the code differs from Git's own formats and from its documented intent, the model follows the code:**

- **OFS_DELTA distance.** The distance starts from `c & 7` of its first byte (`src/packfile.js:192`), where Git uses `c & 0x7f`. `OfsSeedShortfall` and `OfsSeedAgrees` give the exact difference. The two agree only when the low seven bits of that byte are below 8. `SelfDistanceExample` and `SelfBaseNeverResolves` show that a real entry can then name itself as its own base and never resolve.
- **Declared source size.** `patchDelta` reads the declared source size and never compares it with the base. Any other source-size field of the same length gives the same result (`SourceSizeIgnored`).
- **Zero instruction byte.** A 0 byte is skipped rather than rejected (`ZeroStep`).
- **Oversized INSERT.** An INSERT longer than the remaining output ends the loop, wherever it occurs. The rest of the buffer stays zero-filled (`UnwrittenTailIsZero`).
- **Truncated COPY.** The first offset byte and the first size byte of a COPY are assigned with `=`, not `|=` (`src/packfile.js:53`, `src/packfile.js:57`). When that byte lies past the end of the delta and no later byte of the same operand follows, the operand stays `undefined`. The copy is then empty, and the loop ends (`UndefinedCopyEnds`). So `[1, 1, 0x90]` gives one 0 byte, not a copy of the base (`UndefinedCopyExample`).
- **Stream continues past the declared size.** The loop runs to the end of the delta, not to the declared result size.
- **COPY that overflows the output.** A COPY that does not fit in the output throws (a `RangeError` from `TypedArray.set`), modelled as `Err(OutOfRange)`. A COPY that reaches past the base is clamped by `slice`.
- **Large 64-bit offsets.** Large `.idx` v2 offsets are taken from the 8-byte table one after another. Git would index the table by the low 31 bits of the 32-bit word. `SequentialLargeOffsets` shows the two agree when the index numbers its large entries in order.
- **Actor lines.** An actor reads exactly four whitespace tokens, so a name of several words shifts the email, time and timezone (`MultiWordNameExample`). The timezone sign applies to the hours only.
- **Missing or malformed loose refs.** `resolveRef` consults `packed-refs` for a candidate whenever reading or resolving its loose file throws, which includes malformed content. It has no depth limit.

## Model

| member | source | states |
|---|---|---|
| `Bytes.ReadU32BE` | src/packfile.js:92-95 | `readUInt32BE` succeeds exactly when four bytes remain at the position; otherwise it fails with a range error; the word is below 2^32 |
| `Bytes.Hex` | src/packfile.js:100 | `toString('hex')` gives two lowercase hex characters per byte |
| `Bytes.TextRoundTrip` | src/git-object-parser.js:51 | reading bytes as text and writing them back is the identity in both directions |
| `Text.PrefixedBelow` | src/packfile.js:154 | an id that starts with the query sorts below any id that the query sorts below and that does not start with it (the step that lets the search discard the upper half) |
| `Text.PrefixedAbove` | src/packfile.js:154-157 | symmetric: when the query does not sort below an id, every id that starts with the query sorts above it |
| `Text.TrimSpec` | src/git-object-parser.js:28 | `trim` keeps a contiguous middle slice, removes only white space (tab, line feed, vertical tab, form feed, carriage return, space), and leaves none at either end |
| `Text.SplitJoin` | src/git-object-parser.js:16-28 | joining the pieces of `split` with the same separator gives back the text |
| `Text.NumberOf` | src/git-object-parser.js:7 | unary `+` gives a number exactly for the empty string (0) and for optionally signed decimal digits |
| `Delta.VarintAtCorrect` | src/packfile.js:27-37 | the size read at an offset is the little-endian base-128 sum of the low 7 bits of every byte up to and including the first byte with bit 7 clear, and the next offset is just past that byte |
| `Delta.VarintUnique` | src/packfile.js:27-37 | at most one (size, next offset) pair satisfies that description, so the reader is determined |
| `Delta.ReadDataSize` | src/packfile.js:27-37 | the loop returns that unique pair; the next offset is strictly greater than the start |
| `Delta.CopyOperands` | src/packfile.js:50-60 | a COPY consumes at most 7 operand bytes, and a size that is defined is never 0 |
| `Delta.CopyOperandsLayout` | src/packfile.js:50-60 | one operand byte per set bit among bits 0-6; the offset is assembled little-endian from the bytes of bits 0-3, the size from bits 4-6, a missing byte read by a later or-assignment counting 0; a size of 0 becomes 0x10000; an operand whose `=`-assigned first byte is missing, with no later byte of its own, is `undefined`, and then the operands run past the end of the delta |
| `Delta.ReadCopyOperands` | src/packfile.js:51-60 | the operand reads compute exactly the decoded offset, size, their definedness and the next delta offset |
| `Delta.PatchSpec` | src/packfile.js:39-75 | a patched result always has the declared result size (the second varint); the only failure is an out-of-range write |
| `Delta.SourceSizeIgnored` | src/packfile.js:43-44 | replacing the source-size field by any complete size field of the same length leaves the result, and whether it fails, unchanged |
| `Delta.DeclaredSourceExample` | src/packfile.js:43-72 | a delta claiming a source of any size, with a 0 byte before its INSERT, inserts its byte into any base |
| `Delta.CopyStep` | src/packfile.js:50-63 | a COPY with both operands defined writes the clamped base slice at the output cursor and advances by its size |
| `Delta.UndefinedCopyEnds` | src/packfile.js:48-63 | a COPY with an `undefined` operand writes nothing and ends the loop: the result is the buffer as it stands, unless the cursor is already past its end |
| `Delta.UndefinedCopyExample` | src/packfile.js:53-61 | `[1, 1, 0x90]` and `[1, 1, 0x81]` patch any base to the single byte 0 |
| `Delta.InsertStep` | src/packfile.js:64-71 | an INSERT of `cmd` bytes that fits writes the next `cmd` delta bytes verbatim and advances both cursors by `cmd` |
| `Delta.OversizedInsertStep` | src/packfile.js:65-67 | an INSERT longer than the remaining declared size stops the loop |
| `Delta.OversizedInsertStops` | src/packfile.js:47-67 | when the first instruction is such an INSERT, the result is the all-zero buffer of the declared size |
| `Delta.StepKeepsTail` | src/packfile.js:61-71 | an instruction that lets the loop go on writes only before the new output cursor, and `dstSize` stays the number of bytes after the cursor |
| `Delta.RunHalts` | src/packfile.js:48-74 | the loop returns the buffer of the state it halts in; that state keeps the zero tail and the remaining size; halting early without throwing happens only at an INSERT larger than the remaining size |
| `Delta.UnwrittenTailIsZero` | src/packfile.js:47-74 | wherever the loop stops, every output byte from the cursor on is 0; an early stop is at an INSERT of more bytes than fit after the cursor |
| `Delta.VarintPrefix` | src/packfile.js:27-37 | a complete size field reads the same whatever bytes follow it |
| `Delta.RunAgree` | src/packfile.js:48-73 | the loop reads the delta only at and after its cursor: deltas that agree from there give the same result |
| `Delta.ZeroStep` | src/packfile.js:48-64 | a 0 instruction byte writes nothing and is skipped |
| `Delta.StepRuns` | src/packfile.js:48-74 | the loop is the repetition of one step: a failure fails the whole patch, a stop returns the buffer as it is |
| `Delta.Blit` | src/packfile.js:61-68 | `dst.set` overwrites exactly the target range and nothing else |
| `Delta.PatchInstruction` | src/packfile.js:49-72 | one iteration of the loop changes the buffer exactly as the specified step says |
| `Delta.PatchDelta` | src/packfile.js:39-75 | succeeds exactly when the specification does, in a fresh buffer holding the specified content |
| `PackEntry.Head` | src/packfile.js:124-125 | the 32-byte header window holds the pack bytes from the offset, zero past the end of the pack |
| `PackEntry.HeaderKind` | src/packfile.js:126-127 | the type is bits 4-6 of the first byte |
| `PackEntry.HeaderLayout` | src/packfile.js:126-135 | `i` counts the bytes up to and including the first with bit 7 clear; the size is the low nibble plus each continuation byte's low 7 bits times 16·128^k |
| `PackEntry.DecodeHeader` | src/packfile.js:126-135 | the loop computes exactly that type, size and length |
| `PackEntry.OfsSeedShortfall` | src/packfile.js:191-197 | the distance as coded falls short of Git's by `(c mod 128 − c mod 8)·128^k` for first byte `c` and `k` continuation bytes |
| `PackEntry.OfsSeedAgrees` | src/packfile.js:191-197 | the coded distance equals Git's exactly when the first byte's low 7 bits are below 8 |
| `PackEntry.OfsSeedExample` | src/packfile.js:192 | the single byte 0x64 gives distance 4 as coded, 100 in Git's format |
| `PackEntry.DecodeOfs` | src/packfile.js:191-197 | the loop computes the distance `(ofs+1)·128 + (c & 0x7f)` per continuation byte from the seed `c & 7`, and the offset after it |
| `PackEntry.RefBase` | src/packfile.js:201 | a REF_DELTA base id is the hex of the 20 bytes after the header, 40 characters when the window holds them |
| `PackIndex.IdxSpec` | src/packfile.js:86-91 | a parsed index names the pack `<name>.pack` |
| `PackIndex.EntriesLayout` | src/packfile.js:99-118 | the entries succeed exactly when each of the n entries can be read, and then they are exactly those n entries in file order |
| `PackIndex.EntriesFail` | src/packfile.js:99-118 | the first unreadable entry makes the whole index fail |
| `PackIndex.V2EntryIs` | src/packfile.js:100-108 | the v2 entry `i` has the hex id at 1032+20i and the offset of the offset table |
| `PackIndex.V2OffsetSmall` | src/packfile.js:101-103 | a 32-bit word without its top bit is the offset itself |
| `PackIndex.V2OffsetLarge` | src/packfile.js:103-106 | a word with its top bit set takes the next unread 8-byte big-endian value from 1032+28n |
| `PackIndex.V2OffsetLargeFails` | src/packfile.js:104-105 | if that 8-byte value lies past the end of the file, the index fails with a range error |
| `PackIndex.SequentialLargeOffsets` | src/packfile.js:103-106 | when the file numbers its large offsets in order, the sequential read gives the entry Git's format designates |
| `PackIndex.V1EntryIs` | src/packfile.js:114-117 | a v1 record is 24 bytes at 1024+24i: a big-endian offset, then the 20-byte id |
| `PackIndex.EntryIds` | src/packfile.js:100 | every id is lowercase hex of at most 40 characters, exactly 40 when the file holds the whole id |
| `PackIndex.ReadV2Offset` | src/packfile.js:101-107 | the offset read and the advance of the large-offset cursor match the specification |
| `PackIndex.ReadV2Entries` | src/packfile.js:92-109 | the v2 loop yields exactly the specified entries or the specified failure |
| `PackIndex.ReadV1Entries` | src/packfile.js:110-119 | the v1 loop yields exactly the specified entries or the specified failure |
| `PackIndex.ParseIdx` | src/packfile.js:86-121 | the magic 0xff744f63 selects v2 with n at byte 1028, anything else v1 with n at byte 1020; the result is the specified index |
| `PackIndex.SearchCorrect` | src/packfile.js:148-160 | a returned entry lies in the searched window and starts with the query; over ids sorted ascending, nothing is returned only when no entry in the window starts with the query |
| `PackIndex.BinarySearchFinds` | src/packfile.js:148-160 | a returned entry is an element whose id starts with the query; over a sorted index some entry is returned whenever one matches |
| `PackIndex.BinarySearch` | src/packfile.js:148-160 | the loop returns exactly the specified entry |
| `PackStore.TypeName` | src/packfile.js:14-19 | the names of the four base types are lowercase words |
| `PackStore.IdxsOfOk` | src/packfile.js:80-83 | opening succeeds exactly when every named index parses |
| `PackStore.IdxsOfLayout` | src/packfile.js:80-83 | the indexes are then exactly the parsed files, one per name, in order, each naming its pack |
| `PackStore.IdxsStop` | src/packfile.js:83 | the first index that fails makes opening fail with its error |
| `PackStore.ParseIdxs` | src/packfile.js:80-83 | the loop over names computes the specified indexes |
| `PackStore.FirstHitIs` | src/packfile.js:165-173 | the first index with a hit decides the pack and offset |
| `PackStore.FirstHitMisses` | src/packfile.js:165-174 | no location is found exactly when no index has a hit |
| `PackStore.FirstHitSound` | src/packfile.js:165-173 | a found location belongs to an entry of that pack's index whose id starts with the query |
| `PackStore.FirstHitComplete` | src/packfile.js:165-173 | with sorted indexes, an entry whose id starts with the query is always found |
| `PackStore.FrameLayout` | src/packfile.js:185 | a frame is the type name, one space, the decimal size, a NUL, then the body; the header has no other NUL or space |
| `PackStore.Patched` | src/packfile.js:204-206 | a resolved delta object keeps the base's type, holds the patch of the base by the delta, and has that content's length as its size; a base that is `undefined` throws |
| `PackStore.SelfDistanceExample` | src/packfile.js:191-198 | the OFS header bytes 0x60 0x08 give distance 0 as coded (8 in Git's format) |
| `PackStore.Packfile.Open` | src/packfile.js:78-84 | construction succeeds exactly when every index parses, and then holds those indexes |
| `PackStore.Packfile.Init` | src/packfile.js:78-84 | the constructor records the parsed indexes |
| `PackStore.Packfile.ObjectAt` | src/packfile.js:123-146 | any object `_findByOffset` returns is a commit, tree, blob or tag |
| `PackStore.Packfile.DeltaObject` | src/packfile.js:188-207 | a resolved delta is a base-typed object whose size is its content's length |
| `PackStore.Packfile.DeltaObjectPatches` | src/packfile.js:188-207 | a resolved delta has a base that exists, found at the backward distance (OFS) or by id (REF) one level deeper; it has the base's type, and its content is the base patched by the delta inflated after the base reference |
| `PackStore.Packfile.ObjectById` | src/packfile.js:162-180 | any object `_findBySha1` returns is a commit, tree, blob or tag |
| `PackStore.Packfile.FindByOffset` | src/packfile.js:123-146 | the header decode and dispatch compute the specified object |
| `PackStore.Packfile.ResolveDelta` | src/packfile.js:188-207 | the OFS or REF base lookup, inflation and patch compute the specified object |
| `PackStore.Packfile.ApplyDelta` | src/packfile.js:205-206 | applying the delta computes the specified patched object |
| `PackStore.Packfile.FindBySha1` | src/packfile.js:162-180 | the search over indexes and the read compute the specified object |
| `PackStore.Packfile.Find` | src/packfile.js:182-186 | `find` returns the specified frame, or nothing when no object is found |
| `PackStore.Packfile.SelfBaseNeverResolves` | src/packfile.js:188-199 | an OFS entry whose coded distance is 0 is its own base and never resolves at any depth |
| `ObjectParser.ActorFields` | src/git-object-parser.js:2-9 | an actor parses exactly when there are four tokens and a timezone match; name is token 0, email is token 1 without its first and last character, date is `time·1000` ms or invalid; the offset is the signed hour and minute of the zone match, `(hour·60 + minute)·60000` |
| `ObjectParser.ActorReadsFourTokens` | src/git-object-parser.js:2 | tokens after the fourth never change the actor |
| `ObjectParser.TzFrom` | src/git-object-parser.js:3 | the hour is two digits, or a sign and two digits, and the minute is two digits |
| `ObjectParser.TzFromLeftmost` | src/git-object-parser.js:3 | there is no match exactly when `[+-]?\d{4}` occurs nowhere; otherwise hour and minute are read at its leftmost occurrence, with the sign when one precedes the digits |
| `ObjectParser.LeftmostZoneOffset` | src/git-object-parser.js:2-8 | for any name, email and time, a zone whose leftmost `[+-]?\d{4}` match is at `j` parses, with offset `(±HH·60 + MM)·60000` from the four digits there, the sign negating the hours only |
| `ObjectParser.TimezoneOffset` | src/git-object-parser.js:2-8 | for any other tokens, a zone starting `±HHMM` gives `(±HH·60 + MM)·60000`, the sign applying to the hour only |
| `ObjectParser.UnsignedTimezoneOffset` | src/git-object-parser.js:2-8 | for any other tokens, a zone starting with four digits `HHMM` gives `(HH·60 + MM)·60000` |
| `ObjectParser.TimezoneExamples` | src/git-object-parser.js:3-8 | `+0900` gives 32400000 and `-0130` gives −1800000 |
| `ObjectParser.MultiWordNameExample` | src/git-object-parser.js:2-9 | a two-word name leaves the surname in the email slot, and the email in the time slot |
| `ObjectParser.HeaderEnd` | src/git-object-parser.js:18-19 | the header scan stops at the first empty line, or at the end |
| `ObjectParser.LastKeyed` | src/git-object-parser.js:20-25 | finds the last header line with a key, and none when no line has it |
| `ObjectParser.MessageIsRest` | src/git-object-parser.js:28 | the message is the trimmed text after the header and its empty line; the whole text trimmed when the first line is empty; empty when no line is |
| `ObjectParser.CommitParents` | src/git-object-parser.js:23 | `parent` values are collected in order, and the message is not set by a header line |
| `ObjectParser.CommitTree` | src/git-object-parser.js:22 | `tree` holds the first argument of the last `tree` line |
| `ObjectParser.CommitAuthor` | src/git-object-parser.js:24-25 | `author` holds the actor of the last `author` line, and is absent without one |
| `ObjectParser.CommitCommitter` | src/git-object-parser.js:24-25 | `committer` holds the actor of the last `committer` line, and is absent without one |
| `ObjectParser.ParseCommit` | src/git-object-parser.js:12-30 | the line loop computes the specified commit |
| `ObjectParser.TagTargets` | src/git-object-parser.js:40-42 | `object`, `type` and `tag` hold the first argument of their last line |
| `ObjectParser.TagTagger` | src/git-object-parser.js:43 | `tagger` holds the actor of the last `tagger` line |
| `ObjectParser.ParseTag` | src/git-object-parser.js:32-48 | the line loop computes the specified tag |
| `ObjectParser.ParseBlob` | src/git-object-parser.js:50-52 | a blob's text has one character per byte and converts back to the body |
| `ObjectParser.LineRun` | src/git-object-parser.js:67 | `.+` matches a run of non-terminator characters within the text |
| `ObjectParser.LineRunMaximal` | src/git-object-parser.js:67 | the run is as long as possible: it ends at the end of the text or at a line terminator |
| `ObjectParser.NulFrom` | src/git-object-parser.js:66 | the scan stops at the first NUL from the start, or at the end |
| `ObjectParser.SkipToNul` | src/git-object-parser.js:89 | the loop stops exactly where the first NUL is |
| `ObjectParser.IdTextIsHex` | src/git-object-parser.js:72 | an entry id is the hex of the (clamped) 20 bytes after the NUL |
| `ObjectParser.EntryOf` | src/git-object-parser.js:67-74 | an entry exists exactly when the pattern matched, and the next entry starts after the id |
| `ObjectParser.EntryFrom` | src/git-object-parser.js:64-74 | each entry advances the cursor |
| `ObjectParser.TreeStep` | src/git-object-parser.js:64-75 | one iteration appends the decoded entry and continues right after its 20 id bytes |
| `ObjectParser.EntryTextMatches` | src/git-object-parser.js:54-67 | a mode prefix, three digits, a space and a name match as that prefix, mode and name |
| `ObjectParser.EntryDecodes` | src/git-object-parser.js:64-74 | an encoded entry anywhere in a body decodes to its type, mode, name and hex id and ends right after it |
| `ObjectParser.TreeDecodesEncoding` | src/git-object-parser.js:61-77 | decoding a sequence of encoded entries after any prefix yields those entries in order |
| `ObjectParser.TreeRoundTrip` | src/git-object-parser.js:61-77 | decoding an encoded tree gives back every entry in payload order |
| `ObjectParser.ReadEntry` | src/git-object-parser.js:65-74 | one step of the loop computes the specified entry and next offset |
| `ObjectParser.ParseTree` | src/git-object-parser.js:61-77 | the loop computes the specified entries |
| `ObjectParser.Parse` | src/git-object-parser.js:86-94 | the NUL scan, header split and dispatch compute the specified result |
| `ObjectParser.FrameBytes` | src/git-object-parser.js:88-92 | in a frame the first NUL ends the header, and the body passed on is exactly the bytes after it |
| `ObjectParser.HeaderWords` | src/git-object-parser.js:90 | the header splits on its space into the type name and the decimal size |
| `ObjectParser.FrameParses` | src/git-object-parser.js:86-94 | parsing what `find` framed recovers its type name, its size as a string, and the parse of its body |
| `Refs.IndexOf` | src/ref.js:33 | a found position is where the pattern occurs |
| `Refs.IndexOfFirst` | src/ref.js:33 | the position found is the first occurrence, and nothing is found exactly when the pattern occurs nowhere |
| `Refs.CandidateReplaces` | src/ref.js:32-33 | candidate `i` is `pathes[i]` with its first `<refname>` replaced by the name |
| `Refs.HexEnd` | src/ref.js:21 | `[\da-f]+` matches the longest hex run from the start |
| `Refs.PackedLine` | src/ref.js:21-23 | a matching line is an id of hex digits, a space and a one-line name |
| `Refs.PackedLineComplete` | src/ref.js:21-23 | every such line matches with that id and name |
| `Refs.PackedLineIgnores` | src/ref.js:21-22 | blank lines, `#` comments and `^` peeled lines are ignored |
| `Refs.LastFor` | src/ref.js:20-24 | finds the last matching line with a name, and none when no line has it |
| `Refs.PackedLastWins` | src/ref.js:20-24 | a name is mapped exactly when some line matches it, to the id of its last line |
| `Refs.PackedIds` | src/ref.js:20-24 | every mapped id is a non-empty hex string |
| `Refs.ParsePackedRefs` | src/ref.js:13-28 | the loop computes the specified map, empty when the file is missing |
| `Refs.SymbolicTarget` | src/ref.js:37 | `ref: X` yields X when X is one line |
| `Refs.FirstAnswerWins` | src/ref.js:32-40 | the first candidate with a loose answer or a packed fallback decides the result |
| `Refs.NothingFoundKeepsName` | src/ref.js:42 | when no candidate answers, the name is returned unchanged |
| `Refs.LooseIdResolves` | src/ref.js:35-36 | a loose file whose trimmed content is a 40-character lowercase hex id resolves to it |
| `Refs.SymbolicRefFollows` | src/ref.js:35-37 | a loose file whose trimmed content is `ref: X`, X one line, resolves as X does, one level deeper |
| `Refs.SymbolicChainExample` | src/ref.js:30-43 | `HEAD` → `refs/heads/main` → an id resolves to that id |
| `Refs.SelfReferenceKeepsName` | src/ref.js:30-43 | a ref naming itself exhausts the recursion, and the name comes back unchanged |
| `Refs.ResolveRef` | src/ref.js:30-43 | the candidate loop computes the specified resolution against the parsed packed-refs |

## Left out

- zlib inflation (`inflatePackedObject`, `src/packfile.js:21-25`) is the parameter `Inflater`. The `max(size*2, 128)` read window and the `fs.read` that is not awaited are I/O details.
- `readdirSync`, `openSync`, `readSync`, `closeSync` and `readFileSync` are not modelled. The pack directory is a map from file names to bytes, and the git directory is a map from paths to text. A missing key is a read that throws; other I/O errors are not modelled.
- The constructor's `.idx` file-name filter and `pack-<40 hex>` regex are not modelled: pack names are given directly.
- `PackStore.Packfile.ObjectAt`: the delta chain is bounded by a `fuel` parameter, and running out is `Err(DepthExhausted)`. The source has no bound and would overflow its stack on a cycle.
- `Refs.ResolveRef`: the recursion on `ref:` is bounded by `fuel`. Running out counts as the recursive call throwing, and the packed-refs fallback then applies as in the source.
- `Refs.ResolveRef`: `packed-refs` is parsed once per call. The source re-parses it at each recursive call, from the same files, to the same map.
- `Delta.PatchDelta`: the `<< 24` on a COPY offset byte of 0x80 or more turns the 32-bit offset negative in JavaScript. The model uses the unsigned value.
- `PackIndex.V2Offset`: a 64-bit offset is the exact integer. JavaScript floating-point rounds offsets beyond 2^53.
- `PackStore.Packfile.ObjectAt`: a negative base offset gives `Err(OutOfRange)`, where the source would read from a negative file position.
- `ObjectParser.ActorFields`: the date is the integer milliseconds, or `None` for an invalid number. JavaScript `Date` objects and their range limit are not modelled.
- `Text.NumberOf`: models unary `+` for the empty string and for signed decimal digits only. Fractional forms such as `1.5`, `.5` and `5.`, hexadecimal, exponent and `Infinity` forms, and surrounding whitespace, are not modelled; they give `None` here.
- `Delta.PatchDelta`: `Buffer.alloc(dstSize)` throws a `RangeError` when the declared size is above the largest buffer the runtime allows (`src/packfile.js:47`). The model allocates any declared size.
- `Delta.ReadDataSize`: the size is the exact integer. The JavaScript sum is a floating-point number and rounds sizes beyond 2^53.
- `PackEntry.DecodeHeader`: the size is the exact integer. In JavaScript `size += (c & 0x7f) * x` and `x *= 128` (`src/packfile.js:133-134`) are floating-point numbers. The 32-byte window allows up to 31 continuation bytes, so a header can encode a size beyond 2^53, which JavaScript rounds.
- `PackEntry.DecodeOfs`: the distance is the exact integer. In JavaScript `ofs * 128 + (c & 0x7f)` (`src/packfile.js:196`) is a floating-point number and rounds distances beyond 2^53.
- `PackStore.FrameHeader`: the size is written with `Bytes.Decimal`, always as decimal digits. JavaScript's `${o.size}` (`src/packfile.js:185`) prints a number of 10^21 or more in exponent form, such as `1e+21`, and prints a size beyond 2^53 already rounded.
- `Refs.ResolveRef`: ref files and `packed-refs` are read as UTF-8 text (`src/ref.js:16-17`, `:35`), one character per code point. `trim()` there also removes Unicode white space such as U+FEFF and U+00A0, and `.` in the packed-refs pattern also stops at U+2028 and U+2029. `Text.Trim` removes only the ASCII set, so a ref file with such a character around its id does not resolve to that id in the model.
- `Refs.ResolveRef`: `path.join` normalises each candidate path (repeated slashes, `.` and `..` segments). The model looks up the candidate string as built.
- White space is the ASCII set: tab, line feed, vertical tab, form feed, carriage return and space. `\s` and `trim` also match Unicode spaces such as U+00A0 and U+3000, and `.` also stops at U+2028 and U+2029. In object bodies, read here one character per byte, these reach the text only as multi-byte sequences, so the model does not recognise them; for ref files see `Refs.ResolveRef` above.
- Text decoding is one character per byte. UTF-8 multi-byte sequences are not decoded.
- Regular expressions are modelled only for the specific patterns used, not by a general engine.
- Lookups by a name such as `constructor` or `__proto__` on the plain objects `parsers`, `treeChildrenTypes`, `ObjectTypeStrings` and the packed-refs map are not modelled. They would find inherited properties.
- A `$` in a ref name is taken literally. `String.prototype.replace` would interpret it as a replacement pattern.
- `src/git-cat-file.js`, the command-line wrapper, is not part of this model.
