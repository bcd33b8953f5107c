# Verification of the audit evidence pipeline

Agentwall writes an audit trail as chained JSON lines, rotates it, seals the closed files into a manifest,
signs checkpoints over manifest and live file, and has the checkpoints timestamped. Two programs judge that
evidence later: `runVerify` in TypeScript and an independent verifier in Go. This project models the code that
writes the evidence and the code that judges it, and proves what the two promise each other:

- **Honest runs never look tampered with.** Over any run of appends, rotations to fresh names, restarts and
  anchor passes, no layer of the verdict finds a problem, every checkpoint ever signed reproduces from disk,
  and the verdict is clean exactly when every rotated file is sealed and some submission reached a calendar. This
  holds of all such runs exactly when the audit directory is absolute or the manifest lies in the working directory.
- **The verdict says what it should.** On any disk it is clean exactly when every file named holds a chain, every manifest
  entry is sound, every closed file is sealed, and every anchor record is signed, reproduces and has a proof that attests
  something; and each problem is reported exactly where it is.
- **A clean verdict means the evidence is intact.** On any disk, whatever was done to it: if a checkpoint was
  signed over a live file of c records and a later verdict is clean, some walked file still begins with exactly
  those c records, and the committed manifest head still ends the same sealed segment.
- **The writer stays one chain** whatever its appends do, and accounts for every record it could not store. Kill it
  at any byte: the file that is left verifies, with every record complete before the cut and at most a torn tail, and a
  restart on it goes on from the last complete record.
- **The two programs agree** on what every well-formed line holds unless keys hold lone surrogates, on the canonical
  text, the hash material and the hash of every record the serializer wrote, and on the chain walk and the manifest
  layer up to one stated difference each.
- **The strict tokenizer accepts JSON and nothing else**: a line parses exactly when it is the UTF-8 bytes of a text of
  RFC 8259, nested within the cap, in which no object repeats a key.
- Parsers and compilers beside the pipeline do what they are for: the canonical printer, the duplicate-key scanner, the OpenTimestamps proof parser, the seccomp filter builder, the PNG
  row decoder and CRC, and the persistent approval gate.

## How it is laid out

| files | what they model |
|---|---|
| `Wrappers.dfy`, `Slices.dfy`, `Text.dfy` | absent values, pieces of sequences, lines, decimal numbers, JSON string quoting |
| `JsonLexer.dfy`, `JsonTokenizer.dfy`, `JsonPrinter.dfy`, `Cu1.dfy`, `Material.dfy` | the Go tokenizer, canonical form cu1 and hash material |
| `NumberGrammar.dfy`, `StringGrammar.dfy`, `StrictLines.dfy` | numbers and strings by the grammar of RFC 8259, and the lines the tokenizer accepts |
| `Encoding.dfy`, `Agreement.dfy`, `JsonRecords.dfy`, `GapMarkers.dfy`, `JsonRuns.dfy` | the TypeScript serializer and canonicalizer against the Go ones, a concrete record format and gap marker, and the run results for them |
| `TornLines.dfy`, `CutFiles.dfy`, `WrittenLines.dfy`, `ResumeMeaning.dfy` | what a hard kill leaves, lines and files cut at any byte, and what a restart makes of it |
| `Chain.dfy`, `ChainMeaning.dfy`, `Resume.dfy`, `RecordFiles.dfy`, `Writer.dfy`, `AuditLogger.dfy` | the hash chain, resuming from a file's tail, the sink and the logger |
| `Rotation.dfy`, `SealedShapes.dfy`, `Copies.dfy`, `Anchor.dfy`, `AnchorService.dfy`, `VerdictMeaning.dfy`, `Intact.dfy` | the manifest and what its entries tell, what sealing leaves out, checkpoints, the three-layer verdict, what it says and what a clean one implies |
| `HonestWorld.dfy`, `HonestSteps.dfy`, `HonestRuns.dfy`, `HonestVerdict.dfy`, `HonestReach.dfy`, `HonestPaths.dfy` | the evidence directory as a state machine, its invariant, the run theorems and the layouts they hold for |
| `IndependentVerifier.dfy`, `IndependentManifest.dfy`, `IndependentTail.dfy` | the Go chain walk, live-tail check and manifest layer beside the TypeScript ones |
| `DupKey.dfy`, `DupKeyExact.dfy`, `DupKeyBegun.dfy`, `TwoReaders.dfy` | the one-pass duplicate-key scanner, on well-formed lines and on any line, and beside the Go tokenizer |
| `OtsTree.dfy`, `OtsParser.dfy`, `OtsProofs.dfy`, `OtsMeaning.dfy`, `ProofBytes.dfy` | OpenTimestamps proofs, and the anchored layer over real proof bytes |
| `Seccomp.dfy` | the filter builder and a BPF interpreter |
| `Crc.dfy`, `Png.dfy` | CRC-32 and PNG row filters |
| `Gate.dfy` | the approval gate and its store |

Code that moves a cursor, a file or fields in place is a class or a method with loops, proved equal to a function
of its inputs or of the old state; the theorems are lemmas about those functions. SHA-256, SHA-1, signing and
signature checks are function parameters. Where a proof needs the hash to tell texts apart it asks for that on the
set of texts actually hashed (`Chain.CollisionFree`), never of all texts.

## What the proofs brought out

- `findDuplicateKey` says a line that is not well-formed JSON returns null. It need not: cut a line off behind a
  repeated key, or put anything for the value between, and the key is reported (`DupKeyBegun.MalformedReported`,
  `DupKeyBegun.CutLineReported`). `DupKeyBegun.ReportedExactly` gives the condition for every line: a key is reported
  exactly when the line begins with a begun tree, strings closed and values passed over but never read as JSON, whose
  last key repeats one already read in its object. On every well-formed line that is having a duplicate.
- The comment on `LiveTailCandidate.reachIndex` (src/audit/anchor-service.ts:201-202) says it is null when the candidate
  came from a manifest entry whose file is gone; the code passes that entry's `lastIndex` as for any other entry
  (src/audit/anchor-service.ts:255). The model follows the code.
- With a relative audit directory, a manifest entry's path is resolved against the manifest's directory although it
  already contains the audit directory. Unless the manifest lies in the working directory, one record, one rotation and
  one pass make a verdict that reports the file just sealed as missing (`HonestPaths.FalseAlarm`), so honest runs are
  free of false alarms exactly for the other layouts (`HonestPaths.NeverAlarmedExactly`).
- The two programs tell sealed files apart differently: TypeScript by resolved path, Go by base name
  (verifier/manifest.go:105-116). Go never counts more files as unsealed, and as many exactly when no file found
  merely shares its name with an entry that leads elsewhere (`IndependentManifest.UnsealedAgreesExactly`).
- A line whose keys differ only in their lone surrogates is a record for TypeScript and a duplicate key for Go, whose
  decoding replaces each of them by the same character (`TwoReaders.LoneSurrogatesPart`). On well-formed
  lines within the depth cap that is the only difference between the two readers (`TwoReaders.ReadersAgree`).
- `close()` on the approval gate keeps the queue in the store only until the next request saves over it.
  `Gate.ClosedQueueSurvivesExactly` gives the exact condition.
- A closed file is sealed only when no entry carries its final hash already. A file found on disk stays unsealed after
  a pass exactly when an older entry, or a file sealed before it, has its final hash under another path
  (`Copies.StaysUnsealedExactly`); of a closed file and its copy one stays unsealed (`Copies.CopyStaysUnsealed`).
  Records carry their own ids, and the run theorems ask for that (`HonestVerdict.Fresh`).

## Model

| member | source | states |
|---|---|---|
| `JsonTokenizer.Tokenizer.SkipWs` | verifier/token.go:363-372 | the cursor stops at the first byte that is not whitespace |
| `JsonTokenizer.Tokenizer.ReadHex4` | verifier/token.go:283-305 | four hex digits give their value and advance five bytes; anything else is refused without moving |
| `JsonTokenizer.Tokenizer.ReadElement` | verifier/token.go:215-275 | one raw character or escape delivers its UTF-16 units, with the cursor after it; control bytes and invalid UTF-8 are refused |
| `JsonTokenizer.Tokenizer.ReadString` | verifier/token.go:209-278 | the loop over elements delivers exactly the units of the string at the cursor, or fails |
| `JsonTokenizer.Tokenizer.ReadNumber` | verifier/token.go:310-352 | the longest number at the cursor is kept as its lexeme; each truncation is an error |
| `JsonTokenizer.Tokenizer.ReadLiteral` | verifier/token.go:354-361 | a literal is accepted only when all its bytes stand at the cursor |
| `JsonTokenizer.Tokenizer.ReadValue` | verifier/token.go:89-120 | depth cap, end of input and dispatch on the first byte, as the recursive specification has them |
| `JsonTokenizer.Tokenizer.ReadMember` | verifier/token.go:134-159 | one key, colon and value; a key already seen in this object is the duplicate-key error |
| `JsonTokenizer.Tokenizer.ReadObject` | verifier/token.go:122-173 | the member loop gathers exactly the members of the object, in order |
| `JsonTokenizer.Tokenizer.ReadArray` | verifier/token.go:175-204 | the item loop gathers exactly the items of the array, in order |
| `JsonTokenizer.ReadLine` | verifier/token.go:75-87 | exactly one value on the line: whitespace around it is skipped, anything else after it is refused |
| `JsonPrinter.ParsedLineWf` | verifier/token.go:75-361 | whatever the tokenizer accepts has lexemes that read back alone, distinct keys, and depth within the cap |
| `JsonPrinter.PrintRoundTrip` | verifier/token.go:75-361 | printing a well-formed value and tokenizing the text gives the value back with every lexeme unchanged |
| `NumberGrammar.NumberExactly` | verifier/token.go:310-352 | a text is a number for the tokenizer exactly when it is spelled by section 6 of RFC 8259: an optional minus, a 0 or digits not beginning with one, an optional fraction and an optional exponent in either letter |
| `NumberGrammar.LongestExactly` | verifier/token.go:310-352 | at any place the reader stops behind a number of the grammar that goes no further there, and no longer number stands there |
| `StringGrammar.DecodeExactly` | src/audit/chain.ts:240-250 | a text decodes to given UTF-16 units exactly when it is a literal of section 7 of RFC 8259 whose pieces stand for them |
| `StringGrammar.EscapedExactly` | src/audit/chain.ts:32-54 | JSON.stringify writes a character as itself unless it must be escaped, by its short escape where there is one, in lower-case digits otherwise |
| `StrictLines.AcceptedExactly` | verifier/token.go:75-361 | the tokenizer accepts a line, with a value, exactly when the line is the UTF-8 bytes of a well-formed text with that value, nested within the cap, in which no object repeats a key |
| `Cu1.CompareUtf16` | verifier/canon.go:70-91 | negative, zero or positive exactly as one key sorts before, with or after the other by code unit |
| `Cu1.LessTotal` | verifier/canon.go:70-91 | the key order is total and irreflexive |
| `Cu1.LessExactly` | verifier/canon.go:70-91 | the first unit at which two keys differ decides and the lower sorts first; where none differs, the shorter key does |
| `Cu1.SortContents` | verifier/canon.go:57-64 | sorting members is a permutation of them |
| `Cu1.SortAscending` | verifier/canon.go:57-64 | and, with distinct keys, strictly ascending |
| `Cu1.AscendingUnique` | verifier/canon.go:57-64 | the same members have one ascending order, so any correct sort gives this one |
| `Cu1.CanonIsPrint` | verifier/canon.go:18-51 | canonical text is the printed form of the value sorted at every depth |
| `Cu1.CanonRoundTrip` | verifier/canon.go:18-51 | parsing canonical text gives the value with members sorted at every depth and every scalar and key lexeme unchanged |
| `Cu1.CanonOfLine` | verifier/canon.go:18-64 | from any accepted line: canonical text parses, and is its own canonical text |
| `Cu1.CanonInjective` | verifier/canon.go:18-64 | two accepted lines have the same canonical text exactly when they differ by member order alone |
| `Material.AppendJsonString` | verifier/canon.go:128-137 | the loop escapes backslash and quote and nothing else |
| `Material.CanonicalPayload` | verifier/canon.go:97-106 | the canonical text of the record without any member whose decoded key is integrity |
| `Material.CanonQuotes` | verifier/canon.go:124-137 | no canonical text holds a byte below 0x20, so escaping two characters is full JSON string escaping |
| `Material.RebuiltIsWritten` | verifier/canon.go:108-137 | on every canonical payload the rebuilt material equals the writer's |
| `Material.RecordMaterial` | verifier/canon.go:97-122 | the same for any record, once its integrity block is dropped |
| `Material.RebuiltInjective` | verifier/canon.go:108-137 | index, link and payload (up to member order) are recoverable from the material |
| `Encoding.ReadsQuoted` | verifier/token.go:209-278 | the UTF-8 bytes JSON.stringify writes for a string read back as its UTF-16 units |
| `Encoding.KeysDistinct` | verifier/token.go:130-147 | keys that differ as text differ as the decoded keys duplicate detection compares |
| `Agreement.LexedPrints` | src/audit/file-sink.ts:241 | the bytes of a serialized value are the printed form of its lexeme tree |
| `Agreement.LexedWf` | verifier/token.go:75-361 | that tree is one the tokenizer can build, when keys are distinct and nesting is within the cap |
| `Agreement.CanonicalizersAgree` | src/audit/chain.ts:32-66 | the serialized line tokenizes to the expected tree, and the Go canonical text of it is emitCanonical's, byte for byte |
| `JsonRecords.BlockReads` | verifier/chain.go:159-212 | the integrity block of a written record is read back as the index, hash and link it was written from |
| `JsonRecords.BlockExactly` | verifier/chain.go:159-212 | a record has a block exactly when its integrity member is an object with an integer index, a string hash and a link that is null or a string, and then it is what they say |
| `JsonRecords.RecordReads` | src/audit/chain.ts:123-137 | a rendered record reads back as its canonical payload and its integrity block |
| `JsonRecords.JsonFormatIsFaithful` | src/audit/chain.ts:123-137 | for every event body and integrity block the line is one nonblank line and reads back exactly |
| `JsonRecords.MaterialBytes` | src/audit/chain.ts:113-121 | the bytes of the hashed text are the hashed text of the payload's bytes |
| `JsonRecords.BothRebuildTheHash` | src/audit/chain.ts:113-137 | from the bytes of a written line the Go verifier rebuilds exactly the bytes the writer hashed |
| `Chain.MaterialInjective` | src/audit/chain.ts:113-121 | two hashed texts are equal exactly when payload, index and link are |
| `Chain.VerifyLine` | src/audit/file-sink.ts:411-471 | what one line adds to problems and notes, and what is expected of the next record |
| `Chain.VerifyChainFile` | src/audit/file-sink.ts:386-474 | the walk reports the problems and notes of every nonblank line, in order, each judged against the last good record |
| `Chain.VerifiedExactly` | src/audit/file-sink.ts:386-474 | a file verifies exactly when every line is a record, but for a torn unterminated last one, and the records chain |
| `ChainMeaning.ProblemsExactly` | src/audit/file-sink.ts:411-471 | a problem is reported of a file exactly when some nonblank line has it, each line judged against the last record before it |
| `ChainMeaning.NotesFrom` | src/audit/file-sink.ts:425-468 | a note is made exactly for a last line without terminator that is no JSON, and for each record that declares a gap |
| `Chain.SharedHashSharedPrefix` | src/audit/file-sink.ts:449-471 | two verified chains whose c-th records carry one hash share their first c records, under a hash without collisions on the texts hashed |
| `Resume.ReadCandidates` | src/audit/file-sink.ts:296-323 | the backward read stops at the window with three terminators or the whole file, and drops a possibly cut first line |
| `Resume.WalkBack` | src/audit/file-sink.ts:329-348 | the loop finds the last line that resumes and counts the torn ones passed |
| `Resume.ResumeChainState` | src/audit/file-sink.ts:279-349 | the answer of the backward read, and on an intact tail the answer of a scan of the whole file |
| `Resume.BackwardIsForward` | src/audit/file-sink.ts:279-349 | for every chunk size, and records of any length, reading backwards equals scanning the whole file |
| `ResumeMeaning.GoesOn` | src/audit/file-sink.ts:325-348 | the scan goes on from the last line that resumes, and reports exactly how many nonblank lines stand behind it |
| `ResumeMeaning.StartsOver` | src/audit/file-sink.ts:325-349 | where no line resumes it starts at index 0, and says whether there was a line at all |
| `ResumeMeaning.ReportsExactly` | src/audit/file-sink.ts:279-349 | each of the four reports is made exactly of one kind of text |
| `ResumeMeaning.CutFileResumes` | src/audit/file-sink.ts:279-349 | on a written file cut at any byte, for every chunk size, a restart names the last complete record, reports one torn record exactly when the cut fell inside one, and starts over only when no record is complete |
| `RecordFiles.WrittenVerifies` | src/audit/file-sink.ts:386-474 | a file the writer laid out verifies and holds exactly the events that were chained |
| `RecordFiles.WrittenResumes` | src/audit/file-sink.ts:279-349 | a restart on such a file resumes at the next index and the last hash |
| `Writer.RollbackRestores` | src/audit/file-sink.ts:191-214 | rolling back any partial append to a record boundary restores the file |
| `Writer.DiscardsExactly` | src/audit/file-sink.ts:191-214 | a file is cut only back to the mark, only where bytes lie past it, and only where a record ends there |
| `Writer.DeliverKeeps` | src/audit/logger.ts:146-204 | a stored record joins file, mark and chain together; a failed one leaves the writer and its file as they were |
| `Writer.DeclareKeeps` | src/audit/logger.ts:250-261 | declaring a gap moves its count from pending to declared and changes no total |
| `Writer.EmitKeeps` | src/audit/logger.ts:122-161 | every emit keeps the file consistent and every record accounted for |
| `Writer.EmitOutcome` | src/audit/logger.ts:122-161 | one emit stores the marker of a pending gap when it can and then the record when it can; a refusal is counted and joins the pending gap or begins one with its own time and reason |
| `Writer.RestartKeeps` | src/audit/logger.ts:95-97 | a restart resumes the same chain from the file |
| `Writer.WriterRunStaysOneChain` | src/audit/logger.ts:122-204 | over any run of emits with any failures, and restarts, the file verifies as one chain of exactly the stored records, and memory names the next index and the last stored hash |
| `Writer.DropsConserved` | src/audit/logger.ts:113-161 | emits are stored or dropped; drops are declared or undeclared; the pending gap tells the count, first and last time and first reason of exactly the undeclared ones |
| `AuditLogger.FileSink.DiscardPartialAppend` | src/audit/file-sink.ts:191-214 | truncates to the mark only when bytes lie past it and the mark is a record boundary |
| `AuditLogger.FileSink.Append` | src/audit/file-sink.ts:237-258 | the whole line and the new mark, or a rolled-back file, the old mark and an error |
| `AuditLogger.Logger.constructor` | src/audit/logger.ts:95-97 | a process on an existing file starts in the restarted state |
| `AuditLogger.Logger.DeliverAndCommit` | src/audit/logger.ts:171-204 | the chain advances only after the record is on file |
| `AuditLogger.Logger.DeclarePendingGap` | src/audit/logger.ts:250-261 | the gap is cleared only when its marker was stored |
| `AuditLogger.Logger.DropRecord` | src/audit/logger.ts:218-224 | the count and the pending gap grow by one refusal |
| `AuditLogger.Logger.Emit` | src/audit/logger.ts:122-161 | the whole step: declare, deliver, commit or drop |
| `AuditLogger.AuditorSeesEveryDrop` | src/audit/file-sink.ts:459-468 | in one process on a new file, when markers read back as their gap's count and no other record poses as one, the drops the walk reads off the file plus the undeclared ones are all that was dropped |
| `GapMarkers.DeclaredDropsExactly` | src/audit/file-sink.ts:459-468 | for every event body: its canonical text declares drops exactly when its action is the gap action, and then the count its metadata states |
| `GapMarkers.GapDeclaresItsCount` | src/audit/logger.ts:263-291 | the marker the logger makes for a gap reads back as the count of that gap |
| `GapMarkers.GapSays` | src/audit/logger.ts:263-291 | read member by member, a marker permits nothing, is critical, and names its gap's count, times and reason |
| `JsonRuns.JsonAuditorSeesEveryDrop` | src/audit/logger.ts:206-291 | for JSON lines and the logger's own markers, whatever the appends do, drops read off the file plus undeclared ones are all that was dropped, provided no emitted event carries the gap action |
| `JsonRuns.JsonWriterStaysOneChain` | src/audit/logger.ts:122-204 | the writer-run results for records as JSON lines, with nothing assumed about the format |
| `TornLines.CutFails` | verifier/token.go:75-361 | no proper beginning of the text of an object parses, at whatever byte it is cut, and it is never refused for a repeated key |
| `CutFiles.CutFileVerifies` | src/audit/file-sink.ts:386-474 | a written file cut at any byte verifies: no problem, every record complete before the cut, and a torn-tail note exactly when the cut fell inside a record |
| `JsonRuns.JsonCutsFail` | src/audit/file-sink.ts:425-440 | a written JSON line cut at any byte is neither blank nor JSON |
| `JsonRuns.KilledWriterVerifies` | src/audit/file-sink.ts:425-440 | after any writer run the file of JSON lines, cut at any byte, verifies up to a torn tail, with nothing assumed about the format |
| `JsonRuns.KilledWriterResumes` | src/audit/file-sink.ts:279-349 | after any writer run, a restart on the file of JSON lines cut at any byte goes on from the last complete record, with nothing assumed about the format |
| `JsonRuns.CutNoDuplicate` | src/audit/file-sink.ts:411-422 | the text of a written record, whole or cut anywhere, is not reported for a duplicate key, so the scanner that runs first never hides a torn tail |
| `Rotation.SegmentPathFindsFile` | src/audit/rotation.ts:146-148 | an entry's path finds its file again exactly when the audit directory is absolute or the manifest lies in the working directory |
| `Rotation.SummarizeSegment` | src/audit/rotation.ts:71-104 | count, first and last index and last hash of the lines that are records |
| `Rotation.EntryTextInjective` | src/audit/rotation.ts:106-120 | the hashed text of an entry fixes every field but the hash |
| `Rotation.Manifest.SealSegment` | src/audit/rotation.ts:156-183 | appends one linked, hashed entry for a readable file not yet sealed by its final hash; otherwise returns the entry that stands for it or nothing |
| `Rotation.Manifest.AdoptExistingSegments` | src/audit/rotation.ts:292-303 | seals the given files in order |
| `Rotation.CompareSegment` | src/audit/rotation.ts:239-273 | missing, unreadable, or each differing field of a sealed file |
| `Rotation.VerifyManifest` | src/audit/rotation.ts:215-281 | all problems of all entries in order, the record total and the head |
| `Rotation.ManifestCleanExactly` | src/audit/rotation.ts:215-281 | the manifest verifies exactly when every entry hashes to its hash, links to the one before and matches its file |
| `SealedShapes.WrittenShape` | src/audit/rotation.ts:71-104 | a written file's shape: how many records, the index it began at, the index before the next one, and the link the next one will carry |
| `SealedShapes.EntriesTell` | src/audit/rotation.ts:156-183 | after any honest run every entry names its closed file's path, count, first and last index and final hash, and the final hash of the file before it |
| `SealedShapes.ContentReported` | src/audit/rotation.ts:239-273 | a sealed file is reported missing exactly when it is not there, and otherwise with exactly the fields that differ |
| `SealedShapes.ManifestReported` | src/audit/rotation.ts:215-281 | a problem is in the report of the manifest exactly when some entry has it |
| `Rotation.SealIsIdempotent` | src/audit/rotation.ts:150-166 | sealing again changes nothing, and sealing only ever appends one entry |
| `Rotation.SealKeepsClean` | src/audit/rotation.ts:156-183 | sealing keeps a clean manifest clean exactly when it adds nothing or the entry's path leads to a file of the same shape |
| `Rotation.AdoptKeepsClean` | src/audit/rotation.ts:292-303 | so does sealing a list of files |
| `Rotation.SealReportsMissing` | src/audit/rotation.ts:146-148 | a file sealed a moment ago is reported missing when nothing stands where its entry is looked up |
| `Copies.StaysUnsealedExactly` | src/audit/rotation.ts:156-183 | sealing in order leaves a readable file unsealed exactly when its final hash was taken before its turn under another path |
| `Copies.PassLeavesUnsealedExactly` | src/audit/anchor-service.ts:410-421 | after a pass something is unsealed exactly when some found file's final hash was taken |
| `Copies.CopyStaysUnsealed` | src/audit/rotation.ts:160-166 | of a closed file and its copy, a first pass leaves one unsealed |
| `Rotation.DiscoverClosedSegments` | src/audit/rotation.ts:320-331 | the names beside the live file that a rotation gives and that hold a record, oldest first |
| `SealedShapes.DiscoveredExactly` | src/audit/rotation.ts:320-331 | a path is found exactly when its name is the live file's, a dot and more, is no lock, and a file with a record stands there |
| `Anchor.CompositeInjective` | src/audit/anchor-service.ts:159-161 | head, segment count and live tail are recoverable from the hashed text |
| `Anchor.CheckpointTextInjective` | src/audit/anchor.ts:77-92 | the text a digest is taken of fixes every field of the checkpoint |
| `AnchorService.Service.RunAnchorPass` | src/audit/anchor-service.ts:92-144 | without a live file nothing happens; otherwise closed files are sealed first, and if anything is on disk one checkpoint over head, count and tail is recorded, with its proof when one came back |
| `AnchorService.Service.LiveTailCandidates` | src/audit/anchor-service.ts:209-257 | every prefix of every eligible file, then every later entry's own pair, each count and hash once |
| `AnchorService.Service.ChainedLayer` | src/audit/anchor-service.ts:350-401 | the chain problems of every file the manifest names and of the live one |
| `AnchorService.Service.CompositesFor` | src/audit/anchor-service.ts:451-462 | the composites a checkpoint over so many sealed files can have signed |
| `AnchorService.Service.CheckRecord` | src/audit/anchor-service.ts:474-558 | signature, digest, live tail and proof problems of one anchor record, in order |
| `AnchorService.Service.AnchoredLayer` | src/audit/anchor-service.ts:440-560 | the problems and counts of the whole log, composites built once per segment count |
| `AnchorService.Service.RunVerify` | src/audit/anchor-service.ts:338-576 | the three layers and the verdict |
| `AnchorService.Service.AnchorReach` | src/audit/anchor-service.ts:679-700 | the covered index of one checkpoint |
| `AnchorService.ReachUnknownExactly` | src/audit/anchor-service.ts:601-610 | on any disk the reach is unknown exactly when the verdict reports a live-tail mismatch, or the checkpoint committed to nothing at all |
| `AnchorService.ReachCovers` | src/audit/anchor-service.ts:681-700 | a known reach is at least the newest sealed entry's last index and at least the first reproducing tail's index, and is one of the two |
| `VerdictMeaning.ReportedFor` | src/audit/anchor-service.ts:474-558 | which problem an anchor record is reported with in each case: proof-missing and proof-parse-error exactly for a record without error whose bytes are not there, or are there and attest nothing |
| `VerdictMeaning.CleanRecordExactly` | src/audit/anchor-service.ts:474-558 | a record is reported with nothing exactly when it is signed by the pinned key, is what it submitted, reproduces, and, unless it carries an error, names bytes that attest to its digest |
| `VerdictMeaning.ProblemsExactly` | src/audit/anchor-service.ts:466-558 | a problem is in the layer's report exactly when some line of the log has it |
| `VerdictMeaning.CleanExactly` | src/audit/anchor-service.ts:338-576 | on any disk the verdict is clean exactly when every named file holds a chain, every entry is sound, all closed files are sealed, all anchor records are sound and one of them reached a calendar |
| `VerdictMeaning.ProofStands` | src/audit/anchor-service.ts:517-558 | under a clean verdict every record without error names nonempty bytes that attest to its digest |
| `VerdictMeaning.NothingWithoutProofs` | src/audit/anchor-service.ts:517-558 | no verdict is clean on a disk without proof bytes |
| `VerdictMeaning.TailsExactly` | src/audit/anchor-service.ts:209-257 | the tails tried for a checkpoint are exactly the ends of beginnings of the files it can have been signed over, and of segments sealed later |
| `VerdictMeaning.PassOutcome` | src/audit/anchor-service.ts:92-144 | a pass touches no audit file, seals what is found closed, and adds one record whose checkpoint is signed over count, head and tail, with its proof exactly when a calendar answered |
| `Intact.CandidateBacked` | src/audit/anchor-service.ts:163-257 | with the first two layers' manifest clean, every candidate tail ends a prefix of a walked file |
| `Intact.CleanCheckpoint` | src/audit/anchor-service.ts:474-503 | under a clean verdict every checkpoint in the log is vouched for, is what its record submitted, and reproduces |
| `Intact.CleanVerdictImpliesIntact` | src/audit/anchor-service.ts:338-576 | a clean verdict on any disk means some walked file still begins with the records the checkpoint was signed over, and the committed head still stands |
| `HonestSteps.AppendKeeps` | src/audit/file-sink.ts:237-258 | an append keeps the directory honest |
| `HonestSteps.RotateKeeps` | src/audit/rotation.ts:305-331 | a rename to a fresh name, with or without a new live file, keeps it honest |
| `HonestSteps.RestartKeeps` | src/audit/file-sink.ts:279-349 | so does a restart, which continues the chain of a live file that has records |
| `HonestSteps.AdoptSeals` | src/audit/rotation.ts:292-303 | a pass leaves a manifest of exactly the closed files in order, the old one its prefix |
| `HonestRuns.AnchorKeeps` | src/audit/anchor-service.ts:92-144 | an anchor pass keeps it honest: what it signs is committed to by what is on disk |
| `HonestVerdict.HonestReproduces` | src/audit/anchor-service.ts:163-195 | a commitment to a prefix of a file reproduces after any growth, rotation or sealing |
| `HonestVerdict.UnsealedExactly` | src/audit/anchor-service.ts:410-421 | nothing is unsealed exactly when the manifest has caught up with the rotations |
| `HonestVerdict.HonestRunsNeverLookTampered` | src/audit/anchor-service.ts:338-576 | after any honest run no layer finds a problem, every checkpoint reproduces, and the verdict is clean exactly when all is sealed and a submission reached a calendar |
| `HonestVerdict.AnchoredRunVerifies` | src/audit/anchor-service.ts:92-144 | right after a pass that stored a proof all three layers pass |
| `HonestPaths.FalseAlarm` | src/audit/rotation.ts:146-148 | where paths do not agree, the run of one record, one rotation and one pass is reported as missing its segment |
| `HonestPaths.NeverAlarmedExactly` | src/audit/anchor-service.ts:338-576 | honest runs never look tampered with exactly when the audit directory is absolute or the manifest lies in the working directory |
| `ProofBytes.UsableExactly` | src/audit/anchor.ts:148-170 | with the real parser, a response counts exactly when it is the bytes of a proof tree within the caps that attests something about the digest submitted |
| `ProofBytes.BackedByTree` | src/audit/anchor-service.ts:538-558 | with the real parser, under a clean verdict the proof of every record without error is the bytes of a tree that attests something about its checkpoint's digest |
| `ProofBytes.PendingProofVerifies` | src/audit/anchor-service.ts:92-144 | right after a pass whose calendar answered with a pending proof, the verdict is clean |
| `HonestReach.ReachExact` | src/audit/anchor-service.ts:683-700 | with rising indexes, the reach of an honest checkpoint is the index of the last record it covered |
| `HonestReach.ReachNeverDecays` | src/audit/anchor-service.ts:631-705 | when indexes continue across rotation, a checkpoint reaches exactly the last record on disk at signing, at every later point of the run |
| `JsonRuns.JsonRunsNeverLookTampered` | src/audit/anchor-service.ts:338-576 | the honest-run result for records as JSON lines |
| `IndependentVerifier.WalkFile` | verifier/chain.go:36-144 | the Go walk's fatal problems, with its own state of the last good record |
| `IndependentVerifier.WalksAgreeExactly` | verifier/chain.go:93-107 | the two walks report the same problems exactly when the file does not begin with a null link at a nonzero index; otherwise the Go walk reports one more |
| `IndependentVerifier.CheckFile` | verifier/livetail.go:82-88 | every prefix of one file is tried |
| `IndependentVerifier.Check` | verifier/livetail.go:57-97 | the null tail, every prefix of every file and every entry's shape, against the head the count names |
| `IndependentVerifier.SameComposite` | verifier/livetail.go:104-122 | on hex digests the unescaped composite is the one TypeScript hashes |
| `IndependentVerifier.HonestRunsCheck` | verifier/livetail.go:57-97 | after any honest run every checkpoint passes the Go check as well |
| `IndependentTail.PassedImpliesIntact` | verifier/livetail.go:57-97 | where entries are sound and files chain, a checkpoint the Go check passes was signed over records some file it searched still begins with, under the head its count names |
| `IndependentManifest.CheckEntry` | verifier/manifest.go:49-93 | what one entry adds: hash, link, missing file and content, one code for each thing the TypeScript layer reports |
| `IndependentManifest.VerifyLayer` | verifier/manifest.go:38-119 | on any manifest and disk the loop reports, code for code, the problems of the TypeScript layer, and counts the files found whose base name no entry has |
| `IndependentManifest.UnsealedAgreesExactly` | verifier/manifest.go:105-116 | the files unsealed by name are at most those unsealed by path, and as many exactly when no file found shares its name only with an entry that leads elsewhere |
| `IndependentManifest.LayersAgreeExactly` | verifier/manifest.go:38-119 | on any disk the TypeScript layer is clean exactly when this one is and no file found is such a namesake |
| `IndependentManifest.HonestNoNamesakes` | verifier/manifest.go:105-116 | an honest directory holds no such namesake |
| `IndependentManifest.HonestRunsLayerClean` | verifier/manifest.go:38-119 | after any honest run this layer has no problem either, and is clean exactly when the manifest has caught up with the rotations |
| `DupKey.Scanner.Str` | src/audit/chain.ts:198-214 | the lexeme from quote to closing quote, a backslash skipping two characters |
| `DupKey.Scanner.Value` | src/audit/chain.ts:216-228 | the shared cursor and the duplicate after one value, on any line |
| `DupKey.Scanner.Object` | src/audit/chain.ts:230-272 | the member loop, stopping at the first repeated decoded key |
| `DupKey.Scanner.Array` | src/audit/chain.ts:274-292 | the item loop |
| `DupKey.Find` | src/audit/chain.ts:189-296 | the scanner's answer on any line |
| `DupKeyExact.FirstExactly` | src/audit/chain.ts:189-296 | a tree has a first duplicate in reading order exactly when some object in it repeats a decoded key |
| `DupKeyExact.ScannerIsExact` | src/audit/chain.ts:189-296 | on every well-formed line, whitespace included, the scanner returns the first duplicate, and one exactly when some object at any depth repeats a decoded key |
| `DupKeyBegun.ReportedExactly` | src/audit/chain.ts:185-296 | on any line at all a key is reported exactly when the line begins with a begun tree whose last key repeats one read before in its object, and it is the key that ends the shortest such tree |
| `DupKeyBegun.WellFormedRepeats` | src/audit/chain.ts:189-296 | on well-formed lines that condition is having a duplicate at some depth |
| `DupKeyBegun.MalformedReported` | src/audit/chain.ts:216-228 | a repeated key is reported whatever stands for the value between and whatever follows |
| `DupKeyBegun.CutLineReported` | src/audit/chain.ts:185-187 | a line cut off behind a repeated key is not well formed and is reported |
| `WrittenLines.WrittenUnreported` | src/audit/chain.ts:189-296 | no line JSON.stringify wrote is reported |
| `WrittenLines.CutUnreported` | src/audit/chain.ts:189-296 | and no beginning of a line that is not reported is |
| `TwoReaders.TokenizerReads` | verifier/token.go:75-204 | on the bytes of any well-formed line within the depth cap the tokenizer gives the tree that is there, every lexeme kept, or refuses it exactly when some object repeats a key, lone surrogates replaced |
| `TwoReaders.RepeatsExactly` | verifier/token.go:134-147 | a tree repeats a key for the tokenizer exactly when it does as code units or some object has two keys told apart by lone surrogates alone |
| `TwoReaders.ReadersAgree` | src/audit/file-sink.ts:411-426 | on every well-formed line within the cap the tokenizer refuses exactly what the scanner reports and lines with such keys, and reads every other line as the tree that is there; so the two judge a line alike exactly when it has a duplicate or no such keys, as all lines without lone surrogates in keys do |
| `TwoReaders.LoneSurrogatesPart` | src/audit/chain.ts:236-254 | a line with two different lone surrogates for keys passes the scanner and is refused by the tokenizer |
| `OtsTree.EvalIsFolds` | src/audit/ots-proof.ts:141-165 | a tree's attestations are those of its leaves in order, each at the fold of the operations on its own path, so no fork affects a sibling |
| `OtsMeaning.OperationsMean` | src/audit/ots-proof.ts:168-195 | on proof bytes: append puts its argument behind the message and prepend before it, reverse turns it round, hexlify spells it in lower-case digits, the hashes hash it, and a message past the cap is refused |
| `OtsMeaning.OtherTagsFail` | src/audit/ots-proof.ts:183-194 | every other byte where an operation may stand is refused |
| `OtsMeaning.AttestationsMean` | src/audit/ots-proof.ts:202-213 | a pending payload names its calendar and a Bitcoin one its height at the message; one that does not decode is refused and any other type passed over |
| `OtsMeaning.ContainerMeans` | src/audit/ots-proof.ts:237-260 | a full file is its header, with 32 or 20 bytes of its own digest by the tag and no say in the result, and a stream |
| `OtsParser.Reader.Varint` | src/audit/ots-proof.ts:119-130 | little-endian base 128 of at most nine bytes, refused past the exact range |
| `OtsParser.Reader.Varbytes` | src/audit/ots-proof.ts:133-139 | a capped length and that many bytes |
| `OtsParser.Reader.ApplyOp` | src/audit/ots-proof.ts:168-195 | the operation a tag names, applied to the message, within the caps; declined and unknown tags fail |
| `OtsParser.Reader.Attest` | src/audit/ots-proof.ts:202-213 | pending and Bitcoin payloads decoded, other types skipped, the cap counted |
| `OtsParser.Reader.EdgeAt` | src/audit/ots-proof.ts:159-165 | a leaf, or an operation and its child one level deeper |
| `OtsParser.Reader.Timestamp` | src/audit/ots-proof.ts:146-156 | forks, then a last edge, with cursor, counters and output moved together |
| `OtsParser.ParseOtsProof` | src/audit/ots-proof.ts:237-260 | both containers, the file cap, the skipped header and the refusal of trailing bytes |
| `OtsProofs.ParseExactly` | src/audit/ots-proof.ts:237-260 | in raw or full form a proof parses to given attestations exactly when it is the bytes of a tree within the caps, up to non-minimal varints, that means those attestations over the submitted digest |
| `OtsProofs.ReadsNode` | verifier/ots.go:171-308 | a tree's bytes, wherever they stand, parse to its meaning |
| `OtsProofs.NodeRead` | verifier/ots.go:171-308 | whatever parses is the bytes of some tree within the caps |
| `OtsProofs.OneTree` | verifier/ots.go:171-308 | bytes read as a tree in one way only, whatever the messages |
| `OtsProofs.MagicPrefixFails` | src/audit/ots-proof.ts:56-59 | a proper beginning of the magic, read as a raw stream, fails |
| `OtsProofs.AcceptedPrefixFree` | src/audit/ots-proof.ts:237-260 | no accepted proof is a proper beginning of another, in either container and over any digests |
| `OtsProofs.EncodeVarint` | scripts/gen-corpus.ts:343-353 | the loop writes the shortest varint |
| `OtsProofs.EncodedIsVarint` | scripts/gen-corpus.ts:343-353 | which is a varint within nine bytes that reads back as the number |
| `OtsProofs.PendingProofParses` | scripts/gen-corpus.ts:367-376 | a pending proof parses to exactly its calendar's attestation |
| `OtsProofs.BitcoinProofParses` | scripts/gen-corpus.ts:379-388 | a Bitcoin proof parses to its height and the value derived from the submitted digest |
| `Seccomp.ArgLoIsLow` | native/agentwall-sandbox.c:466-470 | the argument offset names the low word in either byte order |
| `Seccomp.Emit` | native/agentwall-sandbox.c:486-490 | one instruction, or overflow with nothing written |
| `Seccomp.EmitDenyRet` | native/agentwall-sandbox.c:491-498 | the return word of a denial under either action |
| `Seccomp.EmitHead` | native/agentwall-sandbox.c:500-510 | the architecture and x32 part |
| `Seccomp.EmitDenials` | native/agentwall-sandbox.c:512-516 | two instructions per denied number |
| `Seccomp.EmitCloneCheck` | native/agentwall-sandbox.c:518-529 | the clone part, where clone exists |
| `Seccomp.EmitIoctlCheck` | native/agentwall-sandbox.c:531-544 | the ioctl part, where ioctl exists |
| `Seccomp.BuildFilter` | native/agentwall-sandbox.c:483-551 | the whole program when it fits the array, and 0 when it does not |
| `Seccomp.CompilationPreservesMeaning` | native/agentwall-sandbox.c:483-551 | for any denylist and both actions, running the program on any syscall data gives the specified verdict |
| `Seccomp.AllowedExactly` | native/agentwall-sandbox.c:483-551 | running the program allows a syscall exactly when it is of this architecture, is not listed, asks for no user namespace and pushes no terminal input |
| `Seccomp.DeniedWith` | native/agentwall-sandbox.c:491-498 | anything foreign kills; anything else denied kills or fails with the number its first entry names, or EPERM, as the action says |
| `Seccomp.WordsOfArgument` | native/agentwall-sandbox.c:466-470 | the two words loaded for an argument make it up, the low one first on a little-endian machine |
| `Seccomp.JumpsInBounds` | native/agentwall-sandbox.c:474-482 | whatever the denylist length, every jump is at most 5 and lands inside, and nothing runs off the end |
| `Crc.BuildTable` | scripts/check-brand-assets.js:476-486 | entry i is eight shift and xor steps of i |
| `Crc.LookupIsEightSteps` | scripts/check-brand-assets.js:488-492 | one lookup and shift does eight steps |
| `Crc.ComputeCrc32` | scripts/check-brand-assets.js:488-492 | with the table, the CRC is the bitwise one, for every byte string |
| `Crc.Generator` | scripts/check-brand-assets.js:476-486 | the constant is the generator polynomial of section 5.5 of the PNG specification, term by term |
| `Crc.SumAcceptsItselfOnly` | scripts/check-brand-assets.js:488-492 | behind any bytes, four more leave the one fixed register value exactly when they are the sum of those bytes |
| `Png.PaethIsNearest` | scripts/check-brand-assets.js:494-502 | the predictor is the neighbour nearest the estimate, ties going to left, then above |
| `Png.UnfilterRow` | scripts/check-brand-assets.js:753-764 | the in-place loop turns one row into the row its bytes decode to and touches nothing else |
| `Png.DecodesExactly` | scripts/check-brand-assets.js:753-764 | a row decodes from given bytes exactly when they are its filtering |
| `Png.FiltersAre` | scripts/check-brand-assets.js:753-764 | a row decodes exactly when its filter type restores every byte: from nothing, the left, the one above, their mean, or the nearest neighbour |
| `Png.DecodedExactly` | scripts/check-brand-assets.js:744-766 | a stream decodes to rows exactly when every byte of every row is restored from its place in the stream, with zeros left of every row and above the first |
| `Png.DecodeRows` | scripts/check-brand-assets.js:744-766 | the loop over rows rebuilds the image the stream encodes, or fails on a filter type above 4 |
| `Png.DecodedIsFiltered` | scripts/check-brand-assets.js:744-766 | a stream that decodes is the filtering of the rows it decodes to |
| `Png.UnfilterInvertsFilter` | scripts/check-brand-assets.js:744-766 | decoding what an encoder filtered gives back its rows and nothing else, for any filter type per row and any bytes per pixel |
| `Gate.ApprovalGate.constructor` | src/approval/gate.ts:44-56 | a new gate on a store starts in the restarted state |
| `Gate.ApprovalGate.RestorePersistedState` | src/approval/gate.ts:196-218 | each stored entry is queued again or recorded as timed out, and the result saved |
| `Gate.ApprovalGate.RequestApproval` | src/approval/gate.ts:58-95 | the id, and either an automatic response or a queued entry with its deadline |
| `Gate.ApprovalGate.RespondTo` | src/approval/gate.ts:97-107 | the state after a response, and nothing for an unknown id |
| `Gate.ApprovalGate.TimerFires` | src/approval/gate.ts:226-240 | the state after a timer, and nothing when the entry is gone |
| `Gate.ApprovalGate.RecordDecision` | src/approval/gate.ts:180-194 | the record goes first, the newest 100 stay, and the state is saved |
| `Gate.ApprovalGate.PersistState` | src/approval/gate.ts:147-156 | the queue is saved newest first, without promises |
| `Gate.PersistedSorted` | src/approval/gate.ts:147-156 | what is saved is in descending order of creation |
| `Gate.PersistedQueued` | src/approval/gate.ts:147-156 | and loses and repeats no entry |
| `Gate.PersistedInOrder` | src/approval/gate.ts:147-156 | the store holds every field of every entry but its promise, and entries of one moment in the order they came in |
| `Gate.RequestOutcome` | src/approval/gate.ts:58-79 | never approves at once, always queues, auto queues what the policy wants approved |
| `Gate.RespondOutcome` | src/approval/gate.ts:97-107 | the decision given is the one recorded and settled, for that request and no other |
| `Gate.ExpireOutcome` | src/approval/gate.ts:226-240 | a timer that finds its request records a timeout nobody approved, takes that request and no other off the queue and settles its promise with that record |
| `Gate.StepFrame` | src/approval/gate.ts:137-145 | the mode is the one last set, ids are issued by requests alone, and a restart settles nothing |
| `Gate.EveryRecordHasItsCause` | src/approval/gate.ts:58-107 | over any run every record is owed to an answer given, a request the mode lets through, a timer, or a restart past a stored deadline |
| `Gate.GateConserves` | src/approval/gate.ts:58-107 | over any run every issued id is queued or resolved, once; settled promises got the recorded response; history is the newest 100 of the log; the store holds what memory holds |
| `Gate.SettlesAtMostOnce` | src/approval/gate.ts:97-107 | no promise settles twice |
| `Gate.RestartAccounts` | src/approval/gate.ts:196-218 | a restart turns every stored entry into a pending one or a recorded timeout, by its deadline |
| `Gate.ClosedQueueSurvivesExactly` | src/approval/gate.ts:158-163 | an entry queued at close is still in the store exactly when no request came in between |

## Left out

- Cryptography: SHA-256, SHA-1 and Ed25519 are parameters; key files, PEM and SPKI handling are not modelled.
- Real files, networks, calendars, mtimes, signals and timers: a file is a text, the directory listing is in rotation order, rotated names are never reused, times are counters, a timer is a step that may come at any time.
- The writer lock: one writer at a time is taken for granted, as the lock promises.
- `Writer.WriterRunStaysOneChain`: restarts happen on a file the model's own appends left, so never on an unterminated fragment; the sink appends straight after one and the next record fuses with it. Resuming from such a tail is covered by `Resume.BackwardIsForward`.
- `HonestVerdict.HonestRunsNeverLookTampered`: appends in these runs store the whole line; failed appends are covered in the writer runs. A partial append after the live file was renamed under a running writer leaves the sink's mark stale and is in neither.
- `Intact.CleanVerdictImpliesIntact`: says nothing of sealed segments older than the newest at signing; a composite holds only the newest final hash, the count of segments and the live tail.
- `HonestReach.ReachNeverDecays`: asks that indexes continue across rotation; a writer restarted on a missing or empty live file starts again at 0 and the largest index no longer names the latest record.
- `AnchorService.Service.ChainedLayer`: the problems of each file; the notes on torn tails and declared gaps beside them are in `Chain.VerifyChainFile` only.
- `AnchorService.Service.RunVerify`: reports problems as codes per file and line; the shortening of long reports to three samples, the concurrent-writer hint and the detail prose are not modelled.
- `AnchorService.Service.CheckRecord`: proof bytes are looked up by the name the record carries, not through the short list of candidate directories, and the count of attestations in them is a parameter; `ProofBytes.Attests` is that parameter for the real parser.
- `AnchorService.Service.RunAnchorPass`: which calendar answered, and the error text of those that did not, are one input: a usable proof or none.
- Manifest and anchor log files are modelled as their parsed lines; a line that does not parse is skipped in the manifest (so absent here) and a problem in the log (modelled). A checkpoint's segment count is a natural number.
- Paths are already normalised texts without `.` or `..` segments.
- A record line holding the JSON value null makes `summarizeSegment` and `liveTailCandidates` throw; the model counts it as a line without integrity block.
- `JsonRecords.JsonFormatIsFaithful`: a line the writer did not write is classified as the Go tokenizer classifies it. The TypeScript walk asks `findDuplicateKey` and then `JSON.parse`: the outcome is the same on well-formed lines within the depth cap whose keys hold no lone surrogates (`TwoReaders.ReadersAgree`) and on cut lines of the writer's (`JsonRuns.CutNoDuplicate`), but not on every line that is not JSON (`DupKeyBegun.ReportedExactly`) nor beyond the cap, which `JSON.parse` does not have.
- `ResumeMeaning.CutFileResumes`: says which record a restart goes on from and what it reports; appending to a file that ends in a fragment is not modelled (see `Writer.WriterRunStaysOneChain`). A line with a repeated key counts as torn here, while `JSON.parse` would keep the last member and resume from it.
- `CutFiles.CutFileVerifies`: cuts the file by bytes, as a kill does; that the walk first decodes the file, a cut character becoming a replacement character, is not modelled.
- `JsonRecords.BlockReads`: reads the index as an integer lexeme and any string as a hash; the Go verifier also takes 5.0 for 5, refuses hashes that are not 64 lower-case hex digits, and indexes past 64 bits.
- `Resume.ReadCandidates`: works on the file's bytes. The source decodes each chunk from UTF-8 by itself, which turns a character cut by a chunk boundary into replacement characters, and tests lines for blankness after decoding, where the model takes a lone byte 0xA0 for a space.
- `Resume.ResumeChainState`: as `Resume.ReadCandidates`, which it calls.
- `Rotation.DiscoverClosedSegments`: takes the directory's names oldest first; sorting by modification time is not modelled.
- `IndependentVerifier.WalkFile`: fatal problems only; the notes, and the cap on how many problems are printed, are left out.
- `GapMarkers.GapDeclaresItsCount`: the times in a marker are counters written in decimal, where the source writes ISO dates.
- Numbers are integers without bound: chain indexes past 2^53 lose precision in TypeScript.
- `Agreement.CanonicalizersAgree`: strings in memory hold scalar values only; JSON.stringify escapes lone surrogates, which the agreement theorems therefore do not cover. The tokenizer's own theorems do cover escaped lone surrogates.
- Whole-verdict equality of the two verifiers on arbitrary bytes: they differ on non-normal lexemes, lone surrogates in keys, carriage returns, and which odd files they discover.
- `IndependentManifest.VerifyLayer`: takes entries already parsed and the files found; parsing the manifest's lines, and discovery by the first nonblank line of a file, where TypeScript asks for some record in it, are not modelled. Names hold no trailing slash.
- The Go verifier's anchored layer beyond the live-tail check restates the TypeScript one.
- The legacy locale-collated canonical form and `rehashAuditEvent`'s fallback to it: ICU ordering is outside the model.
- `Gate.GateConserves`: models the file backend; with the memory backend loading gives nothing and saving does nothing. A crash in the middle of the restore loop, the notifier and the listing views are left out.
- `Gate.ClosedQueueSurvivesExactly`: `close` is outside the run theorem because it empties memory and not the store on purpose; this lemma says exactly what survives it.
- `OtsProofs.ParseExactly`: the caps and messages are exact; only that a proof is refused is modelled, not which message it is refused with.
- `Seccomp.BuildFilter`: Landlock, profile parsing, the denylist's contents and installing the filter are left out; instructions are a datatype of the five codes used rather than packed words.
- `Png.DecodeRows`: chunk parsing, inflating, palettes and sample scaling are left out; the stream has the length the decoder checks for.
- The live console, configuration, servers, capture, compliance scoring, benchmarks and the command line: plumbing with nothing hard to prove.
