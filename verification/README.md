# Volicord verification model

A Dafny model of the parts of Volicord whose correctness is hardest to see by reading: the
byte-reproducible source bundle, the package architecture check, the contract documentation
flattener, the duplicate-key parser, the Agent Connection protocol and the text tools around the
documentation. `dafny verify dfyconfig.toml` checks every file.

- **Source bundle** (`Bytes`, `Crc32`, `CrcDivision`, `ArchivePath`, `Utf8`, `ZipFormat`, `ZipWriter`, `ZipReader`,
  `ZipParse`, `ZipBytes`, `SourceBundle`). `Represents(archive, entries)` says, byte for byte, which archive stands
  for which entries. The writer produces exactly that archive; the two-cursor reader accepts an archive if and only
  if it stands for some entries, and returns those. Hence accepted archives are canonical, entries are
  unique, records tile the local region, and damage within any thirty-two consecutive bits of an entry's
  data is always rejected: the checksum taken bit by bit loses no difference that short. The layout is also spelled
  out byte by byte, and the checksum is the remainder of a division of polynomials.
- **Architecture** (`DependencyCycles`, `Architecture`, `ArchitectureRules`, `BoundaryReach`,
  `ArchitectureRegion`). The three-colour depth-first search over any dependency graph, and the report built on it,
  rule by rule: a clean report comes with a dependency order of all packages, every cycle of the actual graph is
  explained by another issue, and what the boundary rules leave open along chains of dependencies is stated exactly.
- **Contract documentation** (`ObjectSchema`, `SchemaChoices`, `VariantLabels`, `ObjectVariants`). The choices of
  a schema (one branch per union, all of `allOf`, references unfolded) mean what the schema means, even with cyclic
  references; flattening succeeds exactly when no choice has two schemas for one property, and then lists the choices.
- **Nearest identifiers** (`EditDistance`, `NearestIdentifiers`). The rolling-row computation is the length
  of a shortest edit script.
- **Structured parser** (`InstancePath`, `StructuredParser`, `StructuredErrors`, `StructuredText`). JSON tokens and YAML
  events are parsed by one recursive descent, which accepts exactly the tokens of texts without repeated names, with
  the value they stand for, and otherwise reports the first token that no text has there, or the first repeat.
- **Connections** (`ConnectionProtocol`, `ConnectionFrames`, `ConnectionId`). Every store call is one transaction, so
  a run is a sequence of steps; the theorems quantify over all runs, and say what each step leaves alone.
- **Text tools** (`LinkParity`, `TextSearch`, `SqlRegions`, `SqlRendering`, `SqlStability`, `CodeSpanMask`,
  `CodeSpanChain`). Bilingual link pairing, generated SQL regions of one label and of several, and the pipe mask of
  Markdown code spans.

Some properties one might expect are false of the code. For each the model gives a failing input and says exactly
when the property holds:

- A verify run stores its report if the captured revision is current again. Mode changes cannot bring a
  revision back (`NoAba`), but a re-registration that changes the managed fingerprint away and back does
  (`FingerprintAba`); `UnchangedThroughout` gives the exact condition.
- A re-registration can leave Guards at an old revision (`GuardLeftBehind`); throughout a run all Guards are
  current exactly when no fingerprint changes while a Guard exists (`GuardsCurrentThroughoutIff`).
- A mode change that passes preflight is accepted by the store exactly when the Connection is not marked for host
  cleanup (`PreflightModeGuardRebinds`); preflight does not look at the mark (`MarkedPassesPreflight`). In a later
  state it is accepted exactly when the Connection is not marked there and neither the revision, nor the projects,
  nor the Guards have changed since (`AcceptedLaterIff`).
- The length filter of `nearest_identifiers` compares byte lengths while the distance counts characters. Over an
  alphabet it drops no answer exactly when every character is ASCII (`HarmlessOverAsciiExactly`).
- The reader accepts archives whose end record starts beyond the u32 range (`AcceptedBeyondTheWriter`), which the
  writer refuses to make; `ReencodeAccepted` gives the bound.
- A clean architecture report does not keep Core-facing packages from reaching adapters (`CleanChainLeaks`); they
  do so exactly through neutral packages, and the owner's declared directions alone decide whether any clean
  graph can (`LeaksThroughNeutralExactly`, `OwnerDecidesLeaks`).
- Rerunning the SQL region replacement of one label changes nothing if and only if no expected line holds the end
  marker; the begin marker is harmless (`RerunIsStableIff`). Rendering several compatible labels whose begin markers
  stand in the schema as often as counted, and in no expected line, is stable if and only if no region of the schema
  mentions another label's begin marker (`StableExactlyWhenPlaced`); otherwise the second rendering fails, as it does
  on a nested region (`NestedIsNotIdempotent`).
- The flattener reads a node for its properties and required members alone; for a node without combinators that is
  right if and only if `const`, `type` and `enum` leave all objects in (`ReadRightIffOpen`). Its null-only test misses
  a list of types and an enumeration that leave null alone in only together (`NullLeftByTwoKeywords`), and nothing
  else (`NullOnlyExactly`).
- Masked pipes are restored if and only if the text holds no mask byte of its own (`RestoreUndoesMaskIff`).

## Model

| member | source | states |
|---|---|---|
| `Bytes.ReadU16At` | xtask/src/source_bundle.rs:839-854 | reading a u16 gives n exactly where the two little-endian bytes of n stand; out of range gives an error |
| `Bytes.ReadU32At` | xtask/src/source_bundle.rs:843-863 | the same for u32 |
| `Crc32.Compute` | xtask/src/source_bundle.rs:873-883 | the register loop computes the checksum function that the detection results are about |
| `Crc32.StepByCases` | xtask/src/source_bundle.rs:873-883 | the branch-free masked step is the reflected-polynomial division step |
| `Crc32.FeedBijective` | xtask/src/source_bundle.rs:873-883 | feeding a byte is a bijection on the register, with an explicit inverse both ways |
| `Crc32.StepsLinear` | xtask/src/source_bundle.rs:873-883 | the bit loop is linear over exclusive or |
| `Crc32.RunAsBits` | xtask/src/source_bundle.rs:873-883 | the byte loop is one shift register fed with the bits of the string, least significant first |
| `Crc32.RunBitsInjective` | xtask/src/source_bundle.rs:873-883 | from one register, at most thirty-two bits are determined by the register they lead to |
| `Crc32.DetectsBurst` | xtask/src/source_bundle.rs:873-883 | equal-length strings that differ only within thirty-two consecutive bits, at any bit position, never share a checksum |
| `CrcDivision.PolynomialIsGenerator` | xtask/src/source_bundle.rs:879-879 | the polynomial constant is the generator with exponents 32, 26, 23, 22, 16, 12, 11, 10, 8, 7, 5, 4, 2, 1 and 0, without its leading term and in reflected order |
| `CrcDivision.RunDivides` | xtask/src/source_bundle.rs:873-883 | the register holds the remainder of what it has read, bit for bit of the long division |
| `CrcDivision.ChecksumIsRemainder` | xtask/src/source_bundle.rs:873-883 | a word is the checksum of a byte string exactly if, inverted, it is the remainder of the message polynomial by the generator over GF(2), the message preset and followed by thirty-two zeros |
| `CrcDivision.CheckValue` | xtask/src/source_bundle.rs:873-883 | the digits one to nine have the catalogued check value 0xcbf43926 |
| `ArchivePath.JoinUndoesSplit` | xtask/src/source_bundle.rs:673-714 | splitting at slashes loses nothing |
| `ArchivePath.AcceptedStaysInside` | xtask/src/source_bundle.rs:673-719 | extracting an accepted name below any directory lands below that directory, through plain components only |
| `ArchivePath.AcceptsExactly` | xtask/src/source_bundle.rs:673-719 | exactly the joined plain names are accepted: no empty, dot or Git component, no backslash or NUL, no drive |
| `Utf8.Utf8Exactly` | xtask/src/source_bundle.rs:554-554 | the byte checks for UTF-8 accept exactly the encodings of sequences of Unicode scalar values |
| `ZipWriter.WriteLocals` | xtask/src/source_bundle.rs:340-381 | the first loop writes the local region and remembers each entry's checksum, size and offset; it fails only on entries that cannot be encoded |
| `ZipWriter.WriteCentrals` | xtask/src/source_bundle.rs:382-407 | the second loop appends the central directory of the same entries |
| `ZipWriter.EncodeZip` | xtask/src/source_bundle.rs:340-423 | succeeds exactly when counts, sizes and offsets fit their fields, with exactly the canonical bytes |
| `ZipBytes.CentralBytes` | xtask/src/source_bundle.rs:383-407 | a central record in literal bytes: signature, versions, flag, date, sizes, the DOS directory bit exactly for a path that ends with a slash, the mode and the offset |
| `ZipBytes.LocalBytes` | xtask/src/source_bundle.rs:361-373 | a local record in literal bytes |
| `ZipBytes.SpelledExactly` | xtask/src/source_bundle.rs:340-423 | an archive is the layout of its entries exactly if every byte of it is as spelled out, each record at the place that the sizes before it give |
| `ZipReader.CommonAt` | xtask/src/source_bundle.rs:631-646 | the flag, method, time and date checks pass exactly on the canonical bytes |
| `ZipReader.LegalModes` | xtask/src/source_bundle.rs:648-671 | with canonical attributes, the mode checks accept exactly the four legal modes, each for its kind of path |
| `ZipReader.ReadCentralExact` | xtask/src/source_bundle.rs:508-562 | the central half of a turn returns a record exactly where the canonical central record stands, for a new accepted name |
| `ZipReader.ReadLocalExact` | xtask/src/source_bundle.rs:564-609 | the local half succeeds exactly where the canonical local record of the same name, size and checksum stands |
| `ZipReader.ReadEntrySound` | xtask/src/source_bundle.rs:508-619 | a turn that succeeds has found a valid entry at both cursors |
| `ZipReader.ReadEntryComplete` | xtask/src/source_bundle.rs:508-619 | a valid entry at both cursors is read, with its data range |
| `ZipReader.ReadEndExact` | xtask/src/source_bundle.rs:471-502 | the end record is read exactly when it ends the archive and the directory lies right before it |
| `ZipParse.ParseZip` | xtask/src/source_bundle.rs:471-629 | returns the entries' paths, modes and data ranges if the archive stands for some entries, and rejects every other archive |
| `SourceBundle.MeaningIsUnique` | xtask/src/source_bundle.rs:471-629 | an archive stands for at most one list of entries |
| `SourceBundle.ReencodeAccepted` | xtask/src/source_bundle.rs:471-629 | reading an archive and encoding the paths, modes and data slices read gives back the very same bytes, unless the end record starts beyond u32; acceptance is exactly standing for some entries |
| `SourceBundle.EncodableIff` | xtask/src/source_bundle.rs:340-423 | the writer can make an accepted archive exactly when its end record starts within u32 |
| `SourceBundle.SameReadingSameBytes` | xtask/src/source_bundle.rs:471-629 | two accepted archives with equal paths, modes and data are byte for byte equal, whatever their size |
| `SourceBundle.AcceptedBeyondTheWriter` | xtask/src/source_bundle.rs:408-411 | a one-file archive that the reader accepts and the writer refuses to make |
| `SourceBundle.EncodedIsAccepted` | xtask/src/source_bundle.rs:340-423 | what the writer makes of valid entries stands for those entries, so the reader returns them |
| `SourceBundle.EntriesTileTheLocalRegion` | xtask/src/source_bundle.rs:588-627 | each entry's header, name and data start where the entry before it ends, and the last ends the region |
| `SourceBundle.ValidateAgainstTree` | xtask/src/source_bundle.rs:425-469 | accepts an archive exactly when it stands for the tree's entries, in order |
| `SourceBundle.BuildAndValidate` | xtask/src/source_bundle.rs:101-157 | the self-check after building never rejects a bundle of a valid tree |
| `SourceBundle.DamagedDataIsRejected` | xtask/src/source_bundle.rs:508-619 | damage within any thirty-two consecutive bits of one entry's data makes the archive stand for nothing, whichever entry it is |
| `DependencyCycles.CycleFinder.Visit` | xtask/src/architecture.rs:842-876 | a visit keeps grey packages exactly the stack and every recorded cycle real, and finishes the package with each of its edges settled |
| `DependencyCycles.CycleFinder.RecordCycle` | xtask/src/architecture.rs:862-870 | the stack suffix that an edge to a grey package closes is recorded as a simple cycle |
| `DependencyCycles.ClosedWalkIsRecorded` | xtask/src/architecture.rs:842-876 | once every package is finished, every closed walk uses an edge that closes a recorded cycle |
| `DependencyCycles.FindCycles` | xtask/src/architecture.rs:810-876 | terminates on every graph; records only simple cycles of deployable edges, cuts every closed walk, records nothing exactly on acyclic graphs, and then yields a dependency order |
| `DependencyCycles.OrderedIsAcyclic` | xtask/src/architecture.rs:810-840 | a dependency order rules out every closed walk |
| `Architecture.OwnerFields` | xtask/src/architecture.rs:476-589 | exactly the field problems of each declaration are reported, and exactly the groups that two packages claim |
| `ArchitectureRules.FieldChecksExactly` | xtask/src/architecture.rs:476-589 | group and descriptions: exactly which texts are reported |
| `ArchitectureRules.ClassificationExactly` | xtask/src/architecture.rs:476-589 | kind, use and boundary: exactly which combinations are reported |
| `Architecture.OwnerDirections` | xtask/src/architecture.rs:590-669 | exactly the declared directions with a problem are reported, repeated ones included, with exactly their problems |
| `ArchitectureRules.DirectionProblemsExactly` | xtask/src/architecture.rs:590-669 | each problem of a declared direction by itself, a repeat being two or more mentions |
| `Architecture.ActualDependencies` | xtask/src/architecture.rs:386-470 | exactly the actual dependencies with a problem are reported |
| `ArchitectureRules.ActualProblemsExactly` | xtask/src/architecture.rs:386-470 | each problem of an actual dependency by itself |
| `ArchitectureRules.DeploymentRulesExactly` | xtask/src/architecture.rs:403-470 | test support in production and adapters behind Core: exactly which dependencies break the rules |
| `ArchitectureRules.LayerRulesExactly` | xtask/src/architecture.rs:721-761 | each layer rule is reported exactly when it is broken |
| `ArchitectureRules.WireRuleExactly` | xtask/src/architecture.rs:762-779 | a wire package is for its own adapter and for tests, unless a layer rule is reported instead |
| `ArchitectureRules.DeclaredEdgesExactly` | xtask/src/architecture.rs:672-706 | the cycle search follows exactly the normal and build directions of the owner |
| `Architecture.ValidateGraph` | xtask/src/architecture.rs:356-474 | the report is complete and sound in every part, and an empty one comes with a dependency order of the actual graph |
| `Architecture.CyclesAreExplained` | xtask/src/architecture.rs:356-474 | every closed walk of the actual graph has an edge that some issue other than an actual cycle reports |
| `Architecture.ActualCycleNeverAlone` | xtask/src/architecture.rs:472-474 | an actual-cycle issue never stands alone in a report |
| `Architecture.OwnerRulesCoverGraph` | xtask/src/architecture.rs:721-808 | a boundary violation of an actual dependency is also reported as not allowed or as a declared violation |
| `Architecture.CleanReportIsAcyclic` | xtask/src/architecture.rs:672-706 | a clean report means both graphs are acyclic, the packages agree, and every actual dependency is declared |
| `BoundaryReach.CleanEdges` | xtask/src/architecture.rs:443-457 | no edge of a clean graph leads from a Core-facing package to an adapter, and every edge is declared |
| `BoundaryReach.LeakPassesNeutral` | xtask/src/architecture.rs:443-457 | any chain from a Core-facing package to an adapter in a clean graph contains one through neutral packages only, and at least one |
| `BoundaryReach.LeaksThroughNeutralExactly` | xtask/src/architecture.rs:443-457 | Core-facing packages of a clean graph reach an adapter exactly through such a chain |
| `BoundaryReach.OwnerDecidesLeaks` | xtask/src/architecture.rs:644-657 | no clean graph has such a chain exactly when the directions the owner declares have none |
| `BoundaryReach.CleanChainLeaks` | xtask/src/architecture.rs:356-474 | an owner and graph with an empty report in which a Core-facing package reaches an adapter |
| `ArchitectureRegion.MatchesAll` | xtask/src/architecture.rs:1146-1154 | non-overlapping matching misses no occurrence of a marker |
| `ArchitectureRegion.RangeIsRegion` | xtask/src/architecture.rs:1146-1164 | a range is returned exactly when each marker occurs once, the end marker later, and it is that range |
| `ArchitectureRegion.RangeSpelled` | xtask/src/architecture.rs:16-17 | the same with the two marker comments written out |
| `ArchitectureRegion.ReplacedRange` | xtask/src/architecture.rs:1137-1164 | after replacing with a whole region, the only region is the replacement; no marker straddles its ends |
| `ArchitectureRegion.SyncThenCheck` | xtask/src/architecture.rs:998-1016 | after a sync the check passes exactly when the generated text is one whole region, and then a second sync changes nothing |
| `ArchitectureRegion.ReplaceKeepsTheRest` | xtask/src/architecture.rs:1137-1144 | replacing the region keeps everything around it |
| `ObjectSchema.NullAdmitsNoObject` | xtask/src/contract_docs.rs:1643-1674 | a schema found to allow only null, by const, type or enum and through references, is met by no object |
| `ObjectSchema.NullOnlyMeansNull` | xtask/src/contract_docs.rs:1643-1674 | every value that passes the const, type and enum of a null-only node is null |
| `ObjectSchema.OnlyNullExactly` | xtask/src/contract_docs.rs:1643-1674 | the question has an answer exactly at the end of references that resolve and do not go in a circle: the answer of the node there, or no for the schema false |
| `ObjectSchema.NullOnlyExactly` | xtask/src/contract_docs.rs:1643-1674 | of the nodes that null passes, the test finds exactly those that leave null alone in, unless a list of types and an enumeration do so together |
| `ObjectSchema.NullLeftByTwoKeywords` | xtask/src/contract_docs.rs:1660-1665 | two keywords that leave null alone in together, unnoticed |
| `ObjectSchema.ShapeExactly` | xtask/src/contract_docs.rs:1454-1456 | a node has an object shape exactly if its one type leaves only objects in or it speaks of properties |
| `ObjectSchema.ReadRightIffOpen` | xtask/src/contract_docs.rs:1514-1545 | reading a plain node for its properties and required members alone is right exactly if const, type and enum leave all objects in |
| `ObjectSchema.MeaningIsSettled` | xtask/src/contract_docs.rs:1433-1512 | a schema that can be traversed has one meaning: following its references deeper never changes which objects meet it |
| `SchemaChoices.ProductFits` | xtask/src/contract_docs.rs:1548-1562 | a product of choices means the conjunction of its sides |
| `SchemaChoices.ChoicesDescribe` | xtask/src/contract_docs.rs:1433-1512 | an object fits some choice of a traversable schema exactly when it meets the schema |
| `SchemaChoices.TraversableHasChoice` | xtask/src/contract_docs.rs:1424-1426 | a traversable schema has a choice, so the emptiness check of the whole never fires |
| `VariantLabels.LastPartIsOne` | xtask/src/contract_docs.rs:1787-1789 | the label that a reference gives is the part after its last slash, the only such part |
| `VariantLabels.NamedOnesAreLabelled` | xtask/src/contract_docs.rs:1446-1512 | behind a reference, and among several variants of a titled node, every variant has a label |
| `ObjectVariants.MergeVariants` | xtask/src/contract_docs.rs:1564-1580 | merging fails exactly on two schemas for one property, and otherwise keeps all properties and required names of both, and joins the labels |
| `ObjectVariants.MergeVariantSets` | xtask/src/contract_docs.rs:1548-1562 | fails exactly on an empty right side or a disagreeing pair, and otherwise gives the product in order |
| `ObjectVariants.AllOfVariants` | xtask/src/contract_docs.rs:1468-1474 | the loop over allOf succeeds exactly when every branch can be traversed and every combination agrees |
| `ObjectVariants.UnionVariants` | xtask/src/contract_docs.rs:1483-1495 | the loop over a union lists the choices of its branches in order, null-only ones dropped, and fails exactly when a branch does |
| `ObjectVariants.VariantsOf` | xtask/src/contract_docs.rs:1433-1512 | terminates on cyclic references; succeeds exactly when the schema can be traversed and no choice has two schemas for one property, with the labels of the choices |
| `ObjectVariants.Flatten` | xtask/src/contract_docs.rs:1421-1431 | success exactly as for the recursion; the variants are the choices in order with their labels, none for a single one, never empty, and fit exactly the objects that meet the schema |
| `EditDistance.Compute` | xtask/src/contract_identifiers.rs:1478-1493 | the two rolling rows compute the distance |
| `EditDistance.NoScriptIsShorter` | xtask/src/contract_identifiers.rs:1478-1493 | no insert, delete and substitute script between two strings is shorter than their distance |
| `EditDistance.ShortestScript` | xtask/src/contract_identifiers.rs:1478-1493 | a script of that length exists |
| `EditDistance.DistanceIsShortest` | xtask/src/contract_identifiers.rs:1478-1493 | the distance is the minimum script length |
| `EditDistance.Symmetric` | xtask/src/contract_identifiers.rs:1478-1493 | the distance is symmetric |
| `EditDistance.Triangle` | xtask/src/contract_identifiers.rs:1478-1493 | the distance obeys the triangle inequality |
| `EditDistance.LengthBound` | xtask/src/contract_identifiers.rs:1458-1476 | the length difference is a lower bound of the distance |
| `NearestIdentifiers.Nearest` | xtask/src/contract_identifiers.rs:1458-1476 | returns exactly the names at minimal distance among those that pass the length filter, when that minimum is at most 2 |
| `NearestIdentifiers.HarmlessOverAsciiExactly` | xtask/src/contract_identifiers.rs:1458-1476 | over an alphabet, the filter drops no answer for any candidate and any catalog exactly when the alphabet is ASCII |
| `NearestIdentifiers.WidePairIsDropped` | xtask/src/contract_identifiers.rs:1458-1465 | any two-character name of one wide character is two edits from the empty candidate, and dropped |
| `NearestIdentifiers.AsciiFilterIsHarmless` | xtask/src/contract_identifiers.rs:1458-1476 | for ASCII names the answer is all names at minimal distance of at most 2 |
| `NearestIdentifiers.FilterDropsWideNames` | xtask/src/contract_identifiers.rs:1458-1465 | a three-byte name one edit away is dropped |
| `InstancePath.UnescapeUndoesEscape` | xtask/src/structured_parser.rs:455-457 | pointer escaping is invertible |
| `InstancePath.DecimalIsNumber` | xtask/src/structured_parser.rs:112-112 | an array index is written in decimal digits without leading zeros, and reads back as itself |
| `InstancePath.PathsAreInjective` | xtask/src/structured_parser.rs:455-457 | different key paths have different pointers |
| `InstancePath.DisplayedPathsCollide` | xtask/src/structured_parser.rs:459-465 | displayed pointers coincide only for equal paths and for the root with the path of one empty key |
| `StructuredParser.Cursor.Next` | xtask/src/structured_parser.rs:153-174 | the next event, or a tokenizer error with its own position and the current path |
| `StructuredParser.Cursor.Value` | xtask/src/structured_parser.rs:63-100 | the cursor method follows the recursive descent on values, the cursor ending where the value ends |
| `StructuredParser.Cursor.Sequence` | xtask/src/structured_parser.rs:239-252 | the item loop follows the recursive descent |
| `StructuredParser.Cursor.Mapping` | xtask/src/structured_parser.rs:254-289 | the member loop with its position table follows the recursive descent |
| `StructuredParser.ParsesEmission` | xtask/src/structured_parser.rs:63-151 | parsing the events of a document consumes exactly them and returns its value, or its first repeated key with pointer and both positions |
| `StructuredParser.ParsedIsEmission` | xtask/src/structured_parser.rs:203-289 | whatever parses is the emission of a document without repeated keys, and the value is that document's |
| `StructuredParser.RepeatIsFound` | xtask/src/structured_parser.rs:254-289 | a first repeat exists exactly when some object at some depth repeats a key |
| `StructuredParser.PositionTable` | xtask/src/structured_parser.rs:117-151 | the position table answers for a name exactly as the first member of that name |
| `StructuredParser.ParseSource` | xtask/src/structured_parser.rs:48-61 | one value between its marks: succeeds exactly on documents without repeats |
| `StructuredErrors.FinishValue` | xtask/src/structured_parser.rs:63-151 | where the parse of a value fails, what was read can be finished to a document, in which a reported repeat is the first, and an invalid event is reported with the pointer of the value it would belong to |
| `StructuredErrors.SameFailure` | xtask/src/structured_parser.rs:63-151 | nothing after the failing event changes the error |
| `StructuredErrors.NothingContinues` | xtask/src/structured_parser.rs:63-151 | no document goes on with an event reported as invalid |
| `StructuredErrors.SourceFailure` | xtask/src/structured_parser.rs:48-61 | the same for whole sources: the error is about the first event that no source has there, or about the first repeat |
| `StructuredText.JsonIsRead` | xtask/src/structured_parser.rs:63-100 | each JSON token is read as the scalar or bracket it is, and only scalars and brackets are |
| `StructuredText.PlainIsResolved` | xtask/src/structured_parser.rs:323-358 | a plain YAML scalar is null, a boolean, refused as not finite, a number or itself, as its spelling says |
| `StructuredText.YamlIsRead` | xtask/src/structured_parser.rs:203-321 | each YAML event is read as the scalar or bracket it is; anchors, tags, aliases and merge keys are neither |
| `StructuredText.DocumentIsText` | xtask/src/structured_parser.rs:63-151 | the tokens of a text are read as the events of its document |
| `StructuredText.TextOf` | xtask/src/structured_parser.rs:63-151 | tokens that are read as the events of a document are the tokens of a text |
| `StructuredText.ParseJson` | xtask/src/structured_parser.rs:48-61 | on the tokens of a JSON text and the end, the result is the text's value or its first repeated name with both positions; everything accepted is such a text without repeats, and an error is about the first token that cannot be continued |
| `StructuredText.ParseYaml` | xtask/src/structured_parser.rs:185-201 | likewise for one YAML document between its stream and document marks |
| `ConnectionProtocol.TransitionRebindsAll` | crates/volicord-store/src/agent_connections.rs:896-1185 | an effective mode change binds every Guard to the new revision, changes nothing else in it, raises the generation and clears the report |
| `ConnectionProtocol.StepKeepsConsistent` | crates/volicord-store/src/agent_connections.rs:580-1767 | every store call, staged activation and host cleanup included, keeps the state consistent |
| `ConnectionFrames.RemoveProjectFrame` | crates/volicord-store/src/agent_connections.rs:1302-1382 | removing a project takes exactly its Guard, and the Connection only with the last project; everything else stays |
| `ConnectionFrames.SupersedeFrame` | crates/volicord-store/src/agent_connections.rs:1507-1694 | a superseded Connection loses the project and exactly its Guard, or is marked on its last project |
| `ConnectionFrames.CompleteCleanupFrame` | crates/volicord-store/src/agent_connections.rs:1696-1767 | the matching cleanup takes the membership, its Guard and the mark; revision and report stay |
| `ConnectionFrames.AddProjectFrame` | crates/volicord-store/src/agent_connections.rs:1253-1300 | adding a project adds it and nothing else |
| `ConnectionFrames.UpsertGuardFrame` | crates/volicord-store/src/guards.rs:343-416 | a Guard is written exactly for a member project without another Guard, at the current revision; every other Guard stays |
| `ConnectionFrames.ActivateFrame` | crates/volicord-store/src/agent_connections.rs:1507-1694 | an activation adds a new project with its Guard, or nothing |
| `ConnectionFrames.StoreReportFrame` | crates/volicord-store/src/agent_connections.rs:1189-1250 | a report is stored or cleared exactly for the captured revision, and nothing else changes |
| `ConnectionFrames.RegisterFrame` | crates/volicord-store/src/agent_connections.rs:580-732 | a new row has a new instance; an old one changes its fingerprint only, and loses its report if that changes |
| `ConnectionFrames.AcceptedExactly` | crates/volicord-store/src/agent_connections.rs:896-1110 | a mode change is accepted exactly for an unmarked Connection as expected, with every project guarded and every Guard current, and rebinds for exactly the stored Guards |
| `ConnectionFrames.TransitionFrame` | crates/volicord-store/src/agent_connections.rs:1110-1185 | an effective mode change leaves projects, instance, fingerprint and Guard bodies; any other changes nothing |
| `ConnectionFrames.GuardOutlives` | crates/volicord-store/src/agent_connections.rs:1852-1906 | through any run, a Guard stays as it is until a step names it or its project or changes the mode |
| `ConnectionProtocol.ReachableIsConsistent` | crates/volicord-cli/src/connection_command.rs:532-679 | in every reachable state a stored report is about the current revision, and Guards agree with the Connection in instance, mode and generation |
| `ConnectionProtocol.RunMovesOn` | crates/volicord-store/src/agent_connections.rs:896-1185 | over any part of any run, instances are not reused and generations never fall |
| `ConnectionProtocol.NoAba` | crates/volicord-cli/src/connection_command.rs:556-618 | if a captured revision is current later, the Connection existed throughout in one mode and generation, with no effective mode change in between |
| `ConnectionProtocol.OverlappedReportIsDropped` | crates/volicord-cli/src/connection_command.rs:600-618 | a verify run that overlaps any effective mode change does not store its report, wherever the mode ends |
| `ConnectionProtocol.UnchangedThroughout` | crates/volicord-store/src/agent_connections.rs:1189-1250 | when a captured revision is current later, it was current all the while exactly if no re-registration changed the fingerprint |
| `ConnectionProtocol.FingerprintAba` | crates/volicord-store/src/agent_connections.rs:580-732 | a run that overlaps a fingerprint change away and back stores its report |
| `ConnectionProtocol.StepGuards` | crates/volicord-store/src/guards.rs:343-416 | a step leaves every Guard at the current revision exactly unless it changes the fingerprint while Guards exist |
| `ConnectionProtocol.ModeChangeBindsGuards` | crates/volicord-store/src/agent_connections.rs:896-1185 | after an effective mode change every Guard carries the current revision |
| `ConnectionProtocol.GuardsCurrentThroughoutIff` | crates/volicord-store/src/guards.rs:2248-2295 | over every run, all Guards carry the current revision throughout exactly when no fingerprint changes while a Guard exists |
| `ConnectionProtocol.GuardLeftBehind` | crates/volicord-store/src/agent_connections.rs:624-643 | a run that leaves a Guard at the old fingerprint |
| `ConnectionProtocol.StepOnMarked` | crates/volicord-store/src/agent_connections.rs:1621-1767 | a Connection marked for cleanup keeps its revision and its one project until exactly the matching cleanup completes, which removes the project and its Guard |
| `ConnectionProtocol.PreflightModeGuardRebinds` | crates/volicord-cli/src/connection_command.rs:681-759 | preflight succeeds exactly when every project has a Guard and all are current; the store accepts the transition it prepares exactly when the Connection is not marked |
| `ConnectionProtocol.AcceptedLaterIff` | crates/volicord-cli/src/connection_command.rs:641-656 | a transition prepared in one state is accepted in another exactly when the Connection there is unmarked, at the same revision, with the same projects and Guards |
| `ConnectionProtocol.MarkedPassesPreflight` | crates/volicord-store/src/agent_connections.rs:932-932 | a run after which preflight succeeds for a marked Connection |
| `ConnectionId.Sanitize` | crates/volicord-cli/src/connection_command.rs:1548-1572 | the result is letter groups joined by single underscores, with the ASCII letters and digits of the lowered input and a break exactly where `_`, `-`, `.`, `/` or `:` stands between two of them |
| `ConnectionId.CleanIsDetermined` | crates/volicord-cli/src/connection_command.rs:1548-1572 | those letters and breaks determine the result |
| `ConnectionId.SanitizeIsIdempotent` | crates/volicord-cli/src/connection_command.rs:1548-1572 | sanitizing twice is sanitizing once |
| `ConnectionId.DeterministicId` | crates/volicord-cli/src/connection_command.rs:1507-1546 | every identifier has at most 48 characters, consists of `conn` and clean groups, ends with its hash, and keeps the longest clean start of the clean label with at most 30 characters |
| `LinkParity.MultisetDifference` | xtask/src/links.rs:234-246 | the difference counts each key's surplus |
| `LinkParity.Consume` | xtask/src/links.rs:348-359 | consuming lowers one count and drops an exhausted key |
| `LinkParity.Pairing.constructor` | xtask/src/links.rs:219-226 | the pairing starts with both surpluses waiting and nothing reported |
| `LinkParity.Pairing.PairKey` | xtask/src/links.rs:256-279 | one English key is paired until it or its partners run out, losing no occurrence |
| `LinkParity.Pairing.ReportMismatches` | xtask/src/links.rs:248-318 | a pass leaves no pair it looks for, and reports only keys that were waiting |
| `LinkParity.Pairing.PairOff` | xtask/src/links.rs:227-229 | the two passes in order: targets are used up before fragments |
| `LinkParity.Pairing.ReportUnpaired` | xtask/src/links.rs:320-342 | every leftover of one language is reported once, and the other language's leftovers stay |
| `LinkParity.Compare` | xtask/src/links.rs:219-232 | each surplus occurrence is reported exactly once, shared targets first; unpaired keys share neither target nor fragment, and one issue says all about one kind and its keys; nothing is reported exactly when the pages link equally |
| `SqlRegions.RegionIsRead` | xtask/src/storage.rs:167-189 | a well-formed region is read as what it is, wherever it stands |
| `SqlRegions.ReadIsRegion` | xtask/src/storage.rs:167-189 | whatever is read without an error is a well-formed region |
| `SqlRegions.SameRegions` | xtask/src/storage.rs:167-189 | the regions of a text are determined by it |
| `SqlRegions.LinesExactly` | xtask/src/storage.rs:190-193 | the lines of the expected text lose nothing of it but line ends, and are determined by it |
| `SqlRegions.IndentedLines` | xtask/src/storage.rs:190-193 | the body written has exactly the expected lines, each behind the indentation |
| `SqlRegions.ReplaceAll` | xtask/src/storage.rs:156-202 | succeeds exactly when the contents are text and the expected number of well-formed regions, and then replaces exactly their bodies |
| `SqlRegions.ReplacedOnce` | xtask/src/storage.rs:156-202 | the result is determined by the contents |
| `SqlRegions.RewrittenIsWhole` | xtask/src/storage.rs:190-196 | without the end marker among the lines, the result has the same regions with the written bodies |
| `SqlRegions.RerunIsStableIff` | xtask/src/storage.rs:156-202 | replacing again changes nothing, for all contents and counts, exactly when no expected line holds the end marker |
| `SqlRendering.OutsideRegion` | xtask/src/storage.rs:167-189 | a line with another label's begin marker is not inside a region whose body does not mention it |
| `SqlRendering.SpliceKeeps` | xtask/src/storage.rs:188-193 | replacing one body of another label keeps the regions of a label and their bodies |
| `SqlRendering.PassKeeps` | xtask/src/storage.rs:156-202 | so does a whole pass over the other label, when neither mentions the other |
| `SqlRendering.RenderAll` | xtask/src/storage.rs:122-154 | rendering all labels in turn fails exactly when some pass fails, and succeeds on compatible labels whose regions are in place |
| `SqlRendering.RenderIsIdempotent` | xtask/src/storage.rs:65-72 | sync then check: with the regions in place, a rendered schema renders to itself and to nothing else; the easy half of the exact condition below |
| `SqlRendering.BaselineLabelsApart` | xtask/src/storage.rs:124-146 | no label of the storage schema starts another |
| `SqlRendering.NestedIsNotIdempotent` | xtask/src/storage.rs:150-153 | with a region inside a region of a later label, the first rendering succeeds and the second fails |
| `SqlStability.PassCounts` | xtask/src/storage.rs:156-202 | a pass whose lines lack a marker never adds one, and removes one whenever a replaced body holds one |
| `SqlStability.PassKept` | xtask/src/storage.rs:156-202 | regions found after a pass over another label were there before it, with the same bodies |
| `SqlStability.NothingLostIsPlaced` | xtask/src/storage.rs:122-154 | a rendering that loses no begin marker found every region in place |
| `SqlStability.StableExactlyWhenPlaced` | xtask/src/storage.rs:122-154 | a rendered schema renders again, to itself, if and only if the regions of the original schema were in place: none mentioned another label |
| `CodeSpanMask.ClosingIsFirstRun` | xtask/src/markdown.rs:669-682 | the closing run is the first maximal run of exactly the opening length, and none is found only if there is none |
| `CodeSpanMask.SpanIsDelimited` | xtask/src/markdown.rs:655-686 | a span lies between two maximal runs of one length with no such run inside |
| `CodeSpanMask.ScanEndsUnclosed` | xtask/src/markdown.rs:683-686 | the scan stops only before a run that nothing after it closes |
| `CodeSpanChain.ScanIsChain` | xtask/src/markdown.rs:655-694 | the scan finds the chain of spans: each opens at the first run after the last span and closes at the next run of its length, up to a run that is never closed |
| `CodeSpanChain.ChainIsUnique` | xtask/src/markdown.rs:655-694 | a text has one such chain |
| `CodeSpanChain.MaskedExactly` | xtask/src/markdown.rs:655-694 | masking turns exactly the bytes 0x7c in the content of the chain into 0x1f |
| `CodeSpanMask.MaskedSpans` | xtask/src/markdown.rs:655-694 | masking keeps the spans and the line feeds, changes exactly the pipes in spans, and is idempotent |
| `CodeSpanMask.RestoreUndoesMaskIff` | xtask/src/markdown.rs:696-698 | restoring undoes masking exactly on texts without a mask byte |
| `CodeSpanMask.MaskedStaysUtf8` | xtask/src/markdown.rs:693-693 | the masked buffer is still UTF-8, so the conversion cannot panic |
| `CodeSpanMask.MaskSpan` | xtask/src/markdown.rs:662-691 | one opening run: the span up to its closing run is masked in place, or the scan ends |
| `CodeSpanMask.MaskCodeSpanPipes` | xtask/src/markdown.rs:655-694 | the in-place cursor loops compute the mask of the recursive scan |

## Left out

- Git and Cargo subprocesses, blob reading, temporary files and directories: trees, graphs and file contents are inputs.
- Issue and error wording, exit codes, help and table rendering: issues and errors are data, and where only failure matters an error is `None`.
- Overflow of `usize`: positions are unbounded, as for buffers addressable on 64-bit machines; u16 and u32 fields are bounded explicitly.
- SHA-256: a Connection revision is its hashed basis, so equal digests are taken to mean equal bases. The basis also holds the connection id, host kind, intent, scope, server name and config target, which are fixed for one Connection and left out of it here. The identifier hash is any 12 lowercase hexadecimal characters.
- The JSON and YAML tokenizers: their token and event sequences are inputs, with the number grammars as a parameter.
- ObjectVariants.Flatten: keeps the meaning of a schema only if the const, type and enum of its object nodes and combinators leave all objects in (`InFragment`), because the code does not read them there; siblings of a reference are not modelled, nor keywords of the wrong JSON type.
- ObjectVariants.VariantsOf: reads `oneOf` as a union, as the code does: an object that meets two branches is not excluded.
- NearestIdentifiers.Nearest: returns a set, so the order of the sorted answers is not stated.
- DependencyCycles.FindCycles: cycles are sequences of package names, not their joined display text.
- Architecture.OwnerFields: a shared group is reported once as such, not once per later package with the earlier one's name.
- The enabled flag, host targets and runtime sessions of the Connection store: no step here depends on them; a staged activation or cleanup is one step of each Connection it touches, taken when the checks on the others pass.
- ConnectionProtocol.RunMovesOn: integration instance ids, drawn at random by the store, are taken never to repeat.
- Other text tools of the repository (anchors, owner routing, terminology, release metadata, meaning units): they would add only easy members.
- ConnectionId.DeterministicId: takes the label and the hash as inputs, and of `char::to_lowercase` only that no ASCII capital comes out and that lowercase letters, digits and the underscore are fixed.
- LinkParity.Compare: of several possible partners of a key, it is open which one is paired first.
- SqlRegions.ReplaceAll: labels are single-line, as every label of the repository is; text is a sequence of characters, the markers being ASCII.
