# Marginalis: verified algorithms

Marginalis is a server for AsciiDoc notes with a web editor. Most of it moves data between HTTP, SQL and the browser.
This project models the algorithms in between whose correctness is not visible from reading one function, and proves
what they promise, for every input and every run.

Code that works step by step is modelled by methods with loops, arrays and classes, each proved against a specification
function; what the source promises is then proved about that function. Code made of expressions is modelled by
functions. Properties are stated at full generality; where the source does not have a property for all inputs, a lemma
gives inputs without it, and another says exactly when the source has it. Every lemma switches automatic
induction off, so that its proof is the one that is written.

`dafny verify dfyconfig.toml` checks everything.

## Modules

| group | modules |
|---|---|
| Basics | `Options`, `Sequences`, `Numerals`, `Sorting` (stable sorting by key), `TextOrder` (what keys mean for fields), `Flattening` (sequences made of parts), `Unicode` (UTF-8 and UTF-16), `Domain` (records) |
| Editing conflicts | `EditorConflict`, `ConflictRows` |
| Offsets and outline | `TextPosition`, `EncodedOffsets`, `Outline` |
| Macros and formulas | `TexTokens`, `MathMacros`, `MacroLimits`, `MathSplice`, `FormulaKey`, `FormulaCache`, `FormulaRecency`, `FormulaRequests` |
| Types and validator from one schema | `JsonValues`, `SchemaValidator`, `TypeText`, `SchemaKeywords`, `SchemaSoundness`, `SchemaShapes`, `SchemaConditions` |
| Snapshots | `Principals`, `Snapshots`, `SnapshotHistory`, `SnapshotChecks`, `SnapshotBuilder`, `SnapshotAcceptance`, `RestorePlans` |
| Archives | `HexCodec`, `Archives`, `ArchiveContents`, `ArchivePrincipals`, `ArchiveReading`, `ArchivePipeline`, `ArchiveRoundTrip`, `ArchiveRereading`, `ArchiveMigration`, `ArchiveUniqueness`, `ArchivesOfOneNote`, `RecordReading`, `ArchiveAcceptance`, `RecordOrder`, `AcceptedContents`, `ArchiveItems`, `ItemReading` |
| Document export and import | `Identities`, `Bibliographies`, `DocumentPaths`, `PathTexts`, `StateHash`, `StateReading`, `DocumentExports`, `ManifestContents`, `DocumentImports`, `DocumentRows`, `ImportErrors`, `DocumentGrouping`, `DocumentRoundTrip`, `DocumentConservation`, `DocumentFiles`, `UneditedDocuments`, `LawfulCodecs` |
| Acceptance of imports | `SingleRevisions`, `RebuiltLists`, `RebuiltRecords`, `ImportAcceptance`, `ItemAcceptance` |

## What the proofs found

Each item names a lemma that gives inputs for which the source does not have a property, and one that says exactly for
which it does.

- Two owners can share a directory: owners whose components agree (`DocumentPaths.OwnersShareDirectoryIff`), such as any
  owner with an unsafe subject and the one named like its directory (`UnsafeSubjectShares`), or owners whose issuers
  differ in a leading https scheme (`SchemeIsDropped`). Both then write one `bibliography.json`, and reading the documents back
  refuses the repeated path: an export can be read back exactly when no two owners share a directory
  (`DocumentFiles.ExportReadsBackIff`). Paths of notes and attachments never coincide.
- Archives do not always come back unchanged from reading and writing: attachment file names are trimmed and put in
  normal form C on the way in, and IDs come back in printed form (`ArchivesOfOneNote.UnprintedIdDoesNotComeBack`,
  `UnnormalNameDoesNotComeBack`). `RoundTripIffNormal` says exactly when they do.
- The name of an attachment file can exceed 255 bytes: valid names of 73 or more three-byte characters do
  (`ValidNameMayNotFit`); `AttachmentFileNameFits` says exactly which fit. The name of a note file always fits.
- Editing conflicts of large documents are aligned line by line, which can keep nothing although all lines but one are
  common (`DeletedFirstLineKeepsNothing`, for example `AlternatingLinesKeepNothing`). `AlignIsOptimalIff` says exactly
  when an alignment keeps as many lines as possible.
- The one-pass conversion of offsets is the single one exactly when the converted offsets do not descend
  (`BatchIsPointwiseIff`), and on every text exactly when the offsets ascend, negative ones taken as zero
  (`BatchIsPointwiseOnEveryTextIff`).
- The builders of a snapshot do not collect the owners of historical notes and compare owners by ID only, so a history
  can name an owner that is not declared (`HistoricalOwnerMayBeUndeclared`). `HistoricalOwnersResolve` gives the exact
  condition; snapshots read from archives meet it.
- Replacing histories after attachments can leave references dangling (`DroppingHistoryDangles`);
  `RevisionsKeepReferences` says exactly when it does not.
- The generated types are sound under conditions on the schemas (`TypeSound`, `DeclarationSound`, `SupplementSound`).
  `SchemaConditions` has a family of schemas for each condition that is sound exactly when it is met: string constants
  and property names that print as themselves, an `allOf` that is not empty, no members beside an `allOf` that admits
  other values than objects, no reference beside the members of a named object, and the required members of `Problem`.
- Intersections are printed without parentheses, so they are wider than meant: `IntersectionMeans` says exactly what
  the text holds, `IntersectionTextIsWider` that this goes beyond the intersection.
- The byte scan for macro arguments agrees with the browser's expressions exactly when at most nine arguments are
  allowed (`ScansAgreeIff`).
- A formula that leaves a group open, closes one too many, ends in a backslash or ends in a comment takes the brace that
  was meant to close the group of the definitions; `GroupClosesAfterFormula` says exactly when it does not.

## Model

| member | source | states |
|---|---|---|
| `EditorConflict.SplitInvertsJoin` | frontend/src/editorConflict.ts:77-79 | lines joined by the three separators, in any mixture, are split into the lines |
| `EditorConflict.JoinInvertsSplit` | frontend/src/editorConflict.ts:77-79 | every text is its lines joined by its separators |
| `EditorConflict.FillLengths` | frontend/src/editorConflict.ts:85-98 | the table filled from the end holds the length of the longest common subsequence of every pair of suffixes |
| `EditorConflict.AlignByTable` | frontend/src/editorConflict.ts:81-125 | the table branch computes the greedy walk |
| `EditorConflict.AlignLargeDocument` | frontend/src/editorConflict.ts:127-144 | the cheaper branch matches line by line and inserts the rest at the end |
| `EditorConflict.AlignToBaseline` | frontend/src/editorConflict.ts:81-144 | the branch is chosen by the size of the table, and the result is the alignment of that branch |
| `EditorConflict.AlignmentReadsVariant` | frontend/src/editorConflict.ts:81-144 | in both branches, insertions and matches read in order give exactly the lines of the variant |
| `EditorConflict.KeptLinesAreCommon` | frontend/src/editorConflict.ts:99-124 | kept lines equal their baseline lines and form a common subsequence |
| `EditorConflict.LcsIsUpperBound` | frontend/src/editorConflict.ts:85-98 | no common subsequence is longer than the number that the table promises |
| `EditorConflict.WalkIsOptimal` | frontend/src/editorConflict.ts:85-124 | the greedy walk keeps as many lines as the longest common subsequence has |
| `EditorConflict.WalkKeepsEarliest` | frontend/src/editorConflict.ts:99-124 | of all choices of that many common lines, the walk keeps the one whose lines come first: where it first differs from another choice, it keeps the line |
| `EditorConflict.InsertionsFollowKept` | frontend/src/editorConflict.ts:99-124 | insertions stand at the start or directly behind a kept line, before the lines that are deleted |
| `EditorConflict.LineByLineInsertionAt` | frontend/src/editorConflict.ts:127-144 | the cheaper branch inserts a line where the baseline has another one at its position, and what is left at the end |
| `EditorConflict.LineByLineKeepsAgreeing` | frontend/src/editorConflict.ts:127-144 | the cheaper branch keeps as many lines as stand at the same position in both versions |
| `EditorConflict.AlignIsOptimalIff` | frontend/src/editorConflict.ts:81-144 | an alignment keeps as many lines as possible exactly when the table is small enough or that many lines agree by position |
| `EditorConflict.DeletedFirstLineKeepsNothing` | frontend/src/editorConflict.ts:81-144 | in large documents without adjacent repetitions, deleting the first line keeps no line, although all others are common |
| `ConflictRows.AlignThreeVersions` | frontend/src/editorConflict.ts:15-75 | there is one row for each baseline line, in order, with its number, the lines that keep it and the status that these determine; before it stand both lists of insertions side by side, as many rows as the longer one has |
| `ConflictRows.ColumnsAreTheVersions` | frontend/src/editorConflict.ts:15-75 | for every three inputs and both branches, the three columns read from top to bottom are the lines of the three inputs |
| `ConflictRows.UnchangedMeansEqual` | frontend/src/editorConflict.ts:15-75 | a row is marked unchanged exactly when all three cells are present and equal |
| `ConflictRows.AllUnchangedIff` | frontend/src/editorConflict.ts:15-75 | all rows are unchanged exactly when the three versions have the same lines |
| `TextPosition.ConvertOffset` | frontend/src/textPosition.ts:1-17 | the loop over characters computes the specified offset |
| `TextPosition.TextOffsetIsLastFittingBoundary` | frontend/src/textPosition.ts:1-17 | the result is the last character boundary whose UTF-8 length does not exceed the offset, and never beyond the text |
| `TextPosition.ExactOnPrefixes` | frontend/src/textPosition.ts:1-17 | the UTF-8 length of a prefix maps to its UTF-16 length |
| `TextPosition.Monotone` | frontend/src/textPosition.ts:1-17 | larger offsets map to no smaller results |
| `EncodedOffsets.OffsetOfCharacter` | frontend/src/textPosition.ts:1-17 | a byte offset into the UTF-8 encoding of a text, at or within a character or past its end, is converted into the UTF-16 length of the characters before |
| `EncodedOffsets.WidthsOfCharacter` | frontend/src/textPosition.ts:8-14 | the scan finds the characters that UTF-16 encodes, with their lengths in UTF-8 |
| `EncodedOffsets.WidthsOfLoneSurrogate` | frontend/src/textPosition.ts:8-14 | any other unit stands alone and counts as the replacement character |
| `TextPosition.ConvertOffsets` | frontend/src/textPosition.ts:26-55 | the one-pass conversion maps each offset to the single conversion of the largest offset so far |
| `TextPosition.BatchIsPointwiseWhenAscending` | frontend/src/textPosition.ts:26-55 | on ascending offsets the one-pass conversion is the single one, offset by offset |
| `TextPosition.BatchIsPointwiseIff` | frontend/src/textPosition.ts:26-55 | on a text the one-pass conversion is the single one exactly when the converted offsets do not descend |
| `TextPosition.BatchIsPointwiseOnEveryTextIff` | frontend/src/textPosition.ts:26-55 | on every text it is exactly when the offsets ascend, negative ones taken as zero |
| `Outline.LineCountIsLastLine` | crates/marginalis-asciidoc/src/analysis.rs:220-228 | the counted lines end with the line of the last character, and no character lies on a later line |
| `Outline.NewlinesEndLines` | crates/marginalis-asciidoc/src/analysis.rs:219-228 | the first character is on line 1, and exactly a newline ends a line |
| `Outline.Build` | crates/marginalis-asciidoc/src/analysis.rs:175-217 | a heading other than the title without a line gives no outline; otherwise all headings other than the title become sections, with their level, title, written ID and line, in order, that end before the next heading that is not deeper, with ordered ranges when the headings stand on increasing lines |
| `Outline.RangeEnds` | crates/marginalis-asciidoc/src/analysis.rs:200-212 | a range ends on the line before the first later heading that is not deeper, or with the source |
| `Outline.Laminar` | crates/marginalis-asciidoc/src/analysis.rs:175-217 | two ranges are nested or disjoint, nested exactly when all headings in between are deeper |
| `Outline.OutermostByLevel` | crates/marginalis-asciidoc/src/analysis.rs:175-217 | a section lies in no other section exactly when no earlier heading is shallower |
| `Outline.OutermostRangesTile` | crates/marginalis-asciidoc/src/analysis.rs:175-217 | the outermost ranges tile the lines from the first heading to the last line |
| `MathMacros.SafeTexDefinition` | crates/marginalis-application/src/math_macros.rs:167-195 | the definition is accepted exactly when a TeX tokenizer finds its replacement balanced, complete and without comments, and its name is not `def` |
| `MathMacros.SafeTexDefinitionReplacement` | frontend/src/mathMacroState.ts:107-125 | the browser's scan computes the same predicate |
| `MathMacros.ValidArgumentReferences` | crates/marginalis-application/src/math_macros.rs:197-214 | the scan by byte index accepts exactly the references within the argument count |
| `MathMacros.ValidateStoredMathMacros` | crates/marginalis-application/src/math_macros.rs:139-165 | the loop over a set of names accepts exactly the stored lists within the limits |
| `MathMacros.ValidateMathMacros` | crates/marginalis-application/src/math_macros.rs:124-133 | the server's acceptance adds the safe definitions |
| `MathMacros.ValidateMathMacroList` | frontend/src/mathMacroState.ts:42-59 | the browser's loop accepts exactly the lists within the limits whose items are valid |
| `MathMacros.ValidateMathMacro` | frontend/src/mathMacroState.ts:66-105 | the checks of one macro with its two regular expressions |
| `MathMacros.ValidatorsAgree` | crates/marginalis-application/src/math_macros.rs:124-214 | the two validators accept exactly the same lists of macros |
| `MathMacros.ScansAgreeIff` | crates/marginalis-application/src/math_macros.rs:197-214 | the byte scan agrees with the two expressions on every text exactly when at most nine arguments are allowed |
| `MacroLimits.DefinitionsAreAcceptedIff` | crates/marginalis-application/src/math_macros.rs:124-214 | both validators accept exactly at most 64 macros of at most 16384 bytes with different names of 1 to 32 letters other than `def`, and replacements of 1 to 512 characters that are no controls, balanced and complete, in which each number sign stands before the digit of one of at most nine arguments |
| `MacroLimits.TotalBytesAre` | crates/marginalis-application/src/math_macros.rs:139-147 | the bytes counted are those of all names and replacements |
| `TexTokens.ScanSeesTokens` | crates/marginalis-application/src/math_macros.rs:167-195 | the scan by parity of backslash runs agrees with a TeX tokenizer on every text |
| `MathSplice.ApplyMathMacros` | frontend/src/mathTypesetting.ts:103-128 | every formula of the array gets the definitions of the applicable macros spliced in after its opening delimiter |
| `MathSplice.ApplicableKeepsValid` | frontend/src/mathTypesetting.ts:104-104 | exactly the valid macros are kept, as often as given and in order |
| `MathSplice.AllValidAreApplicable` | frontend/src/mathTypesetting.ts:104-104 | a list of valid macros is left as it is |
| `MathSplice.SplicedFormulaReadsBack` | frontend/src/mathTypesetting.ts:103-128 | a TeX reader of a rewritten formula finds one definition for each valid macro of the list, in order, with its arguments and its replacement, and then the formula; without valid macros the formula stays as it was |
| `MathSplice.SplicedDefinitionsReadBack` | frontend/src/mathTypesetting.ts:113-127 | a TeX reader takes exactly the validated macros from the spliced text, each closing at its appended brace, and goes on with the formula |
| `MathSplice.DefinitionsAreNeutral` | frontend/src/mathTypesetting.ts:113-127 | the definitions change no brace depth and contain no comment |
| `MathSplice.SplicingKeepsStructure` | frontend/src/mathTypesetting.ts:103-128 | splicing leaves every token of the formula and its closing brace as it was, at the same level of grouping |
| `MathSplice.GroupClosesAfterFormula` | frontend/src/mathTypesetting.ts:120-127 | for any formula, the group opened before the definitions closes at the appended brace exactly when the formula ends complete and closes the groups that it opens and no others |
| `FormulaKey.CacheKeyInjective` | frontend/src/mathTypesetting.ts:142-142 | the cache key determines formula, display mode and macros |
| `FormulaCache.StoreKeepsTheNewEntry` | frontend/src/mathTypesetting.ts:174-179 | storing stays within the limit and never evicts the entry just stored |
| `FormulaCache.HitIsOwnRendering` | frontend/src/mathTypesetting.ts:143-149 | a hit is the rendering of exactly the requested formula |
| `FormulaCache.RunKeepsInvariant` | frontend/src/mathTypesetting.ts:37-180 | every interleaving of hits, misses and completions keeps the cache bounded, its entries right and the queue in order |
| `FormulaCache.RunsFromTheStart` | frontend/src/mathTypesetting.ts:130-180 | so does every run from the empty cache |
| `FormulaCache.OneTaskAtATime` | frontend/src/mathTypesetting.ts:37-44 | while one task runs, all enqueued before it are finished and all after it wait |
| `FormulaCache.QueueNeverStalls` | frontend/src/mathTypesetting.ts:37-44 | while nothing runs and a task waits, one can start, whatever failed before it |
| `FormulaRecency.RunsKeepRecency` | frontend/src/mathTypesetting.ts:146-179 | in every run the entries are in the order of their last hit, or of their first store when they were not hit since |
| `FormulaRecency.EvictionDropsLeastRecent` | frontend/src/mathTypesetting.ts:174-178 | a completion drops an entry exactly when the cache is full, its own key is absent, and every other entry was used later |
| `FormulaRecency.SecondStoreKeepsOrder` | frontend/src/mathTypesetting.ts:174-174 | a second completion of a key that is present does not refresh it |
| `FormulaRequests.AskIsHitIff` | frontend/src/mathTypesetting.ts:146-153 | a request is answered at once exactly when its key is in the cache, with its own rendering |
| `FormulaRequests.EntriesStay` | frontend/src/mathTypesetting.ts:146-179 | nothing but a delivery adds a key to the cache or removes one |
| `FormulaRequests.OthersStay` | frontend/src/mathTypesetting.ts:139-180 | each event leaves the other requests as they are |
| `FormulaRequests.RequestIsServed` | frontend/src/mathTypesetting.ts:139-180 | a rendering that succeeds is delivered and its key is then in the cache; one that fails changes no cache, and either way the next task can start at once |
| `FormulaCache.FormulaTypesetter.TypesetFormula` | frontend/src/mathTypesetting.ts:136-149 | a request answers a hit and moves its entry to the end, or starts loading |
| `FormulaCache.FormulaTypesetter.EnqueueMathJaxTypeset` | frontend/src/mathTypesetting.ts:37-44 | enqueueing chains the task behind the end of the queue |
| `FormulaCache.FormulaTypesetter.StoreRendering` | frontend/src/mathTypesetting.ts:174-180 | a completion stores the rendering and evicts the oldest entry beyond the limit |
| `SchemaValidator.AssertValid` | crates/marginalis-contract/src/typescript.rs:58-187 | the emitted validator accepts exactly what the specification of its keywords accepts |
| `SchemaValidator.AssertProperties` | crates/marginalis-contract/src/typescript.rs:174-178 | present properties are validated, missing ones are not |
| `SchemaKeywords.KeywordsAreIndependent` | crates/marginalis-contract/src/typescript.rs:103-187 | without a reference, the validator accepts exactly what it accepts under each keyword alone; the next rows say what that is |
| `SchemaKeywords.NumberLimitsMean` | crates/marginalis-contract/src/typescript.rs:145-152 | minimum and maximum bound numbers, and only numbers |
| `SchemaKeywords.LengthLimitsMean` | crates/marginalis-contract/src/typescript.rs:132-140 | minLength and maxLength bound the characters of strings |
| `SchemaKeywords.PatternMeans` | crates/marginalis-contract/src/typescript.rs:141-143 | pattern demands a match of strings |
| `SchemaKeywords.ItemLimitsMean` | crates/marginalis-contract/src/typescript.rs:153-159 | minItems and maxItems bound the items of arrays |
| `SchemaKeywords.ItemsMean` | crates/marginalis-contract/src/typescript.rs:160-162 | items are checked one by one |
| `SchemaKeywords.ConstantMeans` | crates/marginalis-contract/src/typescript.rs:124-126 | const admits the constant |
| `SchemaKeywords.EnumerationMeans` | crates/marginalis-contract/src/typescript.rs:127-131 | enum admits the listed values |
| `SchemaKeywords.TypeNamesMean` | crates/marginalis-contract/src/typescript.rs:73-92 | what each type name admits; integers are those that are exact in a browser |
| `SchemaKeywords.TypeListMeans` | crates/marginalis-contract/src/typescript.rs:118-123 | a list of types admits what one of them does |
| `SchemaKeywords.RequiredMeans` | crates/marginalis-contract/src/typescript.rs:165-173 | a required name is a field of the object or inherited by every object |
| `SchemaKeywords.ClosedMeans` | crates/marginalis-contract/src/typescript.rs:179-185 | a closed schema admits no field but its properties and inherited names |
| `SchemaKeywords.PropertiesMean` | crates/marginalis-contract/src/typescript.rs:174-178 | each field is checked against the property of its name |
| `SchemaKeywords.CombinationsMean` | crates/marginalis-contract/src/typescript.rs:109-117 | allOf demands each member, oneOf and anyOf some member, and oneOf hides anyOf |
| `SchemaKeywords.SchemasWithoutKeywords` | crates/marginalis-contract/src/typescript.rs:105-107 | the schema false rejects everything, true and what is no schema nothing |
| `SchemaKeywords.ReferenceMeans` | crates/marginalis-contract/src/typescript.rs:58-71 | a reference hides all other keywords, and the part behind its last slash names the schema that counts |
| `TypeText.PrintMembers` | crates/marginalis-contract/src/typescript.rs:442-468 | the loop prints one member for each property, optional unless required |
| `TypeText.QuotedTextMeansItself` | crates/marginalis-contract/src/typescript.rs:470-480 | a text printed between quotes as it is means itself exactly when it has no quotes, backslashes and line breaks |
| `TypeText.SegmentsOfConcatenation` | crates/marginalis-contract/src/typescript.rs:483-544 | reading concatenated type text with intersection binding tighter than union glues the last and the first part |
| `SchemaSoundness.IntersectionHolds` | crates/marginalis-contract/src/typescript.rs:499-515 | reading the unparenthesized text of an intersection only widens it |
| `SchemaSoundness.IntersectionMeans` | crates/marginalis-contract/src/typescript.rs:499-515 | the text holds exactly what an earlier part of the left side, a later part of the right side, or both parts that meet hold |
| `SchemaSoundness.IntersectionTextIsWider` | crates/marginalis-contract/src/typescript.rs:499-515 | so it holds whatever the first of two alternatives on the left side holds, also outside the right side |
| `SchemaSoundness.TypeSound` | crates/marginalis-contract/src/typescript.rs:483-589 | every value that the validator accepts inhabits the type generated from the same schema |
| `SchemaSoundness.DeclarationSound` | crates/marginalis-contract/src/typescript.rs:416-432 | every value accepted for a named schema inhabits the declaration generated for it |
| `SchemaSoundness.SupplementSound` | crates/marginalis-contract/src/typescript.rs:46-54 | so does every accepted problem document for the hand-written declaration |
| `SchemaShapes.TypeIsShape` | crates/marginalis-contract/src/typescript.rs:483-591 | for schemas that types can express, a value inhabits the generated type exactly when it has the shape that the schema describes, limits aside |
| `SchemaShapes.DeclarationIsShape` | crates/marginalis-contract/src/typescript.rs:416-440 | so it is for the declarations of named schemas |
| `SchemaShapes.ProblemIsShape` | crates/marginalis-contract/src/typescript.rs:46-54 | and for the hand-written declaration |
| `SchemaConditions.ReferenceBesideMembersIsSoundIff` | crates/marginalis-contract/src/typescript.rs:416-440 | a reference beside the members of a named object schema keeps soundness exactly when it names no schema that accepts anything |
| `SchemaConditions.MembersBesideAllOfAreSoundIff` | crates/marginalis-contract/src/typescript.rs:499-515 | members beside an allOf keep soundness exactly when the schema admits only objects |
| `SchemaConditions.AllOfIsSoundIff` | crates/marginalis-contract/src/typescript.rs:499-515 | an allOf of printable schemas without members is sound exactly when it is not empty |
| `SchemaConditions.PropertyNameIsSoundIff` | crates/marginalis-contract/src/typescript.rs:442-480 | an object type with a forbidden property is sound exactly when the name is not empty and prints as itself |
| `SchemaConditions.SupplementIsSoundIff` | crates/marginalis-contract/src/typescript.rs:46-54 | the hand-written declaration of problems is sound exactly when the schema requires both members that it demands |
| `SchemaConditions.StringConstantIsSoundIff` | crates/marginalis-contract/src/typescript.rs:586-591 | a string constant is sound exactly when it has no quotes, backslashes and line breaks |
| `Principals.IncludeResolves` | crates/marginalis-application/src/snapshot.rs:436-462 | including only appends, keeps IDs unique and identities disjoint, and makes every reference resolve |
| `Principals.IncludeSucceeds` | crates/marginalis-application/src/snapshot.rs:436-462 | including succeeds exactly when no two principals claim one ID or one identity, whatever the order of the references is |
| `Snapshots.ReferencesCoverRecords` | crates/marginalis-application/src/snapshot.rs:480-516 | the collected references resolve exactly when those of every record do |
| `Snapshots.IncludingMakesValidationSucceed` | crates/marginalis-application/src/snapshot.rs:436-478 | after including, the validation of references succeeds and including again changes nothing |
| `Snapshots.EverySnapshotIsConsistent` | crates/marginalis-application/src/snapshot.rs:106-158 | after any sequence of successful builder calls IDs are unique, identities belong to one principal and all collected references resolve |
| `SnapshotAcceptance.IncludedIff` | crates/marginalis-application/src/snapshot.rs:436-462 | including succeeds exactly when declared principals and the principals that records name agree about IDs and identities, and appends only principals that records name |
| `SnapshotAcceptance.NewSucceedsIff` | crates/marginalis-application/src/snapshot.rs:106-158 | a snapshot is made exactly of notes with different IDs and grants to others than owners, each once, whose principals agree; each note gets its current revision as its history |
| `SnapshotAcceptance.WithNoteRevisionsSucceedsIff` | crates/marginalis-application/src/snapshot.rs:232-284 | histories in any order are accepted exactly when each revision belongs to a note and the revisions of each note are all from some first one to the current one, which is as the note is |
| `SnapshotAcceptance.WithAttachmentsSucceedsIff` | crates/marginalis-application/src/snapshot.rs:295-369 | attachments and references in any order are accepted exactly when IDs differ, notes and creators exist, no note has more than 32 attachments or 64 MiB, and each reference names a revision and an attachment of one note, once |
| `SnapshotAcceptance.WithPrincipalsSucceedsIff` | crates/marginalis-application/src/snapshot.rs:416-434 | principals are accepted exactly when IDs and identities are unique and everyone whom a record names is among them |
| `SnapshotHistory.EverySnapshotIsComplete` | crates/marginalis-application/src/snapshot.rs:232-284 | after any sequence of successful builder calls every note has a complete history |
| `SnapshotHistory.HistoryIsInterval` | crates/marginalis-application/src/snapshot.rs:265-280 | a complete history is one interval of revisions that ends at the current one, and its last entry is the current note |
| `SnapshotHistory.AcceptedHistory` | crates/marginalis-application/src/snapshot.rs:232-284 | an accepted history is stored as a sorted permutation of the input, an interval for each note |
| `SnapshotHistory.AcceptedAttachments` | crates/marginalis-application/src/snapshot.rs:295-369 | accepted references name an existing revision and an attachment of the same note, within quota |
| `SnapshotHistory.RunKeepsCovered` | crates/marginalis-application/src/snapshot.rs:295-434 | this stays so while no histories are replaced |
| `SnapshotHistory.RevisionsKeepReferences` | crates/marginalis-application/src/snapshot.rs:232-284 | replacing histories keeps it exactly when they name every reference |
| `SnapshotHistory.DroppingHistoryDangles` | crates/marginalis-application/src/snapshot.rs:232-284 | keeping only current revisions is accepted and leaves references to earlier ones dangling |
| `SnapshotHistory.HistoricalOwnersResolve` | crates/marginalis-application/src/snapshot.rs:480-516 | the owners of historical notes resolve exactly when they are those of the current notes |
| `SnapshotHistory.HistoricalOwnerMayBeUndeclared` | crates/marginalis-application/src/snapshot.rs:480-516 | a history whose owner has another primary identity is accepted and does not resolve |
| `SnapshotChecks.CheckNotes` | crates/marginalis-application/src/snapshot.rs:110-117 | the loop over a set of IDs finds the first repeated note |
| `SnapshotChecks.CheckAcl` | crates/marginalis-application/src/snapshot.rs:119-132 | the loop finds the first access list entry without a note, for the owner, or repeated |
| `SnapshotChecks.CheckRevisions` | crates/marginalis-application/src/snapshot.rs:243-264 | the loop finds the first revision that repeats a key or disagrees with the current note |
| `SnapshotChecks.CheckHistories` | crates/marginalis-application/src/snapshot.rs:265-280 | the loop accepts exactly complete histories |
| `SnapshotChecks.CheckPrincipals` | crates/marginalis-application/src/snapshot.rs:417-430 | the loop over sets of IDs and identities finds the first principal that repeats one |
| `SnapshotChecks.CheckAttachments` | crates/marginalis-application/src/snapshot.rs:300-345 | the loop with running totals finds the first attachment that repeats an ID, has no note or creator, or exceeds a quota |
| `SnapshotChecks.CheckReferences` | crates/marginalis-application/src/snapshot.rs:346-364 | the loop finds the first reference that names no revision or no attachment of its note, or is repeated |
| `SnapshotChecks.ReferencesResolve` | crates/marginalis-application/src/snapshot.rs:464-478 | the loop accepts exactly references that all resolve |
| `SnapshotBuilder.LogicalSnapshot.Create` | crates/marginalis-application/src/snapshot.rs:106-158 | the new snapshot is the specified one |
| `SnapshotBuilder.LogicalSnapshot.WithNoteRevisions` | crates/marginalis-application/src/snapshot.rs:232-284 | the builder accepts exactly what is specified and leaves the specified snapshot |
| `SnapshotBuilder.LogicalSnapshot.WithAttachments` | crates/marginalis-application/src/snapshot.rs:295-369 | the builder accepts exactly what is specified and leaves the specified snapshot |
| `SnapshotBuilder.LogicalSnapshot.WithPrincipals` | crates/marginalis-application/src/snapshot.rs:416-434 | the builder accepts exactly what is specified and leaves the specified snapshot |
| `SnapshotBuilder.LogicalSnapshot.IncludeReferencedPrincipals` | crates/marginalis-application/src/snapshot.rs:436-462 | the loop appends exactly the principals that are missing |
| `SnapshotBuilder.LogicalSnapshot.ValidatePrincipalReferences` | crates/marginalis-application/src/snapshot.rs:464-478 | it fails exactly when a collected reference does not resolve |
| `RestorePlans.SortLinks` | crates/marginalis-application/src/snapshot.rs:565-582 | links from unknown notes are rejected at the first position, others are sorted without repetitions |
| `RestorePlans.LinksAreSortedOnce` | crates/marginalis-application/src/snapshot.rs:565-582 | the result is sorted, has each given link once and no others |
| `RestorePlans.LinksAreCanonical` | crates/marginalis-application/src/snapshot.rs:565-582 | the result depends only on which links there are |
| `RecordOrder.LinksAreInOrder` | crates/marginalis-application/src/snapshot.rs:564-583 | links are in the order of source and target |
| `RecordOrder.SnapshotsAreInOrder` | crates/marginalis-application/src/snapshot.rs:232-369 | a snapshot stores histories by note and revision, attachments by ID, and references by note, revision and ID |
| `HexCodec.EncodeBytes` | crates/marginalis-archive/src/archive.rs:560-568 | the loop writes two lower-case digits for each byte |
| `HexCodec.DecodeBytes32` | crates/marginalis-archive/src/archive.rs:574-583 | the loop computes the specified decoding |
| `HexCodec.DecodeInvertsEncode` | crates/marginalis-archive/src/archive.rs:560-583 | decoding undoes encoding and accepts nothing but what the encoder writes |
| `HexCodec.EncodeInjective` | crates/marginalis-archive/src/archive.rs:560-568 | different digests have different texts |
| `Archives.ToCanonical` | crates/marginalis-archive/src/archive.rs:308-355 | sorting in place, nested lists first, computes the canonical archive |
| `Archives.CanonicalIdempotent` | crates/marginalis-archive/src/archive.rs:308-355 | the canonical form of the canonical form is itself |
| `Archives.CanonicalKeepsContent` | crates/marginalis-archive/src/archive.rs:308-355 | every list is kept up to order, nested ones included |
| `Archives.CanonicalIffSameContent` | crates/marginalis-archive/src/archive.rs:308-355 | archives with unique keys have one canonical form exactly when they have the same content |
| `RecordOrder.CanonicalIsInOrder` | crates/marginalis-archive/src/archive.rs:308-355 | in a canonical archive principals and aliases are in the order of issuer and subject, notes and attachments in that of their IDs, revisions and grants in that of their notes first |
| `ArchivePrincipals.DeclareTable` | crates/marginalis-archive/src/archive.rs:1133-1190 | the loops over a set of identities find the first entry that is invalid or repeats one, and number the principals by sorted primary identity |
| `ArchivePrincipals.DeclaredPrincipalsAreDeclared` | crates/marginalis-archive/src/archive.rs:1133-1190 | the numbered table has unique IDs and disjoint identities |
| `ArchivePrincipals.RefResolves` | crates/marginalis-archive/src/archive.rs:1121-1131 | a reference that is looked up carries its identity and resolves in the table |
| `ArchiveReading.AssembleIffPartsOk` | crates/marginalis-archive/src/archive.rs:977-1025 | the builders in a row accept exactly records that fit together, and the result has the principals of the table |
| `ArchiveReading.ContentsIffPartsOk` | crates/marginalis-archive/src/archive.rs:634-1025 | reading succeeds exactly when every record reads and the records fit together |
| `RecordReading.NoteReads` | crates/marginalis-archive/src/archive.rs:640-688 | which note an entry is read as, and when: IDs, creator, revision and provenance, title and tags of its source, and times in order |
| `RecordReading.RevisionReads` | crates/marginalis-archive/src/archive.rs:689-757 | which revision an entry is read as, and when, against the current note |
| `RecordReading.AclReadsAs` | crates/marginalis-archive/src/archive.rs:758-778 | which grant an entry is read as, and when |
| `RecordReading.AttachmentReads` | crates/marginalis-archive/src/archive.rs:878-923 | which attachment an entry is read as, and when: bytes of the given size, format and digest, and a possible file name |
| `RecordReading.ReferencesRead` | crates/marginalis-archive/src/archive.rs:924-975 | an entry refers to each listed attachment, and lists exactly those that its source uses, once |
| `RecordReading.ReviewReads` | crates/marginalis-archive/src/archive.rs:1027-1055 | the five fields of a review are complete or absent, and name the owner |
| `ArchiveAcceptance.TableReads` | crates/marginalis-archive/src/archive.rs:1133-1190 | a table is read exactly when its identities are valid and stand once, as principals numbered in the order of their primary identities |
| `ArchiveAcceptance.AcceptedIff` | crates/marginalis-archive/src/archive.rs:585-600 | an archive is accepted exactly when it has the current contract, with histories, attachments and provenance, and its records can be read as records that fit together; the snapshot has these records, in order |
| `ArchivePipeline.ReadSnapshotsAreSound` | crates/marginalis-archive/src/archive.rs:977-992 | snapshots read from archives are consistent, complete, and all their attachment references are covered |
| `ArchivePipeline.ReadHistoricalOwnersResolve` | crates/marginalis-archive/src/archive.rs:696-745 | in them the owners of historical notes resolve too |
| `ArchivesOfOneNote.OneNoteIsAcceptedIff` | crates/marginalis-archive/src/archive.rs:585-599 | the archive of one revision of one note, with at most one stored attachment, is accepted exactly when identity, ID, source, revision, times and attachment are valid |
| `ArchivesOfOneNote.OneNoteComesBackIff` | crates/marginalis-archive/src/archive.rs:362-599 | accepted, it comes back as it was exactly when its IDs are printed and the file name is normal |
| `ArchivesOfOneNote.UnprintedIdDoesNotComeBack` | crates/marginalis-archive/src/archive.rs:362-599 | an accepted archive with an ID in another form does not come back as it was |
| `ArchivesOfOneNote.UnnormalNameDoesNotComeBack` | crates/marginalis-archive/src/archive.rs:362-599 | nor one with an attachment whose file name is not trimmed and normal |
| `ArchiveRoundTrip.ReviewReadsBack` | crates/marginalis-archive/src/archive.rs:1027-1055 | the five review fields are exactly what the read review writes |
| `ArchiveRoundTrip.EntryWritesBack` | crates/marginalis-archive/src/archive.rs:418-463 | a revision is written with the attachment list that was read for it |
| `ArchiveRoundTrip.WritingWhatWasRead` | crates/marginalis-archive/src/archive.rs:362-1025 | writing contents that were read gives the normalized archive in canonical order, although principals are renumbered |
| `ArchiveRoundTrip.ArchiveRoundTrip` | crates/marginalis-archive/src/archive.rs:585-599 | so it is for every archive that validation accepts |
| `ArchiveRoundTrip.RoundTripIffNormal` | crates/marginalis-archive/src/archive.rs:362-599 | the archive comes back in canonical order exactly when its IDs are printed and its file names normal |
| `ArchiveMigration.ReadingWhatWasWritten` | crates/marginalis-archive/src/archive.rs:362-599 | what is written of contents that were read is accepted, with the same contents in canonical order |
| `ArchiveMigration.MigratedIsAccepted` | crates/marginalis-archive/src/archive.rs:602-632 | a migrated archive is accepted, differs only in contract, order and normal form, and has the contents of the given one |
| `ArchiveMigration.MigratesIff` | crates/marginalis-archive/src/archive.rs:602-632 | an archive migrates exactly when it has the preceding contract, declares its principals, and would be accepted under the current contract |
| `ArchiveMigration.MigrationErrors` | crates/marginalis-archive/src/archive.rs:602-632 | when each error is reported, and for missing provenance the first note without it |
| `ArchiveUniqueness.AcceptedRecordsAreUnique` | crates/marginalis-archive/src/archive.rs:634-1025 | an accepted archive repeats no sort key |
| `ArchiveUniqueness.AcceptedIsCanonicallyUnique` | crates/marginalis-archive/src/archive.rs:308-355 | an accepted archive and another are canonically equal exactly when they have the same content |
| `AcceptedContents.ContentsAreReadable` | crates/marginalis-archive/src/archive.rs:634-1025 | every record of a snapshot that was read can be read again wherever its identities are declared, and each source uses exactly the attachments of the current revision |
| `AcceptedContents.ReadableIsExportable` | crates/marginalis-archive/src/archive.rs:634-1025 | such a snapshot meets all that an export of documents needs |
| `ArchiveItems.ReadItemIsStored` | crates/marginalis-archive/src/archive.rs:779-802 | an item that was read has a printed ID and a value that restores as this item |
| `ArchiveItems.AssembleWithIff` | crates/marginalis-application/src/snapshot.rs:161-217 | beside records of an archive, the builders accept items exactly when they repeat no ID and no citation key of an owner |
| `ArchiveItems.ValidateWithIff` | crates/marginalis-archive/src/archive.rs:977-996 | an archive with items is accepted exactly when it is accepted without them and they read and repeat nothing |
| `ItemReading.ItemReads` | crates/marginalis-archive/src/archive.rs:779-802 | an item is read exactly when its ID parses, its owner is a declared primary identity, its times and revision are valid and its value, printed and parsed again, is valid with the citation key as its ID; then it has just these fields |
| `ItemReading.AcceptedWithItemsIff` | crates/marginalis-archive/src/archive.rs:977-996 | an archive is accepted with its items exactly when it is accepted without them, every item reads, and they repeat no ID and no citation key of an owner |
| `DocumentPaths.SafePathComponent` | crates/marginalis-archive/src/documents.rs:460-485 | the loop replaces, collapses and trims as specified |
| `DocumentPaths.SafeIsSafe` | crates/marginalis-archive/src/documents.rs:460-485 | the result has no separators, control characters, white space, runs of dashes, or dots and dashes at its ends |
| `DocumentPaths.SafeFixes` | crates/marginalis-archive/src/documents.rs:460-485 | exactly the safe texts are left alone |
| `DocumentPaths.SafeIdempotent` | crates/marginalis-archive/src/documents.rs:429-485 | applying it twice changes nothing more |
| `PathTexts.SafeKeepsTheRest` | crates/marginalis-archive/src/documents.rs:460-485 | a component is its text with every run of separators made one dash, without the dashes and dots at its ends |
| `PathTexts.SafeCharacters` | crates/marginalis-archive/src/documents.rs:460-485 | of slashes of both kinds, colons, asterisks, question marks, quotes, angle brackets, bars, control characters and white space none is left, and all other characters but dashes and dots are, in order |
| `PathTexts.NameOrUnnamed` | crates/marginalis-archive/src/documents.rs:429-436 | a name stands for itself, unless nothing of it is left |
| `PathTexts.NoteFileNameText` | crates/marginalis-archive/src/documents.rs:441-453 | the file name of a note is what 40 characters of the title leave, and the ID |
| `PathTexts.DirectoryText` | crates/marginalis-archive/src/documents.rs:416-426 | the directory of an owner is the issuer without its schemes, and the subject |
| `DocumentPaths.NotePathComponents` | crates/marginalis-archive/src/documents.rs:192-215 | a note path has four components, none empty, `.` or `..` |
| `DocumentPaths.AttachmentPathComponents` | crates/marginalis-archive/src/documents.rs:225-240 | an attachment path has four components, none empty, `.` or `..` |
| `DocumentPaths.BibliographyPathComponents` | crates/marginalis-archive/src/documents.rs:416-426 | a bibliography path has three components, none empty, `.` or `..` |
| `DocumentPaths.NotePathGivesId` | crates/marginalis-archive/src/documents.rs:441-453 | paths of different notes differ, even when titles or directories coincide |
| `DocumentPaths.AttachmentPathGivesId` | crates/marginalis-archive/src/documents.rs:229-233 | paths of different attachments differ, even when names or directories coincide |
| `DocumentPaths.KindsHaveDifferentPaths` | crates/marginalis-archive/src/documents.rs:192-319 | files of different kinds never share a path |
| `DocumentPaths.OwnersShareDirectoryIff` | crates/marginalis-archive/src/documents.rs:416-426 | two owners share a directory exactly when both components agree |
| `DocumentPaths.UnsafeSubjectShares` | crates/marginalis-archive/src/documents.rs:416-485 | every subject that is empty or not safe shares its directory with another subject of the same issuer |
| `DocumentPaths.SchemeIsDropped` | crates/marginalis-archive/src/documents.rs:416-426 | an issuer shares its directories with the issuer that has another https scheme in front |
| `DocumentPaths.NoteFileNameFits` | crates/marginalis-archive/src/documents.rs:23-27 | the file name of a note fits in 255 bytes of UTF-8 |
| `DocumentPaths.AttachmentFileNameFits` | crates/marginalis-archive/src/documents.rs:229-233 | the file name of an attachment fits exactly when its own name takes at most 218 bytes |
| `DocumentPaths.ValidNameMayNotFit` | crates/marginalis-archive/src/documents.rs:229-233 | valid names of 73 to 200 characters of three bytes give file names that do not fit |
| `StateHash.NoteStateSha256` | crates/marginalis-archive/src/documents.rs:322-370 | the hasher is fed the specified stream, component by component |
| `StateHash.FrameIsPrefixFree` | crates/marginalis-archive/src/documents.rs:382-385 | a length-prefixed component ends where it ends, whatever follows |
| `StateHash.KindsDiffer` | crates/marginalis-archive/src/documents.rs:337-368 | without counts, an access list entry and an attachment never begin alike |
| `StateHash.RecordsDecode` | crates/marginalis-archive/src/documents.rs:337-368 | the record lists are uniquely decodable |
| `StateHash.StreamDeterminesState` | crates/marginalis-archive/src/documents.rs:322-370 | equal streams come from equal owner, source, sorted access list and sorted attachments |
| `StateHash.SameStreamIffSameState` | crates/marginalis-archive/src/documents.rs:322-370 | two states have one stream exactly when they differ only in the order of lists and in file paths |
| `StateReading.StreamReadsBack` | crates/marginalis-archive/src/documents.rs:322-385 | a reader of the stream finds owner and source, the grants in order and the attachments in order, and nothing else |
| `DocumentExports.GroupByOwner` | crates/marginalis-archive/src/documents.rs:137-155 | the two loops over a map of owners collect the live notes and the bibliography items of each owner in order, and enter nobody else |
| `DocumentExports.BuildNote` | crates/marginalis-archive/src/documents.rs:202-290 | the loops of one note write its file and those of its attachments, and the document with the hash of its state |
| `DocumentExports.BuildOwner` | crates/marginalis-archive/src/documents.rs:192-319 | from the entry of an owner, the sorted notes and items give the specified document and files, the bibliography file last |
| `DocumentExports.CreateDocumentExport` | crates/marginalis-archive/src/documents.rs:131-171 | going through the map of owners in the order of its keys gives the specified manifest and files |
| `ManifestContents.ManifestHasEachNote` | crates/marginalis-archive/src/documents.rs:131-319 | the manifest has an entry for each live note under its owner, with its ID, title, tags, times, revision, origin and review, file, grants and current attachments |
| `ManifestContents.ManifestHasOnlyNotes` | crates/marginalis-archive/src/documents.rs:131-319 | every entry describes a live note of its owner in this way |
| `ManifestContents.ManifestRepeatsNoNote` | crates/marginalis-archive/src/documents.rs:131-319 | no note has two entries |
| `ManifestContents.ManifestHasItems` | crates/marginalis-archive/src/documents.rs:305-318 | the items listed under an owner are those of that owner |
| `RecordOrder.ManifestIsInOrder` | crates/marginalis-archive/src/documents.rs:131-319 | owners are in the order of issuer and subject, notes in that of their IDs, items in that of their citation keys |
| `DocumentImports.ReadNoteDocument` | crates/marginalis-archive/src/documents.rs:534-630 | one note and the loop over its attachments: the first failed check stops with its error, else the row of the note and those of its attachments |
| `DocumentImports.ReadItems` | crates/marginalis-archive/src/documents.rs:643-663 | the loop over items stops at the first whose citation key the bibliography file does not have |
| `DocumentImports.ReadOwners` | crates/marginalis-archive/src/documents.rs:532-664 | the loops over owners and their notes stop at the first error, and otherwise take every note and item into account in order |
| `DocumentImports.ArchiveFromDocuments` | crates/marginalis-archive/src/documents.rs:516-714 | the nested loops with the rebuilt principals give the specified archive and items, or the specified error |
| `DocumentImports.CollectIdentities` | crates/marginalis-archive/src/archive.rs:1062-1108 | the set has exactly the identities that rows name |
| `DocumentImports.SingleIdentityArchivePrincipals` | crates/marginalis-archive/src/archive.rs:1110-1119 | going through that set in order gives the specified principals |
| `Bibliographies.FindsOwnValue` | crates/marginalis-archive/src/documents.rs:643-652 | among values with different IDs each is found under its own |
| `DocumentRows.ImportSucceedsIff` | crates/marginalis-archive/src/documents.rs:516-714 | for any manifest and any files, the import succeeds exactly when every note and attachment file is there and matches, no counter overflows and every item is found in the bibliography file of its owner; it gives one row for each note and item, in canonical order |
| `ImportErrors.ImportFailsIff` | crates/marginalis-archive/src/documents.rs:496-714 | an import fails because of its format, or else with what is wrong with the first note, in the order of the manifest and counted over all owners, or bibliography that cannot be imported |
| `ImportErrors.NoteFailsIff` | crates/marginalis-archive/src/documents.rs:534-609 | what each error says about a note, when everything that is looked at earlier is right |
| `DocumentRows.EachIdentityIsDeclaredOnce` | crates/marginalis-archive/src/archive.rs:1062-1119 | the rebuilt table declares exactly the identities that any row of the archive names, each once |
| `DocumentGrouping.GroupedIsLive` | crates/marginalis-archive/src/documents.rs:137-171 | grouping by owner loses and repeats no live note |
| `DocumentGrouping.GroupedItemsAreItems` | crates/marginalis-archive/src/documents.rs:137-171 | nor an item |
| `DocumentRoundTrip.ChangedIffEdited` | crates/marginalis-archive/src/documents.rs:585-593 | without hash collisions, the import sees a change exactly when the file of the note was edited |
| `DocumentRoundTrip.ChangedIffStateDiffers` | crates/marginalis-archive/src/documents.rs:585-593 | for any manifest entry with the hash of a state, a change is seen exactly when owner, source, access list or attachments differ from that state, whatever their order |
| `DocumentConservation.ImportRebuilds` | crates/marginalis-archive/src/documents.rs:516-714 | whatever was done to the files, a successful import has every live note once, unedited ones as exported and edited ones as their next revision, with their access lists and attachments, and every item once |
| `DocumentConservation.UneditedNoteIsKept` | crates/marginalis-archive/src/documents.rs:585-612 | an unedited note keeps its revision, its times and its review |
| `DocumentConservation.ItemIsKept` | crates/marginalis-archive/src/documents.rs:643-663 | an item keeps its ID, times and revision, and has the first value with its citation key in the bibliography file of its owner |
| `DocumentConservation.EditedNoteAdvances` | crates/marginalis-archive/src/documents.rs:594-634 | an edited note gets exactly the next revision, strictly later, with the new source and tracked reviews |
| `DocumentConservation.NextRevisionIsPending` | crates/marginalis-domain/src/model/note.rs:211-245 | a review of an earlier revision leaves the next one pending |
| `DocumentConservation.NoOverflow` | crates/marginalis-archive/src/documents.rs:594-609 | a changed note whose counters would overflow stops the import |
| `DocumentFiles.ReadDocumentArchive` | crates/marginalis-service/src/maintenance/archive.rs:497-531 | the loop refuses a repeated path and otherwise maps each path to its contents |
| `DocumentFiles.ExportedFilesAre` | crates/marginalis-archive/src/documents.rs:131-319 | the exported files are exactly those of live notes, of their current attachments, and one bibliography for each owner of a live note or an item |
| `DocumentFiles.ExportReadsBackIff` | crates/marginalis-service/src/maintenance/archive.rs:497-531 | an export is read back exactly when no two of its owners share a directory |
| `DocumentFiles.NoteFileIsFound` | crates/marginalis-archive/src/documents.rs:131-319 | by path, each note's file has its source, whatever the directories are |
| `UneditedDocuments.UneditedRoundTrip` | crates/marginalis-archive/src/documents.rs:131-714 | an export that nobody edited is read back exactly when no two owners share a directory; then importing it succeeds and gives the live notes and all items back as they were |
| `UneditedDocuments.UnsafeSubjectIsRefused` | crates/marginalis-service/src/maintenance/archive.rs:497-531 | an export with an owner whose subject is not safe, and one named like its directory, is refused |
| `ImportAcceptance.ImportIsAcceptedIff` | crates/marginalis-archive/src/documents.rs:516-714 | for a snapshot read from an archive and any edits of the files, the archive that a successful import gives is accepted exactly when every edited source is valid and uses the same attachments |
| `ImportAcceptance.UneditedIsAccepted` | crates/marginalis-archive/src/documents.rs:131-714 | documents of an accepted archive that nobody edited come back as an accepted archive |
| `ItemAcceptance.ReadItemsAreStored` | crates/marginalis-archive/src/archive.rs:779-802 | the items of an accepted archive meet all that the next two rows ask of items |
| `ItemAcceptance.ImportWithItemsIsAcceptedIff` | crates/marginalis-archive/src/documents.rs:516-714 | with its items, the archive that a successful import gives is accepted exactly when every edited source is valid and uses the same attachments, and every value found in a bibliography file restores as its item |
| `ItemAcceptance.UneditedWithItemsIsAccepted` | crates/marginalis-archive/src/documents.rs:131-714 | documents that nobody edited come back as an accepted archive, items included |

## Left out

- Bibliography items in snapshots and in writing archives, import sources, import links and macro settings: they repeat
  the shape of notes and access lists. `ArchiveItems` has how items are read and accepted, `DocumentExports` and
  `DocumentImports` how they go through documents; they are given beside the snapshot and come back beside the archive.
- ArchiveItems.ReadItemIsStored: takes the structure and the limits of CSL-JSON as a parameter.
- The AdocWeave parser: a parameter from source to title, tags and attachment IDs, assumed to yield printed IDs.
- SHA-256, Base64, JSON text, UUID and URL parsing, Unicode normalization and image detection: parameters. A digest is
  assumed not to collide only for the pairs that an import compares, never on all inputs. `LawfulCodecExists` shows that
  the assumptions on parameters can be met together.
- File system access, SQL, HTTP, identity providers and the user interface.
- DocumentFiles.ReadDocumentArchive: takes the entries of the archive as they are, without compression, limits of size,
  and the root directory that is put before every path and taken off again.
- Error positions of archive reading and migration: `validate_archive` drops them; of migration only the position of a
  note without provenance is kept. Positions of the builders, of the table of principals and of document imports are
  modelled.
- `validate_archive_contents` for archives without histories or attachments: both callers reject those before.
- Archives as mutable values: `canonical` and the readers work on values, the in-place sorts of nested lists are loops
  over sequences. The snapshot is an object with fields.
- SchemaValidator.AssertValid: takes the depth of the call stack as a parameter; a stack that is exhausted throws, as it
  does for cyclic references. Regular expressions of `pattern` are parameters, numbers are reals without NaN and infinity.
- TypeText.QuotedTextMeansItself: does not read escapes with braces or surrogate pairs written as two escapes.
- SchemaSoundness.TypeSound: states the soundness of types, not that the validator rejects everything outside them; what
  types say is `SchemaShapes.TypeIsShape`. Its conditions are sufficient for every schema; that each is needed is shown
  on families of schemas.
- SchemaShapes.TypeIsShape: leaves out an `allOf` with alternatives, whose text is read with another grouping
  (`SchemaSoundness.IntersectionMeans`).
- MathSplice.ApplyMathMacros: treats the text of formulas as code points, so the two-character delimiters are taken to be
  ASCII, as the renderer writes them; the error that is logged for excluded macros is not modelled.
- FormulaCache.RunKeepsInvariant: requests that find their formula loading render it again, as in the source; cloning
  of nodes and clearing of the typesetter are not modelled.
- Outline.Build: takes the positions of headings from the document analysis, which is not part of this model.
- DocumentConservation.ImportRebuilds: is about edits of files under the exported manifest; edits of the manifest itself
  are covered by `DocumentRows.ImportSucceedsIff` and `DocumentRoundTrip.ChangedIffStateDiffers`.
- Arithmetic: revisions and instants are signed 64-bit integers; lengths in the hash saturate at 64 bits; the running
  byte total of attachments cannot overflow because each step is checked against the quota first.
