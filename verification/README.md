# Verified model of the plugin engine

A Dafny model of the byte-level plugin engine of bethkit and of the indexes and
state machines around it. A plugin file is a header record followed by groups;
a group is a 24-byte header followed by records and nested groups; a record is a
24-byte header followed by subrecords, the long ones announced by an XXXX
override. The model keeps the form of the code: cursors, buffers, patchers,
caches, string tables and cursors over strings are classes whose methods change
their fields, each proved against a function of its inputs and old state, and
lemmas about those functions state what the code is for.

| Part | Files |
|---|---|
| Words, cursors, buffers | `Wire`, `Cursor`, `Buffer` |
| Records, subrecords, groups, whole files: parsers, printers and their inverses | `Records`, `Subrecords`, `Groups`, `Games`, `Plugins`, `Ranges`, `ByteFormat` |
| Walking a tree, lookup tables | `Traversal`, `RecordIndex`, `Schema`, `NodeIndex` |
| The sparse patcher: edits, marks, fast path, header rewrite, whole output | `Edits`, `FastPath`, `Marking`, `Flags`, `HeaderRewrite`, `HeaderReparse`, `HeaderTheorem`, `HeaderBits`, `Patcher`, `RegisteredOrders`, `PatchedPlugin`, `EditMeaning`, `OrderOutput`, `OrderGap`, `PatchSession` |
| Writing from scratch, light conversion | `Writable`, `Eslify`, `Writer`, `WrittenPlugin`, `LightPlugin` |
| Load order and record cache | `LoadOrder`, `Cache`, `PluginCache`, `GlobalIds`, `DuplicateIds` |
| Resumable string extraction | `StringBatches`, `StringCursor`, `Diagnostics`, `BatchMeaning`, `TextFree` |
| Structural addresses, schema conditions, string tables, archive hashes | `StructureHash`, `StructureIdentity`, `Expression`, `OperatorLaws`, `StringTables`, `StringTableFile`, `ArchiveHash`, `StandardCrc` |

Main results, one per part: `PatchedPlugin.OutputReparses` and
`PatchedPlugin.FastPathRefines` (what the patcher writes parses as the edited
plugin, and its shortcuts change nothing), `OrderOutput.OneOrderOutput`,
`WrittenPlugin.WrittenPluginReadsBack` and `LightPlugin.ConvertedTree`,
`PluginCache.PluginCache.Add` with `GlobalIds.LastOneWins` and
`PluginCache.PluginCache.FindByEditorId`,
`BatchMeaning.RunMeaning`, `Diagnostics.DiagnosticsExactly`,
`StructureIdentity.StreamIdentifiesStructure`, `Expression.Evaluate`
with `OperatorLaws`,
`StringTableFile.RoundTrip`, `TextFree.TextFreeExactly`, `ArchiveHash.HashFo4`.

Specification functions are not the last word: for each there are laws that fix
its value by other means, down to literal bytes in `ByteFormat` and `HeaderBits`.

Words are unbounded integers with their range as a type; truncating casts are
written out (`AsU32`, `% U64_END`). zlib inflation, UTF-8 validity, lower-casing,
string decoding and SHA-256 are parameters about which nothing is assumed.

## Where the code does not do what it is meant to, or says

- The search for reordered groups stops at the first reordered sibling
  (crates/bethkit-core/src/patcher.rs:389), so of two accepted orders for sibling
  groups the second is silently not written. `PatchedPlugin.FastPathRefines` gives
  the exact condition, `OrderGap` the general failing family and a concrete plugin.
- A call that meets a fatal record before any row drops the diagnostics its batch
  had gathered (crates/bethkit-ffi/src/schema_string_cursor.rs:239), so which
  diagnostics arrive can depend on the limits. `Diagnostics.DiagnosticsExactly`
  says exactly when it does not, `Diagnostics.FullRunDiagnoses` what is lost.
- The next object ID written after light conversion need not lie above the IDs
  just assigned (crates/bethkit-core/src/writer.rs:395-403):
  `LightPlugin.NextIdCoversNewIds` is the exact condition. The documentation of
  the conversion names the range 0x800 to 0xFFF, but for Skyrim SE the code starts
  at 1: `LightPlugin.DocumentedRange`. `LightPlugin.ConversionExamples` gives an input for each.
- New IDs of a light conversion are not checked against IDs already in use
  (crates/bethkit-core/src/writer.rs:246-249), so a word can become a reference.
  `Eslify.ReferencesExactly` says when none does, `LightPlugin.ReferenceAppears`
  gives a plugin where one does.
- A subrecord called XXXX and a `.STRINGS` payload with a NUL cannot round-trip;
  `Writable.WrittenReadsBack` and `StringTableFile.RoundTrip` are equivalences
  that say so. A dangling XXXX at the end of a record is dropped by the parser
  and kept by the patcher's header rewrite.
- The writer's record count leaves groups out, the patcher's includes them; both
  are stated against the tree a reader finds.
- The archive hash calls itself a standard CRC-32; it starts from zero and does
  not complement the result. `StandardCrc.StandardExactly` says when the two agree,
  `StandardCrc.StandardExamples` gives names for which they do not.
- The cache stores the type of the last of several records with one FormID in a
  plugin but returns the first. `DuplicateIds.FiledUnderItsType` and
  `DuplicateIds.LookupIsScan` are the exact conditions for answers that fit,
  `DuplicateIds.TwinsMisfiled` is a plugin that meets neither.

## Model

| member | source | states |
|---|---|---|
| `Cursor.SliceCursor.ReadSlice` | crates/bethkit-io/src/cursor.rs:142-153 | a read succeeds exactly when enough bytes are left, yields them and advances; a failed read moves nothing |
| `Cursor.SliceCursor.ReadU32` | crates/bethkit-io/src/cursor.rs:79-84 | the little-endian word at the old position, or end of input and an unmoved cursor |
| `Cursor.SliceCursor.PeekBytes` | crates/bethkit-io/src/cursor.rs:159-165 | the next bytes without moving the cursor, when there are that many |
| `Cursor.SliceCursor.SubCursor` | crates/bethkit-io/src/cursor.rs:201-204 | a fresh cursor over exactly the next bytes, which the outer cursor skips |
| `ByteFormat.Words` | crates/bethkit-io/src/cursor.rs:69-84 | words are little-endian, written and read |
| `ByteFormat.SignedWords` | crates/bethkit-io/src/cursor.rs:89-94 | signed words are unsigned ones less a whole turn exactly if the top bit is set |
| `Records.ParseRecordHeader` | crates/bethkit-core/src/record.rs:316-334 | the 24 header bytes at the cursor, field by field, or end of input |
| `Records.ParseRecord` | crates/bethkit-core/src/record.rs:436-474 | refines the offset-based specification of record parsing: same record, same end, same error |
| `Records.HeaderWords` | crates/bethkit-core/src/record.rs:316-334 | header bytes stand at an offset exactly when the parser reads that header there |
| `Records.RecordInverse` | crates/bethkit-core/src/record.rs:436-474 | the record parser accepts exactly the printed forms of well-formed records and stops at their last byte |
| `ByteFormat.RecordLayout` | crates/bethkit-core/src/record.rs:316-474 | which literal byte holds which header field, that bit 18 marks packed data with its inflated size in front, and which input is rejected how |
| `ByteFormat.PackedData` | crates/bethkit-core/src/record.rs:436-474 | the data of a packed record is the inflation of the bytes behind the size, of any other the bytes themselves |
| `Subrecords.ParseSubrecords` | crates/bethkit-core/src/record.rs:245-290 | refines the frame cutter: one entry per frame, at the place its payload has in the block, same errors |
| `Subrecords.FramesCover` | crates/bethkit-core/src/record.rs:245-290 | the frames and the dangling override at the end account for every byte of the block |
| `Subrecords.FramesReparse` | crates/bethkit-core/src/record.rs:245-290 | well-formed frames put one after another parse back as those frames, then as whatever follows |
| `Subrecords.WriteSubRecord` | crates/bethkit-core/src/writer.rs:26-43 | appends the plain form up to 65,535 bytes and the XXXX form above |
| `Subrecords.WrittenFrame` | crates/bethkit-core/src/writer.rs:26-43 | a written subrecord reads back as itself on both sides of the XXXX boundary, if it is not called XXXX |
| `Subrecords.WrittenSubRecordsParse` | crates/bethkit-core/src/writer.rs:26-43 | a written list of subrecords parses to exactly that list |
| `ByteFormat.SubrecordLayout` | crates/bethkit-core/src/record.rs:245-290 | signature, size and payload in literal offsets, the size override of XXXX, and all three rejections |
| `ByteFormat.WrittenSubrecord` | crates/bethkit-core/src/writer.rs:26-43 | six header bytes up to 65,535 bytes of payload, sixteen beyond, byte by byte |
| `Groups.ParseGroup` | crates/bethkit-core/src/group.rs:183-227 | refines the recursive specification of group parsing, consuming exactly the same bytes |
| `Groups.ParseChildren` | crates/bethkit-core/src/group.rs:281-318 | refines the specification of child parsing: ranges, order, and the exact meeting of the end offset |
| `Groups.TypeInverse` | crates/bethkit-core/src/group.rs:58-82 | type codes and types determine each other |
| `Groups.LabelInverse` | crates/bethkit-core/src/group.rs:105-129 | label bytes and labels determine each other for every group type, grid cells with Y before X |
| `Groups.GroupHeaderInverse` | crates/bethkit-core/src/group.rs:183-214 | a group header is read exactly where it is printed |
| `Groups.GroupInverse` | crates/bethkit-core/src/group.rs:183-227 | the group parser accepts exactly printed well-formed groups; their size field is their length |
| `Groups.ChildrenInverse` | crates/bethkit-core/src/group.rs:281-318 | the child parser accepts exactly printed well-formed children, and the captured ranges are where they stand |
| `Groups.PrintedChildrenParse` | crates/bethkit-core/src/group.rs:281-318 | printing any well-formed tree and parsing the bytes gives it back with its ranges |
| `ByteFormat.GroupLayout` | crates/bethkit-core/src/group.rs:105-214 | which literal byte holds which field of a group header, Y before X, which label goes with which type, and which input is rejected how |
| `ByteFormat.TypeCodes` | crates/bethkit-core/src/group.rs:58-82 | the code number of each of the eleven group types, and what every other number yields |
| `ByteFormat.ChildrenLayout` | crates/bethkit-core/src/group.rs:281-318 | children follow each other, a group where GRUP stands and a record elsewhere, and must meet the end of their group exactly |
| `Plugins.AsZString` | crates/bethkit-core/src/record.rs:160-178 | trailing NULs removed, then accepted exactly if the rest is valid UTF-8 |
| `Plugins.ParsePlugin` | crates/bethkit-core/src/plugin.rs:201-219 | header record first, then groups until the last byte; refines the specification of a whole file |
| `Plugins.TopGroupsInverse` | crates/bethkit-core/src/plugin.rs:201-219 | a file is accepted exactly when its groups, printed, fill it behind the header |
| `ByteFormat.HeaderFields` | crates/bethkit-core/src/plugin.rs:38-88 | version, counters and description come from the first HEDR and SNAM of a TES4 or TES3 record, with the defaults for a short HEDR and an empty text |
| `ByteFormat.MasterTexts` | crates/bethkit-core/src/plugin.rs:70-76 | the master list consists of the texts of the MAST subrecords, in order |
| `ByteFormat.Trimmed` | crates/bethkit-core/src/record.rs:160-178 | cutting trailing NULs leaves the longest part that ends in something else |
| `ByteFormat.KindByBits` | crates/bethkit-core/src/types.rs:409-424 | the plugin kind by bit numbers of the flags word: medium, update, light, master, in this order |
| `ByteFormat.LightLimits` | crates/bethkit-core/src/types.rs:304-364 | which games have light plugins, with object IDs from 1 or 2048 to 4095, and so with room for 4095 or 2048 records |
| `ByteFormat.IdFields` | crates/bethkit-core/src/types.rs:70-83 | a FormID is a file index above a 24-bit object ID; the light index is 254 |
| `Ranges.StandingTiles` | crates/bethkit-core/src/group.rs:281-318 | the ranges of children tile the bytes behind the group header, recursively |
| `Ranges.ParsedRanges` | crates/bethkit-core/src/group.rs:183-318 | all group ranges of a child list are nested or disjoint and pairwise distinct |
| `RegisteredOrders.PluginRanges` | crates/bethkit-core/src/plugin.rs:201-219 | the groups of a parsed plugin, top-level ones included, tile the file behind the header and have pairwise distinct ranges, nested or disjoint |
| `RegisteredOrders.RangeIdentifiesGroup` | crates/bethkit-core/src/patcher.rs:299-306 | a range used as a key stands for one group of the plugin |
| `Traversal.RecordsIter.Next` | crates/bethkit-core/src/group.rs:338-360 | the explicit-stack iterator yields the recursive flattening, record by record |
| `Traversal.FindRecord` | crates/bethkit-core/src/plugin.rs:275-280 | the first record with the FormID in document order |
| `RecordIndex.Collector.Collect` | crates/bethkit-ffi/src/plugin_record_index.rs:40-56 | restores the shared route and enters, per FormID, the first route found |
| `RecordIndex.RecordIndex.Get` | crates/bethkit-ffi/src/plugin_record_index.rs:26-37 | for every FormID, duplicates included, the result of the linear scan |
| `RecordIndex.CollectedEntry` | crates/bethkit-ffi/src/plugin_record_index.rs:40-56 | after collecting, an entry is the one that was there or else the first route |
| `RecordIndex.FirstRouteResolves` | crates/bethkit-ffi/src/plugin_record_index.rs:26-37 | the first route exists exactly when the scan finds a record, and leads to it |
| `NodeIndex.Collector.Collect` | crates/bethkit-schema/src/node_index.rs:43-52 | restores the shared route and enters, per path, the first route in preorder |
| `NodeIndex.NodeIndex.Get` | crates/bethkit-schema/src/node_index.rs:19-24 | the first preorder node with the path, duplicates included |
| `NodeIndex.FirstRouteLeads` | crates/bethkit-schema/src/node_index.rs:19-24 | a route exists exactly when a node with the path does, and walking it ends there |
| `Flags.PatchedBit` | crates/bethkit-core/src/patcher_header.rs:24-63 | each flag bit after a header patch: set if it was or is requested, unless it is to be cleared |
| `Flags.BitIsDigit` | crates/bethkit-core/src/patcher_header.rs:24-63 | bit i is the binary digit of weight 2 to the i |
| `HeaderBits.PatchedHeader` | crates/bethkit-core/src/patcher_header.rs:24-63 | in the bytes of the emitted header every flag bit is as requested; the compression bit stays exactly with a payload the rewrite left alone, stored as it was; all other header fields are kept |
| `HeaderBits.PatchedOutput` | crates/bethkit-core/src/patcher.rs:236-275 | the same of the flags word at offset 8 of the whole output, which no rewrite changes without a request |
| `HeaderBits.HeaderKept` | crates/bethkit-core/src/patcher_header.rs:89-158 | what a reader of a rewritten header gets for version, masters, description and flags: the old values where nothing was requested, the requested ones where they are clean text |
| `HeaderBits.HeaderSucceeds` | crates/bethkit-core/src/patcher_header.rs:24-158 | a header rewrite succeeds exactly for a usable HEDR, a tree of fewer than 2^32 nodes, and a payload below 2^32 bytes or one that stays compressed as it is |
| `HeaderBits.HeaderErrors` | crates/bethkit-core/src/patcher_header.rs:24-158 | a header rewrite of a parsed plugin fails with an encoding error only |
| `HeaderBits.OutputErrors` | crates/bethkit-core/src/patcher.rs:236-347 | writing a parsed plugin with accepted orders fails exactly if a header has to be rewritten and cannot be |
| `ByteFormat.NextIdIsLeast` | crates/bethkit-core/src/patcher_header.rs:69-87 | the next ID is at least 2049, the stored one and one past the owned ones, and equal to one of the three |
| `ByteFormat.WrittenMaster` | crates/bethkit-core/src/patcher_header.rs:161-170 | the literal bytes of a master entry: MAST, the name, a NUL, DATA and eight zeros |
| `Edits.RecordOutEdited` | crates/bethkit-core/src/patcher.rs:335-347 | what is written for a record is the printed edited record |
| `Edits.ChildrenOutEdited` | crates/bethkit-core/src/patcher.rs:277-333 | full re-serialisation emits the printed edited tree, patched at every depth and reordered |
| `Edits.EditedChildrenOk` | crates/bethkit-core/src/patcher.rs:277-333 | the edited tree is well-formed: every ancestor size is exact, as long as it fits 32 bits |
| `FastPath.ReorderedSize` | crates/bethkit-core/src/patcher.rs:299-332 | a permutation of the direct records has the same number of bytes |
| `FastPath.ReorderedBytes` | crates/bethkit-core/src/patcher.rs:299-332 | a permutation leaves the bytes unchanged exactly when it is the identity |
| `FastPath.FastPathChildren` | crates/bethkit-core/src/patcher.rs:277-298 | copying untouched groups verbatim emits the bytes of full re-serialisation exactly when every changed group is touched |
| `Marking.PatchMarksCover` | crates/bethkit-core/src/patcher.rs:351-377 | the marks for patches cover every group around a patched record |
| `Marking.CoveredIffReached` | crates/bethkit-core/src/patcher.rs:380-400 | the marks cover all changes exactly when the short-circuiting search reaches every order |
| `Marking.SingleOrderReached` | crates/bethkit-core/src/patcher.rs:380-400 | a single registered order is always reached |
| `HeaderRewrite.CountTree` | crates/bethkit-core/src/patcher_header.rs:69-87 | the worklist counts every group and record once and finds the next object ID |
| `HeaderRewrite.AppendMasters` | crates/bethkit-core/src/patcher_header.rs:161-170 | appends a MAST and its eight zero DATA bytes for every master |
| `HeaderRewrite.AppendString` | crates/bethkit-core/src/patcher_header.rs:172-176 | appends one NUL-terminated subrecord, with an override when it is long |
| `HeaderRewrite.UpdatedPayload` | crates/bethkit-core/src/patcher_header.rs:65-159 | refines the frame-wise edit of the header payload |
| `HeaderReparse.WriteUpdated` | crates/bethkit-core/src/patcher_header.rs:24-63 | refines the updated header record, keeping an unchanged compressed payload as stored |
| `HeaderReparse.PayloadReparse` | crates/bethkit-core/src/patcher_header.rs:89-158 | the edited payload parses as the edited frames |
| `HeaderReparse.UnrelatedKept` | crates/bethkit-core/src/patcher_header.rs:89-158 | every frame that is not replaced keeps its bytes and its order |
| `HeaderReparse.CountersOnly` | crates/bethkit-core/src/patcher_header.rs:89-121 | without field patches only the eight counter bytes of the first HEDR may differ |
| `HeaderReparse.MastersReadBack` | crates/bethkit-core/src/patcher_header.rs:161-170 | a replacement master list reads back as itself exactly when every name is valid text not ending in NUL |
| `HeaderReparse.EditFramesSucceed` | crates/bethkit-core/src/patcher_header.rs:89-158 | the edit succeeds exactly when the first HEDR has its twelve bytes |
| `HeaderTheorem.HeaderRecordReparse` | crates/bethkit-core/src/patcher_header.rs:24-63 | the emitted header parses, in front of anything, as the updated record |
| `HeaderTheorem.HeaderReadsBack` | crates/bethkit-core/src/plugin.rs:38-88 | a reader of the rewritten header gets the new counters, masters and description and the old version |
| `HeaderTheorem.HeaderWritable` | crates/bethkit-core/src/patcher_header.rs:65-159 | the payload can be rewritten exactly when the HEDR is usable and the tree small enough to count |
| `HeaderTheorem.OwnedEndIsLeast` | crates/bethkit-core/src/patcher_header.rs:69-87 | the next ID bound lies above every owned object ID and is no larger than it has to be |
| `Patcher.MarkTouched` | crates/bethkit-core/src/patcher.rs:351-377 | inserts exactly the ranges of groups with a patched record inside |
| `Patcher.MarkReordered` | crates/bethkit-core/src/patcher.rs:380-400 | inserts exactly the ranges the short-circuiting search visits |
| `Patcher.PluginPatcher.ReplaceRecord` | crates/bethkit-core/src/patcher.rs:143-146 | the last replacement registered for a FormID counts |
| `Patcher.PluginPatcher.ReorderGroupRecords` | crates/bethkit-core/src/patcher.rs:159-203 | accepted exactly when the order is a permutation of the direct records; rejection changes nothing; orders for groups of the plugin keep all orders fitting |
| `Patcher.PluginPatcher.WriteTo` | crates/bethkit-core/src/patcher.rs:236-275 | without edits the source bytes, otherwise the specified output or its error |
| `Patcher.WriteGroup` | crates/bethkit-core/src/patcher.rs:277-333 | verbatim copy of an untouched group, re-emission with recomputed size of a touched one |
| `Patcher.WriteRecord` | crates/bethkit-core/src/patcher.rs:335-347 | the replacement if there is one, else the source bytes of the record |
| `Patcher.WriteGroupHeader` | crates/bethkit-core/src/patcher.rs:406-437 | the 24 header bytes with the new size |
| `Patcher.OrderFitsByElements` | crates/bethkit-core/src/patcher.rs:159-203 | the duplicate, membership and count checks together mean permutation |
| `PatchedPlugin.FastPathRefines` | crates/bethkit-core/src/patcher.rs:236-333 | over a whole plugin the fast path equals full re-serialisation exactly when the search reaches every changing order |
| `PatchedPlugin.AtMostOneOrderReached` | crates/bethkit-core/src/patcher.rs:380-400 | patches alone, or patches with one order, never meet the gap of the search |
| `PatchedPlugin.GroupsReparse` | crates/bethkit-core/src/patcher.rs:277-347 | the emitted groups parse, behind any header, as the edited tree |
| `PatchedPlugin.OutputReparses` | crates/bethkit-core/src/patcher.rs:236-275 | the whole output parses as a plugin with the edited groups and the updated header |
| `RegisteredOrders.OrdersStayFit` | crates/bethkit-core/src/patcher.rs:159-203 | registering an accepted order for a group of the plugin leaves every registered order fitting its group |
| `OrderOutput.OrdersWorkable` | crates/bethkit-core/src/patcher.rs:236-275 | accepted orders without patches can be written completely exactly when the search reaches them; sizes always fit |
| `OrderOutput.OrderPermutes` | crates/bethkit-core/src/patcher.rs:159-203 | an accepted order yields the same records, each exactly once, in the requested order |
| `OrderOutput.EditedIsRearranged` | crates/bethkit-core/src/patcher.rs:299-332 | one order changes nothing but the child list of its group: all headers and other children are kept |
| `OrderOutput.OneOrderOutput` | crates/bethkit-core/src/patcher.rs:159-275 | one accepted order, end to end: the output parses as the old plugin with that group permuted as requested, byte-identical records and unchanged group headers |
| `PatchedPlugin.UnmarkedOutput` | crates/bethkit-core/src/patcher.rs:236-275 | with nothing marked and no header patch the output is the source |
| `EditMeaning.FlattenEdited` | crates/bethkit-core/src/patcher.rs:335-347 | with patches alone the records in document order are the old ones, exactly the patched ones replaced |
| `EditMeaning.HeaderCountsOutput` | crates/bethkit-core/src/patcher_header.rs:69-87 | the written record count is the number of groups and records a reader finds |
| `EditMeaning.NextIdAboveOutput` | crates/bethkit-core/src/patcher_header.rs:69-87 | with patches that keep their FormIDs and any orders, the written next ID is at least the old one and above every owned object ID a reader finds |
| `EditMeaning.UnaffectedKept` | crates/bethkit-core/src/patcher.rs:277-298 | a subtree no edit reaches is part of the output as it was |
| `EditMeaning.ReorderedGroup` | crates/bethkit-core/src/patcher.rs:299-332 | a reordered group holds its records, patched if they are, in the requested order |
| `EditMeaning.ReorderingKeepsSizes` | crates/bethkit-core/src/patcher.rs:299-332 | reordering alone keeps every group size |
| `OrderGap.SecondOrderMissed` | crates/bethkit-core/src/patcher.rs:380-400 | the later of two reordered siblings is not reached unless a patch marks it |
| `OrderGap.SecondOrderLost` | crates/bethkit-core/src/patcher.rs:380-400 | then the emitted groups are not those of the requested tree |
| `OrderGap.LostOrderExample` | crates/bethkit-core/src/patcher.rs:380-400 | a concrete plugin with a usable header in which one of two accepted orders is lost |
| `PatchSession.BethkitPluginPatcher.ReplaceRecord` | crates/bethkit-ffi/src/patcher.rs:106-161 | which replacements are accepted, what is stored, and that a refusal changes nothing; stored patches stay exact and keep their identity as long as payloads fit 32-bit sizes |
| `PatchSession.BethkitPluginPatcher.ToBytes` | crates/bethkit-ffi/src/patcher.rs:26-34 | the output of a patcher with exactly the session replacements |
| `PatchSession.ReplacementBytes` | crates/bethkit-ffi/src/patcher.rs:144-156 | splicing bytes 16..20 and 22..24 prints the new contents with the old revision metadata; parsed exactly when the payload fits its size field |
| `PatchSession.SessionReadsBack` | crates/bethkit-ffi/src/patcher.rs:26-34 | what a session writes parses back; each FormID finds its replacement or, without one, the old record |
| `PatchSession.WritablePatchExact` | crates/bethkit-core/src/patcher.rs:76-80 | a serialised writable record is an exact patch exactly under the stated conditions on name and compression flag |
| `PatchSession.ReplacementLayout` | crates/bethkit-ffi/src/patcher.rs:144-156 | the stored bytes by offset: new ID, flags without bit 18, version and contents; revision metadata of the old header |
| `PatchSession.Verdicts` | crates/bethkit-ffi/src/patcher.rs:106-143 | which replacements are accepted and which are refused first |
| `Writable.WriteRecord` | crates/bethkit-core/src/writer.rs:62-77 | header with computed size, then the subrecords |
| `Writable.WriteGroup` | crates/bethkit-core/src/writer.rs:100-119 | header with computed size, then the children in order |
| `ByteFormat.WrittenRecordLayout` | crates/bethkit-core/src/writer.rs:62-77 | a written record by byte offsets, both metadata words zero |
| `ByteFormat.WrittenGroupLayout` | crates/bethkit-core/src/writer.rs:100-119 | a written group by byte offsets, both trailing words zero |
| `Writable.WrittenReadsBack` | crates/bethkit-core/src/writer.rs:26-119 | written contents parse back to the same tree and subrecord lists exactly when types are known and no GRUP, XXXX or compression flag is involved |
| `Writable.OverridesVanish` | crates/bethkit-core/src/record.rs:245-290 | no parsed subrecord is called XXXX |
| `Writable.FoldedSizeIsPrinted` | crates/bethkit-core/src/record.rs:387-399 | the folded snapshot size is the printed length of the body, capped at the 32-bit maximum |
| `Writable.SnapshotHeader` | crates/bethkit-core/src/record.rs:387-420 | a snapshot has the header that writing and parsing the record yields |
| `Writer.PluginWriter.WriteTes4` | crates/bethkit-core/src/writer.rs:306-374 | the header record over the current fields and records |
| `Writer.PluginWriter.WriteToVec` | crates/bethkit-core/src/writer.rs:265-272 | header, then the groups in order |
| `HeaderBits.WrittenFlags` | crates/bethkit-core/src/writer.rs:354-366 | in the bytes of the written header bit 7 is set exactly for localized plugins, bit 9, or 8 for Starfield, exactly for light ones, and no other bit |
| `ByteFormat.WrittenHeaderLayout` | crates/bethkit-core/src/writer.rs:306-374 | the written header by byte offsets: TES4 or TES3, flags, zeros, HEDR with version, record count and next ID |
| `Writer.PluginWriter.Eslify` | crates/bethkit-core/src/writer.rs:215-258 | fails exactly for unsupported games and too many records, changing nothing; otherwise renames the tree |
| `WrittenPlugin.WrittenPluginReadsBack` | crates/bethkit-core/src/writer.rs:265-374 | parsing the written file recovers groups, records, subrecords, masters and description, with a count of the records only |
| `WrittenPlugin.NextObjectIdIsLeast` | crates/bethkit-core/src/writer.rs:395-403 | above every owned object ID and no larger than needed; 0x800 when nothing is owned |
| `WrittenPlugin.LightFlagRead` | crates/bethkit-core/src/types.rs:409-424 | a plugin written with the light flag is recognised as light |
| `Eslify.RemapFormIdsInBytes` | crates/bethkit-core/src/writer.rs:436-445 | in place, each aligned word is replaced exactly if it is a key, all at once, and the tail is kept |
| `Eslify.RenamedWord` | crates/bethkit-core/src/writer.rs:436-445 | word by word the renamed payload is the renaming of the words |
| `Eslify.RenamedTail` | crates/bethkit-core/src/writer.rs:436-445 | the bytes behind the last whole word are kept |
| `Eslify.BuildRemap` | crates/bethkit-core/src/writer.rs:235-248 | sequential new IDs, the last one counting for a repeated ID |
| `Eslify.OwnedInOrder` | crates/bethkit-core/src/writer.rs:224-233 | the IDs to be renamed are listed in document order with their repetitions |
| `Eslify.RemapMeaning` | crates/bethkit-core/src/writer.rs:235-248 | the keys are the owned IDs, the new IDs are distinct and consecutive from the first |
| `Eslify.ApplyInGroup` | crates/bethkit-core/src/writer.rs:413-425 | renames the header ID and every payload of every record below |
| `Eslify.RenamingKeepsShape` | crates/bethkit-core/src/writer.rs:407-425 | nesting, kinds, flags and payload lengths are kept |
| `Eslify.RenamingFaithful` | crates/bethkit-core/src/writer.rs:436-445 | renaming identifies no two mentioned IDs exactly when no new ID was mentioned before |
| `Eslify.ReferencesExactly` | crates/bethkit-core/src/writer.rs:407-445 | every aligned word refers to the same records as before exactly if no word and FormID are made equal of which one alone is a key |
| `LightPlugin.LightRemapMeaning` | crates/bethkit-core/src/writer.rs:215-258 | distinct owned IDs, and nothing else, get distinct IDs in the light range of the game |
| `LightPlugin.NewIds` | crates/bethkit-core/src/writer.rs:235-248 | each owned ID gets the number of the place where it occurs last, counted from the start of the range |
| `LightPlugin.DocumentedRange` | crates/bethkit-core/src/writer.rs:195-197 | the new IDs lie in the documented range 0x800 to 0xFFF exactly if every owned ID at a place that counts below 0x800 occurs again later |
| `LightPlugin.NewIdsAreNew` | crates/bethkit-core/src/writer.rs:246-252 | no new ID is itself renamed, exactly if there are not 254 masters or no last place counts up to an owned ID |
| `LightPlugin.NothingOwnedAfter` | crates/bethkit-core/src/writer.rs:395-403 | after conversion nothing counts as owned, exactly if there are not 254 masters or nothing was owned before |
| `LightPlugin.NextIdCoversNewIds` | crates/bethkit-core/src/writer.rs:392-403 | the next object ID written after conversion is above all new IDs exactly if there are none, there are 254 masters, or they all fit below 0x800 |
| `LightPlugin.ConversionExamples` | crates/bethkit-core/src/writer.rs:215-258 | one record suffices: Fallout 4 assigns 0x800 and announces it as free, Skyrim SE assigns 1 |
| `LightPlugin.NothingToRename` | crates/bethkit-core/src/writer.rs:407-425 | an empty renaming, as of a plugin that owns nothing, changes nothing |
| `LightPlugin.ConvertedTree` | crates/bethkit-core/src/writer.rs:215-258 | conversion keeps shape and printed size, renames each record on its own, and preserves the references between records exactly if no new ID was in use on one side of one |
| `LightPlugin.ReferenceAppears` | crates/bethkit-core/src/writer.rs:235-253 | a payload word that equals the new ID of a record becomes a reference to it |
| `LoadOrder.LoadOrder.Push` | crates/bethkit-core/src/load_order.rs:94-124 | appends the entry exactly while its kind has numbers left; failure changes nothing |
| `LoadOrder.LoadOrder.ResolveId` | crates/bethkit-core/src/load_order.rs:161-197 | agrees with a scan of the entries for the owner |
| `LoadOrder.NumbersDistinct` | crates/bethkit-core/src/load_order.rs:94-124 | no two light plugins share a slot, no two regular ones an index |
| `LoadOrder.SlotOwner` | crates/bethkit-core/src/load_order.rs:161-197 | a slot resolves to the one plugin that holds it |
| `LoadOrder.ResolutionStable` | crates/bethkit-core/src/load_order.rs:161-197 | later plugins never change what a FormID resolved to |
| `GlobalIds.ResolutionExactly` | crates/bethkit-core/src/load_order.rs:161-197 | a raw ID resolves to object o of a plugin exactly if it is put together from o and the place of that plugin: among the masters, behind them, or among the light plugins |
| `GlobalIds.MastersApart` | crates/bethkit-core/src/load_order.rs:183-197 | one object number under two masters of different names gives two global IDs, with exactly those names |
| `GlobalIds.LightIds` | crates/bethkit-core/src/load_order.rs:170-181 | a 0xFE ID with the number of a light plugin stands for that plugin and nothing else |
| `PluginCache.PluginCache.Add` | crates/bethkit-core/src/cache.rs:127-176 | keeps the last-writer-wins fold over the whole history and the bucket partition; a failed add changes nothing |
| `PluginCache.PluginCache.ResolveRecord` | crates/bethkit-core/src/cache.rs:184-187 | a record exactly for indexed IDs: the first with the stored raw FormID |
| `PluginCache.PluginCache.FindByEditorId` | crates/bethkit-core/src/cache.rs:199-238 | built lazily or not, the last winner with the editor ID that a direct scan meets |
| `PluginCache.PluginCache.RecordsOfType` | crates/bethkit-core/src/cache.rs:252-264 | the winners of a record type, each exactly once |
| `PluginCache.BuildIndex` | crates/bethkit-core/src/cache.rs:203-233 | one pass over the plugins agrees with the scan of all winners |
| `GlobalIds.LastOneWins` | crates/bethkit-core/src/cache.rs:127-176 | a global ID is indexed exactly if some record stands for it, under the place and type of the last such record in load and document order |
| `GlobalIds.CacheHolds` | crates/bethkit-core/src/cache.rs:127-187 | the same of a cache object after any additions and lookups |
| `GlobalIds.OverrideWins` | crates/bethkit-core/src/cache.rs:127-187 | a plugin that names an earlier one as any of its masters overrides its record, and a lookup finds the override |
| `Cache.EditorIdIs` | crates/bethkit-core/src/record.rs:539-544 | the editor ID is the text of the first EDID subrecord |
| `DuplicateIds.StoredTypeIsLast` | crates/bethkit-core/src/cache.rs:158-171 | the stored type is that of the last record with the stored raw FormID in the stored plugin |
| `DuplicateIds.FiledUnderItsType` | crates/bethkit-core/src/cache.rs:252-264 | the record returned for an indexed ID has the type it is filed under exactly if the first and the last record with its FormID in its plugin are of one type |
| `DuplicateIds.LookupIsScan` | crates/bethkit-core/src/cache.rs:184-238 | looking up any winner returns the record the scan met exactly if records of one plugin that share a winning FormID are equal |
| `DuplicateIds.TwinsMisfiled` | crates/bethkit-core/src/cache.rs:184-264 | a plugin, written and parsed, of two records with one FormID: filed as the type and found under the editor ID of the second, returned is the first |
| `Cache.RebucketedPartition` | crates/bethkit-core/src/cache.rs:158-171 | moving one ID between buckets keeps the partition, also when the type changes |
| `Cache.WinnersOk` | crates/bethkit-core/src/cache.rs:158-171 | every winner names a record that resolves to it, so plugin and raw FormID determine one global ID |
| `StringCursor.BethkitStringCursor.NextRecord` | crates/bethkit-ffi/src/schema_string_cursor.rs:31-60 | the position stack yields the remaining records of the recursive preorder one by one |
| `StringCursor.BethkitStringCursor.NextJson` | crates/bethkit-ffi/src/schema_string_cursor.rs:178-260 | one call is one step of the batch state machine |
| `StringBatches.NextSettles` | crates/bethkit-ffi/src/schema_string_cursor.rs:178-260 | a reply and what is still owed add up to what was owed; `done` only when nothing is left |
| `StringBatches.RunSettles` | crates/bethkit-ffi/src/schema_string_cursor.rs:178-260 | for any limits, delivered rows and reported errors plus what is owed are those of one walk |
| `StringBatches.FullRun` | crates/bethkit-ffi/src/schema_string_cursor.rs:178-260 | any long enough run delivers exactly the rows up to the first fatal record and reports its error once |
| `StringBatches.DoneMeansAll` | crates/bethkit-ffi/src/schema_string_cursor.rs:200-210 | a run that says `done` has delivered everything and there was no fatal record |
| `StringBatches.EnoughCallsFinish` | crates/bethkit-ffi/src/schema_string_cursor.rs:178-260 | as many valid calls as there are records, and two more, end in `done` or in the error |
| `StringBatches.FailureSticks` | crates/bethkit-ffi/src/schema_string_cursor.rs:186-194 | after a reported error every call is refused |
| `BatchMeaning.RunMeaning` | crates/bethkit-ffi/src/schema_string_cursor.rs:178-260 | rows, error and diagnostics of any full run in terms of the decoder and the creation flags alone |
| `BatchMeaning.EverythingDelivered` | crates/bethkit-ffi/src/schema_string_cursor.rs:209-245 | without text-free types, or with strict validation, the decoded rows of every record before the first broken one arrive, and its error |
| `BatchMeaning.SkippingIsHarmless` | crates/bethkit-ffi/src/schema_string_cursor.rs:211-214 | if text-free types decode to no rows, validating them or not makes no difference to rows and errors |
| `BatchMeaning.BrokenRecord` | crates/bethkit-ffi/src/schema_string_cursor.rs:222-239 | a broken record becomes a diagnostic exactly if text-free, validated and preserved, and ends the walk exactly if decoded and not preserved |
| `BatchMeaning.BatchEnds` | crates/bethkit-ffi/src/schema_string_cursor.rs:178-260 | a batch ends at the limit, the end, an error, 4096 rows or 2 MiB, and not one record later |
| `Diagnostics.DiagnosticsSettle` | crates/bethkit-ffi/src/schema_string_cursor.rs:222-256 | for any limits, diagnostics delivered, lost to a reported error and still owed are those of one walk |
| `Diagnostics.FullRunDiagnoses` | crates/bethkit-ffi/src/schema_string_cursor.rs:178-260 | a full run delivers all diagnostics but those owed when a call reports the fatal record |
| `Diagnostics.AbortsExactly` | crates/bethkit-ffi/src/schema_string_cursor.rs:203-245 | a batch is dropped exactly when the fatal record is within its limits and no row comes before it |
| `Diagnostics.DiagnosticsExactly` | crates/bethkit-ffi/src/schema_string_cursor.rs:178-260 | every full run delivers every diagnostic exactly when each noted record is kept apart from the fatal one by a row, by 255 records, or by counted payload that ends a batch |
| `Diagnostics.DiagnosticLost` | crates/bethkit-ffi/src/schema_string_cursor.rs:233-239 | the smallest case: lost in a batch of two, delivered in batches of one |
| `StructureHash.HashValue` | crates/bethkit-semantic/src/address.rs:119-151 | feeds exactly the stream of the value shape |
| `StructureHash.HashField` | crates/bethkit-semantic/src/address.rs:85-104 | feeds exactly the stream of the field skeleton |
| `StructureHash.StructureHash` | crates/bethkit-semantic/src/address.rs:81-106 | the hexadecimal digest of the stream of all skeletons |
| `StructureIdentity.StreamIdentifiesStructure` | crates/bethkit-semantic/src/address.rs:81-151 | two field lists with sizes below 2^64 feed the same bytes exactly when field by field they agree in place, schema node, scopes, selections and the kinds of their values all the way down |
| `StructureIdentity.HashIdentifiesStructure` | crates/bethkit-semantic/src/address.rs:62-106 | structure hashes are equal exactly for the same structure, or when the digest function collides on the two streams |
| `StructureIdentity.EditKeepsShape` | crates/bethkit-semantic/src/address.rs:75-80 | an edit anywhere in a value keeps the skeleton exactly when the new part has the shape of the old one |
| `StructureIdentity.HexInjective` | crates/bethkit-semantic/src/address.rs:62-73 | hexadecimal forms are equal exactly when the digests are |
| `StructureIdentity.DomainName` | crates/bethkit-semantic/src/address.rs:81-83 | the stream starts with the name of the address format |
| `StructureIdentity.KindBytes` | crates/bethkit-semantic/src/address.rs:119-151 | the kind number of every variant, and that only structs and arrays are descended into |
| `StructureIdentity.HexDigits` | crates/bethkit-semantic/src/address.rs:62-73 | which characters the two digits of a byte are |
| `Expression.Evaluate` | crates/bethkit-schema/src/expression.rs:199-202 | the unbounded result, value or error, when the budget covers the cost; exhaustion otherwise |
| `Expression.EvaluateInner` | crates/bethkit-schema/src/expression.rs:204-355 | spends exactly the cost, or everything |
| `Expression.CostBound` | crates/bethkit-schema/src/expression.rs:204-355 | the cost is at most the number of nodes and lookup cases |
| `Expression.FirstDecides` | crates/bethkit-schema/src/expression.rs:262-277 | a conjunction or disjunction is decided by its first operand that is not neutral, errors included |
| `Expression.LookupFinds` | crates/bethkit-schema/src/expression.rs:324-342 | a sorted lookup finds its case and pays for the cases up to it |
| `Expression.OnesAreBits` | crates/bethkit-schema/src/expression.rs:320-323 | counting ones counts the bits the bit test reports |
| `Expression.SignBit` | crates/bethkit-schema/src/expression.rs:253-261 | bit 63 is the sign |
| `OperatorLaws.LessThanLaw` | crates/bethkit-schema/src/expression.rs:248-252 | less than holds exactly if something positive is missing |
| `OperatorLaws.EqualityLaw` | crates/bethkit-schema/src/expression.rs:238-247 | equal means same type and content; unequal is the opposite |
| `OperatorLaws.SumLaw` | crates/bethkit-schema/src/expression.rs:282-289 | a sum is the one integer from which taking one operand leaves the other, or an overflow |
| `OperatorLaws.DifferenceLaw` | crates/bethkit-schema/src/expression.rs:290-299 | a difference is the one integer that restores the first operand, or an overflow |
| `OperatorLaws.ProductLaw` | crates/bethkit-schema/src/expression.rs:300-309 | a product is repeated addition, negated for a negative factor, or an overflow |
| `OperatorLaws.Distributes` | crates/bethkit-schema/src/expression.rs:282-309 | multiplying a sum is adding products |
| `OperatorLaws.QuotientLaw` | crates/bethkit-schema/src/expression.rs:310-319 | a quotient is cut off toward zero, with the sign of both operands; it fails exactly for zero and for the one quotient out of range |
| `OperatorLaws.OperandFaults` | crates/bethkit-schema/src/expression.rs:238-319 | a failing or mistyped operand is reported, the left one first |
| `OperatorLaws.BranchLaw` | crates/bethkit-schema/src/expression.rs:343-354 | negation and branching by the value of the condition, errors included |
| `OperatorLaws.JunctionLaw` | crates/bethkit-schema/src/expression.rs:262-278 | a conjunction is true if all operands are, a disjunction if one is |
| `OperatorLaws.BitLaw` | crates/bethkit-schema/src/expression.rs:253-261 | the bit test yields the binary digit of its weight, negative numbers in two's complement |
| `OperatorLaws.BitCountLaw` | crates/bethkit-schema/src/expression.rs:320-323 | counting bits counts the bit tests that succeed |
| `OperatorLaws.LookupLaw` | crates/bethkit-schema/src/expression.rs:324-342 | a table yields its first case for the key, or the default |
| `OperatorLaws.ReadLaw` | crates/bethkit-schema/src/expression.rs:357-390 | a read yields the number whose base-256 digits are the bytes, and fails in three ways, in order |
| `OperatorLaws.LeafLaw` | crates/bethkit-schema/src/expression.rs:212-237 | literals, payload length, form version, fields and record type yield what the context says |
| `StringTables.StringTable.Insert` | crates/bethkit-core/src/strings.rs:222-227 | stores the payload and moves the next identifier behind it, up to the 32-bit limit |
| `StringTables.StringTable.TryInsertNew` | crates/bethkit-core/src/strings.rs:253-271 | a nonzero unused identifier, the lowest free one at the limit; fails exactly when none is free, changing nothing |
| `StringTables.StringTable.Remove` | crates/bethkit-core/src/strings.rs:274-279 | returns the payload and forgets the identifier |
| `StringTables.StringTable.WriteTo` | crates/bethkit-core/src/strings.rs:286-309 | header, directory and blob in ascending order |
| `StringTables.FromBytes` | crates/bethkit-core/src/strings.rs:167-187 | the table a file stands for, or its error |
| `StringTables.ReadPayload` | crates/bethkit-core/src/strings.rs:408-449 | both payload formats with all their errors |
| `StringTableFile.FileLayout` | crates/bethkit-core/src/strings.rs:286-309 | count, blob length, directory and blob in literal offsets |
| `StringTableFile.PayloadLayout` | crates/bethkit-core/src/strings.rs:286-309 | one payload in the blob: with a NUL, and in two of the kinds with its length in front |
| `StringTableFile.PayloadMeaning` | crates/bethkit-core/src/strings.rs:408-449 | a payload goes up to the first NUL, or as far as its stored length says |
| `StringTableFile.TableMeaning` | crates/bethkit-core/src/strings.rs:167-187 | a table has the identifiers of its directory, each with the payload of its last entry |
| `StringTableFile.WrittenTableReads` | crates/bethkit-core/src/strings.rs:286-309 | a written table reads back with every payload, `.STRINGS` payloads cut at their first NUL |
| `StringTableFile.RoundTrip` | crates/bethkit-core/src/strings.rs:286-309 | the table survives exactly when lengths are stored or no payload has a NUL |
| `StringTableFile.ParsedTableStable` | crates/bethkit-core/src/strings.rs:167-187 | any table read from a file can be written and read again without loss |
| `TextFree.TextFreeExactly` | crates/bethkit-ffi/src/schema_snapshot.rs:464-497 | "no strings" is answered exactly when every path, of any length, is short enough and meets nothing that may hold text |
| `TextFree.TextFreeIsSound` | crates/bethkit-ffi/src/schema_snapshot.rs:464-497 | then no path of any length reaches a translatable string, a custom node or a dangling reference |
| `TextFree.TextLimits` | crates/bethkit-ffi/src/schema_snapshot.rs:456-476 | what counts as translatable, and that a branch is reported free of text exactly if no path meets any or has more than 128 edges |
| `Schema.DirectlyInside` | crates/bethkit-schema/src/node_index.rs:27-41 | the direct inner nodes of every kind, in order |
| `TextFree.CyclesAreConservative` | crates/bethkit-ffi/src/schema_snapshot.rs:470-472 | whatever reaches a reference cycle is treated as if it held text |
| `TextFree.PayloadNode` | crates/bethkit-ffi/src/schema_snapshot.rs:435-454 | steps through wrappers only, and stops early only at something that is none |
| `TextFree.PayloadStaysTextFree` | crates/bethkit-ffi/src/schema_snapshot.rs:401-431 | looking through wrappers keeps a branch text-free |
| `ArchiveHash.CrcTable` | crates/bethkit-bsa/src/hash.rs:192-209 | entry i is eight conditional shifts of i |
| `ArchiveHash.HashFo4` | crates/bethkit-bsa/src/hash.rs:171-184 | the table-driven hash is the bit-by-bit remainder of the normalised name |
| `ArchiveHash.TableStep` | crates/bethkit-bsa/src/hash.rs:171-184 | one table step feeds the eight bits of a byte |
| `ArchiveHash.AlikeExactly` | crates/bethkit-bsa/src/hash.rs:174-181 | bytes are normalised alike exactly when they differ in ASCII case or slash direction or are both beyond ASCII |
| `ArchiveHash.AlikeNames` | crates/bethkit-bsa/src/hash.rs:171-184 | names that are alike byte for byte have one normal form |
| `StandardCrc.NameBytes` | crates/bethkit-bsa/src/hash.rs:171-184 | the polynomial as a number, and what each byte contributes: upper-case letters as lower-case, 47 as 92, nothing from 128 on |
| `StandardCrc.StartSplitsOff` | crates/bethkit-bsa/src/hash.rs:171-184 | the remainder from any start value is the remainder from zero, altered by what the start value becomes over as many zero bytes |
| `StandardCrc.StandardExactly` | crates/bethkit-bsa/src/hash.rs:158-184 | the hash is the standard CRC-32 of the normalised name exactly if all ones survive as many zero bytes: a matter of the length alone |
| `StandardCrc.StandardExamples` | crates/bethkit-bsa/src/hash.rs:158-184 | they differ for every name of one ASCII character and agree for the empty name |
| `ArchiveHash.Sdbm` | crates/bethkit-bsa/src/hash.rs:115-136 | the shift-and-add loop is a polynomial modulo 2 to the 32 |

## Left out

- Files, memory maps, streams and their errors: input and output are byte sequences, and a failed write leaves no partial output to talk about.
- The C boundary: null checks, pointers, ownership, panics and JSON text; the checks of the patch session and the cursor's state machine are in.
- zlib, UTF-8, lower-casing, string decoding and SHA-256 themselves; they are parameters.
- That lower-casing twice changes nothing: names are lowered as often as the code does it, twice for a plugin's own records, once for light plugins and for masters.
- Error messages and offsets; error kinds are kept.
- `usize` overflow in offset sums, which needs inputs of 2^64 bytes; sizes that must fit 32-bit fields are preconditions, as the code truncates them.
- Lazily initialised, shared caches of parsed subrecords and schema routes, and their races: each is a pure function of what it is filled from.
- Trees under construction are values: the writer renames a tree by building the renamed one, payload arrays are edited in place; aliasing between nested Rust values cannot occur there either.
- The ordered map of a string table is a map with its ascending list of keys; mapped and owned payloads are not told apart.
- Words in the archive CRC are their 32 bits; `hash_tes3`, the low half of the older file hash and path splitting are left out, as they assert nothing beyond their bodies.
- The seven operators of schema expressions with two operands are one constructor with an operator; order of evaluation and type checks are as in the code.
- `WritableRecordIter` has the stack discipline of `RecordsIter`, which is modelled; the writer's records are the recursive flattening.
- Archive readers and writers, schema packages, decoders, the semantic editor, `flatten_strings` and the JSON projections of values, record cleaning, fingerprints, implicit FormIDs and code pages.
- Floating point: HEDR versions and float fields are their four bytes.
- FastPath.FastPathChildren: assumes the touched set covers all patches, because the code computes it so; `Marking.PatchMarksCover` proves that it does.
- EditMeaning.NextIdAboveOutput: assumes that patches keep the FormID they are registered for, because raw patches are not checked; patch sessions establish it.
- StringTableFile.WrittenTableReads: assumes a blob below 2^32 bytes, because the offsets are truncated to 32 bits.
