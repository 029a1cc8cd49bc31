# League Mod Repather — a Dafny model of its repathing core

League Mod Repather takes a League of Legends skin mod (a `.fantome` archive
holding one or more `.wad.client` archives) and relocates every asset the
mod's BIN documents reference. Each asset gets a `bum` segment in its path,
so the mod no longer collides with the game's own files. The repathing engine
is the `_LocalBum` class, a port of the "bumpath" tool:

- `add_source_dirs` indexes the unpacked files under canonical keys.
- `scan` walks the selected BINs and everything they link to, and records
  every asset string.
- `bum` copies each found file to its relocated path, rewrites the strings
  inside the copied BINs, and can merge linked BINs into the BIN that links
  to them.

Around the engine sit:

- the missing-file auditor (`_pyntex_*`);
- the two hash-table readers;
- the naming rules of WAD extraction and packing;
- the choice of the champion WAD inside a fantome;
- the placement of placeholder textures.

The model is written in Dafny, one module per component:

| module | file | models |
|---|---|---|
| `Wrappers` | wrappers.dfy | `Option` / `Result` |
| `Text` | text.dfy | the Python `str` operations used (ASCII case mapping, `split`, `join`, `find`, `strip`, `Path.name`) |
| `Hashing` | hashing.dfy | `unify_path` and `_pyntex_unify_path`; the WAD hasher is a parameter |
| `BinTree` | bin_tree.dfy | the typed field tree of a BIN document |
| `Scanning` | scanning.dfy | `scan_value` / `scan_field` for one entry |
| `Repathing` | repathing.dfy | `bum_path`, `bum_value`, `bum_field` |
| `CharacterBin` | character_bin.dfy | `_is_character_bin` |
| `LinkClosure` | link_closure.dfy | `_flat_list_linked_bins` |
| `OutputPaths` | output_paths.dfy | where `bum` writes each file (`os.path.join`, `basename`, `splitext`) |
| `ScanRun` | scan_run.dfy | `scan` and `scan_bin` over the whole state, as functions |
| `SourceIndex` | source_index.dfy | `add_source_dirs` and bin selection, as functions |
| `BumRun` | bum_run.dfy | `bum`: refusals, copy loop, `bum_bin`, combining linked BINs |
| `Engine` | local_bum.dfy | class `LocalBum`: the engine's mutable state and its methods, each proved equal to the functions above |
| `Auditor` | auditor.dfy | `_pyntex_check_dir`, `_pyntex_parse_bin`, and class `Auditor` over `existing_files` |
| `HashTables` | hash_tables.dfy | `_load_wad_hashtables` and `_HashStorage.read_all_hashes` |
| `Packing` | packing.dfy | the chunk file name in `_try_extract_wad` and the chunk names in `_pack_wad` |
| `Members` | members.dfy | the WAD member choice in `_detect_wad_member_in_fantome`, and `_create_placeholder_textures` |

The file system, the archive listing and the WAD hasher are all inputs to
the model:

- The disk is a value `map<string, FileData>` that methods take and return.
- A directory walk is the sequence of files it yields.
- The hasher's `is_hash` and `raw_to_hex` are function values in a `Hasher`.
  `Sound(h)` states what the real hasher guarantees: sixteen lower-case hex
  digits, which `is_hash` accepts.
- Dict iteration order is a parameter:
  - the order in which `bum` visits the `scanned_tree` records;
  - the sorted walk the auditor lists.

Where the written description of the program and its code disagree, the
model follows the code:

- **`add_source_dirs`:** the first walked file with a key wins (`if u not in
  self.source_files`), not the last.
- **Combining linked BINs:** entries are appended without any de-duplication.
- **Voice-over files:** nothing in the code excludes them.
- **`_try_extract_wad`:** no 255-character fallback, and no
  `hashed_files.json` is written.
- **The auditor:** it matches on plain equality of `_pyntex_unify_path` keys
  and clears only the FIRST matching file (`break`).
- **`_is_character_bin`:** it compares the first two segments after
  `characters/`, so `characters/teemo/teemo_skin0.bin` is followed rather
  than treated as a self link.
- **Missing files:** with `existing_files` empty, nothing is reported missing.

## Model

| member | source | states |
|---|---|---|
| Hashing.UnifyIdempotent | fantome_repath_gui.py:603-611 | with a sound hasher, unifying a canonical key again returns the same key |
| Hashing.UnifyFoldsCaseAndSeparators | fantome_repath_gui.py:603-605 | two paths that differ only in ASCII letter case or in `\` versus `/` get the same key |
| Hashing.UnifyIgnoresCase | fantome_repath_gui.py:605 | upper-casing a path does not change its key |
| Hashing.UnifyLower | fantome_repath_gui.py:605 | lower-casing a path does not change its key |
| Hashing.UnifyIgnoresSeparators | fantome_repath_gui.py:605 | writing `/` as `\` does not change a path's key |
| Hashing.UnifyHashedName | fantome_repath_gui.py:606-611 | a file stored under its hashed name `<hash>.<ext>` has the same key as the raw path it was hashed from |
| Hashing.PyntexUnifyAgrees | fantome_repath_gui.py:1645-1655 | on a path already normalised, the auditor's key equals `unify_path`'s key |
| Hashing.NormalizeIsNormal | fantome_repath_gui.py:605 | `replace('\\','/').lower()` keeps the length, maps each character alone, and is idempotent |
| Hashing.StemIsPrefix | fantome_repath_gui.py:608 | `p.split('.')[0]` is a dot-free prefix of `p` |
| SourceIndex.AddAllIndexes | fantome_repath_gui.py:613-624 | after the walk, a key is indexed exactly when it was indexed before or some walked relative path unifies to it |
| SourceIndex.AddAllFirstWins | fantome_repath_gui.py:618-624 | a new key gets the FIRST walked file that unifies to it; it becomes a BIN key, flagged unselected, exactly when that file ends in `.bin` in any case |
| SourceIndex.AddAllKeepsOld | fantome_repath_gui.py:620 | a key already indexed keeps its file and its flag |
| SourceIndex.AddAllConsistent | fantome_repath_gui.py:613-624 | the walk keeps every BIN key a file key, and keeps `source_bins`' insertion order listing each BIN key once |
| SourceIndex.AddFileAt | fantome_repath_gui.py:618-624 | one walked file adds its key only if the key is new; it never changes another key |
| SourceIndex.SetFlagKeepsOrder | fantome_repath_gui.py:624 | setting a flag keeps the insertion order listing every flagged key exactly once |
| SourceIndex.SelectSpec | fantome_repath_gui.py:912 | selecting a BIN sets its flag to True and leaves every other flag and every file entry unchanged |
| CharacterBin.CharacterBinByName | fantome_repath_gui.py:626-631 | for `<d>characters/<x>/<y>.bin` in any letter case, where `d` lower-cased has no `c`, `x` and `y` have no `/` or `.`, and no second `characters/` follows the marker, the self-link test holds exactly when `x` and `y` are equal once lower-cased |
| CharacterBin.CharacterBinIgnoresCase | fantome_repath_gui.py:627 | a link and its lower-cased form get the same answer |
| CharacterBin.CharacterBinOneSegment | fantome_repath_gui.py:629-630 | a single segment after `characters/`, in any letter case, makes `chars[1]` fail with an index error |
| CharacterBin.CharacterBinNeedsMarker | fantome_repath_gui.py:627-631 | only a path containing `characters/` and ending in `.bin` (lower-cased) can be a self link or an error |
| CharacterBin.RemoveFinalBin | fantome_repath_gui.py:629 | `replace('.bin', '')` on a name whose only dot starts the final `.bin` removes just that suffix |
| CharacterBin.SplitAfterMarker | fantome_repath_gui.py:629 | `split('characters/')` of `<d>characters/<rest>` gives `[d, rest]` when neither part holds the marker |
| Scanning.RecordSpec | fantome_repath_gui.py:640-648 | recording a run of strings: a key is present exactly when it was before or a marked string unifies to it; it holds the LAST such string and the flag "is a source file"; other keys are untouched |
| Scanning.ScanEntryRecords | fantome_repath_gui.py:688-693 | an entry's records hold exactly the keys of its marked strings, each with the existence flag and the last such string |
| Scanning.ScanValueIsRecord | fantome_repath_gui.py:640-655 | `scan_value` records the strings of a value's walk, in walk order |
| Scanning.ScanBodyIsRecord | fantome_repath_gui.py:652-655 | an embed/pointer with a null payload records nothing; otherwise its fields are recorded in order |
| Scanning.ScanValuesIsRecord | fantome_repath_gui.py:649-651 | a LIST records its items' strings in order |
| Scanning.ScanPairIsRecord | fantome_repath_gui.py:666-668 | a MAP pair records the key's strings, then the value's |
| Scanning.ScanPairsIsRecord | fantome_repath_gui.py:665-668 | a MAP records its pairs in order |
| Scanning.ScanFieldIsRecord | fantome_repath_gui.py:657-673 | `scan_field` records the strings of a field's walk, in walk order |
| Scanning.ScanFieldsIsRecord | fantome_repath_gui.py:692-693 | an entry's fields are recorded in order |
| Scanning.RecordAppend | fantome_repath_gui.py:640-648 | recording `a + b` is recording `a` and then `b` |
| ScanRun.ScanLinksStep | fantome_repath_gui.py:678-687 | one step of the link loop: it stops on an index error, skips a self link, notes a missing link, or notes a source link and descends into it before appending it to `linked_bins` |
| ScanRun.ScanEntryFlags | fantome_repath_gui.py:641-648 | a scanned record's flag is True exactly when its key is a source file |
| ScanRun.ScanEntriesKeeps | fantome_repath_gui.py:688-693 | the entry loop keeps the state consistent and changes neither `linked_bins` nor `All_BINs` |
| ScanRun.ScanBinKeeps | fantome_repath_gui.py:675-693 | `scan_bin` keeps the state consistent and never removes an `All_BINs` record or a link list (it resets the scanned BIN's own list at 677 and an entry's record at 690); a finished one gives the scanned BIN a link list |
| ScanRun.ScanLinksKeeps | fantome_repath_gui.py:678-687 | the link loop keeps the state consistent and never removes an `All_BINs` record or a link list |
| ScanRun.ScanSelectedKeeps | fantome_repath_gui.py:697-701 | after a finished scan, each selected BIN is an existing `All_BINs` record with a link list |
| ScanRun.ScanKeeps | fantome_repath_gui.py:633-701 | any scan, finished or not, leaves flags exact, every entry with a prefix and link lists closed; a finished scan has also recorded every selected BIN as existing, with a link list |
| ScanRun.LinkCycleExhausts | fantome_repath_gui.py:675-687 | two BINs whose only link is to each other and that hold no entries make `scan_bin` recurse until the recursion limit, whatever it is |
| ScanRun.ScanLinksRaises | fantome_repath_gui.py:678-687 | if one non-character link of the list reaches a BIN whose `scan_bin` fails from every state, the link loop fails too, whatever the other links do |
| ScanRun.LinkCycleNeverFinishes | fantome_repath_gui.py:675-687 | two readable BINs whose link lists name each other (among any other links and entries) never let `scan_bin` finish, from any state and with any recursion limit |
| Repathing.InsertPrefixSegments | fantome_repath_gui.py:726-730 | `bum_path` inserts the prefix as the second path segment, or as the first for a bare name |
| Repathing.InsertPrefixInjective | fantome_repath_gui.py:726-730 | distinct paths stay distinct once prefixed |
| Repathing.DictPutFresh | fantome_repath_gui.py:746-750 | storing a new key in the rebuilt MAP appends the pair |
| Repathing.DictPutExisting | fantome_repath_gui.py:746-750 | storing a key the dict already holds keeps the pair at its first position, with the new value, and every other pair in place |
| Repathing.BumValueIsSubst | fantome_repath_gui.py:717-737 | when no MAP keys collide, `bum_value` replaces each reached string by its rewrite and changes nothing else |
| Repathing.BumBodyIsSubst | fantome_repath_gui.py:733-736 | the same for an embed/pointer payload |
| Repathing.BumValuesIsSubst | fantome_repath_gui.py:731-732 | the same for a LIST |
| Repathing.BumPairIsSubst | fantome_repath_gui.py:746-750 | the same for one MAP pair |
| Repathing.BumPairsIsSubst | fantome_repath_gui.py:746-750 | a MAP whose rewritten keys are distinct is rewritten pair by pair |
| Repathing.BumFieldIsSubst | fantome_repath_gui.py:739-755 | the same for `bum_field` |
| Repathing.BumFieldsIsSubst | fantome_repath_gui.py:761-762 | the same for an entry's fields |
| Repathing.BumValuesLength | fantome_repath_gui.py:732 | the LIST comprehension keeps the length |
| Repathing.BumPairsSize | fantome_repath_gui.py:746-750 | a rewritten MAP never grows, and keeps its size when its rewritten keys are distinct |
| Repathing.BumStringCollision | fantome_repath_gui.py:720-730 | two different strings rewrite to the same string only when one is eligible and the other is exactly its prefixed form |
| Repathing.EligibleAfterScan | fantome_repath_gui.py:720-724 | right after a scan, a string is rewritten exactly when it is marked and its key is a source file |
| Repathing.BumEntryAfterScan | fantome_repath_gui.py:757-762 | scan then rewrite: the entry's strings are the originals in order, each prefixed exactly when it is a marked path to a source file |
| OutputPaths.ExtShape | fantome_repath_gui.py:795 | `splitext(...)[1]` is empty, or a dot ending the path with no `/` and no further dot |
| OutputPaths.BasenameShape | fantome_repath_gui.py:794 | the base name has no `/` and ends the path |
| OutputPaths.JoinName | fantome_repath_gui.py:798 | a name without `/` joined under a directory is that path's base name, and the path starts with the directory |
| OutputPaths.OutputFileFallback | fantome_repath_gui.py:793-798 | a base name over 255 characters is replaced by the 16-digit hash plus the extension, directly in the output directory |
| OutputPaths.OutputFileInside | fantome_repath_gui.py:791-798 | a relative short path is written inside a named output directory |
| OutputPaths.ShortFileRelative | fantome_repath_gui.py:783-789 | a relative path stays relative once prefixed |
| OutputPaths.JoinInside | fantome_repath_gui.py:791 | joining a relative path under a directory lands inside it |
| OutputPaths.LastIndexOf | fantome_repath_gui.py:795 | `rfind`: the last position of the character, or none |
| LinkClosure.FlatListLinkedBins | fantome_repath_gui.py:705-713 | the list has no repeats, excludes the source, and holds exactly the BINs the source reaches through links |
| LinkClosure.ListLinked | fantome_repath_gui.py:707-711 | the nested walk extends the list only with reachable BINs not yet listed, and leaves every visited BIN's links covered |
| LinkClosure.Visit | fantome_repath_gui.py:707-711 | the walk only extends the list and never repeats an entry |
| BumRun.BumRefusals | fantome_repath_gui.py:765-773 | `bum` refuses with "no entry scanned" exactly when the tree is empty, and with "missing" exactly when a record is missing and that is not ignored; a refusal leaves the disk as it was |
| BumRun.BumIsCopy | fantome_repath_gui.py:765-807 | without combining, a run past its refusals is `rmtree` followed by the copy loop |
| BumRun.BumWritesOutputs | fantome_repath_gui.py:775-807 | without combining, every found record's output file is written, and nothing else inside the output directory |
| BumRun.BumWritesEveryRecord | fantome_repath_gui.py:777-807 | a successful run without combining, over a walk that visits every record of the scanned tree once, entry by entry, has written the output of every record found among the source files |
| BumRun.BumContent | fantome_repath_gui.py:800-806 | a record whose output no other record shares holds its source file's data, passed through `bum_bin` when the name ends in `.bin` |
| BumRun.BumKeepsOutside | fantome_repath_gui.py:765-824 | with or without combining, whether the run finishes, is refused or stops at a failure, files outside the output directory are left as they were |
| BumRun.RelativeTargetsInside | fantome_repath_gui.py:783-798 | with relative records and prefixes, every copy lands inside the output directory |
| BumRun.RemoveTreeFacts | fantome_repath_gui.py:775 | `rmtree` removes everything inside the directory and nothing outside it |
| BumRun.CopyAllWrites | fantome_repath_gui.py:777-807 | the copy loop keeps every existing file and writes every target |
| BumRun.CopyAllOnly | fantome_repath_gui.py:777-807 | whether it finishes or stops at a failure, the copy loop changes only its targets, and `bum_files` records only targets |
| BumRun.CopyOneOnly | fantome_repath_gui.py:800-806 | one pass, failed or not, changes at most its own output file and its own `bum_files` entry |
| BumRun.CopyAllContent | fantome_repath_gui.py:800-806 | an unshared target ends up holding its source's data, converted if it is a BIN |
| BumRun.CopyOneFacts | fantome_repath_gui.py:800-806 | one pass writes the converted source to its output and records it in `bum_files` |
| BumRun.BumEntriesSpec | fantome_repath_gui.py:757-762 | `bum_bin` succeeds exactly when every entry is scanned or reaches no marked string; it keeps entry count, order, hashes and types, and, when no MAP has two keys the rewrite makes equal, rewrites the strings in place |
| BumRun.BumEntries | fantome_repath_gui.py:759-762 | the entry loop fails only on an entry that was never scanned |
| BumRun.BumDoc | fantome_repath_gui.py:757-763 | `bum_bin` fails only on an entry that was never scanned |
| BumRun.Converted | fantome_repath_gui.py:802-805 | a copy fails only when a `.bin` output cannot be read as a BIN, or on an unscanned entry |
| BumRun.Plan | fantome_repath_gui.py:778-799 | the plan has one copy decision per visited record, in visiting order |
| BumRun.CopyOne | fantome_repath_gui.py:800-806 | one copy fails only after the refusals, never with a refusal |
| BumRun.CopyAll | fantome_repath_gui.py:777-807 | the copy loop never fails with a refusal |
| BumRun.KeepLinks | fantome_repath_gui.py:814-818 | the kept links are exactly those whose key is not among the merged BINs |
| BumRun.MergeRemoving | fantome_repath_gui.py:819-822 | the merge loop as written never fails with a refusal |
| BumRun.CombineOneRemoving | fantome_repath_gui.py:811-823 | the combine step as written never fails with a refusal |
| BumRun.CombineRemoving | fantome_repath_gui.py:809-824 | the combine loop as written never fails with a refusal |
| BumRun.MergeKeeping | fantome_repath_gui.py:819-821 | the corrected merge never fails with a refusal |
| BumRun.MergeKeepingClosed | fantome_repath_gui.py:819-821 | when every linked BIN's copy is readable, the corrected merge is the selected BIN's entries followed by every linked BIN's entries in flat-list order |
| BumRun.MergeRemovingClosed | fantome_repath_gui.py:819-822 | when the linked BINs' files are distinct and readable, the merge as written appends the same entries and removes exactly those files |
| BumRun.LinkedEntriesSplit | fantome_repath_gui.py:821 | the appended entries hold each linked BIN's entries whole, between those of the BINs before and after it: nothing is dropped or de-duplicated |
| BumRun.LinkedEntriesFrame | fantome_repath_gui.py:819-821 | the appended entries depend only on the linked BINs' files |
| BumRun.CombineOneKeepingContent | fantome_repath_gui.py:811-823 | one corrected step writes over the selected BIN's copy its links minus those to merged BINs, and its entries followed by the linked BINs' entries |
| BumRun.CombineOneRemovingContent | fantome_repath_gui.py:811-823 | one step as written, with distinct linked files, writes that same combined BIN and removes every linked BIN's file |
| BumRun.CombineKeepingFrame | fantome_repath_gui.py:809-824 | wherever the corrected loop stops, a file no selected BIN writes is as it was |
| BumRun.CombineKeepingContent | fantome_repath_gui.py:809-824 | a selected BIN visited once, whose file and linked files no other selected BIN writes, ends the loop holding its combination read from the starting disk |
| BumRun.CombineContent | fantome_repath_gui.py:809-824 | after the corrected combine, such a selected BIN whose file is not merged away holds its own entries followed by every linked BIN's entries, with its links to merged BINs pruned |
| BumRun.CombineOneKeeping | fantome_repath_gui.py:811-823 | the corrected combine step never fails with a refusal |
| BumRun.CombineKeeping | fantome_repath_gui.py:809-824 | the corrected combine loop never fails with a refusal |
| BumRun.Combine | fantome_repath_gui.py:809-824 | the corrected combine never fails with a refusal; what it writes is stated by `BumRun.CombineContent` and `BumRun.CombineOk` |
| BumRun.MergeKeepingOk | fantome_repath_gui.py:819-821 | reading without removing succeeds whenever every merged BIN's output is there |
| BumRun.CombineKeepingOk | fantome_repath_gui.py:809-824 | the corrected loop succeeds when every file it reads is there at the start, and changes only the selected BINs' outputs |
| BumRun.CombineKeepingAgrees | fantome_repath_gui.py:809-824 | the corrected loop changes no file outside the selected BINs' outputs |
| BumRun.CombineOk | fantome_repath_gui.py:809-824 | the corrected combine succeeds when every file it reads is there, removes every merged BIN's file, and changes nothing else outside the selected outputs |
| BumRun.SharedLinkBreaksCombine | fantome_repath_gui.py:809-824 | two selected BINs linking to one BIN: the loop as written fails reading the removed file; the corrected combine finishes |
| BumRun.SharedLinkFirst | fantome_repath_gui.py:819-822 | combining the first BIN removes the shared linked file |
| BumRun.SharedLinkSecond | fantome_repath_gui.py:812-822 | combining the second BIN then fails to read that file |
| BumRun.SharedLinkFlat | fantome_repath_gui.py:813 | in the example, both selected BINs flat-list the shared BIN |
| BumRun.SharedLinkReady | fantome_repath_gui.py:812-820 | in the example, every file the combine reads is present at the start |
| Engine.LocalBum.constructor | fantome_repath_gui.py:593-601 | a fresh engine has empty source files, BIN flags, scanned tree, prefixes and link lists |
| Engine.LocalBum.AddSourceDirs | fantome_repath_gui.py:613-624 | updates the fields to `AddAll` of the old index and leaves the scan state alone |
| Engine.LocalBum.SelectBin | fantome_repath_gui.py:912 | sets the BIN's flag as `Select` says and leaves the scan state alone |
| Engine.LocalBum.Scan | fantome_repath_gui.py:633-701 | the new scan state and error are `ScanRun.Scan` of the old state |
| Engine.LocalBum.ScanBin | fantome_repath_gui.py:675-693 | the new state and error are `ScanRun.ScanBin` of the old state |
| Engine.LocalBum.ScanLinksOf | fantome_repath_gui.py:678-687 | the link loop's result is `ScanRun.ScanLinks` of the old state |
| Engine.LocalBum.ScanEntriesOf | fantome_repath_gui.py:688-693 | the entry loop's result is `ScanRun.ScanEntries` of the old state |
| Engine.LocalBum.Bum | fantome_repath_gui.py:715-824 | over a walk that visits every record once, entry by entry, the disk the run leaves and the error it raises are `BumRun.Bum` of the engine's state |
| Engine.LocalBum.CopyStep | fantome_repath_gui.py:800-807 | one pass of the copy loop, the state it leaves and its failure, is `CopyOne` |
| Engine.LocalBum.BumBin | fantome_repath_gui.py:757-763 | the rewritten document is `BumDoc` |
| Engine.LocalBum.CombineLinked | fantome_repath_gui.py:809-824 | the combine step is the corrected `Combine`, so each selected BIN ends as `BumRun.CombineContent` states |
| Engine.LocalBum.CombineOne | fantome_repath_gui.py:811-823 | one selected BIN's combine is `CombineOneKeeping` |
| Engine.LocalBum.KeptLinks | fantome_repath_gui.py:814-818 | the kept links are `KeepLinks` |
| Engine.LocalBum.MergeLinked | fantome_repath_gui.py:819-821 | the merged entries are `MergeKeeping`: the selected BIN's entries followed by every linked BIN's, by `BumRun.MergeKeepingClosed` |
| Auditor.MentionedFromSpec | fantome_repath_gui.py:1574-1579 | `mentioned_files` never repeats and holds exactly the lower-cased marked strings of the walk |
| Auditor.MentionedSpec | fantome_repath_gui.py:1570-1606 | an entry's mentioned files: no repeats, exactly its marked strings lower-cased |
| Auditor.FirstMatch | fantome_repath_gui.py:1611-1616 | the found position is the first file present with the same auditor key; none means no file has it |
| Auditor.DdsVariantSplice | fantome_repath_gui.py:1618-1621 | the `2x_`/`4x_` name is the prefix inserted before the last path segment |
| Auditor.MatchOneClears | fantome_repath_gui.py:1609-1626 | a mentioned file is found exactly when some file present shares its key; the first such file is cleared, and so are the present `.dds` siblings |
| Auditor.MatchOneNarrows | fantome_repath_gui.py:1611-1626 | matching keeps the set of files and turns off only the first match and the `.dds` siblings |
| Auditor.MatchOneExact | fantome_repath_gui.py:1611-1626 | after one search a flag is True exactly when it was True and the file is neither the first match nor a `2x_`/`4x_` sibling of the searched file |
| Auditor.MatchAllSpec | fantome_repath_gui.py:1609-1628 | a file is reported missing exactly when no present file shares its key; a flag ends True exactly when it started True and no mentioned file has it as first match or `.dds` sibling |
| Auditor.ParseEntriesSpec | fantome_repath_gui.py:1638-1643 | parsing a document turns off exactly the flags of the first matches and `.dds` siblings of the files its entries mention |
| Auditor.AllPresent | fantome_repath_gui.py:1537-1540 | `existing_files` has exactly the files present, all flagged True |
| Auditor.FlaggedSpec | fantome_repath_gui.py:1564 | `junk_files` holds exactly the keys still flagged True |
| Auditor.CheckFilesSpec | fantome_repath_gui.py:1548-1558 | after the BIN loop a flag is True exactly when it started True and the file is neither a readable `.bin` of the loop nor the first match or `.dds` sibling of a file such a BIN mentions |
| Auditor.CheckDirJunk | fantome_repath_gui.py:1527-1566 | a file is junk exactly when it is present, is not `hashed_files.json`, is not a readable BIN, and is neither the first match nor a present `2x_`/`4x_` sibling of a file a readable BIN mentions |
| Auditor.Auditor.constructor | fantome_repath_gui.py:1537-1541 | the audit starts with every file present flagged True |
| Auditor.Auditor.MatchFile | fantome_repath_gui.py:1611-1626 | the search for one mentioned file updates `existing_files` as `MatchOne` says and reports whether it was found |
| Auditor.Auditor.Junk | fantome_repath_gui.py:1564 | returns `Flagged` of the current flags |
| Auditor.Auditor.MatchFiles | fantome_repath_gui.py:1609-1628 | matching the mentioned files updates the flags and returns the missing ones, as `MatchAll` says |
| Auditor.Auditor.ParseEntryOf | fantome_repath_gui.py:1570-1636 | `parse_entry` updates the flags and returns the report, as `ParseEntry` says |
| Auditor.Auditor.ParseBin | fantome_repath_gui.py:1638-1643 | `_pyntex_parse_bin` keeps the report of each entry that mentions something, as `ParseEntries` says |
| Auditor.CheckDirectory | fantome_repath_gui.py:1527-1566 | `_pyntex_check_dir` returns `CheckDir`: the reports of each readable BIN and the junk files |
| HashTables.WadLineRoundTrip | fantome_repath_gui.py:524-535 | a line written as key, space, value is read back as that pair |
| HashTables.StripKeeps | fantome_repath_gui.py:525 | `strip` leaves a string without surrounding whitespace unchanged |
| HashTables.StoreAllSpec | fantome_repath_gui.py:524-535 | the table holds exactly the keys some line stores, each with the value of the LAST such line; other keys are kept |
| HashTables.LoadTableSpec | fantome_repath_gui.py:524-535 | one file's table: the keys of its parsed lines, each with its last value |
| HashTables.ParsedWad | fantome_repath_gui.py:524-535 | each line is parsed independently, in order |
| HashTables.LoadWadTable | fantome_repath_gui.py:524-535 | the line loop yields `LoadTable` of the lines |
| HashTables.LoadWadHashtables | fantome_repath_gui.py:511-538 | one table for each of `hashes.game.txt` and `hashes.lcu.txt`; a missing file gives an empty table |
| HashTables.LinesCons | fantome_repath_gui.py:581 | a line ended by its only `\n` is the first line of the file |
| HashTables.LinesLast | fantome_repath_gui.py:581 | text without `\n` is a single line |
| HashTables.LineShape | fantome_repath_gui.py:582-585 | a written line is read as its pair by both readers |
| HashTables.ReadBackLines | fantome_repath_gui.py:581-585 | a file whose lines all end with `\n` reads back to its pairs, with the code as written and as intended |
| HashTables.OpenLine | fantome_repath_gui.py:581-585 | a last line without `\n` is read back as intended |
| HashTables.ReadBackOpenLines | fantome_repath_gui.py:581-585 | a file whose last line lacks `\n` reads back to its pairs as intended |
| HashTables.ReadBack | fantome_repath_gui.py:568-585 | the intended reader always reads back the written pairs; the reader as written does so when the last line ends with `\n`, and on a file whose last line lacks it, exactly when that line's value is empty |
| HashTables.ReadOpenAsWritten | fantome_repath_gui.py:581-585 | read as written, a file whose last line lacks `\n` gives the other pairs as written and the last value cut by one character |
| HashTables.TableLast | fantome_repath_gui.py:586 | of the pairs stored in turn, the last one wins its key |
| HashTables.OpenLineLosesLastChar | fantome_repath_gui.py:585 | as written, the value on a last line without `\n` loses its final character |
| HashTables.HashLinesAsWritten | fantome_repath_gui.py:581-585 | each line is read independently, in order, as written |
| HashTables.HashLines | fantome_repath_gui.py:581-585 | each line is read independently, in order, as intended |
| HashTables.ReadHashFile | fantome_repath_gui.py:580-585 | the line loop yields `ReadTable` of the text |
| HashTables.ReadAllHashes | fantome_repath_gui.py:568-585 | one table per BIN and WAD table name; key width 16 for WAD tables, 8 otherwise; a missing file gives an empty table |
| Packing.ExtractedNameSpec | fantome_repath_gui.py:491-495 | the extracted name has no backslash; a name with a dot, or a chunk without an extension, keeps its name; otherwise it gets `.ext` |
| Packing.ChunkNameSpec | fantome_repath_gui.py:1367-1374 | a file with no `/` whose stem is a hash is packed under that stem; every other file under its relative path |
| Packing.BasenameSelf | fantome_repath_gui.py:1371 | `relative_path == basename` holds exactly when the path has no `/` |
| Packing.PackAfterExtract | fantome_repath_gui.py:491-495 | a chunk extracted under its bare hash, with or without an extension, is packed again under that hash |
| Packing.PackedSpec | fantome_repath_gui.py:1361-1363 | every walked file is packed except those named `hashed_files.json` |
| Packing.PackNames | fantome_repath_gui.py:1361-1374 | returns the packed files in walk order, each paired with its chunk name |
| Members.WadMemberSpec | fantome_repath_gui.py:371-377 | the split test is a prefix test: a WAD member's lower-cased name starts with `wad/` and ends with `.wad.client` |
| Members.CandidatesSpec | fantome_repath_gui.py:371-386 | a candidate is exactly a listed WAD member without any of the 15 locale markers |
| Members.LastPartBasename | fantome_repath_gui.py:396 | `split('/')[-1]` is the path's base name |
| Members.FirstKnown | fantome_repath_gui.py:393-417 | the found position is the first candidate whose file name the Champions folder holds; none means no candidate's is |
| Members.DetectChampionWad | fantome_repath_gui.py:354-419 | returns the candidates in listing order and the first one found in the Champions folder, or `""` |
| Members.FirstKnownWad | fantome_repath_gui.py:393-419 | the third pass returns the first candidate whose file name the Champions folder holds, or `""` when none is |
| Members.WadMembers | fantome_repath_gui.py:371-378 | the first pass keeps exactly the WAD members, in order |
| Members.NonLanguage | fantome_repath_gui.py:380-386 | the second pass keeps exactly the WADs without a locale marker, in order |
| Members.AnyInSpec | fantome_repath_gui.py:384 | `any(code in s for code in codes)` holds exactly when some code occurs somewhere in `s` |
| Members.LanguageWadSpec | fantome_repath_gui.py:364-384 | a language WAD is one whose lower-cased name contains one of the 15 locale markers |
| Members.HasLanguageCode | fantome_repath_gui.py:383-384 | true exactly when the lower-cased name contains one of the locale markers |
| Members.StripPlaceholderSpec | fantome_repath_gui.py:1749-1753 | `assets/bum/` or else `bum/` comes off the front exactly once; other paths are unchanged; the result ends the path |
| Members.PlannedSpec | fantome_repath_gui.py:1747-1764 | a copy is planned exactly for each missing `.dds`/`.tex`, at its stripped path, with the matching placeholder |
| Members.CreatePlaceholders | fantome_repath_gui.py:1729-1766 | nothing happens if a bundled placeholder is absent; otherwise one copy per missing texture, counted |

## Left out

- The Tk user interface, threads, status messages, configuration files and the `print` debugging output are not modelled.
- Zip and WAD archive I/O, the pyRitoFile BIN and WAD codecs, `un_hash`, `hex_to_raw` and the hash download are not modelled. The BIN reader is a partial map from a file's data to a `Document` (`ReadBin`); an unreadable file gives `None`.
- `os.walk` order and the `sorted` of `scanned_tree` (by entry name) are not modelled. The walk is given as a sequence of files, so every property holds for every order. `bum`'s visiting order is a sequence of records that `BumRun.Visits` constrains as the nested loop does: every record once, and the records of one entry together. Which entry comes first (the name sort) and the order within an entry (dictionary insertion order) are left free.
- Creating directories (`makedirs`), removing empty directories at the end of `bum`, and `shutil.SameFileError` are not modelled: the disk is a flat map from paths to contents.
- Engine.LocalBum.Scan: the Python recursion limit is a `fuel` bound. A run out of fuel reports `RecursionLimit`, which is how the source's `RecursionError` surfaces.
- `entry_name` and its `hex_to_raw` lookup are not modelled: they only feed the sort of `scanned_tree`.
- `entry_prefix[...]` lookups use a default (`PrefixOf`) rather than raising `KeyError`. Every scanned entry has a prefix (`ScanRun.ScanKeeps`), so the default is never used for one.
- Case mapping and `strip` follow Python for ASCII and the listed whitespace characters only. Other Unicode case mappings are not modelled.
- `_repair_bin_file` is not part of this model. It depends on the hash name tables and on field-level hash types that the BIN tree here does not carry.
- `_repath_fresh`, `_package_repathed`, `_find_fresh_wad` and `_auto_check_and_fix_missing` are not part of this model. They orchestrate the modelled operations through I/O. `_find_fresh_wad` becomes the `known` predicate of `Members.DetectChampionWad`, and the caller's `source_bins[u] = True` becomes `Engine.LocalBum.SelectBin`.
- Members.CreatePlaceholders: `shutil.copy2` never fails in the model, so the copy that the source skips uncounted when it raises is always made and counted. The bundled files' existence is a boolean input.
- HashTables.ReadAllHashes: encoding errors in the text files are not modelled; `files` holds already-decoded text. The method uses the corrected value slice (see Findings). The slice as written is `HashTables.ReadTableAsWritten`. The files are opened in text mode, so Python turns `\r\n` into `\n` before the slice; `files` holds the text after that translation, and the model treats any `\r` left in it as an ordinary character.
- Engine.LocalBum.CombineLinked, Engine.LocalBum.Bum and BumRun.Bum: with `combine` set, they run the corrected combine (`BumRun.Combine`) rather than the loop at lines 809-824 as written: it removes merged files only after all selected BINs are combined. The loop as written is `BumRun.CombineRemoving` (see Findings).
- Auditor.CheckDirectory: `files` are the walked relative paths, lower-cased and sorted, given as input. A BIN that cannot be read is skipped, as the `except` does.
- OutputPaths.OutputFile, OutputPaths.Join, OutputPaths.Ext and BumRun.RemoveTree follow POSIX `os.path`, where only `/` separates components. The program is a Windows tool, and there `os.path` is `ntpath`: `basename` and `splitext` also split on `\`, and `join` inserts `\`. For an output directory or a short path containing `\`, the model's base name (and so the 255-character test), joined path and "inside the output directory" test differ from what Windows Python computes.
- Packing.PackNames: writing the WAD and its chunk data is not modelled, only which files are packed and under which chunk names.

## Findings

| source | as written | input that shows it | evidently intended | confidence | as-written member | corrected member |
|---|---|---|---|---|---|---|
| fantome_repath_gui.py:809-824 | the combine loop removes each linked BIN's output file as soon as it is merged into one selected BIN | two selected BINs `a` and `b` that both link to `c`: combining `a` removes `out/c.bin`, and combining `b` then fails reading it | every selected BIN gets its linked BINs' entries; merged files are removed only after all are combined | not executed | BumRun.SharedLinkBreaksCombine | BumRun.CombineContent |
| fantome_repath_gui.py:585 | `val = line[sep+1:-1]` drops the last character of every line, assuming it is `\n` | a file whose last line `0123456789abcdef ab` has no trailing newline is read as value `a` | drop only a trailing `\n`, so the value is `ab` | not executed | HashTables.OpenLineLosesLastChar | HashTables.ReadBack |
