# JKRArchive in Dafny

This project models the core of JKRArchiveTool, a tool for RARC archives. RARC (also stored byte-swapped as CRAR) is the archive format of Nintendo's JSystem. An archive in memory is a `JKRArchive`. It owns:

- folder nodes (`JKRFolderNode`): each has a name, a 16-byte record, and a list of child entries;
- directory entries (`JKRDirectory`): each entry is a file, a subdirectory reference, or a `.`/`..` shortcut;
- the flat entry table `mDirectories`;
- the three preload buckets (MRAM, ARAM and DVD);
- the file-id policy (`mSyncFileIds`, `mNextFileIdx`).

The model covers these operations:

- building the tree: `createDir`, `createFile`, `createFolder`, and the root set-up of `importFromFolder`;
- the layout pass that runs before every write (`sortNodeAndDirs`, `sortNodesAndDirs`). It moves shortcuts last, gives each folder a child range in the flat table, stamps folder indices and file ids, and fills the preload buckets;
- the string-table walk `collectStrings`, against an abstract string pool;
- the offset and size arithmetic of `write`, and the region writer `writeFileData`;
- the record formats and the combined attribute/name-offset word;
- the index logic of `read`: records become folders and entries, each entry is pointed at its folder, each folder at its own entry, and a link pass gives every folder the entries in its child range;
- the name hash, `getShortName`, and the attribute queries.

The model is built as follows:

- **Arenas.** `mFolderNodes` is the sequence `folders`. A folder's identity is its position there, because the vector is only ever appended to. Every `JKRDirectory` ever created is one entry of the sequence `entries`, and its identity is its position there. `mDirectories` and the buckets hold entry positions. A `shared_ptr` becomes such a position, and `nullptr` becomes `None`.
- **Class methods.** The object whose methods change it (`JKRArchive`) is the class `Archives.Archive`. Its methods are proved against specification functions over values:
  - `SortFolder`/`SortKids` for the layout pass;
  - `Stamp` and `Bucket` for the finishing loop;
  - `CollectFolder`/`CollectKids` and `Table` for the string walk.

  The theorems are lemmas about those functions.
- **Loop-free code** (the record codecs, the header, hashes, attributes) is plain functions.
- **Integer widths.** Every field write that narrows a value does so explicitly: `% U16` or `% U32`. This covers child counts, `mFirstFileOffs`, the 16-bit `mNameOffs` of an entry, `mNextFileIdx++`, and the header sums.

Where the code departs from the RARC format or from what its names suggest, the model follows the code:

- **Name offsets.** An entry's name offset is read as `mAttrAndNameOffs & 0x00FFFFFF`, but it is stored into the 16-bit `mNameOffs`. It is therefore kept modulo 2^16, not as a 24-bit value.
- **File data offsets.** `mData` of a file entry is never set to its data offset (see Findings).
- **Buckets.** The preload buckets are not cleared by `sortNodesAndDirs`, so a second write files every file again.
- **Payload read.** A directory that also has the file bit and points to a folder does not read a payload (the `else if` of `read`).
- **validateName** accepts every name.

## Model

| member | source | states |
|---|---|---|
| Util.GetVectorIndex | Include/Util.h:28-39 | -1 exactly when the element is absent; otherwise the element is at that index and at no earlier one |
| Util.GetVectorIndexUnique | Include/Util.h:28-39 | the first position holding the element is the one returned |
| Util.GetVectorIndexAppend | Include/Util.h:28-39 | on a concatenation: the index in the first part if the element is there, else the length of the first part plus its index in the second |
| Util.GetVectorIndexOfDistinct | Include/Util.h:28-39 | in a vector without repeats, element i is found at i |
| Util.Align32 | Include/Util.h:40-43 | the result is a multiple of 32, not below the input and less than 32 above it |
| Util.Align32Least | Include/JKRArchive.h:132-134 | align32 is the least multiple of 32 not below its input |
| Util.Align32Idempotent | Include/JKRArchive.h:132-134 | aligning twice is aligning once |
| Util.Align32Shift | Include/Util.h:40-43 | past an aligned base, aligning a position aligns only the distance from the base |
| Attributes.GetPreloadType | Source/JKRArchive.cpp:428-440 | a target other than NONE is returned only for a file that has that target's bit; NONE exactly when the entry is not a file or has none of the three bits |
| Attributes.PreloadIsFirstSetBit | Source/JKRArchive.cpp:428-440 | a file's target is t exactly when t's bit is set and no higher-priority bit (MRAM before ARAM before DVD) is |
| Attributes.GetCompressionType | Source/JKRArchive.cpp:417-426 | compressed exactly for a file with the COMPRESSED bit; SZS exactly when USE_SZS is also set |
| Attributes.CompositeFlags | Include/JKRArchive.h:9-20 | 0x85 is FILE, COMPRESSED and USE_SZS; 0x71 is FILE and the three load bits, bit by bit |
| Attributes.DirectoryAndFileIndependent | Include/JKRArchive.h:86-92 | isDirectory and isFile test different bits (one attribute can be both, either or neither); every shortcut is a directory |
| Names.NameHash | Source/JKRArchive.cpp:399-407 | the loop computes the left-to-right hash h·3 + c on a wrapping 16-bit accumulator |
| Names.HashIsPolynomial | Source/JKRArchive.cpp:399-407 | the wrapping hash is the unbounded polynomial in 3 reduced modulo 2^16 |
| Names.HashExamples | Source/JKRArchive.cpp:399-407 | hash("") = 0; hash("a") = 97; hash("ab") = 389 differs from hash("ba") = 391 |
| Names.GetShortName | Source/JKRArchive.cpp:381-397 | "ROOT" for the root; otherwise four bytes, one per name byte (space padded), upper-cased |
| Tree.KeepMembers | Source/JKRArchive.cpp:271-275 | the collected shortcuts come from the child list and are shortcuts |
| Tree.KeepAppend | Source/JKRArchive.cpp:271-275 | collecting over two lists one after the other is collecting over each |
| Tree.PartitionPermutes | Source/JKRArchive.cpp:277-280 | moving shortcuts last keeps the same multiset of children |
| Tree.PartitionOrder | Source/JKRArchive.cpp:277-280 | afterwards every shortcut follows every non-shortcut, and each group keeps its relative order |
| Tree.PartitionIdempotent | Source/JKRArchive.cpp:270-288 | the reordering of a second layout pass changes nothing |
| Tree.PartitionExample | Source/JKRArchive.cpp:277-280 | [A, "..", B, "."] becomes [A, B, "..", "."] |
| Tree.EraseFirstShortcut | Source/JKRArchive.cpp:278 | getVectorIndex finds the first remaining shortcut in range; erasing it leaves the other entries in order |
| Tree.EraseShortcutStep | Source/JKRArchive.cpp:277-280 | one erase-and-push iteration moves one shortcut from the front part to the end |
| Archives.ValidateName | Source/JKRArchive.cpp:325-334 | every name is accepted |
| Archives.LastIndexOf | Source/JKRArchive.cpp:29 | rfind: the last position holding the byte, or -1 when there is none |
| Archives.RootName | Source/JKRArchive.cpp:29-30 | without a backslash the whole path; otherwise the text after the last backslash, which holds none and ends the path |
| Archives.ShortcutsLast | Source/JKRArchive.cpp:271-280 | the two loops leave the child list with its shortcuts moved last (Partition) |
| Archives.CollectShortcuts | Source/JKRArchive.cpp:271-275 | the shortcuts of the child list, in order |
| Archives.MoveToEnd | Source/JKRArchive.cpp:277-280 | erasing each collected shortcut at its getVectorIndex position and pushing it back gives Partition |
| Archives.PushAll | Source/JKRArchive.cpp:287-288 | mDirectories grows by the child list, in order |
| Archives.Archive.constructor | Include/JKRArchive.h:117-147 | empty arenas, no root, synced ids, next file id 0, empty buckets |
| Archives.Archive.CreateDir | Source/JKRArchive.cpp:63-72 | one new entry with the given name, attribute, folder and parent, appended to the parent's child list and to mDirectories; nothing else changes |
| Archives.Archive.CreateFile | Source/JKRArchive.cpp:74-84 | as createDir with no folder; without synced ids the entry takes mNextFileIdx, which steps by one modulo 2^16 |
| Archives.Archive.CreateFolder | Source/JKRArchive.cpp:86-96 | a new folder whose own entry is appended under the parent, with "." pointing to it and ".." to the parent as its only children; three entries appended to mDirectories |
| Archives.CreateFolderAgrees | Source/JKRArchive.cpp:86-95 | createFolder keeps every non-shortcut directory named after the folder it leads to |
| Archives.Archive.ImportRoot | Source/JKRArchive.cpp:27-37 | with no root: a root folder named from the path, with "." pointing to it and ".." pointing nowhere; with a root: no change |
| Archives.Archive.SortNodeAndDirs | Source/JKRArchive.cpp:270-295 | the new folders and mDirectories are exactly SortFolder of the old state |
| Archives.Archive.SortChildren | Source/JKRArchive.cpp:290-294 | the recursion loop computes SortKids |
| Archives.Archive.SortNodesAndDirs | Source/JKRArchive.cpp:297-323 | folders and mDirectories are SortFromRoot; every listed entry is stamped; each bucket grows by Bucket of its target; mNextFileIdx is the table size modulo 2^16 when ids are synced, else unchanged |
| Archives.Archive.Layout | Source/JKRArchive.cpp:298-302 | clears mDirectories, runs the pass from the root, and sets mNextFileIdx when synced; the arenas stay closed |
| Archives.Archive.CollectStrings | Source/JKRArchive.cpp:336-360 | the walk computes CollectFolder on the arenas and the pool |
| Archives.Archive.CollectChildren | Source/JKRArchive.cpp:338-358 | the loop over the children computes CollectKids |
| Archives.Archive.LabelChild | Source/JKRArchive.cpp:339-342 | one child's offset is found for a shortcut when strings are not reduced and written otherwise; it is narrowed to 16 bits and copied to the child's folder when the child is a non-shortcut directory |
| Archives.Archive.WriteStrings | Source/JKRArchive.cpp:180-191 | ".", ".." and the root name go into the pool, the root keeps its offset, the look-up is switched off when not reducing, then collectStrings from the root: the result is Table |
| Archives.Archive.StampEntries | Source/JKRArchive.cpp:304-322 | every listed entry is stamped, others unchanged, and each bucket grows by its Bucket |
| Archives.StampAll | Source/JKRArchive.cpp:304-322 | the finishing loop over values: Stamped, plus the three buckets |
| Archives.StampEntry | Source/JKRArchive.cpp:305-320 | one iteration: the entry becomes Stamp of itself; the bucket is its Target |
| Archives.SortedStaysValid | Source/JKRArchive.cpp:297-299 | the layout pass keeps every reference in the arenas in range |
| Archives.StampedStaysValid | Source/JKRArchive.cpp:304-322 | stamping keeps every reference in range |
| SortPass.EnterStep | Source/JKRArchive.cpp:271-288 | the first part of one visit only reorders the folder's children and appends to mDirectories; the ranking survives |
| SortPass.SortFolderStep | Source/JKRArchive.cpp:270-295 | sortNodeAndDirs(g) only appends to mDirectories, visits folders below g in rank, and leaves every other folder unchanged |
| SortPass.SortFolderEntry | Source/JKRArchive.cpp:270-288 | g is visited first and its record is Visit of its shortcut-last list at the old table length |
| SortPass.SortFolderSliced | Source/JKRArchive.cpp:284-288 | while the table is below 2^32 entries, every visited folder's range in mDirectories is exactly its child list |
| SortPass.SortFolderTiled | Source/JKRArchive.cpp:270-295 | when no folder is reached twice, the appended entries are the child lists of the visited folders in visit order, without gaps or overlaps |
| SortPass.SortFolderClosed | Source/JKRArchive.cpp:290-294 | every folder reachable through non-shortcut directories is visited |
| SortPass.SortFolderKids | Source/JKRArchive.cpp:271-280 | every visited folder ends with its shortcuts last |
| SortPass.LaidIsFlat | Source/JKRArchive.cpp:287-288 | a laid-out table is the concatenation of the child lists in visit order |
| SortPass.LayoutFromRoot | Source/JKRArchive.cpp:297-299 | the root is visited first at offset 0; all listed entries exist; visited folders are shortcut-last and the others are unchanged; every reachable folder is visited; each folder owns its slice; the table is tiled in visit order when no folder is reached twice |
| SortPass.FolderIndex | Source/JKRArchive.cpp:307 | getVectorIndex on mFolderNodes finds folder f at f, or -1 when f is not in the arena |
| SortPass.Stamp | Source/JKRArchive.cpp:305-313 | only `mData` of a directory and `mNodeIdx` of a file change; what they then mean is stated by StampFolderRoundTrip, StampFileIndex and FolderIndex |
| SortPass.StampIdempotent | Source/JKRArchive.cpp:305-313 | stamping an entry listed twice gives the same entry |
| SortPass.StampFolderRoundTrip | Source/JKRArchive.cpp:305-313 | a directory whose folder is in the arena records the folder's index, which is not the sentinel |
| SortPass.StampFileIndex | Source/JKRArchive.cpp:312-313 | with synced ids, a file listed once records its own position |
| SortPass.BucketAppend | Source/JKRArchive.cpp:315-320 | filing two lists one after the other is filing their concatenation |
| SortPass.BucketMembers | Source/JKRArchive.cpp:315-320 | an entry is in bucket t exactly when it is listed and is a file of preload type t |
| Records.AttrAndNameOffs | Source/JKRArchive.cpp:225 | the word's high byte is the attribute and its low 24 bits the 16-bit name offset |
| Records.SplitCombine | Source/JKRArchive.cpp:136-137 | splitting a written word gives back its attribute and name offset |
| Records.CombineSplit | Source/JKRArchive.cpp:136-137 | recombining the parts read returns the word exactly when its bits 16..23 are clear |
| Records.EntryRoundTrip | Source/JKRArchive.cpp:132-157 | reading back an entry record restores attribute, node index, data, size and name offset; a directory with a folder index gets that folder; a payload only for a file without a folder |
| Records.FolderRoundTrip | Source/JKRArchive.cpp:114-127 | reading back a folder record restores name offset, first offset and the child count modulo 2^16 |
| Reader.ReadFolders | Source/JKRArchive.cpp:114-127 | one folder per record, named from the string table at the record's offset, the first one the root |
| Reader.LastMatchIsLast | Source/JKRArchive.cpp:143-148 | a folder's own entry is the last matching record, or none when none matches |
| Reader.ReadEntries | Source/JKRArchive.cpp:132-160 | entry i is built from record i; each folder's own entry is its last matching record |
| Reader.ReadFilesHold | Source/JKRArchive.cpp:149-157 | from a stream that yields the bytes asked for, every file read carries exactly its mDataSize bytes, and every other entry none |
| Reader.SlotsAreSlice | Source/JKRArchive.cpp:164-168 | the positions the link loop visits are the slice of mDirectories |
| Reader.CoversRange | Source/JKRArchive.cpp:164-168 | the loop reaches an entry exactly when it hands it to the folder |
| Reader.OwnerIsLast | Source/JKRArchive.cpp:163-169 | an entry's parent is the last folder whose range holds it, or unchanged when none does |
| Reader.LinkFolder | Source/JKRArchive.cpp:164-168 | folder g's children grow by its range (32-bit end); every entry in it gets g as parent, the others are unchanged |
| Reader.LinkChildren | Source/JKRArchive.cpp:163-169 | every folder's children grow by its range; every entry's parent is its Owner |
| RoundTrip.ReadFolderRange | Source/JKRArchive.cpp:163-169 | a folder read back from a laid-out table is handed the entries of its written child list, in order |
| RoundTrip.ReadEntryOwner | Source/JKRArchive.cpp:163-169 | every entry read back has as parent the one folder whose range holds it, and it is in that folder's written child list |
| RoundTrip.LinkInvertsLayout | Source/JKRArchive.cpp:163-169 | read's link pass inverts a complete layout: every folder gets exactly its written child list, every entry its one owner |
| RoundTrip.LayoutReadsBack | Source/JKRArchive.cpp:297-299 | laying out from the root and reading back hands each folder its original children with the shortcuts last, and each entry the folder whose list holds it |
| Writer.FileOffs | Source/JKRArchive.cpp:176 | the entry table starts on the first 32-byte boundary at or after the end of the folder table |
| Writer.StringOffs | Source/JKRArchive.cpp:177 | the string table starts on the first 32-byte boundary at or after the end of the entry table |
| Writer.DataStart | Source/JKRArchive.cpp:206-208 | file data starts on the first 32-byte boundary at or after the end of the string pool |
| Writer.HeaderLocations | Source/JKRArchive.cpp:231-250 | below 2^32, every stored offset plus the stored header size is the position the table was written at, and the counts are the table sizes |
| Writer.HeaderSizes | Source/JKRArchive.cpp:218-241 | the stored data size is the 32-bit sum of the three region sizes, and the file size is the data start plus it |
| Writer.Emit | Source/JKRArchive.cpp:253-268 | after writing a list of files, only listed entries changed, every listed file still holds its bytes, and the region is 32-byte aligned |
| Writer.Chunk | Source/JKRArchive.cpp:263-264 | a file takes mDataSize payload bytes, then padding to the next 32-byte boundary |
| Writer.WriteOne | Source/JKRArchive.cpp:256-265 | one iteration compresses when marked, appends the chunk and leaves the stream aligned |
| Writer.AppendChunk | Source/JKRArchive.cpp:263-264 | writing at an aligned position and aligning again appends exactly the file's chunk |
| Writer.WriteRegion | Source/JKRArchive.cpp:253-268 | the loop computes Emit; the size reported is the region length modulo 2^32 |
| Writer.WriteFileData | Source/JKRArchive.cpp:253-268 | writeFileData as written: Emit without recording offsets |
| Writer.RegionSize | Source/JKRArchive.cpp:266-267 | a region listing each file once is as long as the sum of the files' aligned sizes as they end |
| Writer.EmitKeepsSizes | Source/JKRArchive.cpp:256-265 | writing a region changes no attribute, and the size only of a USE_SZS file |
| Writer.WrittenPlain | Source/JKRArchive.cpp:256-263 | a file without USE_SZS is written with the size it came with, every time it is listed |
| Writer.WrittenEncoded | Source/JKRArchive.cpp:257-263 | the first time a USE_SZS file is written, its size is the length of the encoding of its original bytes |
| Writer.RegionWritten | Source/JKRArchive.cpp:256-267 | any region, a file listed twice included, is as long as the sum of the 32-aligned sizes its files have when written |
| Writer.WrittenUpTo | Source/JKRArchive.cpp:256-267 | after the first k listed files the region is as long as the sum of their 32-aligned sizes as each is written (`WrittenSize`, `WrittenTotal`) |
| Writer.PlainRegionSize | Source/JKRArchive.cpp:256-267 | a region without USE_SZS files, a file listed twice included, is as long as the sum of the files' aligned sizes, for either data-offset policy |
| Writer.PlainRegion | Source/JKRArchive.cpp:256-265 | without USE_SZS files, writing changes no entry |
| Writer.EmitKeepsData | Source/JKRArchive.cpp:253-268 | as written, no entry's data offset changes |
| Writer.TwoFilesRegion | Source/JKRArchive.cpp:253-268 | two one-byte files give their two chunks and unchanged entries |
| Writer.StaleDataOffset | Source/JKRArchive.cpp:226 | the second file's byte lands at offset 32 while its record still says 0, so a reader does not find it |
| Writer.WriteFileDataPlaced | Source/JKRArchive.cpp:253-268 | the corrected writer: Emit with each file's offset recorded before it is written |
| Writer.PlacedSameBytes | Source/JKRArchive.cpp:253-268 | recording offsets changes the region's bytes not at all, and the entries only in their data offsets |
| Writer.PlacedReadsBack | Source/JKRArchive.cpp:151-152 | a file placed in its region is found by the reader's seek in the whole data section |
| Writer.PlacedFindsFiles | Source/JKRArchive.cpp:151-152 | with offsets recorded, every written file is found at its data offset while the section fits in 32 bits |
| Strings.ReduceIgnoresFind | Source/JKRArchive.cpp:337-345 | in reduce mode the walk never consults find |
| Strings.ModesAgree | Source/JKRArchive.cpp:336-360 | the two loops compute the same thing when writing "." or ".." to the pool is a look-up |
| Strings.BelowChildren | Source/JKRArchive.cpp:338-357 | every child of a folder is below it, and so is everything below the folder of each non-shortcut directory child |
| Strings.FolderLabels | Source/JKRArchive.cpp:336-360 | against a pool that keeps what it holds, below 2^16 bytes: the pool only grows, every entry below the folder and every entry renamed points at its own name, and, when directories carry their folders' names, so does every folder renamed and the folder of every directory below |
| Strings.KidsLabels | Source/JKRArchive.cpp:338-358 | the same for the loop over the children, from the i-th on |
| Strings.LabelStep | Source/JKRArchive.cpp:339-355 | one child's offset points at its name (whether or not it changed), a non-shortcut directory's folder gets the same offset, and the pool only grows |
| Strings.LabelFolderStep | Source/JKRArchive.cpp:341-342 | when directories carry their folders' names, the folder of the child points at its name |
| Strings.Persists | Source/JKRArchive.cpp:338-358 | an entry labelled earlier in the walk stays labelled: the pool keeps old offsets and a relabelled entry is labelled again |
| Strings.FoldersPersist | Source/JKRArchive.cpp:341-356 | the same for the folders |
| Strings.Join | Source/JKRArchive.cpp:338-358 | two legs of the walk label what each leg labels |
| Strings.PrologueHolds | Source/JKRArchive.cpp:180-191 | after the prologue, "." and ".." are held where they were written, and the root's offset points at its name |
| Strings.TableLabels | Source/JKRArchive.cpp:180-191 | the whole string table of write, in both modes, below 2^16 bytes: every entry below the root points at its own name, and, when directories carry their folders' names, so do the root and every folder reached |
| Strings.TableWalked | Source/JKRArchive.cpp:183-191 | the root keeps the offset of its name from the prologue unless the walk labels it again |

## Left out

- The string pool (`StringPool`) is not part of this model. Its `write`, `find` and `mLookUp = false` switch are parameters. Its contract (it keeps what it holds and returns an offset holding the name) is a hypothesis of the lemmas that need it. Its size, alignment and byte buffer are not modelled, so the deduplication of equal names in reduce mode is not stated.
- Byte I/O is not modelled: `BinaryReader`/`BinaryWriter`, endianness, the "RARC"/"CRAR" magic check and its message, and the `printf` progress output. Records and headers are values with one field per stored value. The reader's name and payload look-ups are function parameters (`nameAt`, `bytesAt`).
- The filesystem is left out: `importNode`, `unpack`, `save` and the constructors that open files. The root set-up of `importFromFolder` is modelled (ImportRoot).
- The SZS encoder `JKRCompression::encodeSZSFast` is a function parameter of the writer.
- Reader.ReadEntries: a directory record whose data is out of range indexes `mFolderNodes` without a check in the source (undefined behaviour). The model requires it in range.
- Reader.LinkChildren: a child range past the end of `mDirectories` is undefined behaviour in the source. The model requires each range to fit (`AllFit`).
- Archives.Archive.SortNodeAndDirs: the recursion terminates in the source only on an acyclic tree, and descending into a non-shortcut directory without a folder crashes it. The model takes a ghost rank (`Ranked`) that bounds every descent, and requires the folder to exist.
- Archives.Archive.CollectStrings: same ghost rank as the layout pass.
- A fresh `mNode` of either record type is indeterminate in C++. The model starts those fields at 0.
- Names.NameHash: `(u16)str[i]` is modelled for a signed `char`: a byte of 0x80 or more adds byte + 0xFF00. A build with unsigned `char` would add the byte.
- LayoutFromRoot and LayoutReadsBack state tiling only when no folder is reached twice (`NoDup` of the visit order). A folder shared by two parents is not covered. The per-folder slice property holds without that assumption.
- `write` is modelled in parts: the layout pass, the string table, offsets and header, regions, and records. There is no single method that emits the whole byte stream. The signed 32-bit `fileOffs`/`stringOffs` are treated as unbounded, and HeaderLocations requires positions below 2^32.
- Strings.FolderLabels, Strings.TableLabels: the folder half of the conclusion assumes every non-shortcut directory carries its folder's name (`NamesAgree`), which `createFolder` keeps (CreateFolderAgrees) but a read archive need not meet. A folder reached through two such directories ends with the offset of the later one, so the folder's offset is stated to point at its name, not to equal its entry's offset after the whole walk (LabelStep states the equality at each step).
- Writer.RegionSize: the form in terms of the entries as they end requires each file listed once. RegionWritten and PlainRegionSize state the length for lists with repeats, as a second write produces.
- Concurrency and `shared_ptr` aliasing beyond arena positions are not modelled.

## Findings

| source | as written | input that shows it | evidently intended | confidence | as-written member | corrected member |
|---|---|---|---|---|---|---|
| Source/JKRArchive.cpp:253-268 | writeFileData writes each file's bytes but never stores their position in the entry's `mNode.mData`, and write emits that field unchanged at line 226 | two one-byte MRAM files created by createFile (data offset 0): the second file's byte is at region offset 32 but its record says 0 | each file's data offset is set to its position in the file-data section before its record is emitted, so that read's seek at line 151 finds it | not executed | Writer.StaleDataOffset | Writer.PlacedFindsFiles |
