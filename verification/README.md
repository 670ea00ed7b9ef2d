# krnel in Dafny

A verification model of the stateful parts of krnel, a small freestanding C kernel: its file store, its editor,
its heap, its printers and parsers, its screen, its scheduler and its command history. Code that works by changing
things step by step is modelled as classes and methods with loops; each is proved against a specification function,
and the specification functions carry the laws.

Check it with `dafny verify dfyconfig.toml`.

## How the model is organised

- **File store** (`bytes`, `inode`, `dirent`, `store_model`, `layout`, `layout_steps`, `layout_laws`, `directory_laws`,
  `ext2`). `Ext2Store.Ext2` holds an array of 65536 blocks and the two bump counters. `Layout.Inv` is the disk invariant:
  pointer ranges, one owner for each block, directory shape, zero tail. `Layout.Abs` reads the disk as a tree of numbered
  nodes, a directory being an ordered list of entries and a file a sequence of whole blocks. Every method of the class
  proves that the invariant holds afterwards and that the tree changed exactly as `StoreModel` says; it also proves
  `Evolves`, the fact about two disk states that makes old inode copies readable for ever.
- **Paths and sessions** (`path`, `session`, `session_laws`, `path_cuts`, `one_name`,
  `coherence_laws`, `root_laws`, `home_laws`, `node_laws`,
  `up_laws`, `nested_names`, `lost_paths`, `fs`). `Paths` defines components (cut at 63 characters) and
  the walk they describe. `Sessions` gives the effect of every path operation on tree and working directory;
  `SessionLaws` proves write-then-read, isolation and directory capacity over whole runs; `OneName` and `CoherenceLaws` say
  exactly when text and inode of the working directory stay together. `FileSystem.Fs` is the code, with its 128-byte text of the working directory.
- **Strings** (`cstring`, `numerals`, `format`, `format_laws`, `strtok`, `shell`). `Format.Ideal` is the unbounded output of a format.
  `Tokens.Weave` characterises tokens without the tokenizer.
- **Users** (`passwd`, `passwd_cuts`, `users`, `login_laws`, `user_table`, `table_losses`, `text_files`). Text of a table, reading it back
  whole or cut, the table in memory.
- **Editor** (`editor_model`, `editor_laws`, `key_laws`, `editor_rows`, `editor`, `editor_files`, `long_pages`). A page of lines refines a flat text
  with one offset; the class works on a 200 x 80 array of characters.
- **Heap** (`heap_model`, `heap_laws`, `heap`). A list of blocks in address order, which orders of use give it back whole, and
  the linked headers that hold it.
- **Screen** (`screen_model`, `screen`), **scheduler** (`sched_model`, `process`), **history** (`history`).

Each class is tied twice to what it does: to a specification function, about which the laws are proved, and to a
predicate that says the effect of one call in plain numbers (`NodeLaws`, `UpLaws`, `LoginLaws`, `KeyLaws`, `HeapModel.Given`,
`SchedModel.Ticked`, `History.Kept`, `ScreenModel.Typed`).

Bytes are characters below 256; C strings are the text before the first NUL of a buffer. Machine widths are written out
where they matter: 16- and 32-bit fields, `align_up` modulo 2^32, the cast of `atoi` to `u8` and `u32`, signed `char` in
`putchar`, the truncating `%` of the history index.

## Results worth knowing

Places where the code does something a reader might not expect, each with a lemma that says exactly when, and with an input
that shows it:

- The inode table reaches the data area at inode 81 (`InodeTable.SlotsApart`; shown by `NestedNames.SlotInData`).
- A failed addition to a full directory is ignored, and a name may be added twice, so `mkdir` and `create` can leave a node
  that its name does not lead to (`DirectoryLaws.MkdirNames`, `DirectoryLaws.CreateNames`; shown by
  `NestedNames.SameNameTwice`). Unlinking never frees a slot (`DirectoryLaws.UnlinkUndoesAdd`).
- Text and inode of the working directory part when a delete unlinks a directory on the way, when a text is cut at 127
  characters and loses more than slashes, and, below the root, when the joined text of a relative `chdir` has 127 characters
  or more, although the buffer would hold 127 (`CoherenceLaws.RunExact`, `SessionLaws.RelativeChdirExact`; shown by
  `LostPaths.DeletedUnderfoot`, `LostPaths.LongPathLost` and `NestedNames.LongNamesPart`).
- The inode of the root is never initialised and its mode stays zero, so `chdir` to the root by any argument but `/` and `..`
  fails (`RootLaws.RunChdirExact`; shown by `RootLaws.RootSpelledTwice`).
- Saving an editor text longer than 12288 bytes cuts it and still clears the modified mark (`EditorFiles.SaveThenLoad`,
  `EditorFiles.SaveKey`; shown by `LongPages.TypedPageIsCut`). A line of 79 characters, which a file may bring in, cannot be
  joined again once it is split (`EditorLaws.EnterThenBackspace`; shown by `LongPages.LoadedLineStaysSplit`).
- Saving an empty user table leaves the old file in place, and a long one is cut (`Users.SaveExact`; shown by
  `TableLosses.LastUserStays` and `TableLosses.FullTableIsCut`). Removing a user below the logged-in one makes the kernel report
  another user, unless the logged-in one was the last: then its record stays in the slot given up until the next user is
  added (`Users.LoginAfterRemoval`; both shown by `TableLosses.RemovalShifts`).
- A user name is compared whole and stored cut to 31 characters, so a longer one can be added twice
  (`Users.AddDistinctExact`; shown by `TableLosses.SameNameTwice`).
- `fs_create_home` looks for `home` in the working directory and makes it in the root, so each call from a directory without
  one costs the root a slot (`HomeLaws.HomeSlot`; shown by `NestedNames.SecondHome`).
- Giving everything back need not restore the heap (`HeapLaws.RunRestoresExactly`, `HeapLaws.FreeingOrderExact`; shown by
  `HeapLaws.QueueOrderDoesNot`); in stack order it always does (`HeapModel.NestedRunRestores`).
- A request above 2^32-8 is served with a block that does not hold it, and may leave a block of no bytes
  (`HeapModel.ServedExactly`, `HeapModel.SizesExact`; shown by `HeapModel.WrappedRequest`).
- The scheduler never goes back to a lower slot (`SchedModel.ServedExactly`), and from boot it never leaves slot 0
  (`Processes.BootStaysIdle`).

Two more differences, which no caller in the repository runs into. The return value of `vsnprintf` is the stored count, not the
length wanted by section 7.21.6.5 of ISO/IEC 9899:2011 (`Format.Vsnprintf`). A command of 256 characters or more would be
stored cut and compared whole, so that its repeats went unnoticed (`History.RepeatRecognised`); the shell hands over 255 at most
(kernel/shell.c:454-457, 530-541, 588-592, 721-817).

## Model

| member | source | states |
|---|---|---|
| `Bytes.U32RoundTrip` | kernel/ext2.c:117 | Four stored bytes read back as the number they were made from: the little-endian layout of every 32-bit field. |
| `Bytes.LittleEndian` | kernel/ext2.c:117 | Stored numbers have their lowest byte first. |
| `InodeTable.InodeRoundTrip` | kernel/ext2.c:117-117 | An inode stored in a slot reads back unchanged, all nine scalar parts and fifteen pointers. |
| `InodeTable.InodeFields` | kernel/ext2.c:117-133 | Where each field of a stored inode lies in its 88 bytes, byte by byte. |
| `InodeTable.SlotsApart` | kernel/ext2.c:109-112 | Two slots in the same block never overlap, and a slot lies below the data area if and only if its number is at most 80. |
| `NestedNames.SlotInData` | kernel/ext2.c:105-135 | Seventy directories after a fresh mount the next inode is 81, the first whose slot lies in the data area. |
| `InodeTable.StoringInode` | kernel/ext2.c:121-135 | Writing one slot changes exactly that inode: every other inode up to 80 and every data block is as before. |
| `LayoutLaws.SlotsNeverOverlap` | kernel/ext2.c:121-135 | The block that ext2_write_inode stores lies below the data area, whatever the number up to 80. |
| `DirentBlock.FirstMatchStable` | kernel/ext2.c:263-276 | Appending entries never changes a lookup that already succeeds, and otherwise the appended ones decide. |
| `DirentBlock.RemoveFirstOther` | kernel/ext2.c:298-328 | Removing the first match of a name leaves the lookup of every other name alone. |
| `DirentBlock.KillFirstRecord` | kernel/ext2.c:323-325 | Clearing the inode of the first record keeps the records tiling the block and removes exactly the first match. |
| `DirentBlock.SwallowRecord` | kernel/ext2.c:321-322 | Letting the record before it swallow the match keeps the records tiling the block; the entries are those before and those after. |
| `DirentBlock.MatchAtCursor` | kernel/ext2.c:264-273 | In any block of tiled records, the record a scan stops at is the first match of the whole block. |
| `Ext2Store.PutRecord` | kernel/ext2.c:160-168 | The record of a new entry, byte by byte: inode, length 1024, name length, type, name and NUL. |
| `DirectoryLaws.AddFinds` | kernel/ext2.c:137-175 | A successful addition of a fresh name makes that name lead to the new inode and changes no other lookup in any directory. |
| `DirectoryLaws.AddShadowed` | kernel/ext2.c:137-175 | Adding a name that exists changes no lookup at all: the old entry stays first. |
| `DirectoryLaws.AddToFull` | kernel/ext2.c:145-174 | An addition changes nothing if and only if the directory already took twelve names. |
| `DirectoryLaws.UnlinkUndoesAdd` | kernel/ext2.c:280-335 | Unlinking a name just added restores the entries but not the slot: the count of used slots stays one higher. |
| `DirectoryLaws.MkdirNames` | kernel/ext2.c:177-192 | mkdir makes a directory in every case, and its name leads to it if and only if the parent had room and no entry of that name. |
| `DirectoryLaws.CreateNames` | kernel/ext2.c:194-204 | The same for a new file. |
| `DirectoryLaws.MkdirElsewhere` | kernel/ext2.c:177-192 | mkdir changes no lookup but that of its own name in its parent. |
| `NodeLaws.MkdirMakes` | kernel/ext2.c:177-192 | mkdir changes two nodes: a new one with mode 0755, two links and 1024 bytes, and its directory, which has the entry of type 2 at its end unless it took twelve names. |
| `NodeLaws.CreateMakes` | kernel/ext2.c:194-204 | The same for a file: mode 0644, one link, no bytes, an entry of type 1. |
| `NodeLaws.Permissions` | kernel/fs.c:133-140 | A new file can be executed by nobody and written by its owner alone; a new directory can be entered by all. |
| `NodeLaws.UnlinkGone` | kernel/ext2.c:280-335 | Unlinking takes away the first entry of the name and empties the node it led to: no entries, no bytes, no links, size 0; every other node is as before. |
| `NodeLaws.NextOfName` | kernel/ext2.c:280-335 | Afterwards the name leads where its second entry led, and nowhere if and only if there was one. |
| `NodeLaws.WriteWrites` | kernel/ext2.c:227-253 | A write leaves the first min(n, 12288) characters and zeros to the end of the last block in that file, with its size and sector count, and nothing else changed. |
| `NestedNames.SameNameTwice` | kernel/fs.c:124-131 | Asked twice for one name, mkdir makes two directories, the second of which the name does not lead to. |
| `SessionLaws.SparedLookup` | kernel/ext2.c:280-335 | Unlinking leaves every lookup alone but that of the unlinked name in that directory and those inside the removed inode. |
| `StoreModel.AddEntryOk` | kernel/ext2.c:137-175 | Adding an entry keeps the tree well-formed: entries point upwards at allocated inodes, sizes match blocks held. |
| `StoreModel.UnlinkOk` | kernel/ext2.c:280-335 | Unlinking keeps the tree well-formed, also when the victim is a directory. |
| `StoreModel.WriteOk` | kernel/ext2.c:227-253 | A write keeps the tree well-formed and the block counter inside the image. |
| `StoreModel.LookupOk` | kernel/ext2.c:255-278 | A name found leads to an allocated inode with a higher number than the directory, so walks cannot cycle. |
| `Layout.FormattedOk` | kernel/ext2.c:76-103 | A zero image with any superblock block in block 1 satisfies the disk invariant and is the tree of an empty root whose inode is all zero. |
| `Layout.UpdateNode` | kernel/ext2.c:121-135 | A step that touches one inode and its own or new blocks keeps the whole disk invariant and changes exactly one node of the tree. |
| `LayoutLaws.OneOwner` | kernel/ext2.c:343-357 | Every nonzero pointer on disk lies in [10, next_block) and is stored at one inode and one index only. |
| `LayoutLaws.DiskShape` | kernel/ext2.c:137-175 | Blocks from next_block on are zero; a directory holds a prefix of pointers, each to a fresh block or to one record of length 1024. |
| `LayoutSteps.DropRecord` | kernel/ext2.c:321-325 | The unlink edit of a tiled block, in either of its two forms, removes exactly the first match of the name. |
| `LayoutSteps.EntryAdded` | kernel/ext2.c:160-169 | The two block writes that end an addition are one entry more in the tree, and keep the disk invariant. |
| `LayoutSteps.DirCreated` | kernel/ext2.c:177-190 | A new inode with one fresh block is a new empty directory in the tree. |
| `LayoutSteps.FileCreated` | kernel/ext2.c:194-202 | A new inode without blocks is a new empty file in the tree. |
| `LayoutSteps.Unlinked` | kernel/ext2.c:305-327 | Emptying the victim and editing the block together are one unlink of the tree, and keep the disk invariant. |
| `LayoutSteps.DataKeepsTree` | kernel/ext2.c:238-249 | Data written to blocks nobody points at changes no node of the tree. |
| `LayoutSteps.FileInstalled` | kernel/ext2.c:250-252 | Storing the inode makes the new blocks the contents of that file and of nothing else. |
| `LayoutLaws.CopyStillReads` | kernel/ext2.c:206-253 | Over any history of operations, an inode copied at its start still reads the bytes it read then, at every offset and size. |
| `LayoutLaws.CopyRun` | kernel/ext2.c:343-351 | Over any history the blocks of such a copy are never written again. |
| `Ext2Store.Ext2.Formatted` | kernel/ext2.c:76-103 | Formatting establishes the disk invariant with counters 11 and 10 and the tree of an empty root, its mode zero. |
| `Ext2Store.Ext2.ReadInode` | kernel/ext2.c:105-119 | Number 0 is refused; any other gives the inode stored under it. |
| `Ext2Store.Ext2.WriteInode` | kernel/ext2.c:121-135 | Number 0 is refused and writes nothing; any other up to 80 replaces exactly that inode. |
| `Ext2Store.Ext2.AddDirent` | kernel/ext2.c:137-175 | The tree afterwards is the tree with the entry appended, or unchanged with result -1 exactly when twelve names were added before; the disk invariant holds. |
| `Ext2Store.Ext2.MakeDir` | kernel/ext2.c:177-192 | The tree gains a directory node and, if there is room, its entry; a failed addition is ignored as in the source. |
| `Ext2Store.Ext2.CreateFile` | kernel/ext2.c:194-204 | The tree gains an empty file node and, if there is room, its entry; a failed addition is ignored as in the source. |
| `Ext2Store.Ext2.FindInode` | kernel/ext2.c:255-278 | The result is the first match in the ordered entry list of the directory, -1 when there is none. |
| `Ext2Store.Ext2.UnlinkName` | kernel/ext2.c:280-335 | The tree afterwards lacks the first match and the victim is emptied; -1 and no change when no entry has the name. |
| `Ext2Store.Ext2.ReadFile` | kernel/ext2.c:206-225 | The block walk delivers exactly the slice of the flat file at that offset and size and leaves the rest of the buffer alone. |
| `Ext2Store.Ext2.WriteFile` | kernel/ext2.c:227-253 | min(n, 12288) bytes land in new blocks, the inode copy points at them in order, and no node of the tree has changed yet. |
| `Ext2Store.FindInBlock` | kernel/ext2.c:261-275 | The record scan of any block of tiled records returns the first match among its live records. |
| `Ext2Store.FindRecord` | kernel/ext2.c:295-332 | The unlink scan finds the first live record of the name and the record before it, if there is a match at all. |
| `Paths.ComponentsJoin` | kernel/fs.c:17-26 | The components of p/q are those of p followed by those of q, for all strings, also with components cut at 63 characters. |
| `Paths.SlashesIgnored` | kernel/fs.c:17-23 | Leading and doubled slashes change no component. |
| `Paths.WalkJoin` | kernel/fs.c:9-28 | Resolution is a fold of lookups: a walk over joined components is the second walk from where the first ends. |
| `Paths.ResolveJoin` | kernel/fs.c:9-28 | Resolving p/q equals resolving q from the inode of p, and fails when p fails. |
| `Paths.ParentAgrees` | kernel/fs.c:30-41 | Looking the basename up in the parent that fs_get_parent returns gives what resolving the whole path gives. |
| `Paths.WalkStable` | kernel/fs.c:9-28 | A walk that succeeds still leads to the same inode after any operation that only appends entries. |
| `PathCuts.ComponentsOfStretch` | kernel/fs.c:18-20 | A stretch without slashes is cut into pieces of 63 characters. |
| `NodeLaws.PathSplit` | kernel/fs.c:30-41 | Of the first 127 characters of a path, the base name is what stands behind the last slash and the parent what stands before it. |
| `FileSystem.Fs.ResolveInode` | kernel/fs.c:9-28 | The loop over the component buffer computes the fold of lookups over the components of the path. |
| `FileSystem.Fs.GetParent` | kernel/fs.c:30-41 | Parent inode and basename of the path as cut to 127 characters; nothing else changes. |
| `FileSystem.ReadComponent` | kernel/fs.c:18-20 | One component of at most 63 characters, up to the next slash, NUL-terminated in its buffer. |
| `FileSystem.Fs.Mounted` | kernel/fs.c:5-7 | A session on a formatted store starts at "/" with text and inode of the working directory agreeing. |
| `FileSystem.Fs.MakeDirectory` | kernel/fs.c:124-131 | Tree and result of fs_mkdir for every path, the failing ones included, with every field of the new node; the history of the store goes on. |
| `FileSystem.Fs.Create` | kernel/fs.c:133-140 | Tree and result of fs_create for every path, the failing ones included, with every field of the new node. |
| `FileSystem.Fs.CreateHome` | kernel/fs.c:287-297 | Tree and result of fs_create_home: nothing for root, else "home" made where it is missed, then the directory in it, or -1. |
| `FileSystem.Fs.Delete` | kernel/fs.c:142-148 | With result 0, which comes exactly when the parent resolves and holds the name, the first entry of the name is gone, the node it led to is empty and all others are as before. |
| `FileSystem.Fs.Read` | kernel/fs.c:188-195 | The buffer receives the zero-padded contents cut to the requested size; -1 and an untouched buffer when the path leads nowhere. |
| `FileSystem.Fs.Write` | kernel/fs.c:197-210 | Tree and result of fs_write, creating the file on the way if the path leads nowhere: bytes, padding, size and sectors of that file, all else as before. |
| `FileSystem.Fs.ChangeDir` | kernel/fs.c:212-260 | Text and inode of the working directory after every outcome of fs_chdir, with its result, for arguments of any length; a failure changes nothing and ".." goes one step up. |
| `FileSystem.Fs.PerformAll` | kernel/fs.c:124-260 | A sequence of requests performed one after the other ends in the session of the run, and the store has one history, so the run theorems hold of the object. |
| `UpLaws.ChdirDone` | kernel/fs.c:212-260 | Where every argument leads and how it becomes the new text; a failure changes nothing. |
| `UpLaws.ServeDone` | kernel/fs.c:124-260 | Each request of a run does what the call of that name is said to do, node by node. |
| `UpLaws.UpGoes` | kernel/fs.c:219-230 | In a coherent session ".." drops the last slash of the text and what follows it, and the inode is where the components left lead from the root. |
| `UpLaws.UpStays` | kernel/fs.c:219-230 | In a coherent session ".." leaves the inode as it was if and only if the text ends in a slash. |
| `UpLaws.DownThenUp` | kernel/fs.c:219-258 | A step down by a single name whose text fits and ".." give back the same text and inode. |
| `NodeLaws.DeletedPathResolves` | kernel/fs.c:142-148 | A deleted path resolves to the second entry of its name, and to nothing if and only if the name stood once. |
| `NodeLaws.WriteDone` | kernel/fs.c:197-210 | What fs_write does on any path, through a file made for it or one that was there. |
| `SessionLaws.WriteSucceeds` | kernel/fs.c:197-210 | fs_write returns min(n, 12288) exactly when the path leads to a file or its parent has room for a new name, else -1. |
| `SessionLaws.WriteThenRead` | kernel/fs.c:188-210 | Reading a path just written yields the data padded with zeros to the block end and cut to the size asked for; every file on another inode is as before. |
| `SessionLaws.ServeOk` | kernel/fs.c:124-260 | Every path operation keeps the session well-formed. |
| `SessionLaws.ServeCoherent` | kernel/fs.c:212-260 | Each gentle operation keeps text and inode of the working directory in agreement: deletes off the way to it, and changes whose text is stored but for slashes at its end. |
| `SessionLaws.RunCoherent` | kernel/fs.c:124-260 | After any run of gentle requests, resolving cwd gives cwd_inode. |
| `SessionLaws.ChdirCoherent` | kernel/fs.c:212-260 | A change of directory whose text is stored, but for slashes at its end, keeps the agreement for "/", "..", absolute and multi-component relative paths. |
| `SessionLaws.UpCoherent` | kernel/fs.c:219-230 | Going up keeps the agreement: the text above the working directory always leads to a directory. |
| `SessionLaws.RelativeChdirExact` | kernel/fs.c:249-254 | Below the root, a relative change keeps the agreement if and only if the joined text is shorter than 127 characters. |
| `PathCuts.CutKeepsComponents` | kernel/fs.c:17-26 | A path cut anywhere has the same components if and only if only slashes were cut off. |
| `OneName.RunNamed` | kernel/fs.c:124-260 | Over any run no inode is ever entered under a second name, in the same directory or another. |
| `OneName.UniqueWalk` | kernel/fs.c:9-28 | Two walks from the root end at the same inode if and only if they take the same names. |
| `CoherenceLaws.DeleteExact` | kernel/fs.c:142-148 | A delete keeps text and inode together if and only if what it unlinks is not on the way to the working directory. |
| `CoherenceLaws.ChdirExactly` | kernel/fs.c:212-260 | A chdir keeps them together if and only if it fails, or the new text is stored but for slashes at its end. |
| `CoherenceLaws.ServeExact` | kernel/fs.c:124-260 | Each request keeps them together if and only if it is gentle. |
| `CoherenceLaws.RunExact` | kernel/fs.c:124-260 | Over any run they stay together at every step if and only if every request is gentle. |
| `LostPaths.DeletedUnderfoot` | kernel/fs.c:142-148 | From a fresh mount, a directory is made, entered and deleted: its text leads nowhere. |
| `LostPaths.LongPathLost` | kernel/fs.c:245-248 | From a fresh mount, a directory entered by a path of 128 characters is stored without the last one and parted from its text. |
| `SessionLaws.ChdirTargetIs` | kernel/fs.c:232-237 | Trying the argument as a single name first never changes where it leads. |
| `SessionLaws.WalkSpared` | kernel/fs.c:142-148 | A walk that does not pass the unlinked inode is unchanged by unlinking. |
| `SessionLaws.TwelveNamesEver` | kernel/ext2.c:137-175 | Over any run, names put into a directory, deleted ones included, never exceed twelve. |
| `RootLaws.MountedOk` | kernel/ext2.c:76-103 | After a fresh mount the root has mode zero and text and inode of the working directory agree. |
| `RootLaws.RunKeepsModes` | kernel/fs.c:124-260 | No run of path operations changes the mode an inode was given. |
| `RootLaws.ChdirExact` | kernel/fs.c:232-243 | While the root has mode zero, chdir with any argument but "/" and ".." succeeds if and only if it leads to a directory other than the root. |
| `RootLaws.RunChdirExact` | kernel/fs.c:124-260 | The same after every run of path operations that starts with such a root, as every run from a fresh mount does. |
| `RootLaws.RootRefused` | kernel/fs.c:212-243 | While the root has mode zero, two or more slashes lead to it and chdir refuses them. |
| `RootLaws.RootSpelledTwice` | kernel/fs.c:214-217 | In the session just mounted "/" is entered and "//" refused, although both resolve to the root. |
| `NestedNames.EnteredCoherent` | kernel/fs.c:249-258 | Making a directory and entering it keeps text and inode together if and only if the session is at "/" or the joined text is shorter than 127. |
| `NestedNames.LongNamesPart` | kernel/fs.c:249-258 | From a fresh mount, two directories of 63-character names entered one inside the other leave the text at the first one. |
| `HomeLaws.HomeServed` | kernel/fs.c:287-297 | Making a home keeps the session well-formed and every directory with its entries. |
| `HomeLaws.HomeDone` | kernel/fs.c:287-297 | What fs_create_home makes, step by step: "home" in the root where it is missed, then the home in it, each with every field. |
| `HomeLaws.HomeFound` | kernel/fs.c:287-297 | The new home is found by its name if and only if "home" had room and no such entry. |
| `HomeLaws.HomeSlot` | kernel/fs.c:291-292 | The root gives a slot to "home" if and only if it has one left and the working directory has no "home", whatever the root holds. |
| `NestedNames.SecondHome` | kernel/fs.c:287-297 | A home made from the root and one from a directory entered after it: the root takes "home" a second time. |
| `HomeLaws.FallbackAfter` | kernel/user.c:98-102 | When no home was made, the second attempt by path changes nothing either. |
| `CString.Strncpy` | kernel/string.c:16-21 | n+1 bytes are written when the source is shorter than n, exactly n otherwise; what lies behind is untouched. |
| `CString.Strcpy` | kernel/string.c:10-14 | The text and its NUL at the given place, everything around it untouched. |
| `CString.Strrchr` | kernel/string.c:38-45 | The last position of the character, -1 when there is none. |
| `CString.Strchr` | kernel/string.c:30-36 | The first position of the character from the start given, or that of the NUL. |
| `Numerals.AtoiOfSigned` | kernel/string.c:68-77 | atoi inverts the printing of every integer, whatever non-digit text follows. |
| `Numerals.Itoa` | kernel/string.c:244-254 | The decimal text of every int but the most negative one, in at most eleven characters. |
| `Numerals.ReverseInPlace` | kernel/string.c:179-187 | The first n characters are reversed, the rest untouched. |
| `Numerals.DigitsOf` | kernel/string.c:296-304 | The digit loop and reversal leave the numeral of the value in base 10 or 16. |
| `Numerals.Atoi` | kernel/string.c:68-77 | The value of the leading digits with the sign in front, for values that fit an int. |
| `Numerals.ReverseAt` | kernel/string.c:179-187 | What reversing means, position by position. |
| `Numerals.NumeralMeans` | kernel/string.c:293-340 | A printed numeral, decimal or hexadecimal, has the value of the number, digits of one case and no leading zero. |
| `Format.Vsnprintf` | kernel/string.c:256-374 | For every well-formed format and size it stores the first min(size-1, length) characters of the unbounded output, a NUL, nothing beyond, and returns the stored count. |
| `Format.EmitNext` | kernel/string.c:267-370 | One turn of the loop consumes one literal or directive and stores what fits of the text it stands for. |
| `Format.IdealPlain` | kernel/string.c:278-368 | A directive without flags or width stands for the text of its argument. |
| `FormatLaws.DirectivePrints` | kernel/string.c:269-351 | A directive for a number or string prints a field as wide as its width or its text: text left with a dash, right without one, behind blanks or, for a number after a 0 flag, zeros. |
| `FormatLaws.OtherPrints` | kernel/string.c:329-367 | The other letters heed no width: a character, a pointer of 0x and eight digits, a percent sign, or the directive as it stands. |
| `FormatLaws.PidColumn` | kernel/process.c:110-116 | A process line has its pid right-aligned in the first five columns. |
| `Format.ReadFlags` | kernel/string.c:269-276 | A zero before a dash, then the width: the flags in the order the source accepts them. |
| `Tokens.TextIsWoven` | kernel/string.c:146-170 | Every text is its tokens with delimiters around them: the tokens are delimiter-free, not empty, and kept apart by delimiters. |
| `Tokens.TokensAreWords` | kernel/string.c:146-170 | Conversely, words kept apart by delimiters are exactly the tokens of the text they make up, in order. |
| `Tokens.Tokenizer.Strtok` | kernel/string.c:146-170 | A call returns the next token NUL-terminated in place and remembers the rest; only the delimiter behind the token changes. |
| `Tokens.TakeWords` | kernel/string.c:146-170 | n calls in a row give the first n tokens in order, then NULL, and leave the buffer behind the text untouched. |
| `Tokens.NextInHand` | kernel/string.c:146-170 | Taking the next token leaves all tokens taken before readable. |
| `CommandLine.Shell.ParseCommand` | kernel/shell.c:175-183 | The arguments are the first 19 words of the line in order, followed by NULL. |
| `Passwd.FieldsPrinted` | kernel/user.c:57-64 | A format of plain directives between colons prints the texts of its arguments between colons, for every such format. |
| `Passwd.LinePrinted` | kernel/user.c:57-63 | The format of users_save prints the eight fields of a user as one line. |
| `LoginLaws.LineIs` | kernel/user.c:57-63 | A line has name, password, uid, gid, root mark, sudo mark, home and shell in this order, with colons between. |
| `LoginLaws.FieldsRead` | kernel/user.c:22-47 | What a line of two to eight fields says, the missing ones being zero, "/" and the shell. |
| `LoginLaws.ShortLine` | kernel/user.c:22-30 | A line of fewer than two fields is no user. |
| `Passwd.FieldsComeApart` | kernel/user.c:22-29 | Tokenizing joined fields gives the fields back, for any number of non-empty colon-free fields. |
| `Passwd.LineComesBack` | kernel/user.c:22-47 | Reading a printed line back gives the user it was printed from, numbers and the home of a root user included. |
| `Passwd.UsersComeBack` | kernel/user.c:9-66 | Reading the text of a table of at most n users back gives the same table in the same order. |
| `Passwd.TableNumbersFit` | kernel/user.c:34-37 | The numbers in the text of such a table are in the range where atoi is defined. |
| `PasswdCuts.LineCutReads` | kernel/user.c:19-47 | The first w characters of a line give its user back if and only if they keep name, password and some more fields whole and every lost field equals what stands for a missing one. |
| `PasswdCuts.CutComesBack` | kernel/user.c:9-66 | The first w characters of the text of a table give the table back if and only if the cut falls in the last line and that line survives it. |
| `PasswdCuts.FewerUsers` | kernel/user.c:14-51 | A cut text never gives more users than the table had. |
| `PasswdCuts.CutFileNumbersFit` | kernel/user.c:34-37 | The numbers in a cut text are in the range where atoi is defined. |
| `Users.SaveExact` | kernel/user.c:9-66 | Loading what users_save wrote gives the same table if and only if: for an empty one, the file had no users; for any other, the file could be written and its text was not cut, or cut where the last line stays. |
| `Users.TableSurvives` | kernel/user.c:9-66 | Every table whose text has at most 4096 characters comes back, zero padding included. |
| `Users.SavedNothing` | kernel/user.c:54-66 | Saving an empty table keeps the users of the file, a missing one having none. |
| `TableLosses.LastUserStays` | kernel/user.c:54-124 | The only user is added, with a home and a save, and removed, with a save: the file still has that user. |
| `TableLosses.FullTableIsCut` | kernel/user.c:54-108 | Fifty users with long fields, added one by one and saved anywhere, come back as other users. |
| `Users.AddKeeps` | kernel/user.c:76-108 | user_add keeps names distinct and every field fit for the file. |
| `Users.AddDistinctExact` | kernel/user.c:76-83 | An accepted user leaves names distinct if and only if the table has no name equal to the first 31 characters of the new one. |
| `LoginLaws.AddDone` | kernel/user.c:76-95 | user_add accepts a new name while there is room; the new record is the last one, and every field of it is what was given, cut to its size. |
| `LoginLaws.NewUserLogsIn` | kernel/user.c:82-83 | The new user of a name up to 31 characters logs in with a password if and only if it is the stored one, the first 31 characters given. |
| `LoginLaws.LogsInAfterLoad` | kernel/user.c:9-95 | The same after the table was saved and loaded, when it survives that. |
| `TableLosses.SameNameTwice` | kernel/user.c:76-83 | A name of 32 characters is accepted twice and stored twice as the same 31. |
| `Users.RemoveKeeps` | kernel/user.c:110-124 | user_del keeps the table fit for the file, and the name is gone. |
| `LoginLaws.RemoveDone` | kernel/user.c:110-124 | user_del takes away the first user of the name if it is no root user, and leaves all others in their order. |
| `LoginLaws.RootStays` | kernel/user.c:110-124 | No removal takes a root user. |
| `Users.SudoKeeps` | kernel/user.c:126-135 | user_add_sudo keeps the table fit for the file. |
| `LoginLaws.SudoDone` | kernel/user.c:126-135 | user_add_sudo marks the first user of the name and changes nothing else. |
| `Users.LoginAfterRemoval` | kernel/user.c:110-179 | When another user is removed, the record that the accessors read is unchanged if and only if its index is below the removed one, or the last in use or behind it, where the old slot is not cleared. |
| `TableLosses.RemovalShifts` | kernel/user.c:110-124 | Of three users the first is removed: the middle index then shows another user; the last one shows the same user until the next user added takes the slot. |
| `UserTables.UserTable.Add` | kernel/user.c:76-108 | The table and the slot filled, the files with the home directory made and the passwd file saved, and -1 with no change exactly when the table was full or knew the name. |
| `UserTables.UserTable.Delete` | kernel/user.c:110-124 | The table, every slot and the login afterwards, when the record of the logged-in user is unchanged, the saved file, and -1 exactly for unknown and root users. |
| `UserTables.UserTable.Login` | kernel/user.c:137-148 | The first user of that name and password is logged in and the session goes to the home directory; -1 and no change when there is none. |
| `UserTables.UserTable.FillSlot` | kernel/user.c:81-95 | The first slot that is not in use takes the new record; the others are as before. |
| `UserTables.UserTable.GetName` | kernel/user.c:161-164 | The name in the slot at the logged-in index, whether or not the slot is in use; root when elevated, nobody when nobody is logged in. |
| `UserTables.UserTable.AddSudo` | kernel/user.c:126-135 | The first user of the name is marked and the file saved; -1 and no change for an unknown name. |
| `UserTables.UserTable.Print` | kernel/user.c:54-65 | The running position stays below 4096 and the buffer holds the first min(4095, length) characters of the whole text. |
| `UserTables.UserTable.Save` | kernel/user.c:54-66 | The file becomes the first 4095 characters of the text of the table. |
| `UserTables.UserTable.LoadText` | kernel/user.c:14-51 | The loop that cuts lines and tokens in place builds the users the text describes, at most 50. |
| `UserTables.UserTable.Load` | kernel/user.c:9-52 | A missing or empty file only marks the first boot; any other replaces the table by the users of its text. |
| `EditorLaws.PressRefines` | kernel/kittywrite.c:169-324 | Every key does to the flat text with its offset what the flat model says: insert one, remove one, move by one with clamping, or nothing when a limit blocks it. |
| `EditorLaws.PressKeepsPage` | kernel/kittywrite.c:169-324 | Lines stay at most 79 long and free of newlines, at most 200 of them, the cursor inside. |
| `EditorLaws.RunRefines` | kernel/kittywrite.c:134-325 | The same over whole runs of keys. |
| `KeyLaws.KeyDone` | kernel/kittywrite.c:169-324 | What every key does, in plain numbers: the place of the cursor, the character that comes or goes, and when a limit blocks it. |
| `EditorLaws.TypeThenBackspace` | kernel/kittywrite.c:251-262 | Backspace undoes a typed character that was not blocked. |
| `EditorLaws.EnterThenBackspace` | kernel/kittywrite.c:228-281 | Backspace undoes Enter if and only if the split line was shorter than 79 characters. |
| `LongPages.LoadedLineStaysSplit` | kernel/kittywrite.c:94-106 | A file of one 79-character line loads as that line; Enter at its start and Backspace leave two lines. |
| `EditorModel.PageBounds` | kernel/kittywrite.c:9-14 | Line starts and ends in the flat text are where rows and columns put them. |
| `KittyWrite.LeastMove` | kernel/kittywrite.c:67-77 | The window moves by the least amount that shows the cursor row. |
| `EditorRows.RowMove` | kernel/string.c:102-112 | memmove inside a row delivers the old bytes although source and target overlap, in both directions. |
| `EditorRows.RowStrcpy` | kernel/kittywrite.c:236 | The rest of a row and its NUL replace the start of another row. |
| `EditorRows.ShiftDown` | kernel/kittywrite.c:231-232 | The row loop moves the rows below the cursor one place down. |
| `EditorRows.ShiftUp` | kernel/kittywrite.c:270-271 | The row loop moves the rows below one place up over the joined row. |
| `KittyWrite.Editor.HandleKey` | kernel/kittywrite.c:169-324 | One turn of the loop: page, scroll window and modified mark afterwards, and the flat text as the flat model says. |
| `KittyWrite.Editor.SplitLine` | kernel/kittywrite.c:228-249 | Enter on the row array is the split of one line, or nothing at 200 lines. |
| `KittyWrite.Editor.Backspace` | kernel/kittywrite.c:251-281 | Backspace on the row array: one character less, a join, or nothing. |
| `KittyWrite.Editor.DeleteKey` | kernel/kittywrite.c:283-308 | Delete on the row array: one character less, a join, or nothing. |
| `KittyWrite.Editor.TypeChar` | kernel/kittywrite.c:310-323 | A printable key on the row array: one character more, or nothing in a line of 78 characters or more. |
| `KittyWrite.Editor.EnsureVisible` | kernel/kittywrite.c:67-77 | The scroll position that puts the cursor row inside the 22-row window, unchanged if it was inside. |
| `EditorFiles.LoadOfLines` | kernel/kittywrite.c:94-106 | For lines of any number and length, with or without a last newline, the load gives the first n, each cut to 79 characters. |
| `EditorFiles.CutLoads` | kernel/kittywrite.c:94-119 | A saved text cut after w characters loads as the same lines if and only if at most the last newline is missing and the last line is not empty. |
| `EditorFiles.SaveThenLoad` | kernel/kittywrite.c:79-119 | Saving and loading gives the same lines if and only if the saved length is at most 12288, or 12289 with a non-empty last line. |
| `LongPages.TypedPageIsCut` | kernel/kittywrite.c:109-119 | A page typed from blank, saved after a fresh mount and loaded again, comes back as other lines. |
| `EditorFiles.LoadRows` | kernel/kittywrite.c:94-106 | The load loop over the buffer fills the rows with the lines of the text. |
| `EditorFiles.Load` | kernel/kittywrite.c:79-107 | The page shows the lines of the file, one empty line for a missing or empty one, cursor at the start, unmodified. |
| `EditorFiles.Serialize` | kernel/kittywrite.c:110-117 | The save buffer holds every line followed by a newline, without overrun. |
| `EditorFiles.Save` | kernel/kittywrite.c:109-119 | The file system after the save and the result; the page is unchanged. |
| `EditorFiles.SaveKey` | kernel/kittywrite.c:137-154 | The modified mark goes exactly when something was written, even if the file was cut at 12288. |
| `HeapModel.AlignUpExact` | kernel/memory.c:21-23 | Rounding up reaches the size if and only if it is at most 2^32-8; above that it gives zero. |
| `HeapModel.ServedExactly` | kernel/memory.c:48-97 | The block served holds the request if and only if it is at most 2^32-8; above that any free block serves. |
| `HeapModel.AllocNoneEmpty` | kernel/memory.c:64-82 | No block becomes empty if and only if the rounded size is not zero or the block is not split. |
| `HeapModel.PayloadsApart` | kernel/memory.c:48-123 | In a tiled heap payloads never overlap. |
| `HeapModel.AllocKeepsTiles` | kernel/memory.c:48-99 | Allocation keeps the blocks tiling the heap with sizes multiples of 8, requests that wrapped to zero included. |
| `HeapModel.FreeKeepsTiles` | kernel/memory.c:101-123 | Freeing with forward coalescing keeps the tiling. |
| `HeapModel.AllocGiven` | kernel/memory.c:48-97 | A request takes the first free block that fits, whole if it has less than 24 bytes over, else its first bytes, with the rest as a free block right behind; nothing else changes. |
| `HeapModel.FreeGivenBack` | kernel/memory.c:101-123 | A block given back becomes free and takes in the block behind it, with its header, if that is free. |
| `HeapModel.RunAskedFor` | kernel/memory.c:48-123 | Over any run every block in use has the size of some request of the run, or at most 23 bytes more. |
| `HeapModel.AllocLive` | kernel/memory.c:48-99 | An allocation adds exactly one live block and moves or resizes none. |
| `HeapModel.FreeLive` | kernel/memory.c:101-123 | Freeing takes away exactly the one live block. |
| `HeapModel.RunKeeps` | kernel/memory.c:48-123 | In any run on live pointers the blocks tile the heap, a live payload keeps its place and size until it is freed, and sizes stay positive unless a request of size zero splits a block. |
| `HeapModel.SizesExact` | kernel/memory.c:48-123 | Over any run sizes stay positive at every step if and only if no request of size zero meets a first fit that is split. |
| `HeapModel.AskedNothing` | kernel/memory.c:48-52 | A request asks for size zero if and only if it is zero or above 2^32-8. |
| `HeapModel.OrdinaryRunSizes` | kernel/memory.c:48-123 | In any run of requests from 1 to 2^32-8 and of frees, sizes stay positive at every step. |
| `HeapModel.WrappedRequest` | kernel/memory.c:48-97 | A request of 2^32-1 bytes on the initial heap is served with a block of no bytes. |
| `HeapModel.AllocFreeExact` | kernel/memory.c:64-123 | Freeing a block at once restores the heap if and only if the block was split off, or its successor is in use or missing. |
| `HeapModel.NestedRunRestores` | kernel/memory.c:64-123 | From any heap without free neighbours, every properly nested run of requests and frees leaves it exactly as it was. |
| `HeapModel.StackOrderRestores` | kernel/memory.c:25-123 | From the initial heap, every properly nested run ends with the single original free block. |
| `HeapLaws.FreeCoalescesExactly` | kernel/memory.c:117-122 | A free leaves no two free neighbours if and only if the block before it is in use or missing. |
| `HeapLaws.CleanRunsCoalesce` | kernel/memory.c:48-123 | Over any run free neighbours never arise if and only if no block is given back right behind a free one. |
| `HeapLaws.RunSeams` | kernel/memory.c:48-123 | Over any run the number of free neighbour pairs grows by the frees behind a free block and shrinks by the pairs that requests take away. |
| `HeapLaws.RunRestoresExactly` | kernel/memory.c:48-123 | A run from the initial heap that gives everything back ends in it if and only if requests took away as many pairs as frees had left. |
| `HeapLaws.FreeingOrderExact` | kernel/memory.c:48-123 | With all requests before all frees, the heap is restored if and only if no block is given back right behind a free one. |
| `HeapLaws.CleanRunRestores` | kernel/memory.c:48-123 | A caller who never gives a block back right behind a free one gets the whole heap back in the end. |
| `HeapLaws.DrainedRun` | kernel/memory.c:48-123 | With nothing in use, the heap is the initial one if and only if it has no free neighbours. |
| `HeapLaws.QueueOrderDoesNot` | kernel/memory.c:117-122 | Two requests given back in the order they were made leave everything free and the heap in two pieces. |
| `KernelHeap.LinkedAfterCarving` | kernel/memory.c:64-82 | The header writes of an allocation link exactly the blocks of the new list. |
| `KernelHeap.LinkedAfterRelease` | kernel/memory.c:111-122 | The header writes of a free link exactly the blocks of the new list. |
| `KernelHeap.Heap.Carve` | kernel/memory.c:64-82 | The header writes on the block found turn the list into the one with that block taken. |
| `KernelHeap.Heap.Init` | kernel/memory.c:25-39 | One free block from the aligned kernel end to the end of memory. |
| `KernelHeap.Heap.KMalloc` | kernel/memory.c:48-99 | The payload of the lowest free block that fits, NULL if and only if none fits or the request is empty, and the list afterwards, for every 32-bit request, split where 24 bytes or more are over. |
| `KernelHeap.Heap.KFree` | kernel/memory.c:101-123 | The list afterwards for every block, one that is free already included; NULL is ignored. |
| `Screens.Screen.Putchar` | kernel/vga.c:39-63 | The 80 x 25 cells show the window of the unbounded terminal after one more character, the cursor in range. |
| `Screens.Screen.Write` | kernel/vga.c:65-68 | The same after any string of characters. |
| `Screens.Screen.Clear` | kernel/vga.c:23-30 | The cells show the empty terminal. |
| `Screens.Screen.ScrollUp` | kernel/vga.c:14-21 | The rows move one place up with a blank row behind them. |
| `Screens.WindowScrolls` | kernel/vga.c:14-21 | Scrolling the cells is one more row of the terminal. |
| `Screens.WindowDrawn` | kernel/vga.c:54-57 | One cell of the terminal is one cell of the screen. |
| `ScreenModel.LinesShown` | kernel/vga.c:39-68 | Typing lines of plain text puts each line in a row of its own and leaves all rows above as they were. |
| `ScreenModel.CellBytes` | kernel/vga.c:54-57 | The low byte of a cell is the character, the high byte its colour; a blank is 0x0F20. |
| `ScreenModel.TypeDone` | kernel/vga.c:39-63 | What each character does to rows and cursor: newline, return, tab, backspace, a visible one, and any other nothing. |
| `ScreenModel.LongTextWraps` | kernel/vga.c:39-68 | Text of any length wraps at column 80: each character stands where its distance from the row of the cursor says. |
| `ScreenModel.BackspaceErases` | kernel/vga.c:49-53 | A backspace behind a character leaves a blank of its own colour there and the cursor on it. |
| `ScreenModel.WindowMeans` | kernel/vga.c:14-30 | The screen shows the last 25 rows, or all there are with blanks below. |
| `ScreenModel.RowsStay` | kernel/vga.c:39-68 | Rows above the cursor are never written again, whatever is typed. |
| `ScreenModel.BelowIsBlank` | kernel/vga.c:23-30 | Below the cursor row the screen is blank. |
| `ScreenModel.TypeOk` | kernel/vga.c:39-63 | The cursor stays inside its row and rows stay 80 cells wide. |
| `SchedModel.ServedInTime` | kernel/process.c:68-93 | Every ready slot p above the current slot c > 0 is running within (p-c)*10 ticks, in any run with creations in between. |
| `SchedModel.ServedExactly` | kernel/process.c:68-93 | In a run of 320 ticks or more, a ready slot p other than 0 and the current slot c gets the processor if and only if 0 < c < p. |
| `SchedModel.NeverBack` | kernel/process.c:68-93 | The processor never goes back: over any run the current slot stays, rises, or is 0 for good. |
| `SchedModel.NoneSkipped` | kernel/process.c:68-82 | No ready slot above is passed over before the processor reaches a higher slot or falls to slot 0. |
| `SchedModel.RunSafe` | kernel/process.c:43-93 | In any run at most one slot is RUNNING, the current one, and slot 0 once chosen is never preempted. |
| `SchedModel.TickKeeps` | kernel/process.c:83-93 | A tick keeps the table consistent; the current slot stays or gives way to the lowest ready slot above it, else to slot 0. |
| `SchedModel.TickDone` | kernel/process.c:83-93 | A tick, slot by slot: who runs, who is ready again, and that all others are as before. |
| `SchedModel.SliceKept` | kernel/process.c:83-93 | A slot above 0 keeps the processor until its tenth tick. |
| `SchedModel.CreateDone` | kernel/process.c:43-59 | A new process takes the next slot, ready, with every field said. |
| `SchedModel.CreatedInTime` | kernel/process.c:43-93 | A process created while a slot above 0 runs is running within (pid - current)*10 ticks. |
| `SchedModel.SearchIsNext` | kernel/process.c:68-82 | The cyclic search finds the lowest ready slot above, or slot 0. |
| `Processes.BootStaysIdle` | kernel/process.c:31-39 | From boot no run of ticks and creations ever leaves slot 0. |
| `Processes.BootDone` | kernel/process.c:31-39 | The table after boot, slot by slot: idle, the user process ksh, the rest empty. |
| `Processes.Scheduler.Schedule` | kernel/process.c:68-82 | The do-while search selects the slot the model search selects. |
| `Processes.Scheduler.TimerHandler` | kernel/process.c:83-93 | One tick of the model. |
| `Processes.Scheduler.CreateUser` | kernel/process.c:43-59 | The next pid and its slot, -1 and no change when all 32 are taken. |
| `History.Remembered` | kernel/history.c:8-24 | The history holds the last 50 non-empty commands, cut to 255 characters, after dropping consecutive repeats. |
| `History.AddDone` | kernel/history.c:8-24 | An addition makes the command, cut to 255 characters, the newest of at most 50 and takes the cursor off; an empty command or a repeat changes nothing. |
| `History.BackAfterAdd` | kernel/history.c:8-40 | One step back after an addition reaches the command just stored; after a repeat, which leaves the cursor, if and only if the line was fresh or there is one command. |
| `History.RepeatRecognised` | kernel/history.c:8-24 | Entered twice in a row, a command is dropped the second time if and only if it is shorter than 256 characters. |
| `History.BackReaches` | kernel/history.c:26-40 | k steps back from a fresh line reach the k-th newest command, or stop at the oldest. |
| `History.ForthReturns` | kernel/history.c:42-56 | Steps forth come back, past the newest to the empty line. |
| `History.ForthUndoesBack` | kernel/history.c:26-56 | One step forth undoes one step back if and only if the cursor was not on the oldest command. |
| `History.ItemAdded` | kernel/history.c:15-21 | Storing at the ring index drops the oldest item exactly when the ring is full. |
| `History.Ring.Add` | kernel/history.c:8-24 | The ring holds the list with the command added, or is unchanged for an empty one or a repeat. |
| `History.Ring.Prev` | kernel/history.c:26-40 | The cursor one command back and that command in the buffer. |
| `History.Ring.Next` | kernel/history.c:42-56 | The cursor one command forth, and that command or an empty line in the buffer. |

## Left out

- Ext2Store.Ext2: one mount session on a freshly formatted image of 65536 blocks; transfers inside the image always succeed. Superblock and group-descriptor decoding, other block sizes, later groups and remounting are not modelled, because the formatted layout overlaps the superblock with inode 13 and the counters restart at boot.
- Ext2Store.Ext2.WriteInode: for inode numbers up to 80, the numbers whose slots lie below the data area.
- Ext2Store.Ext2.MakeDir: requires a free inode number up to 80 and two blocks left; the kernel does not check either.
- Ext2Store.Ext2.CreateFile: the same.
- Ext2Store.Ext2.WriteFile: requires twelve blocks left on the image.
- FileSystem.Fs.MakeDirectory: where the parent resolves, a free inode up to 80 and two blocks are left, lookups meet directories only, and the last component has at most 63 characters.
- FileSystem.Fs.Create: the same.
- FileSystem.Fs.Write: for paths whose lookups meet directories only and which do not lead to a directory, with twelve blocks left; a path that leads nowhere yet has at most 127 characters. The kernel checks none of this and would overwrite a directory or cut the path differently in its two halves.
- FileSystem.Fs.Read: for paths whose lookups meet directories only and which do not lead to a directory, whose blocks the kernel would deliver as bytes; the tree has no raw bytes of directories.
- FileSystem.Fs.CreateHome: for names an entry can have, and while "home" in the root is a directory and there is room for what is made.
- FileSystem.Fs.GetParent: for last components of at most 63 characters, the room in the buffer of its callers.
- FileSystem.Fs.ChangeDir: for arguments whose lookups meet directories only.
- SessionLaws.RunCoherent: for gentle runs; what happens between the request that parts text and inode and the one that brings them together again is described by the operations, not by a run theorem.
- KittyWrite.Editor: drawing, the screen position of the cursor and the question on quitting are left out; the row array, the cursor, the scroll position and the modified mark are all there.
- CString.Strncpy: as every string routine here, for buffers with the room the callers leave; overrun is not modelled.
- Numerals.Itoa: not for the most negative int, whose negation overflows in C.
- Numerals.Atoi: for values that fit an int; beyond that C leaves the result undefined.
- Format.Vsnprintf: for formats whose directives are complete, whose widths fit an int and whose arguments have the right kinds; anything else is undefined in C.
- UserTables.UserTable: a field is the C string in its buffer; the last byte of a field, which stays NUL, is not a separate state.
- UserTables.UserTable.Add: for names a home directory can have, of at most 63 characters without a slash, unless the user is a root user or named root; the kernel takes any.
- UserTables.UserTable.Login: the prompt and the other accessors, which read the same record, are left out; so are password changes and the commands that raise sudo.
- UserTables.UserTable.Load: for files whose number fields fit an int.
- KernelHeap.Heap.KFree: for NULL and the blocks of the list; the magic check on other pointers is not modelled. Programs that overwrite headers through their payloads are not modelled either.
- Screens.Screen: the cursor ports and the functions that place the cursor or draw a row are left out.
- SchedModel.ServedInTime: from states with a current slot above 0 and without exits; proc_exit, stack contents and register frames are left out.
- Processes.Scheduler.CreateUser: for names that fit their 32-byte field.
- kernel/fs.c listing, chmod, mkdirp, fs_init and the by-inode calls: thin combinations of the operations modelled.
- kernel/ata.c, kernel/keyboard.c: hardware; the model has an array of blocks and a sequence of keys instead.
- kernel/tty.c, kernel/vfs.c, kernel/plugin.c, kernel/syscall.c, kernel/kernel.c, kernel/sysfetch.c, the shell built-ins: wiring and user interface.
