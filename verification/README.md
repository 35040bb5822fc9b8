# gbfs and its kernel Berkeley DB, modelled and proved

gbfs is a Linux file system whose directories, inodes and pages live in a Berkeley DB database
inside the kernel. This project models four parts of it in Dafny and proves what they promise.

## The name space (fs/namei.c, fs/dir.c, fs/bitmap.c)

A directory is an array of 64-byte slots: an inode number, 0 for a free slot, and 60 name bytes.
The slots lie on pages of a symbolic size, any multiple of 64 from 128 on.

- `Names`, `Paging`, `Slots`, `Common`: padded names and `namecompare`; how slots fall on pages; a
  slot array as a map from names to inode numbers.
- `Namespace`: each entry point as a function from state to state and error. Every choice the code
  does not make is a parameter: memory for an inode, pages that cannot be read, a page written out
  in vain.
- `Scans`, `Directory`, `Volumes`, `Readdir`, `FileSystem`: the same operations as the code does
  them, on classes whose pages, sizes, link counts, page references and page locks change in
  place, proved equal to the functions.
- `Invariant`, `Preservation`, `RenameSteps`, `Safety`: link counts, tree shape, unique names and
  numbering, and which operations keep them.
- `Effects`, `RenameAtomic`: what a successful operation does to the maps and the link counts, and
  when it succeeds. `Answers`: which error each operation returns, and when.
- `Consequences`, `Growth`, `ReaddirScans`, `Examples`: what follows for a user.

Three things the code does break the invariant, and `Safety.StepSafe` says exactly when, in both
directions:

- When a directory is DIRSYNC and writing the changed page fails (fs/dir.c:61-65), the slot has
  changed already. The callers unwind the link counts but not the slot. `Examples.TornCreate` is
  such a run.
- The emptiness check skips pages that cannot be read (fs/dir.c:336-338), so that `rmdir` and
  `rename` remove a directory that is not empty. `Examples.UnseenRmdir` is such a run.
- The lookup skips pages that cannot be read too (fs/dir.c:165-167), and answers that a name is not
  there when it is (fs/namei.c:29-36). A create, link, mkdir or rename that follows compares names
  only up to the first hole (fs/dir.c:228-237) and makes the name a second time.
  `Examples.MadeTwice` is such a run.

One more: `readdir` skips a page that cannot be read without moving the position (fs/dir.c:104-105).
A call ends where it should exactly when it passes no readable slot behind an unreadable one
(`ReaddirScans.CallResumes`); otherwise it jumps over an entry (`ReaddirScans.JumpedOver`), and may
report another one twice (`ReaddirScans.ReportedTwice`).

`Invariant.Legal` lists what the virtual file system guarantees to the entry points: names are
non-empty, free of NUL and at most 60 bytes, and neither `.` nor `..`; for a name to be made a
lookup has answered that it is not there, which need not be true; a name to be removed is present;
directories are not linked twice; the two names of a rename are different dentries, a rename moves
no directory below itself, replaces only its own kind and does not replace the moved inode by
itself; dead directories get no entries; link counts stay below GBFS_LINK_MAX and inode numbers
below 2^32.

## The page store (fs/inode.c, fs/keys.h, fs/bitmap.c)

`StoreKeys` has the packed keys and the stored form of an inode, `PageStore` the page cache over
the database as functions, `BackingStore` the same on a class, with the root of the name space as
what is read where nothing was written. A write that fails leaves the page
clean (fs/inode.c:288-321), and dropping it then loses the contents. `PageStore.StepView` and
`PageStore.SyncedKept` say exactly when.

## The bulk buffers (db/build_unix/db.h)

`BulkWords` has 32-bit words in a byte buffer and shows that words growing down and data growing up
do not meet; `BulkItems` has the three formats as functions, the round trip and the exact capacity;
`BulkBuffer` has the macros as methods storing into an array, `BulkLists` whole lists written and
read with them. The record number format ends with 0,
so a record numbered 0 hides itself and all behind it; `BulkItems.RoundTrip` is exact about it.

## The descriptor table and smaller parts (db/build_kernel/syscalls.c, fs/gbfs.h)

`Descriptors` has the table as its users see it and what every history of it keeps.
`DescriptorThreads` has any number of threads, each access to the array a step of its own, including
the store that `__install_file` makes outside the lock, and shows that they refine it; next_free and
free_head, which only the holder of the lock touches, change together with such a step.
`DescriptorCalls` shows that each call gets its one answer in a bounded number of its own steps.
`DescriptorTable` has the functions themselves over the array. `FileLocks` has
`flock64_to_posix_lock` with its 64-bit wrap-around, `Bitmaps` the 16-bit bitmap search.

## Model

| member | source | states |
|---|---|---|
| Safety.StepSafe | fs/namei.c:9-257 | from a state where the invariant holds, after any operation, on success and on every error return, it holds again if and only if the operation was not torn: no changed page failed to be written out, no name that the lookup had missed was made again, no directory with unseen entries was removed |
| Safety.RunSafe | fs/namei.c:9-257 | after any run of operations none of which is torn, every link count equals the references to the inode, live directories form a tree, names are unique and numbers are fresh |
| Safety.InitInv | fs/bitmap.c:24-32 | the empty file system, a root with two links and no slots, satisfies the invariant |
| Safety.MknodSafe | fs/namei.c:39-55 | after a lookup that answered no, creating a file keeps the invariant exactly when it writes no slot, or the write succeeds and the name was truly absent |
| Safety.TmpfileSafe | fs/namei.c:57-67 | an inode that is made and loses its only link keeps the invariant |
| Safety.LinkSafe | fs/namei.c:104-113 | the same for a hard link |
| Safety.MkdirSafe | fs/namei.c:115-149 | the same for a new directory, with each way of giving up halfway |
| Safety.UnlinkSafe | fs/namei.c:151-170 | removing a file's name keeps the invariant exactly when the slot is not cleared by a call that fails |
| Safety.RmdirSafe | fs/namei.c:172-185 | removing a directory keeps the invariant exactly when it was empty in truth and the slot was not cleared by a call that fails |
| Safety.RenameToFree | fs/namei.c:187-257 | the same for the new name of a rename, also when old and new directory are one |
| Safety.RenameOverTaken | fs/namei.c:213-229 | a rename over another inode keeps the invariant exactly when a replaced directory was empty in truth |
| Safety.LooksEmptyExact | fs/dir.c:325-367 | the emptiness check answers yes exactly when every slot behind the dots on a readable page is free |
| Safety.HiddenBreaks | fs/dir.c:228-250 | an insertion that did not notice the name leaves it in two slots, which breaks the invariant whatever else the operation does elsewhere |
| Safety.TrulyEmptyExact | fs/dir.c:325-367 | with all pages readable the emptiness check is exactly emptiness |
| Safety.LostDir | fs/namei.c:172-185 | a nonempty directory that loses its entry and its links breaks the invariant, whatever it holds |
| Preservation.AttachKeeps | fs/namei.c:9-19 | a slot that comes to name a file, with one link more, keeps the counts, the tree, the unique names and the numbering |
| Preservation.DetachKeeps | fs/namei.c:151-170 | a cleared slot of a file, with one link less, keeps them |
| Preservation.AttachDirKeeps | fs/namei.c:115-149 | a new directory that is named by its parent and counted by it keeps them, and has the root above it |
| Preservation.DetachDirKeeps | fs/namei.c:172-185 | an empty directory that loses its name, its two links and its count at the parent keeps them |
| Preservation.MoveDirKeeps | fs/namei.c:187-257 | a directory moved to a place not below it, with its `..` and the counts of both parents, keeps them and stays below the root |
| Consequences.OneEntry | fs/namei.c:115-257 | every live directory but the root is named by exactly one slot besides dots; its slot 0 is `.` to itself and its slot 1 `..` to the directory of that one slot |
| Consequences.NoCycle | fs/namei.c:187-257 | no directory is a proper ancestor of itself |
| Consequences.NoOrphans | fs/namei.c:172-229 | every inode that counts a link is found from the root by resolving some path with the directory search |
| Consequences.ErrorChangesNothing | fs/namei.c:9-257 | an operation that returns an error leaves every directory and every link count of the old inodes as they were if and only if it is not torn |
| Growth.StepGrows | fs/dir.c:47-66 | no operation, torn or not, makes a directory shorter, turns an inode into another kind, gives out a number that was in use, or leaves a slot that names no inode |
| Growth.RunGrows | fs/bitmap.c:96-120 | the same over any run of operations the virtual file system may call, torn ones included: numbers are never given out again, directory sizes never shrink, every slot names an inode that exists |
| RenameAtomic.RenameIsAtomic | fs/namei.c:187-257 | whenever a rename succeeds it is one update of the directory maps and link counts: old name gone, new name for the moved inode, `..` of a moved directory to the new parent, a replaced inode without its links, all else the same, also when the two directories or the two pages are one, and when the lookup had missed the new name |
| RenameSteps.CodeRenames | fs/namei.c:213-244 | the updates of a rename, in the order of the code, end in one described state for a free and for an existing name, inode by inode |
| Effects.SoundSucceeds | fs/namei.c:9-257 | without disk faults an operation succeeds exactly when arguments and memory allow it, a name to be made is not in front of the first hole, and a directory to be removed or replaced is empty; it is torn exactly when in addition the lookup had missed the name |
| Effects.MknodEffect | fs/namei.c:39-55 | succeeds exactly when the insertion does, and then there is one new file with one link under the new name and nothing else has changed |
| Effects.SymlinkEffect | fs/namei.c:75-102 | the same for a symbolic link, given that its text fits a page and was stored |
| Effects.TmpfileEffect | fs/namei.c:57-67 | one new file without a link, no name changes |
| Effects.LinkEffect | fs/namei.c:104-113 | the new name stands for the old inode, which counts one link more; nothing else has changed |
| Effects.MkdirEffect | fs/namei.c:115-149 | the new name stands for a new directory with two links that maps `.` to itself and `..` to the parent, which counts one link more; nothing else has changed |
| Effects.UnlinkEffect | fs/namei.c:151-170 | exactly this name goes and its inode counts one link less |
| Effects.RmdirEffect | fs/namei.c:172-185 | exactly this name goes, the directory counts two links less and its parent one less |
| Effects.ReadableAdds | fs/dir.c:207-243 | on readable pages a name finds a place exactly when it is not in front of the first hole |
| Answers.StepAnswers | fs/namei.c:9-257 | with any faults, every operation returns the first error it has a reason for, in the order of the code: flags, device and text length, memory, the slots on pages that can be read (a name before the first hole, an entry behind the dots, a name that no readable page has), the write |
| Answers.SoundCreateAnswers | fs/namei.c:39-149 | on a sound disk each error of mknod, tmpfile, symlink, link and mkdir has exactly one reason: EINVAL the device, ENOMEM the memory, ENAMETOOLONG the text, EEXIST the name in front of the first hole |
| Answers.SoundMoveAnswers | fs/namei.c:151-257 | on a sound disk unlink never fails; rmdir answers ENOTEMPTY exactly for a directory that is not empty; rename answers EINVAL exactly for unknown flags, ENOTEMPTY exactly for a directory in its way that is not empty, EEXIST exactly for a name that the lookup missed in front of the first hole, and no other error |
| Examples.TornCreate | fs/dir.c:47-66 | creating a file on a DIRSYNC root whose page cannot be written returns an error and leaves an entry for an inode without links |
| Examples.UnseenRmdir | fs/dir.c:336-338 | a run in which rmdir succeeds on a directory that holds a file, because its page cannot be read |
| Examples.MadeTwice | fs/dir.c:162-167 | a run, a lookup with an unreadable page and a create without any fault after which one name is in two slots |
| FileSystem.Perform | fs/namei.c:262-274 | every entry point, on the pages and inodes themselves, is the step of the name space, gives back every page reference, holds no page lock at return, returns the error that arguments, memory and slots give the reason for, and keeps the invariant exactly when untorn |
| Volumes.Volume.constructor | fs/bitmap.c:24-32 | a mounted empty database stands for the root with two links and no slots |
| Volumes.Volume.Lookup | fs/namei.c:21-37 | answers what the directory search over the whole slot array finds, an error if the inode cannot be had, a refusal if the name is too long; no page reference stays |
| Volumes.Volume.NewInode | fs/bitmap.c:96-120 | the next number of the counter, one link, no slots |
| Volumes.Volume.AddNondir | fs/namei.c:9-19 | entry made, or link count lowered again, with references balanced |
| Volumes.Volume.Mknod | fs/namei.c:39-55 | in place, equals the step of the name space, references balanced |
| Volumes.Volume.Tmpfile | fs/namei.c:57-67 | in place, equals the step of the name space |
| Volumes.Volume.Symlink | fs/namei.c:75-102 | in place, equals the step of the name space, for each of its four ways out |
| Volumes.Volume.Link | fs/namei.c:104-113 | in place, equals the step of the name space |
| Volumes.Volume.Mkdir | fs/namei.c:115-149 | in place, equals the step of the name space, unwinding included |
| Volumes.Volume.Unlink | fs/namei.c:151-170 | in place, equals the step of the name space, the reference of the search given back by the deletion |
| Volumes.Volume.Rmdir | fs/namei.c:172-185 | in place, equals the step of the name space |
| Volumes.Volume.Rename | fs/namei.c:187-257 | in place, equals the step of the name space; up to three page references are held at once and each is given back exactly once on each of the ways out |
| Names.PaddedRoundTrip | fs/dir.c:250-251 | a name written with zeros behind it is read back as the same name |
| Names.PaddedInjective | fs/dir.c:250-251 | different names are different in a slot |
| Names.NameCompareExact | fs/dir.c:130-136 | namecompare answers yes exactly when the slot holds that name and no longer one |
| Slots.FindIsLookup | fs/dir.c:146-187 | the search is lookup in the map the slots stand for, absent names included; of a name in two slots it finds the first |
| Slots.FindSound | fs/dir.c:162-167 | pages that cannot be read hide entries but never make the search answer a wrong slot |
| Slots.FindMisses | fs/dir.c:162-187 | the search answers no exactly when every slot with the name lies on a page that cannot be read |
| Slots.SpotOfAbsent | fs/dir.c:207-243 | on readable pages there is always a place for an absent name, so the BUG behind the loop is never reached |
| Slots.OccurrenceBehind | fs/dir.c:220-238 | an insertion of a name that is there goes in front of it |
| Slots.DuplicateSeen | fs/dir.c:217-243 | the insertion refuses a name exactly when it lies before the first hole and the first unreadable page, and gives up exactly when such a page comes first |
| Slots.AddKeepsUnique | fs/dir.c:189-263 | an insertion keeps names unique exactly when the name was absent, although only slots before the first hole are compared |
| Slots.AddIsInsert | fs/dir.c:245-255 | writing a name into a free slot or at the end, in front of any other slot with it, adds exactly that name to the map |
| Slots.DeleteIsRemove | fs/dir.c:265-286 | zeroing a slot's number removes exactly its name from the map |
| Slots.SetLinkIsUpdate | fs/dir.c:370-391 | overwriting a slot's number redirects exactly its name |
| Slots.DotSlotExact | fs/dir.c:347-358 | the three-byte test accepts a slot exactly for `..` and for `.` naming the directory itself |
| Slots.DirMapDomain | fs/dir.c:146-187 | the map has exactly the names of occupied slots |
| Slots.DirMapValue | fs/dir.c:146-187 | each name is mapped to the number in the first slot with it |
| Paging.PageOfIsQuotient | fs/dir.c:97-98 | page and offset of a slot are quotient and remainder of its byte position |
| Paging.LastByte | fs/dir.c:37-45 | the last valid byte of a page is the end of its last slot within i_size, also when i_size falls on a page boundary |
| Paging.DirPages | fs/dir.c:88-88 | i_size rounded up to pages, for a page size that is not fixed |
| Paging.PageVisited | fs/dir.c:162-162 | the pages the loops visit are exactly those whose first slot lies below i_size |
| Scans.FindInPage | fs/dir.c:169-179 | the first occupied slot of the page below the limit whose name compares equal |
| Scans.SpotInPage | fs/dir.c:220-238 | the first slot of the page that is free or at i_size, unless an equal name comes before it |
| Scans.EmptyInPage | fs/dir.c:340-359 | no occupied slot of the page below the limit other than a dot |
| Directory.Inode.FindEntry | fs/dir.c:146-187 | over all pages, finds the slot the search over the whole array finds, with its page referenced, and otherwise references nothing |
| Directory.Inode.AddLink | fs/dir.c:189-263 | takes the first free slot or grows by exactly one, possibly on a new page; on refusal nothing changes; references and locks balanced |
| Directory.Inode.DeleteEntry | fs/dir.c:265-286 | frees exactly one slot and gives back the reference it was handed |
| Directory.Inode.SetLink | fs/dir.c:370-391 | redirects exactly one slot and gives back the reference it was handed, whatever the write answers |
| Directory.Inode.MakeEmpty | fs/dir.c:288-320 | the directory holds `.` and `..` and nothing else, also when writing them out failed |
| Directory.Inode.IsEmpty | fs/dir.c:325-367 | page by page, answers the emptiness of all slots on readable pages; references balanced |
| Directory.Inode.DotDot | fs/dir.c:393-404 | answers slot 1 with its page referenced, or nothing |
| Directory.Inode.TakeIno | fs/dir.c:406-417 | the number in the found slot, the reference given back |
| Readdir.ReadDir | fs/dir.c:82-128 | over pages and with a buffer that may refuse, reports what one pass over the whole slot array reports and stops at the same position; references balanced |
| ReaddirScans.ReportedOnce | fs/dir.c:82-128 | however a scan is chopped into calls, whatever changes and whatever cannot be read, if no call passes a readable slot behind an unreadable one, a name that one slot holds throughout is reported exactly once when the scan passes the slot, otherwise never |
| ReaddirScans.ReportedAsRead | fs/dir.c:82-128 | without any condition on the unreadable pages, such a name is reported as often as calls read its slot |
| ReaddirScans.ReadsWhatItPasses | fs/dir.c:100-126 | the slots a call reads are those its position moves over if and only if it passes no readable slot behind an unreadable one |
| ReaddirScans.CallResumes | fs/dir.c:100-126 | a call ends at the first slot it could not read or was refused at if and only if it passes no readable slot behind an unreadable one; otherwise strictly between that slot and the one it has reached |
| ReaddirScans.JumpedOver | fs/dir.c:104-105 | every other call moves its position over a slot whose name it does not report |
| ReaddirScans.SessionLists | fs/dir.c:82-128 | in an unchanged directory such calls together report the listing in slot order without gap or repetition, up to i_size once a call reads every page and has room |
| ReaddirScans.EndsAtSize | fs/dir.c:100-126 | a call with room for everything ends at i_size if and only if every page can be read |
| ReaddirScans.PositionLags | fs/dir.c:100-126 | with any room in the buffer the position moves by one slot for each slot passed on a readable page |
| ReaddirScans.CallReports | fs/dir.c:82-128 | whatever a call starts from and can read, it reports the occupied readable slots it passes and no others, in slot order, each with its name, its inode number and its position; it stops early exactly with a full buffer; behind i_size it reports nothing |
| ReaddirScans.ReportedTwice | fs/dir.c:104-105 | an unreadable first page makes the next call report an entry again |
| StoreKeys.FieldRoundTrip | fs/gbfs_uapi.h:36-45 | an unsigned field gives back what was assigned to it exactly when the value fits |
| StoreKeys.FieldWraps | fs/gbfs_uapi.h:36-45 | an unsigned field of k bytes gives back what was assigned to it modulo 256^k, negative values included |
| StoreKeys.LowByteFirst | fs/keys.h:7-16 | byte j of a stored number is its digit of weight 256^j |
| StoreKeys.KeyLayout | fs/keys.h:4-16 | a page key is the byte 0, the inode number and the page offset, an inode key the byte 1 and the inode number, without gaps |
| StoreKeys.StoredFields | fs/inode.c:482-489 | what an inode is read as after it was stored, field by field: mode and links modulo 2^16, size and times modulo 2^32, user and group themselves below 65536 and otherwise 65534 |
| StoreKeys.RecordLayout | fs/gbfs_uapi.h:36-45 | the place of each field in the 24 bytes of the record |
| StoreKeys.KeysDiffer | fs/keys.h:4-16 | packed page keys are equal exactly for the same inode and offset, inode keys exactly for the same inode, and no page key is an inode key |
| StoreKeys.InodeRoundTrip | fs/inode.c:474-491 | an inode written and read again comes back unchanged exactly when each field fits its place in the record |
| PageStore.StepView | fs/inode.c:288-363 | loading, writing back and dropping pages leaves what a reader of any page sees unchanged, exactly when no clean page that differs from the database is dropped |
| PageStore.SyncedKept | fs/inode.c:288-321 | clean pages agree with the database, and stop doing so exactly at a failed write of a page that differs |
| PageStore.FailedWriteLoses | fs/inode.c:288-321 | after a failed write the page may be dropped, and readers see the old contents |
| PageStore.StoredApart | fs/inode.c:299-313 | writing a page alters no other page and no inode in the database, writing an inode alters no page and no other inode |
| PageStore.RunView | fs/inode.c:288-363 | over any run without failing writes, a reader of any page sees what was written to it last, zeros before that |
| PageStore.RunViewExact | fs/inode.c:288-363 | over any run, failing writes included, readers of every page see after every step what was written to it last if and only if no step drops a page the database does not have |
| PageStore.RunRecord | fs/inode.c:447-472 | over any run, failing puts included, the database holds of an inode the record put last without failing, nothing if there was none |
| PageStore.NewIsFresh | fs/bitmap.c:96-120 | a new inode number is not 0, not the root's, not in use, without a record, and all its pages read as zeros |
| PageStore.IssuedInOrder | fs/bitmap.c:100-112 | over any run the numbers given out count up from 5, so none is given out twice |
| BackingStore.Mount.ReadPage | fs/inode.c:323-363 | the page becomes what the database holds, zeros if it holds nothing; on another error it is not filled and the answer is EIO; the lock is given back on every path |
| BackingStore.Mount.WritePage | fs/inode.c:288-321 | the page's record becomes the cached bytes, no record changes if the put fails, and the page is clean either way; the lock is given back on every path |
| BackingStore.Mount.UpdateInode | fs/inode.c:447-472 | only this inode's record changes |
| BackingStore.RunInode | fs/bitmap.c:34-74 | over any run, an inode is the record put last, or the default if none was put |
| BackingStore.NeverPut | fs/bitmap.c:21-74 | over any run without a successful put for it, the root is read as the root of the empty name space, a directory with two links, size 0, permissions 0755, user and group 0 and the low 32 bits of jiffies as its times, and every other inode as zeros |
| BackingStore.PutReadsBack | fs/inode.c:474-491 | an inode that is put is read with each field as the record holds it, and unchanged exactly when each fits |
| BackingStore.LinksSurvive | fs/gbfs_uapi.h:21-38 | no link count within GBFS_LINK_MAX, as the invariant of the name space has it, is cut off by the 16-bit field |
| BackingStore.Mount.WriteInode | fs/inode.c:474-491 | reading the inode after a success gives mode and links modulo 2^16, size and times modulo 2^32, user and group themselves below 65536 and otherwise 65534, so all of it unchanged exactly when each field fits; without the record it answers EIO and changes nothing |
| BackingStore.Mount.FreeInode | fs/bitmap.c:76-94 | the record says no links and no mode, keeps its other fields, and no page reads differently |
| BackingStore.Mount.NewInode | fs/bitmap.c:96-120 | a number that no known inode has |
| BulkWords.StoreLoads | db/build_unix/db.h:2060-2066 | a word stored is loaded again |
| BulkWords.StoreFrame | db/build_unix/db.h:2068-2083 | a store changes its four bytes and no word beside them |
| BulkWords.StoreDownFrame | db/build_unix/db.h:2068-2083 | header words stored downwards are all there and touch nothing above or below them |
| BulkWords.PushKeepsLayout | db/build_unix/db.h:2068-2131 | words going down and bytes going up keep earlier words, earlier bytes and the terminator apart as long as they fit |
| BulkItems.PutFits | db/build_unix/db.h:2068-2168 | the next item finds room exactly when all data bytes and 4(2n+1), 4(4n+1) or 4(3n+1) header bytes fit into ulen |
| BulkItems.PutAppends | db/build_unix/db.h:2068-2168 | an append with room gives a buffer that holds the items before and then the new one |
| BulkItems.PutKeepsEarlier | db/build_unix/db.h:2068-2168 | an append changes no byte and no header word of earlier items |
| BulkItems.NextFreeIsEnd | db/build_unix/db.h:2071-2072 | offset plus length in the last header is the end of all data, in each format |
| BulkItems.GetIsItem | db/build_unix/db.h:2014-2058 | the reader at the k-th header gets the k-th item, its pieces behind the bytes of the items before it, empty or not (a null pointer only for an empty item at offset 0 of the data format), and goes to the next header, except that a record numbered 0 reads as the end |
| BulkItems.StoredLayout | db/build_unix/db.h:1991-2009 | the words of the k-th item at their places counted from the end of the buffer: offset and length, key before data, record number first |
| BulkItems.StoredEnd | db/build_unix/db.h:1991-2009 | below the words of the last item is the terminator, -1, or 0 in the record number format |
| BulkItems.NullDatum | db/build_unix/db.h:2014-2027 | the reader returns a null data pointer exactly for items up to which all are empty, with a cursor that is not null, so they are not taken for the end |
| BulkItems.Fill | db/build_unix/db.h:2060-2168 | initialising and appending a whole list succeeds exactly when it fits, and the buffer then holds it |
| BulkItems.RoundTrip | db/build_unix/db.h:2010-2168 | for every list of items in each format: filling succeeds exactly when it fits, iterating then gives the items before the first record numbered 0, each at its offset, and then the end, so all of them exactly when no record is numbered 0 |
| BulkBuffer.Dbt.WriteInit | db/build_unix/db.h:2060-2066 | the buffer is an empty list of the data or key/data format |
| BulkBuffer.Dbt.ReserveNext | db/build_unix/db.h:2068-2083 | room, header and terminator for one item; without room neither buffer nor pointer changes |
| BulkBuffer.Dbt.WriteNext | db/build_unix/db.h:2085-2094 | the append of the data format in place; without room the buffer does not change and the pointer is null |
| BulkBuffer.Dbt.Next | db/build_unix/db.h:2014-2027 | the fetch of the data format |
| BulkBuffer.Dbt.KeyReserveNext | db/build_unix/db.h:2096-2117 | room for key and data behind each other; without room neither buffer nor pointer changes |
| BulkBuffer.Dbt.KeyWriteNext | db/build_unix/db.h:2119-2131 | the append of the key/data format in place |
| BulkBuffer.Dbt.KeyNext | db/build_unix/db.h:2029-2043 | the fetch of the key/data format |
| BulkBuffer.Dbt.RecnoWriteInit | db/build_unix/db.h:2133-2139 | the buffer is an empty list of the record number format |
| BulkBuffer.Dbt.RecnoReserveNext | db/build_unix/db.h:2141-2157 | room, number, header and terminator; without room neither buffer nor pointer changes |
| BulkBuffer.Dbt.RecnoWriteNext | db/build_unix/db.h:2159-2168 | the append of the record number format in place |
| BulkBuffer.Dbt.RecnoNext | db/build_unix/db.h:2045-2058 | the fetch of the record number format |
| BulkLists.WriteAll | db/build_unix/db.h:2060-2168 | on the array itself, a list goes into a buffer with the write macros exactly when it fits, and the buffer reads back |
| BulkLists.ReadItems | db/build_unix/db.h:2010-2058 | on the array itself, reading until the pointer is null gives the items up to the first record numbered 0, with the pointers of every key and data item where their bytes were put |
| Descriptors.PartitionKept | db/build_kernel/syscalls.c:379-422 | choosing, publishing and closing keep every descriptor from 3 exactly one of never used, free, in flight and live |
| Descriptors.FullExactly | db/build_kernel/syscalls.c:384-400 | installing fails exactly when 1021 descriptors are live or in flight |
| Descriptors.IssuedExactly | db/build_kernel/syscalls.c:384-400 | the descriptors handed out so far are exactly those from 3 to below next_free |
| Descriptors.NoTwoOwners | db/build_kernel/syscalls.c:379-422 | between two times a descriptor is handed out it is closed, and by the second time every descriptor has been handed out |
| Descriptors.TakesNewest | db/build_kernel/syscalls.c:384-400 | handed out is the least descriptor never handed out, and when there is none, of the free ones the one closed last |
| Descriptors.SeenWasPublished | db/build_kernel/syscalls.c:401-409 | a lookup answers a file only after it was published under that descriptor and not closed since |
| DescriptorThreads.StepRefines | db/build_kernel/syscalls.c:379-422 | every step of every thread answers as the table does and leads to a memory that stands for the table afterwards, with the pointer stored outside the lock |
| DescriptorThreads.Run | db/build_kernel/syscalls.c:379-422 | whatever the interleaving of any number of threads, what they show is a legal history of the table |
| DescriptorThreads.RunPartitions | db/build_kernel/syscalls.c:379-422 | after every interleaving the list in the array has no cycle and ends at 0, each descriptor in flight is carried by exactly one thread, and a cell holds a pointer exactly when its descriptor is live |
| DescriptorThreads.RepresentsInBounds | db/build_kernel/syscalls.c:379-422 | no reachable step of a thread leaves the array |
| DescriptorCalls.CallAnswered | db/build_kernel/syscalls.c:379-422 | in every interleaving, between the turn that starts a call and the turn after which its thread is idle again the thread has shown exactly one answer: a close that it freed its descriptor or found nothing to free, an install that the table was full or the descriptor it took and then published, a lookup a file or none |
| DescriptorCalls.CallEnds | db/build_kernel/syscalls.c:379-422 | a call takes at most five turns of its own thread, whatever the others do: by the fifth it is over |
| DescriptorCalls.Waits | db/build_kernel/syscalls.c:379-422 | a call starts exactly when it needs no lock or the lock is free; otherwise its turn changes and shows nothing |
| DescriptorTable.FileTable.InstallFile | db/build_kernel/syscalls.c:379-400 | fails exactly when 1021 descriptors are live or in flight and then changes nothing, otherwise the chosen descriptor is live |
| DescriptorTable.FileTable.GetFile | db/build_kernel/syscalls.c:401-409 | the file exactly for live descriptors |
| DescriptorTable.FileTable.UninstallFile | db/build_kernel/syscalls.c:411-422 | a live descriptor becomes the first of the free list, any other call changes nothing |
| FileLocks.FileLock.FromFlock64 | db/build_kernel/syscalls.c:692-737 | succeeds exactly for a known type and whence and a request within the file's offsets, and then the range holds exactly the requested bytes, for either sign of the length and in spite of wrap-around; too large is EOVERFLOW, all else EINVAL |
| FileLocks.FileLock.FillRange | db/build_kernel/syscalls.c:692-727 | which of the two errors comes first, and the first and last byte under 64-bit wrap-around |
| FileLocks.InFileBounds | db/build_kernel/syscalls.c:708-727 | a request lies within the file's offsets exactly when its first and last byte do |
| Bitmaps.FindFirstZeroBit | fs/gbfs.h:90-106 | for 16 bits and more the least index whose bit is clear, the number of bits in whole words if none is, with accesses to the words of the bitmap only; for 1 to 15 bits the least clear bit in memory; the result as an int |
| Bitmaps.AllOnesIsAllSet | fs/gbfs.h:97-102 | a word is 0xffff exactly when its sixteen bits are set |

## Left out

- Path walking, the dentry cache, inode reference counts and the file and stat calls of db/build_kernel/syscalls.c: thin layers over kernel code that is not in the repository.
- Berkeley DB itself: the database is a map whose gets and puts may fail.
- Truncation: the calls are commented out (fs/file.c:40, fs/inode.c:37), so nothing is said about data after a file shrinks and grows.
- Reloading the module: the inode counter starts at 5 again (fs/bitmap.c:100), so all claims about numbers are for one load of the module on an empty database.
- Times, statistics, mounting and page contents of regular files that the kernel's generic write functions produce.
- The bytes of a slot's inode number: a slot is a number and 60 bytes; the model does not lay it out in the page's memory.
- PAGE_SIZE: a multiple of 64, at least 128; that it is a power of two is not needed, because shift and mask are modelled as quotient and remainder.
- Safety.RunSafe: about runs without a torn operation; Safety.StepSafe is exact for each operation, and what later operations make of a torn state is not followed.
- Volumes.Volume.Lookup: entering the answer into the dentry cache; what a wrong answer leads to is part of Safety.StepSafe.
- StoreKeys.LowByteFirst: machines that store the high byte first; keys and records have the byte order of the machine.
- BackingStore.Mount.WriteInode: the kernel's overflow numbers for users and groups are taken at their default, 65534.
- Bitmaps.FindFirstZeroBit: memory in which no word ends the search before it leaves the array; the native and little-endian variants are kernel functions.
- FileLocks.FileLock.FromFlock64: the owner, process and file fields, which are plain copies.
- DescriptorTable.FileTable.GetFile: descriptors outside 0..1023, for which the code reads outside its array.
- DescriptorTable.FileTable.UninstallFile: the same descriptors, for which it reads and writes outside its array.
- DescriptorCalls.CallEnds: a thread that waits for the lock may wait forever if others always come first, as with any lock that is not fair.
- DescriptorThreads.StepRefines: memory accesses are in one order for all threads; weaker orders of real processors are not modelled.
