# FAT storage simulation in Dafny

This project models `FATSystem`, the storage service of a small simulated
File Allocation Table (`Proyecto/Program.cs`). The service stores each logical
file in two parts:

- a directory entry (`FATTable`) in the host file `./<name>_FAT.json`, holding
  the name, the locator of part 1, the character count, the recycle-bin flag
  and three timestamps;
- a chain of fragment records (`FATFile`) in `./<name>_part<n>.json`. Each
  record holds at most 20 characters, the locator of the next part, and an
  end-of-file flag.

The model covers creating, reading, modifying, soft-deleting, recovering and
listing files, and proves what these operations promise.

Layout:

- `records.dfy` (module `Records`) holds the two record types and locators.
  It also holds the error kinds, the fragment count `PartCount`, and
  `Fragment`, the per-fragment computation inside CreateFile's loop.
- `chains.dfy` (module `Chains`) is about fragment chains. `Chain` is what
  CreateFile writes, `Walk`/`Visits` is what ReadFile's loop reads, and
  `Unlink` is what ModifyFile's deletion loop removes. It also holds the
  lemmas about chains.
- `disk.dfy` (module `Disks`) treats the whole host directory as one value
  (`Disk`) and gives each operation as a function on it. Its lemmas relate
  the operations to each other.
- `fat_system.dfy` (module `Storage`) is the class `FatSystem`. It has two
  map fields, and its methods change them record by record, the way the
  source writes and deletes host files. Each method's `ensures` ties the new
  state and the result to the matching function in `Disks`.

Modelling choices:

- The host directory is modelled as two maps. Directory entries are keyed by
  file name, and fragment records by `Part(name, n)`.
  - The path formats `<name>_FAT.json` and `<name>_part<n>.json` never
    collide, and formatting `(name, n)` as a path is injective.
  - So, for plain file names on a case-sensitive file system, structured keys
    address the same records as the source's paths (see "Left out").
  - JSON serialisation is treated as lossless.
- `DateTime.Now` is replaced by clock readings passed as parameters.
  - CreateFile takes two readings, because the source calls `Now` twice.
  - DeleteFile and RecoverFile take one.
- `Math.Ceiling` on a `double` is replaced by integer ceiling division.
- The source has no bound on ReadFile's loop (`Proyecto/Program.cs:67`), so a
  cyclic chain makes it loop forever.
  - The model stops after as many reads as there are fragment records stored,
    and returns `CorruptChain`.
  - A chain that never repeats a locator is never that long, so on every
    input where the source terminates, the model returns what the source
    returns.
  - `Disks.ReadNeverCorrupt` proves that in any directory satisfying the
    invariant `Disks.Valid`, the bound is never reached.
- Every host file that is missing is a `FileNotFoundException` in the source.
  The model reports `NotFound` for a missing directory entry and
  `MissingFragment` for a missing fragment.

In these places the code does something surprising, and the model follows
the code:

- With empty data, CreateFile writes no fragment but the entry still points
  at part 1. The code does not special-case this: ReadFile then fails, unless
  a stale part 1 from an earlier version is present. In that case ReadFile
  reads the stale chain (`Disks.ReadAfterEmptyCreate`). The round-trip lemma
  therefore requires non-empty data.
- For the same reason a file created with empty data, and with no stale
  part 1, cannot be modified: ModifyFile stops at the missing part 1 and
  never writes the new data (`Disks.ModifyAfterEmptyCreate`).
- RecoverFile does not clear `DeletionDate`. So "deletion date present iff
  recycled" does not hold, and the model does not claim it.
- CreateFile writes the directory entry before the fragments, and does not
  reject an empty or already used name. ModifyFile resets `CreationDate`,
  because it calls CreateFile.
- ReadFile does not look at the recycle-bin flag or at the end-of-file flag.
  It follows the next locators until it finds a record whose next locator is
  null.
- ModifyFile's deletion loop deletes a record and then reads that same record
  (`Proyecto/Program.cs:88-89`), so as written it always fails (see Findings).
  The model uses the evidently intended order instead: read the successor,
  then delete.

## Model

| member | source | states |
|---|---|---|
| `Records.PartCount` | Proyecto/Program.cs:43 | the fragment count is zero exactly for empty data; otherwise it is the least c with \|data\| <= 20c, i.e. ceil(\|data\|/20) |
| `Records.Fragment` | Proyecto/Program.cs:46-51 | fragment i holds data[20i ..] and is non-empty and at most 20 characters long; it has exactly 20 unless it is the last; it ends exactly at \|data\| if last; the EOF flag is set exactly on the last fragment; the next locator is part i+2, or null on the last |
| `Chains.ChainUpToAt` | Proyecto/Program.cs:44-55 | after k loop iterations the records written are exactly parts 1..k of the name, and part j holds fragment j-1 |
| `Chains.ChainShape` | Proyecto/Program.cs:43-55 | CreateFile writes exactly ceil(\|data\|/20) records, under parts 1..that count, all well formed (payload <= 20, EOF iff no successor, successor is the next part) |
| `Chains.WalkChain` | Proyecto/Program.cs:64-74 | walking a stored chain from part j yields the text from fragment j on, and reads parts j..last in order |
| `Chains.ReadWrittenChain` | Proyecto/Program.cs:43-76 | after writing a non-empty chain over any prior records (stale longer chains included), the walk from part 1 with ReadFile's budget returns the data and visits exactly parts 1..ceil(\|data\|/20) |
| `Chains.WalkNeverCorrupt` | Proyecto/Program.cs:64-74 | in a store of well-formed records, a walk from part 1 never reaches the bound: links only go from part k to part k+1, so a chain cannot cycle |
| `Chains.WalkAgree` | Proyecto/Program.cs:64-74 | in well-formed stores, a walk over one file's chain depends only on that file's records |
| `Chains.Unlink` | Proyecto/Program.cs:86-91 | the deletion loop (read successor, then delete) only removes records and leaves the rest unchanged; it removes the first record if that record exists, and reports a missing first record as an error |
| `Chains.UnlinkChain` | Proyecto/Program.cs:86-91 | sweeping a stored chain from part j deletes exactly parts j..last and nothing else, without error |
| `Chains.UnlinkOwnParts` | Proyecto/Program.cs:86-91 | in a well-formed store, sweeping one file's chain leaves every other file's fragment records as they were |
| `Chains.WrittenChainWellFormed` | Proyecto/Program.cs:46-54 | writing a chain over a store of well-formed records keeps every record well formed |
| `Disks.ReadAfterCreate` | Proyecto/Program.cs:26-77 | round trip: after CreateFile(name, data) with non-empty data, ReadFile returns data, CharCount is \|data\|, and the read visits exactly the parts just written, whatever the directory held before |
| `Disks.ReadAfterEmptyCreate` | Proyecto/Program.cs:26-77 | CreateFile with empty data writes no fragment; ReadFile then follows whatever chain is stored from part 1, and fails with a missing fragment when no part 1 is stored |
| `Disks.CreateKeepsValid` | Proyecto/Program.cs:26-56 | CreateFile keeps the directory invariant (every entry names itself and points at its part 1; every fragment record well formed) |
| `Disks.ReadNeverCorrupt` | Proyecto/Program.cs:59-77 | in a valid directory, ReadFile never reports a corrupt (cyclic) chain |
| `Disks.CreateIsolated` | Proyecto/Program.cs:26-77 | fragments are never shared: creating another file does not change what any file reads back |
| `Disks.ModifyAfterCreate` | Proyecto/Program.cs:80-95 | ModifyFile after CreateFile deletes exactly the old chain, then leaves the directory as CreateFile(name, newData) would; old parts beyond the new length are gone; ReadFile returns newData |
| `Disks.ModifyKeepsValid` | Proyecto/Program.cs:80-95 | ModifyFile keeps the directory invariant, whether it succeeds or stops at a missing fragment |
| `Disks.ModifyIsolated` | Proyecto/Program.cs:80-95 | modifying another file does not change what any file reads back |
| `Disks.ModifyAfterEmptyCreate` | Proyecto/Program.cs:26-95 | after CreateFile with empty data and no stale part 1, ModifyFile fails with a missing fragment, leaves the directory unchanged and never writes the new data |
| `Disks.ModifyAsWrittenFails` | Proyecto/Program.cs:86-91 | as written, ModifyFile on a created file removes only part 1 and then fails: the rest of the old chain is orphaned, no new chain is written, and ReadFile then fails |
| `Disks.DeleteKeepsContent` | Proyecto/Program.cs:98-106 | DeleteFile leaves the fragments and every other entry unchanged, so every file reads back the same as before |
| `Disks.RecoverKeepsContent` | Proyecto/Program.cs:109-117 | RecoverFile leaves the fragments and every other entry unchanged, so every file reads back the same as before |
| `Disks.DeleteIdempotent` | Proyecto/Program.cs:98-106 | deleting twice is the same as deleting once at the later time; only the deletion date is re-stamped |
| `Disks.DeleteAndRecoverMove` | Proyecto/Program.cs:98-151 | DeleteFile moves the name from the live listing to the deleted listing, RecoverFile moves it back, and no other name's listing changes |
| `Disks.RecoverAfterDelete` | Proyecto/Program.cs:98-117 | RecoverFile after DeleteFile makes the entry live again and otherwise restores it, except that the modification date is the recovery time and the deletion date stays stamped |
| `Disks.ListingsPartition` | Proyecto/Program.cs:120-151 | every entry is in exactly one of the live and deleted listings |
| `Disks.DeleteKeepsValid` | Proyecto/Program.cs:98-106 | DeleteFile keeps the directory invariant |
| `Disks.RecoverKeepsValid` | Proyecto/Program.cs:109-117 | RecoverFile keeps the directory invariant |
| `Storage.FatSystem.CreateFile` | Proyecto/Program.cs:26-56 | rewrites the entry (name, part 1, CharCount = \|data\|, live, the two clock readings, no deletion date) and writes fragment records 1..ceil(\|data\|/20) over the old ones, one per loop iteration; nothing else changes |
| `Storage.FatSystem.ReadFile` | Proyecto/Program.cs:59-77 | the loop returns exactly the walk of the entry's chain: NotFound without an entry, MissingFragment at a missing record, otherwise the payloads in chain order |
| `Storage.FatSystem.ModifyFile` | Proyecto/Program.cs:80-95 | NotFound without an entry; otherwise deletes the old chain record by record (successor read first). At a missing record it stops with an error, keeping the deletions so far; on success it re-creates the file |
| `Storage.FatSystem.DeleteFile` | Proyecto/Program.cs:98-106 | NotFound without an entry; otherwise only that entry's recycle flag is set and its deletion date stamped |
| `Storage.FatSystem.RecoverFile` | Proyecto/Program.cs:109-117 | NotFound without an entry; otherwise only that entry's recycle flag is cleared and its modification date stamped |
| `Storage.FatSystem.ListEntries` | Proyecto/Program.cs:122-133 | scanning the entries in any order lists the entries whose recycle flag has the requested value, each name exactly once, with the stored entry for each |
| `Storage.FatSystem.ListFiles` | Proyecto/Program.cs:120-134 | lists exactly the entries not in the recycle bin, each once |
| `Storage.FatSystem.ListDeletedFiles` | Proyecto/Program.cs:137-151 | lists exactly the entries in the recycle bin, each once |

## Findings

| source | as written | input that shows it | evidently intended | confidence | as-written member | corrected member |
|---|---|---|---|---|---|---|
| Proyecto/Program.cs:88-89 | the deletion loop deletes the fragment file, then reads the same path for its successor | CreateFile("a", "0123456789012345678901234") then ModifyFile("a", "x"): a_part1 is deleted, reading it back throws, a_part2 is orphaned, nothing new is written, and ReadFile("a") then throws | read the fragment's successor first, then delete it, so that the whole old chain is removed and the file re-created | high (not executed) | `Disks.ModifyAsWrittenFails` | `Disks.ModifyAfterCreate` |

## Left out

- The interactive `Main` menu, console prompts and input parsing (`Proyecto/Program.cs:154-223`) are I/O glue and are not part of this model.
- The `Console.WriteLine` formatting in ListFiles and ListDeletedFiles is left out. The listings are returned as sequences of entries instead.
- The order of `Directory.GetFiles` depends on the platform. `ListEntries` takes the entries in an unspecified order, and nothing beyond filtering is stated about the order.
- Newtonsoft JSON serialisation is a foreign library and is treated as lossless. The model stores the records as Dafny values.
- Host-filesystem failures other than a missing file (permissions, a full disk, a failure between two writes) are not modelled. Failure atomicity is not modelled either.
- `FilePath` and `NextFilePath` are arbitrary strings in the source. In the model they are locators of fragment records, which is all the code ever writes into them.
- C# `int` is 32 bits wide. `CharCount` and the fragment indices are unbounded here, so overflow for strings of more than 2^31 - 1 characters is not modelled.
- Concurrent or multi-process access is not modelled. The source has none.
- File names are assumed to be plain names (no path separator, no `..`) on a case-sensitive file system. Otherwise two different names can address one host file (`A` and `a`, or `d/../a` and `a`), and `Directory.GetFiles` (`Proyecto/Program.cs:122`, `Proyecto/Program.cs:139`), which does not recurse, would not list an entry written into a subdirectory. `Disks.CreateIsolated` and `Disks.ModifyIsolated` rely on distinct names being distinct records.
- A model character stands for one C# `char`, that is one UTF-16 code unit. `CharCount` and the 20-character split therefore count code units, and a surrogate pair that the source splits across two fragments is two model characters, one in each fragment.
