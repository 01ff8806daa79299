/**
 * The two record kinds of the FAT simulation (the directory entry `FATTable`
 * and the chain node `FATFile`), the locators under which fragment records are
 * stored, and the pure per-fragment computation of CreateFile.
 */
module Records {

  /** Largest number of payload characters one fragment record holds. */
  const FragmentSize: nat := 20

  /** A reading of the wall clock (`DateTime.Now`), passed in by the caller. */
  type Time = int

  datatype Option<T> = None | Some(value: T)

  /**
   * The locator of fragment record `index` of file `name`, that is the host
   * file `./<name>_part<index>.json`. Formatting a (name, index) pair into
   * that path is injective (the digits after the last `_part` recover the
   * index), so for plain file names structured locators identify the same
   * records as the paths.
   */
  datatype Locator = Part(name: string, index: nat)

  /** The directory entry stored under `./<name>_FAT.json`. */
  datatype FatTable = FatTable(
    fileName: string,
    filePath: Locator,
    isRecycled: bool,
    charCount: nat,
    creationDate: Time,
    modificationDate: Time,
    deletionDate: Option<Time>)

  /**
   * One node of a fragment chain. Here and in `charCount`, a character stands
   * for one C# `char`, that is one UTF-16 code unit.
   */
  datatype FatFile = FatFile(data: string, nextFilePath: Option<Locator>, eof: bool)

  /**
   * Why an operation failed. Each is a `FileNotFoundException` in the source,
   * except CorruptChain, where the source loops forever.
   */
  datatype Error =
    | NotFound          // no directory entry for the name
    | MissingFragment   // a locator in the chain names no fragment record
    | CorruptChain      // the chain is longer than the number of fragment records

  datatype Result<T> = Ok(value: T) | Err(error: Error)

  datatype Outcome = Done | Failed(error: Error)

  function Min(a: int, b: int): int
  {
    if a <= b then a else b
  }

  /** Number of fragments CreateFile writes for `n` characters: n / 20 rounded up. */
  function PartCount(n: nat): (c: nat)
    ensures n == 0 <==> c == 0
    ensures FragmentSize * (c - 1) < n <= FragmentSize * c || n == c == 0
  {
    (n + FragmentSize - 1) / FragmentSize
  }

  /**
   * Fragment `i` (counting from 0) of `data` as CreateFile writes it to
   * `<name>_part<i+1>`: the next 20 characters, a link to part i+2 unless it is
   * the last fragment, and the end-of-file flag on the last one only.
   */
  function Fragment(name: string, data: string, i: nat): (f: FatFile)
    requires i < PartCount(|data|)
    ensures 0 < |f.data| <= FragmentSize
    ensures i + 1 < PartCount(|data|) ==> |f.data| == FragmentSize
    ensures FragmentSize * i + |f.data| <= |data|
    ensures f.data == data[FragmentSize * i .. FragmentSize * i + |f.data|]
    ensures i + 1 == PartCount(|data|) ==> FragmentSize * i + |f.data| == |data|
    ensures f.eof <==> i + 1 == PartCount(|data|)
    ensures f.nextFilePath == if f.eof then None else Some(Part(name, i + 2))
  {
    var start := FragmentSize * i;
    var last := i == PartCount(|data|) - 1;
    FatFile(data[start .. start + Min(FragmentSize, |data| - start)],
            if last then None else Some(Part(name, i + 2)),
            last)
  }

  /**
   * A fragment record stored under `at` is well formed when its payload fits,
   * its end-of-file flag agrees with its link, and its link names the next
   * part of the same file.
   */
  predicate FragmentOk(at: Locator, f: FatFile)
  {
    && |f.data| <= FragmentSize
    && (f.eof <==> f.nextFilePath == None)
    && (f.nextFilePath != None ==> f.nextFilePath.value == Part(at.name, at.index + 1))
  }

  /** The directory entry CreateFile writes: it points at part 1 and is live. */
  function NewEntry(name: string, data: string, created: Time, modified: Time): FatTable
  {
    FatTable(name, Part(name, 1), false, |data|, created, modified, None)
  }
}
