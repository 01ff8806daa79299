/**
 * The host directory as one value, and what each FATSystem operation does to
 * it, as functions; the lemmas state what the operations promise together.
 */
module Disks {
  import opened Records
  import opened Chains

  /**
   * The host directory: directory entries by file name (the records
   * `./<name>_FAT.json`) and fragment records by locator (`./<name>_part<n>.json`).
   * The two families of paths never overlap.
   */
  datatype Disk = Disk(tables: map<string, FatTable>, fragments: map<Locator, FatFile>)

  /** The directory after an operation, and how the operation ended. */
  datatype Step = Step(disk: Disk, outcome: Outcome)

  /** CreateFile: the entry for `name` is (re)written and the new chain overwrites parts 1 to its length. */
  function Create(d: Disk, name: string, data: string, created: Time, modified: Time): Disk
  {
    Disk(d.tables[name := NewEntry(name, data, created, modified)], d.fragments + Chain(name, data))
  }

  /** ReadFile: walk the chain the entry points at, reading at most as many records as are stored. */
  function Read(d: Disk, name: string): Result<string>
  {
    if name !in d.tables then Err(NotFound)
    else Walk(d.fragments, Some(d.tables[name].filePath), |d.fragments|)
  }

  /** ModifyFile, with its deletion loop in the intended order: sweep the old chain, then CreateFile. */
  function Modify(d: Disk, name: string, data: string, created: Time, modified: Time): Step
  {
    if name !in d.tables then Step(d, Failed(NotFound))
    else
      var s := Unlink(d.fragments, Some(d.tables[name].filePath));
      if s.missing then Step(d.(fragments := s.remaining), Failed(MissingFragment))
      else Step(Create(d.(fragments := s.remaining), name, data, created, modified), Done)
  }

  /** ModifyFile exactly as the source orders its deletion loop. */
  function ModifyAsWritten(d: Disk, name: string, data: string, created: Time, modified: Time): Step
  {
    if name !in d.tables then Step(d, Failed(NotFound))
    else
      var s := UnlinkAsWritten(d.fragments, Some(d.tables[name].filePath));
      if s.missing then Step(d.(fragments := s.remaining), Failed(MissingFragment))
      else Step(Create(d.(fragments := s.remaining), name, data, created, modified), Done)
  }

  /** DeleteFile: mark the entry recycled and stamp its deletion date. */
  function Delete(d: Disk, name: string, now: Time): Step
  {
    if name !in d.tables then Step(d, Failed(NotFound))
    else
      var e := d.tables[name];
      Step(d.(tables := d.tables[name := e.(isRecycled := true, deletionDate := Some(now))]), Done)
  }

  /** RecoverFile: clear the recycled mark and stamp the modification date. */
  function Recover(d: Disk, name: string, now: Time): Step
  {
    if name !in d.tables then Step(d, Failed(NotFound))
    else
      var e := d.tables[name];
      Step(d.(tables := d.tables[name := e.(isRecycled := false, modificationDate := now)]), Done)
  }

  /** The names ListFiles (recycled = false) or ListDeletedFiles (recycled = true) report. */
  function Listed(d: Disk, recycled: bool): set<string>
  {
    set name | name in d.tables && d.tables[name].isRecycled == recycled
  }

  /**
   * `listing` holds the entries of `names`, in that order, and `names` holds
   * every name of Listed(d, recycled) exactly once.
   */
  ghost predicate IsListing(d: Disk, recycled: bool, listing: seq<FatTable>, names: seq<string>)
  {
    && |listing| == |names|
    && (forall i | 0 <= i < |names| :: names[i] in d.tables && listing[i] == d.tables[names[i]])
    && (forall i, j | 0 <= i < j < |names| :: names[i] != names[j])
    && (forall name :: name in names <==> name in Listed(d, recycled))
  }

  /**
   * What every operation keeps true: each entry names itself and points at
   * its part 1, and every fragment record is well formed.
   */
  ghost predicate Valid(d: Disk)
  {
    && WellFormed(d.fragments)
    && forall name | name in d.tables ::
         d.tables[name].fileName == name && d.tables[name].filePath == Part(name, 1)
  }

  // ---------------------------------------------------------------- CreateFile / ReadFile

  /**
   * Round trip: after CreateFile(name, data) with non-empty data, ReadFile
   * returns data, which is CharCount characters long, and reads exactly the
   * parts just written, whatever the directory held before (stale parts of a
   * longer earlier version included).
   */
  lemma ReadAfterCreate(d: Disk, name: string, data: string, created: Time, modified: Time)
    requires |data| > 0
    ensures Read(Create(d, name, data, created, modified), name) == Ok(data)
    ensures Create(d, name, data, created, modified).tables[name].charCount == |data|
    ensures var d' := Create(d, name, data, created, modified);
            Visits(d'.fragments, Some(d'.tables[name].filePath), |d'.fragments|)
            == PartSeq(name, 1, PartCount(|data|))
  {
    ReadWrittenChain(d.fragments, name, data);
  }

  /**
   * CreateFile with empty data writes no fragment but still points the entry
   * at part 1, so ReadFile follows whatever chain is already stored from part
   * 1, and fails when no part 1 is stored.
   */
  lemma ReadAfterEmptyCreate(d: Disk, name: string, created: Time, modified: Time)
    ensures Create(d, name, "", created, modified).fragments == d.fragments
    ensures Read(Create(d, name, "", created, modified), name)
            == Walk(d.fragments, Some(Part(name, 1)), |d.fragments|)
    ensures Part(name, 1) !in d.fragments ==>
              Read(Create(d, name, "", created, modified), name) == Err(MissingFragment)
  {
  }

  /** CreateFile keeps the directory valid. */
  lemma CreateKeepsValid(d: Disk, name: string, data: string, created: Time, modified: Time)
    requires Valid(d)
    ensures Valid(Create(d, name, data, created, modified))
  {
    WrittenChainWellFormed(d.fragments, name, data);
  }

  /** In a valid directory ReadFile never hits its bound: chains there cannot cycle. */
  lemma ReadNeverCorrupt(d: Disk, name: string)
    requires Valid(d)
    ensures Read(d, name) != Err(CorruptChain)
  {
    if name in d.tables {
      WalkNeverCorrupt(d.fragments, name);
    }
  }

  /** Fragments are never shared: creating file `other` does not change what reads back for `name`. */
  lemma CreateIsolated(d: Disk, other: string, data: string, created: Time, modified: Time, name: string)
    requires Valid(d) && other != name
    ensures Read(Create(d, other, data, created, modified), name) == Read(d, name)
  {
    var d' := Create(d, other, data, created, modified);
    CreateKeepsValid(d, other, data, created, modified);
    if name in d.tables {
      forall k: nat
        ensures Part(name, k) in d'.fragments <==> Part(name, k) in d.fragments
        ensures Part(name, k) in d.fragments ==> d'.fragments[Part(name, k)] == d.fragments[Part(name, k)]
      {
        ChainUpToAt(other, data, PartCount(|data|), Part(name, k));
      }
      WalkNeverCorrupt(d.fragments, name);
      WalkNeverCorrupt(d'.fragments, name);
      WalkAgree(d'.fragments, d.fragments, name, 1, |d'.fragments|, |d.fragments|);
    }
  }

  // ---------------------------------------------------------------- ModifyFile

  /**
   * ModifyFile after CreateFile removes every fragment of the old chain and
   * then leaves the directory as CreateFile(name, newData) would; the old
   * parts past the new chain's end are gone, and ReadFile returns newData.
   */
  lemma ModifyAfterCreate(d: Disk, name: string, oldData: string, newData: string,
                          t1: Time, t2: Time, t3: Time, t4: Time)
    requires |oldData| > 0
    ensures var d1 := Create(d, name, oldData, t1, t2);
            var swept := d1.(fragments := d1.fragments - PartRange(name, 1, PartCount(|oldData|)));
            Modify(d1, name, newData, t3, t4) == Step(Create(swept, name, newData, t3, t4), Done)
    ensures var d2 := Modify(Create(d, name, oldData, t1, t2), name, newData, t3, t4).disk;
            forall k: nat | PartCount(|newData|) < k <= PartCount(|oldData|) :: Part(name, k) !in d2.fragments
    ensures |newData| > 0 ==>
              Read(Modify(Create(d, name, oldData, t1, t2), name, newData, t3, t4).disk, name) == Ok(newData)
  {
    var d1 := Create(d, name, oldData, t1, t2);
    var pc := PartCount(|oldData|);
    HoldsWrittenChain(d.fragments, name, oldData);
    UnlinkChain(d1.fragments, name, oldData, 1);
    var swept := d1.(fragments := d1.fragments - PartRange(name, 1, pc));
    forall k: nat | PartCount(|newData|) < k <= pc
      ensures Part(name, k) !in Create(swept, name, newData, t3, t4).fragments
    {
      assert Part(name, k) in PartRange(name, 1, pc);
      ChainUpToAt(name, newData, PartCount(|newData|), Part(name, k));
    }
    if |newData| > 0 {
      ReadAfterCreate(swept, name, newData, t3, t4);
    }
  }

  /**
   * A file created with empty data and no stale part 1 cannot be modified:
   * ModifyFile stops at the missing part 1, changes nothing and never writes
   * the new data.
   */
  lemma ModifyAfterEmptyCreate(d: Disk, name: string, newData: string,
                               t1: Time, t2: Time, t3: Time, t4: Time)
    ensures Part(name, 1) !in d.fragments ==>
              var d1 := Create(d, name, "", t1, t2);
              Modify(d1, name, newData, t3, t4) == Step(d1, Failed(MissingFragment))
  {
  }

  /** ModifyFile keeps the directory valid, whether it succeeds or stops at a missing fragment. */
  lemma ModifyKeepsValid(d: Disk, name: string, data: string, created: Time, modified: Time)
    requires Valid(d)
    ensures Valid(Modify(d, name, data, created, modified).disk)
  {
    if name in d.tables {
      var s := Unlink(d.fragments, Some(d.tables[name].filePath));
      assert WellFormed(s.remaining);
      if !s.missing {
        CreateKeepsValid(d.(fragments := s.remaining), name, data, created, modified);
      }
    }
  }

  /** ModifyFile of file `other` does not change what reads back for `name`. */
  lemma ModifyIsolated(d: Disk, other: string, data: string, created: Time, modified: Time, name: string)
    requires Valid(d) && other != name
    ensures Read(Modify(d, other, data, created, modified).disk, name) == Read(d, name)
  {
    if other in d.tables && name in d.tables {
      var s := Unlink(d.fragments, Some(Part(other, 1)));
      UnlinkOwnParts(d.fragments, other, 1, name);
      var swept := d.(fragments := s.remaining);
      assert Valid(swept);
      WalkNeverCorrupt(d.fragments, name);
      WalkNeverCorrupt(s.remaining, name);
      WalkAgree(s.remaining, d.fragments, name, 1, |s.remaining|, |d.fragments|);
      assert Read(swept, name) == Read(d, name);
      if !s.missing {
        CreateIsolated(swept, other, data, created, modified, name);
      }
    }
  }

  /**
   * The source's ModifyFile deletes part 1 and then reads it back, so on
   * every created file it fails after removing only part 1: the rest of the
   * old chain is orphaned, no new chain is written, and ReadFile then fails.
   */
  lemma ModifyAsWrittenFails(d: Disk, name: string, oldData: string, newData: string,
                             t1: Time, t2: Time, t3: Time, t4: Time)
    ensures var d1 := Create(d, name, oldData, t1, t2);
            var d2 := ModifyAsWritten(d1, name, newData, t3, t4);
            && d2.outcome == Failed(MissingFragment)
            && d2.disk.fragments == d1.fragments - {Part(name, 1)}
            && Read(d2.disk, name) == Err(MissingFragment)
            && forall k: nat | 2 <= k <= PartCount(|oldData|) :: Part(name, k) in d2.disk.fragments
  {
    var d1 := Create(d, name, oldData, t1, t2);
    forall k: nat | 1 <= k <= PartCount(|oldData|)
      ensures Part(name, k) in d1.fragments
    {
      ChainUpToAt(name, oldData, PartCount(|oldData|), Part(name, k));
    }
  }

  // ---------------------------------------------------------------- DeleteFile / RecoverFile

  /**
   * DeleteFile touches only the entry's recycled flag and deletion date:
   * fragments and other entries stay, so every file reads back the same.
   */
  lemma DeleteKeepsContent(d: Disk, name: string, now: Time, any: string)
    ensures Delete(d, name, now).disk.fragments == d.fragments
    ensures Read(Delete(d, name, now).disk, any) == Read(d, any)
    ensures forall other | other in d.tables && other != name :: Delete(d, name, now).disk.tables[other] == d.tables[other]
  {
  }

  /** RecoverFile touches only the entry's recycled flag and modification date. */
  lemma RecoverKeepsContent(d: Disk, name: string, now: Time, any: string)
    ensures Recover(d, name, now).disk.fragments == d.fragments
    ensures Read(Recover(d, name, now).disk, any) == Read(d, any)
    ensures forall other | other in d.tables && other != name :: Recover(d, name, now).disk.tables[other] == d.tables[other]
  {
  }

  /** Deleting twice is deleting once with the later date. */
  lemma DeleteIdempotent(d: Disk, name: string, t1: Time, t2: Time)
    ensures Delete(Delete(d, name, t1).disk, name, t2) == Delete(d, name, t2)
  {
  }

  /**
   * DeleteFile moves an existing file from the live list to the deleted list,
   * RecoverFile moves it back, and neither changes any other file's listing.
   */
  lemma DeleteAndRecoverMove(d: Disk, name: string, now: Time)
    requires name in d.tables
    ensures Listed(Delete(d, name, now).disk, true) == Listed(d, true) + {name}
    ensures Listed(Delete(d, name, now).disk, false) == Listed(d, false) - {name}
    ensures Listed(Recover(d, name, now).disk, false) == Listed(d, false) + {name}
    ensures Listed(Recover(d, name, now).disk, true) == Listed(d, true) - {name}
  {
  }

  /**
   * RecoverFile after DeleteFile leaves the entry live and otherwise as it was except for its dates: the
   * deletion date stays stamped and the modification date is the recovery time.
   */
  lemma RecoverAfterDelete(d: Disk, name: string, t1: Time, t2: Time)
    requires name in d.tables
    ensures var d' := Recover(Delete(d, name, t1).disk, name, t2).disk;
            && d'.fragments == d.fragments
            && d'.tables == d.tables[name := d.tables[name].(isRecycled := false, modificationDate := t2, deletionDate := Some(t1))]
  {
  }

  /** Every entry is in exactly one of the two listings. */
  lemma ListingsPartition(d: Disk)
    ensures Listed(d, false) !! Listed(d, true)
    ensures Listed(d, false) + Listed(d, true) == d.tables.Keys
  {
  }

  lemma DeleteKeepsValid(d: Disk, name: string, now: Time)
    requires Valid(d)
    ensures Valid(Delete(d, name, now).disk)
  {
  }

  lemma RecoverKeepsValid(d: Disk, name: string, now: Time)
    requires Valid(d)
    ensures Valid(Recover(d, name, now).disk)
  {
  }
}
