/**
 * The storage service `FATSystem`. Its state is the host directory, held as
 * two maps that its methods update record by record, the way the source
 * writes and deletes host files; each method is proved against the function
 * of module Disks that says what the operation does to the whole directory.
 */
module Storage {
  import opened Records
  import opened Chains
  import opened Disks

  class FatSystem {
    /** The directory entries `./<name>_FAT.json`, by file name. */
    var tables: map<string, FatTable>
    /** The fragment records `./<name>_part<n>.json`, by locator. */
    var fragments: map<Locator, FatFile>

    /** The host directory as one value. */
    function State(): Disk
      reads this
    {
      Disk(tables, fragments)
    }

    /** A service over a directory that already holds `directory`. */
    constructor (directory: Disk)
      ensures State() == directory
    {
      tables := directory.tables;
      fragments := directory.fragments;
    }

    /**
     * Writes the directory entry, then one fragment record per 20 characters
     * of `data`, each linked to the next. `created` and `modified` are the two
     * clock readings the source takes.
     */
    method CreateFile(name: string, data: string, created: Time, modified: Time)
      modifies this
      ensures State() == Create(old(State()), name, data, created, modified)
    {
      tables := tables[name := NewEntry(name, data, created, modified)];
      var partCount := PartCount(|data|);
      for i := 0 to partCount
        invariant tables == old(tables)[name := NewEntry(name, data, created, modified)]
        invariant fragments == old(fragments) + ChainUpTo(name, data, i)
      {
        fragments := fragments[Part(name, i + 1) := Fragment(name, data, i)];
      }
    }

    /**
     * Follows the chain from the entry's first locator, appending payloads,
     * until a record has no successor. A missing entry or fragment is an
     * error; so is a chain longer than the number of stored fragment records,
     * which can only happen when the chain cycles.
     */
    method ReadFile(name: string) returns (r: Result<string>)
      ensures r == Read(State(), name)
    {
      if name !in tables {
        return Err(NotFound);
      }
      var content := "";
      var current := Some(tables[name].filePath);
      var budget: nat := |fragments|;
      assert forall t: string :: "" + t == t;
      while current != None
        invariant Read(State(), name) == Prepend(content, Walk(fragments, current, budget))
        decreases budget
      {
        var at := current.value;
        if at !in fragments {
          return Err(MissingFragment);
        }
        if budget == 0 {
          return Err(CorruptChain);
        }
        var fragment := fragments[at];
        assert forall t :: content + (fragment.data + t) == content + fragment.data + t;
        content := content + fragment.data;
        current := fragment.nextFilePath;
        budget := budget - 1;
      }
      assert content + "" == content;
      r := Ok(content);
    }

    /**
     * Deletes the old chain record by record, reading each record's successor
     * before deleting it, then writes the new contents as CreateFile does. A
     * missing record stops the deletion with an error and leaves the records
     * deleted so far deleted.
     */
    method ModifyFile(name: string, newData: string, created: Time, modified: Time) returns (r: Outcome)
      modifies this
      ensures Step(State(), r) == Modify(old(State()), name, newData, created, modified)
    {
      if name !in tables {
        return Failed(NotFound);
      }
      var current := Some(tables[name].filePath);
      while current != None
        invariant tables == old(tables)
        invariant Unlink(fragments, current) == Unlink(old(fragments), Some(old(tables)[name].filePath))
        decreases |fragments|
      {
        var at := current.value;
        if at !in fragments {
          return Failed(MissingFragment);
        }
        var fragment := fragments[at];
        RemoveOne(fragments, at);
        fragments := fragments - {at};
        current := fragment.nextFilePath;
      }
      CreateFile(name, newData, created, modified);
      r := Done;
    }

    /** Marks the entry recycled and stamps its deletion date; fragments stay. */
    method DeleteFile(name: string, now: Time) returns (r: Outcome)
      modifies this
      ensures Step(State(), r) == Delete(old(State()), name, now)
    {
      if name !in tables {
        return Failed(NotFound);
      }
      var entry := tables[name];
      entry := entry.(isRecycled := true, deletionDate := Some(now));
      tables := tables[name := entry];
      r := Done;
    }

    /** Clears the recycled mark and stamps the modification date; fragments stay. */
    method RecoverFile(name: string, now: Time) returns (r: Outcome)
      modifies this
      ensures Step(State(), r) == Recover(old(State()), name, now)
    {
      if name !in tables {
        return Failed(NotFound);
      }
      var entry := tables[name];
      entry := entry.(isRecycled := false, modificationDate := now);
      tables := tables[name := entry];
      r := Done;
    }

    /**
     * Goes through the directory entries one by one, in an order the model
     * leaves open, and keeps those whose recycled flag is `recycled`; `names`
     * are the names of the kept entries, in the same order.
     */
    method ListEntries(recycled: bool) returns (listing: seq<FatTable>, ghost names: seq<string>)
      ensures IsListing(State(), recycled, listing, names)
      ensures forall i | 0 <= i < |listing| :: listing[i].isRecycled == recycled
    {
      var unseen := tables.Keys;
      listing, names := [], [];
      while unseen != {}
        invariant unseen <= tables.Keys
        invariant |listing| == |names|
        invariant forall i | 0 <= i < |names| ::
                    && names[i] in tables && names[i] !in unseen
                    && tables[names[i]].isRecycled == recycled
                    && listing[i] == tables[names[i]]
        invariant forall i, j | 0 <= i < j < |names| :: names[i] != names[j]
        invariant forall name | name in Listed(State(), recycled) && name !in unseen :: name in names
        decreases unseen
      {
        var file :| file in unseen;
        var entry := tables[file];
        if entry.isRecycled == recycled {
          listing := listing + [entry];
          names := names + [file];
        }
        unseen := unseen - {file};
      }
    }

    /** The entries not in the recycle bin, each once. */
    method ListFiles() returns (listing: seq<FatTable>, ghost names: seq<string>)
      ensures IsListing(State(), false, listing, names)
      ensures forall i | 0 <= i < |listing| :: !listing[i].isRecycled
    {
      listing, names := ListEntries(false);
    }

    /** The entries in the recycle bin, each once. */
    method ListDeletedFiles() returns (listing: seq<FatTable>, ghost names: seq<string>)
      ensures IsListing(State(), true, listing, names)
      ensures forall i | 0 <= i < |listing| :: listing[i].isRecycled
    {
      listing, names := ListEntries(true);
    }
  }
}
