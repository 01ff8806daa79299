/**
 * Fragment chains: the records CreateFile writes, the walk ReadFile performs,
 * and the deletion sweep ModifyFile performs, over the map of fragment
 * records by locator.
 */
module Chains {
  import opened Records

  /** The fragment records CreateFile has written after its first `k` iterations. */
  function ChainUpTo(name: string, data: string, k: nat): map<Locator, FatFile>
    requires k <= PartCount(|data|)
  {
    if k == 0 then map[]
    else ChainUpTo(name, data, k - 1)[Part(name, k) := Fragment(name, data, k - 1)]
  }

  /** All the fragment records CreateFile writes for `data`. */
  function Chain(name: string, data: string): map<Locator, FatFile>
  {
    ChainUpTo(name, data, PartCount(|data|))
  }

  /** The locators of parts `lo` to `hi` of file `name`. */
  function PartRange(name: string, lo: nat, hi: nat): set<Locator>
  {
    set j: nat | lo <= j <= hi :: Part(name, j)
  }

  lemma {:induction false} ChainUpToAt(name: string, data: string, k: nat, at: Locator)
    requires k <= PartCount(|data|)
    ensures at in ChainUpTo(name, data, k) <==> at.name == name && 1 <= at.index <= k
    ensures at in ChainUpTo(name, data, k) ==>
              ChainUpTo(name, data, k)[at] == Fragment(name, data, at.index - 1)
  {
    if k > 0 {
      ChainUpToAt(name, data, k - 1, at);
    }
  }

  lemma {:induction false} PartRangeSize(name: string, lo: nat, hi: nat)
    ensures |PartRange(name, lo, hi)| == if lo <= hi then hi - lo + 1 else 0
    decreases hi + 1 - lo
  {
    if lo > hi {
      assert PartRange(name, lo, hi) == {};
    } else {
      assert PartRange(name, lo, hi) == PartRange(name, lo + 1, hi) + {Part(name, lo)};
      PartRangeSize(name, lo + 1, hi);
    }
  }

  lemma SubsetSize<T>(a: set<T>, b: set<T>)
    requires a <= b
    ensures |a| <= |b|
  {
    assert b == a + (b - a);
  }

  lemma RemoveOne<K, V>(m: map<K, V>, k: K)
    requires k in m
    ensures |m - {k}| == |m| - 1
  {
  }

  /**
   * CreateFile writes exactly ceil(|data| / 20) fragment records, under parts
   * 1 to that count of `name`, and every one of them is well formed.
   */
  lemma ChainShape(name: string, data: string)
    ensures Chain(name, data).Keys == PartRange(name, 1, PartCount(|data|))
    ensures |Chain(name, data)| == PartCount(|data|)
    ensures forall at | at in Chain(name, data) :: FragmentOk(at, Chain(name, data)[at])
  {
    var pc := PartCount(|data|);
    forall at
      ensures at in Chain(name, data) <==> at in PartRange(name, 1, pc)
      ensures at in Chain(name, data) ==> FragmentOk(at, Chain(name, data)[at])
    {
      ChainUpToAt(name, data, pc, at);
    }
    PartRangeSize(name, 1, pc);
  }

  /** Appends `s` in front of a successful read; an error stays as it is. */
  function Prepend(s: string, r: Result<string>): Result<string>
  {
    match r
    case Ok(t) => Ok(s + t)
    case Err(_) => r
  }

  /**
   * What ReadFile's loop yields from locator `cur` on, reading at most
   * `budget` fragment records: the payloads in chain order up to the first
   * record without a successor.
   */
  function Walk(fragments: map<Locator, FatFile>, cur: Option<Locator>, budget: nat): Result<string>
    decreases budget
  {
    match cur
    case None => Ok("")
    case Some(at) =>
      if at !in fragments then Err(MissingFragment)
      else if budget == 0 then Err(CorruptChain)
      else Prepend(fragments[at].data, Walk(fragments, fragments[at].nextFilePath, budget - 1))
  }

  /** The locators ReadFile's loop reads successfully, in order. */
  function Visits(fragments: map<Locator, FatFile>, cur: Option<Locator>, budget: nat): seq<Locator>
    decreases budget
  {
    match cur
    case None => []
    case Some(at) =>
      if at !in fragments || budget == 0 then []
      else [at] + Visits(fragments, fragments[at].nextFilePath, budget - 1)
  }

  /** Part `k` of the chain CreateFile writes for `data` is stored in `fragments`. */
  ghost predicate PartStored(fragments: map<Locator, FatFile>, name: string, data: string, k: nat)
    requires 1 <= k <= PartCount(|data|)
  {
    Part(name, k) in fragments && fragments[Part(name, k)] == Fragment(name, data, k - 1)
  }

  /** Parts `j` to the last of the chain CreateFile writes for `data` are stored in `fragments`. */
  ghost predicate HoldsChainFrom(fragments: map<Locator, FatFile>, name: string, data: string, j: nat)
  {
    && 1 <= j
    && forall k: nat | j <= k <= PartCount(|data|) :: PartStored(fragments, name, data, k)
  }

  lemma HoldsWrittenChain(fragments: map<Locator, FatFile>, name: string, data: string)
    ensures HoldsChainFrom(fragments + Chain(name, data), name, data, 1)
  {
    forall k: nat | 1 <= k <= PartCount(|data|)
      ensures PartStored(fragments + Chain(name, data), name, data, k)
    {
      ChainUpToAt(name, data, PartCount(|data|), Part(name, k));
    }
  }

  /** The locators of parts `lo` to `hi` of file `name`, in order. */
  function PartSeq(name: string, lo: nat, hi: nat): seq<Locator>
    decreases hi + 1 - lo
  {
    if lo > hi then [] else [Part(name, lo)] + PartSeq(name, lo + 1, hi)
  }

  /** The text from fragment `j - 1` on is that fragment's payload followed by the rest. */
  lemma FragmentSplit(name: string, data: string, j: nat)
    requires 1 <= j <= PartCount(|data|)
    ensures FragmentSize * (j - 1) <= |data|
    ensures j < PartCount(|data|) ==>
              && FragmentSize * j <= |data|
              && data[FragmentSize * (j - 1)..] == Fragment(name, data, j - 1).data + data[FragmentSize * j..]
    ensures j == PartCount(|data|) ==> data[FragmentSize * (j - 1)..] == Fragment(name, data, j - 1).data
  {
  }

  /**
   * Walking a stored chain from part `j` reads parts `j` to the last, in
   * order, and yields the text from fragment `j` on, whatever else is stored.
   */
  lemma {:induction false} WalkChain(fragments: map<Locator, FatFile>, name: string, data: string,
                                     j: nat, budget: nat)
    requires HoldsChainFrom(fragments, name, data, j) && j <= PartCount(|data|)
    requires budget > PartCount(|data|) - j
    ensures FragmentSize * (j - 1) <= |data|
    ensures Walk(fragments, Some(Part(name, j)), budget) == Ok(data[FragmentSize * (j - 1)..])
    ensures Visits(fragments, Some(Part(name, j)), budget) == PartSeq(name, j, PartCount(|data|))
    decreases PartCount(|data|) - j
  {
    var pc := PartCount(|data|);
    var at := Part(name, j);
    assert PartStored(fragments, name, data, j);
    var f := fragments[at];
    FragmentSplit(name, data, j);
    if j < pc {
      WalkChain(fragments, name, data, j + 1, budget - 1);
      assert f.nextFilePath == Some(Part(name, j + 1));
    } else {
      assert f.nextFilePath == None;
      assert f.data + "" == f.data;
    }
  }

  /**
   * Reading from part 1 right after CreateFile wrote a non-empty `data`
   * returns `data` and reads exactly the parts just written, even when stale
   * records of an earlier, longer version remain in `fragments`.
   */
  lemma ReadWrittenChain(fragments: map<Locator, FatFile>, name: string, data: string)
    requires |data| > 0
    ensures Walk(fragments + Chain(name, data), Some(Part(name, 1)), |fragments + Chain(name, data)|)
            == Ok(data)
    ensures Visits(fragments + Chain(name, data), Some(Part(name, 1)), |fragments + Chain(name, data)|)
            == PartSeq(name, 1, PartCount(|data|))
  {
    var all := fragments + Chain(name, data);
    ChainShape(name, data);
    SubsetSize(Chain(name, data).Keys, all.Keys);
    HoldsWrittenChain(fragments, name, data);
    WalkChain(all, name, data, 1, |all|);
  }

  /** All fragment records are well formed. */
  ghost predicate WellFormed(fragments: map<Locator, FatFile>)
  {
    forall at | at in fragments :: FragmentOk(at, fragments[at])
  }

  lemma WrittenChainWellFormed(fragments: map<Locator, FatFile>, name: string, data: string)
    requires WellFormed(fragments)
    ensures WellFormed(fragments + Chain(name, data))
  {
    ChainShape(name, data);
  }

  /** The stored fragment records of file `name` from part `j` on. */
  function Tail(fragments: map<Locator, FatFile>, name: string, j: nat): set<Locator>
  {
    set at | at in fragments && at.name == name && at.index >= j
  }

  /**
   * In a well-formed store a walk from part `j` of `name` never runs out of a
   * budget that covers the records of `name` from part `j` on: links only go
   * from part k to part k + 1 of the same file, so the chain cannot cycle.
   */
  lemma {:induction false} WalkWithinBudget(fragments: map<Locator, FatFile>, name: string,
                                            j: nat, budget: nat)
    requires WellFormed(fragments)
    requires budget >= |Tail(fragments, name, j)|
    ensures Walk(fragments, Some(Part(name, j)), budget) != Err(CorruptChain)
    decreases budget
  {
    var at := Part(name, j);
    if at in fragments {
      assert at in Tail(fragments, name, j);
      assert Tail(fragments, name, j + 1) <= Tail(fragments, name, j) - {at};
      SubsetSize(Tail(fragments, name, j + 1), Tail(fragments, name, j) - {at});
      if fragments[at].nextFilePath != None {
        WalkWithinBudget(fragments, name, j + 1, budget - 1);
      }
    }
  }

  /** Every walk from part 1 of `name` with the budget ReadFile uses ends without CorruptChain. */
  lemma WalkNeverCorrupt(fragments: map<Locator, FatFile>, name: string)
    requires WellFormed(fragments)
    ensures Walk(fragments, Some(Part(name, 1)), |fragments|) != Err(CorruptChain)
  {
    SubsetSize(Tail(fragments, name, 1), fragments.Keys);
    WalkWithinBudget(fragments, name, 1, |fragments|);
  }

  /** Two stores hold the same fragment records of file `name`. */
  ghost predicate SameParts(f1: map<Locator, FatFile>, f2: map<Locator, FatFile>, name: string)
  {
    forall k: nat ::
      && (Part(name, k) in f1 <==> Part(name, k) in f2)
      && (Part(name, k) in f1 ==> f1[Part(name, k)] == f2[Part(name, k)])
  }

  /**
   * In well-formed stores a walk from part `j` of `name` depends only on the
   * records of `name`: stores that agree on them give the same result.
   */
  lemma {:induction false} WalkAgree(f1: map<Locator, FatFile>, f2: map<Locator, FatFile>, name: string,
                                     j: nat, b1: nat, b2: nat)
    requires WellFormed(f1) && WellFormed(f2) && SameParts(f1, f2, name)
    requires Walk(f1, Some(Part(name, j)), b1) != Err(CorruptChain)
    requires Walk(f2, Some(Part(name, j)), b2) != Err(CorruptChain)
    ensures Walk(f1, Some(Part(name, j)), b1) == Walk(f2, Some(Part(name, j)), b2)
    decreases b1
  {
    var at := Part(name, j);
    assert at in f1 <==> at in f2 by {
      assert Part(name, j) in f1 <==> Part(name, j) in f2;
    }
    if at in f1 && f1[at].nextFilePath != None {
      assert f1[at] == f2[at];
      WalkAgree(f1, f2, name, j + 1, b1 - 1, b2 - 1);
    }
  }

  /** What ModifyFile's deletion loop leaves: the remaining records, and whether it hit a missing one. */
  datatype Sweep = Sweep(remaining: map<Locator, FatFile>, missing: bool)

  /**
   * ModifyFile's deletion loop in its evidently intended order: read the
   * record at `cur` for its successor, delete it, and go on until a record has
   * no successor; a locator with no record stops the loop with an error.
   */
  function Unlink(fragments: map<Locator, FatFile>, cur: Option<Locator>): (s: Sweep)
    ensures s.remaining.Keys <= fragments.Keys
    ensures forall at | at in s.remaining :: s.remaining[at] == fragments[at]
    ensures cur != None && cur.value in fragments ==> cur.value !in s.remaining
    ensures cur != None && cur.value !in fragments ==> s.missing
    decreases |fragments|
  {
    match cur
    case None => Sweep(fragments, false)
    case Some(at) =>
      if at !in fragments then Sweep(fragments, true)
      else
        RemoveOne(fragments, at);
        Unlink(fragments - {at}, fragments[at].nextFilePath)
  }

  /**
   * The deletion loop exactly as the source orders it: the record at `cur` is
   * deleted first (deleting an absent record is no error) and then read back
   * for its successor, which always fails because it was just deleted.
   */
  function UnlinkAsWritten(fragments: map<Locator, FatFile>, cur: Option<Locator>): Sweep
  {
    match cur
    case None => Sweep(fragments, false)
    case Some(at) => Sweep(fragments - {at}, true)
  }

  /**
   * Sweeping a stored chain from part `j` deletes exactly parts `j` to the
   * last, and nothing else, without error.
   */
  lemma {:induction false} UnlinkChain(fragments: map<Locator, FatFile>, name: string, data: string, j: nat)
    requires HoldsChainFrom(fragments, name, data, j) && j <= PartCount(|data|)
    ensures Unlink(fragments, Some(Part(name, j)))
            == Sweep(fragments - PartRange(name, j, PartCount(|data|)), false)
    decreases PartCount(|data|) - j
  {
    var pc := PartCount(|data|);
    var at := Part(name, j);
    var rest := fragments - {at};
    assert PartStored(fragments, name, data, j);
    if j == pc {
      assert fragments[at].nextFilePath == None;
      assert PartRange(name, j, j) == {at};
    } else {
      assert fragments[at].nextFilePath == Some(Part(name, j + 1));
      forall k: nat | j + 1 <= k <= pc
        ensures PartStored(rest, name, data, k)
      {
        assert PartStored(fragments, name, data, k);
      }
      UnlinkChain(rest, name, data, j + 1);
      assert PartRange(name, j, pc) == {at} + PartRange(name, j + 1, pc);
      assert rest - PartRange(name, j + 1, pc) == fragments - PartRange(name, j, pc);
    }
  }

  /**
   * In a well-formed store, sweeping the chain of `name` leaves the records
   * of every other file exactly as they were.
   */
  lemma {:induction false} UnlinkOwnParts(fragments: map<Locator, FatFile>, name: string, j: nat, other: string)
    requires WellFormed(fragments) && other != name
    ensures SameParts(Unlink(fragments, Some(Part(name, j))).remaining, fragments, other)
    decreases |fragments|
  {
    var at := Part(name, j);
    if at in fragments {
      var rest := fragments - {at};
      RemoveOne(fragments, at);
      if fragments[at].nextFilePath != None {
        UnlinkOwnParts(rest, name, j + 1, other);
      }
    }
  }
}
