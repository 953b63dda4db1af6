/**
  The cursor that reads a bucket file and the buffered writer that produces one
  (src/bucket/BucketInputIterator.cpp, src/bucket/BucketOutputIterator.cpp).
 */
module Iterators {
  import opened Wrappers
  import opened LedgerCmp
  import opened Buckets
  import opened Files

  datatype ReadError = MultipleMeta | MetaAfterEntries | IllegalRecord

  /** Where the reader lands after p records: past the leading META if it has not been read yet. */
  function Landing(f: File, p: nat): nat {
    if p == 0 && MetaOf(f).Some? then 1 else p
  }

  /** Why the record at index p cannot be read, if it cannot. */
  function ReadFault(f: File, p: nat): Option<ReadError> {
    if p >= |f| || p == 0 then None
    else if f[p].Meta? then Some(if f[0].Meta? then MultipleMeta else MetaAfterEntries)
    else if f[0].Meta? && f[p].Init? && f[0].ledgerVersion < 11 then Some(IllegalRecord)
    else None
  }

  /** A good file can be read to its end. */
  lemma GoodFileReads(f: File, p: nat)
    requires GoodFile(f)
    ensures ReadFault(f, p) == None
  {
    if 0 < p < |f| { EntryOrder(f[0], f[p], f[p]); }
  }

  /** Reads the records of a file in order, taking the leading META aside. */
  class BucketInputIterator {
    const file: File
    var pos: nat
    var entry: Option<BucketEntry>
    var seenMetadata: bool
    var seenOtherEntries: bool
    var metadata: nat

    /** What a cursor that has read `pos` records has noted about META. */
    ghost predicate Noted()
      reads this
    {
      pos <= |file| &&
      seenMetadata == (0 < pos && MetaOf(file).Some?) &&
      seenOtherEntries == (1 < pos || (pos == 1 && MetaOf(file).None?)) &&
      metadata == (if seenMetadata then MetaOf(file).value else 0)
    }

    /** The cursor stands on a record other than META, or at the end of the file. */
    ghost predicate Valid()
      reads this
    {
      Noted() &&
      (if entry.Some? then 0 < pos && entry.value == file[pos - 1] && !entry.value.Meta? else pos == |file|)
    }

    /** The number of records behind the cursor. */
    ghost function Index(): (r: nat)
      requires Valid()
      reads this
      ensures r <= |file| && (entry.Some? <==> r < |file|) && (entry.Some? ==> entry.value == file[r])
    {
      if entry.Some? then pos - 1 else pos
    }

    /** A cursor before the first record; `LoadEntry` moves it onto the first one. */
    constructor (f: File)
      ensures file == f && pos == 0 && Noted()
    {
      file := f;
      pos, entry, seenMetadata, seenOtherEntries, metadata := 0, None, false, false, 0;
    }

    /** loadEntry: fails exactly on a misplaced META or a record its META does not allow. */
    method LoadEntry() returns (err: Option<ReadError>)
      requires Noted()
      modifies this
      ensures err == ReadFault(file, Landing(file, old(pos)))
      ensures err == None ==> Valid() && Index() == Landing(file, old(pos))
      decreases |file| - pos
    {
      if pos < |file| {
        var e := file[pos];
        pos := pos + 1;
        entry := Some(e);
        if e.Meta? {
          if seenMetadata {
            return Some(MultipleMeta);
          }
          if seenOtherEntries {
            return Some(MetaAfterEntries);
          }
          metadata := e.ledgerVersion;
          seenMetadata := true;
          err := LoadEntry();
        } else {
          seenOtherEntries := true;
          if seenMetadata && !Legal(e, metadata) {
            return Some(IllegalRecord);
          }
          err := None;
        }
      } else {
        entry := None;
        err := None;
      }
    }

    /** operator++: one record further, if there is one, or the fault of that record; a good file has none. */
    method Next() returns (err: Option<ReadError>)
      requires Valid()
      modifies this
      ensures err == ReadFault(file, old(Index()) + 1)
      ensures err == None ==> Valid() && Index() == if old(entry.Some?) then old(Index()) + 1 else |file|
      ensures GoodFile(file) ==> err == None
    {
      hide GoodFile;
      if GoodFile(file) { GoodFileReads(file, pos); }
      err := LoadEntry();
    }
  }

  /**
    Opens a file: the cursor is on its first record after META and knows its
    version, unless that record cannot be read; in a good file it can.
   */
  method Open(f: File) returns (it: BucketInputIterator, err: Option<ReadError>)
    ensures fresh(it) && it.file == f && err == ReadFault(f, Landing(f, 0))
    ensures err == None ==> it.Valid() && it.Index() == Landing(f, 0) && it.metadata == Version(Contents(f))
    ensures GoodFile(f) ==> err == None
  {
    hide GoodFile;
    it := new BucketInputIterator(f);
    if GoodFile(f) { GoodFileReads(f, Landing(f, 0)); }
    err := it.LoadEntry();
  }

  datatype PutError = IllegalPut | MetaAfterInitial

  /** Absorbs records in ascending order, holding the newest one back in a buffer. */
  class BucketOutputIterator {
    const keepDeadEntries: bool
    const version: nat
    var written: File
    var buf: Option<BucketEntry>
    var putMeta: bool
    var objectsPut: nat

    /** Everything absorbed so far, buffered record included. */
    ghost function Output(): File
      reads this
    {
      written + (if buf.Some? then [buf.value] else [])
    }

    ghost predicate Valid()
      reads this
    {
      Sorted(Output()) && objectsPut == |written| && (buf.None? ==> written == []) &&
      putMeta == (version >= FIRST_PROTOCOL_SUPPORTING_INITENTRY_AND_METAENTRY)
    }

    /** From protocol 11 on the META goes in first. */
    constructor (keepDead: bool, v: nat)
      ensures keepDeadEntries == keepDead && version == v
      ensures Valid()
      ensures Output() == if v >= FIRST_PROTOCOL_SUPPORTING_INITENTRY_AND_METAENTRY then [Meta(v)] else []
    {
      keepDeadEntries, version := keepDead, v;
      written, buf, putMeta, objectsPut := [], None, false, 0;
      new;
      if v >= FIRST_PROTOCOL_SUPPORTING_INITENTRY_AND_METAENTRY {
        var err := Put(Meta(v));
        putMeta := true;
      }
    }

    /**
      put. The assertion that records never go backwards is the precondition; a
      record of the buffered identity replaces the buffered one, a tombstone is
      dropped when dead entries are not kept, anything else is appended.
     */
    method Put(e: BucketEntry) returns (err: Option<PutError>)
      requires Sorted(Output()) && objectsPut == |written| && (buf.None? ==> written == [])
      requires keepDeadEntries || !e.Dead? ==> buf.Some? ==> !EntryLess(e, buf.value)
      modifies `written, `buf, `objectsPut
      ensures err == if (e.Init? || e.Meta?) && version < 11 then Some(IllegalPut)
                     else if e.Meta? && putMeta then Some(MetaAfterInitial) else None
      ensures err.Some? ==> Output() == old(Output())
      ensures err.None? ==>
                Output() == if !keepDeadEntries && e.Dead? then old(Output())
                            else if old(buf).Some? && !EntryLess(old(buf).value, e) then old(written) + [e]
                            else old(Output()) + [e]
      ensures Sorted(Output()) && objectsPut == |written| && (buf.None? ==> written == [])
    {
      if !Legal(e, version) {
        return Some(IllegalPut);
      }
      if e.Meta? && putMeta {
        return Some(MetaAfterInitial);
      }
      err := None;
      if !keepDeadEntries && e.Dead? {
        return;
      }
      ghost var before := Output();
      if buf.Some? {
        if EntryLess(buf.value, e) {
          written := written + [buf.value];
          objectsPut := objectsPut + 1;
          SortedAppend(before, e);
        } else {
          SortedReplace(before, e);
        }
      }
      buf := Some(e);
    }

    /** getBucket: the finished file is everything absorbed. */
    method GetBucket() returns (f: File)
      requires Valid()
      modifies `written, `buf, `objectsPut
      ensures f == old(Output()) && Sorted(f)
      ensures f == [] <==> old(Output()) == []
    {
      ghost var before := Output();
      if buf.Some? {
        written := written + [buf.value];
        objectsPut := objectsPut + 1;
        buf := None;
      }
      f := if objectsPut == 0 then [] else written;
      assert written == before;
    }
  }

  lemma SortedAppend(f: File, e: BucketEntry)
    requires Sorted(f) && f != [] && EntryLess(f[|f| - 1], e)
    ensures Sorted(f + [e])
  {
    forall i | 0 <= i < |f| ensures EntryLess(f[i], e) {
      EntryOrder(f[i], f[|f| - 1], e);
    }
  }

  lemma SortedReplace(f: File, e: BucketEntry)
    requires Sorted(f) && f != [] && !EntryLess(f[|f| - 1], e) && !EntryLess(e, f[|f| - 1])
    ensures Sorted(f[..|f| - 1] + [e])
  {
    var l := f[|f| - 1];
    forall i | 0 <= i < |f| - 1 ensures EntryLess(f[i], e) {
      EntryOrder(l, e, e);
      EntryOrder(f[i], l, l);
    }
  }
}
