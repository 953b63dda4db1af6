/**
  Bucket::merge as it runs: one pass over two sorted files, advancing both
  cursors, the shadow cursors and the output iterator in place
  (src/bucket/Bucket.cpp:215-287 and 362-672).
 */
module MergeRun {
  import opened Wrappers
  import opened LedgerCmp
  import opened Buckets
  import opened Files
  import opened Iterators

  // ----- shadow cursors -----

  /** Distinct valid cursors, one on each of the files. */
  ghost predicate Cursors(its: seq<BucketInputIterator>, files: seq<File>)
    reads its
  {
    |its| == |files| &&
    (forall i, j | 0 <= i < j < |its| :: its[i] != its[j]) &&
    forall i | 0 <= i < |its| :: its[i].file == files[i] && GoodFile(files[i]) && its[i].Valid()
  }

  /** Everything a cursor has passed is below e. */
  ghost predicate PassedBelow(it: BucketInputIterator, e: BucketEntry)
    requires it.Valid()
    reads it
  {
    forall i | 0 <= i < it.Index() :: EntryLess(it.file[i], e)
  }

  ghost predicate AllPassedBelow(its: seq<BucketInputIterator>, files: seq<File>, e: BucketEntry)
    requires Cursors(its, files)
    reads its
  {
    forall j | 0 <= j < |its| :: PassedBelow(its[j], e)
  }

  lemma PassedBelowMore(its: seq<BucketInputIterator>, files: seq<File>, d: BucketEntry, e: BucketEntry)
    requires Cursors(its, files) && AllPassedBelow(its, files, d) && EntryLess(d, e)
    ensures AllPassedBelow(its, files, e)
  {
    forall j | 0 <= j < |its| ensures PassedBelow(its[j], e) {
      assert PassedBelow(its[j], d);
      forall i | 0 <= i < its[j].Index() ensures EntryLess(its[j].file[i], e) {
        EntryOrder(its[j].file[i], d, e);
      }
    }
  }

  /** The record a forward-only cursor stops at decides membership in its whole file. */
  lemma StopDecides(f: File, i: nat, e: BucketEntry)
    requires Sorted(f) && i <= |f| && !e.Meta? && (i < |f| ==> !f[i].Meta? && !EntryLess(f[i], e))
    requires forall x | 0 <= x < i :: EntryLess(f[x], e)
    ensures e.key in EntriesOf(f) <==> i < |f| && !EntryLess(e, f[i])
  {
    EntriesKeys(f, e.key);
    if i < |f| { EntryOrder(f[i], e, e); }
    if HasKey(f, e.key) {
      var x :| 0 <= x < |f| && !f[x].Meta? && f[x].key == e.key;
      SameKeySameOrder(f[x], e, if i < |f| then f[i] else e);
      EntryOrder(e, e, e);
      SameKeySameOrder(f[x], e, f[x]);
      assert !(x < i) && !(i < x);
    }
  }

  /** Steps one shadow cursor forward to e: the answer is membership in the whole shadow. */
  method ScanShadow(si: BucketInputIterator, e: BucketEntry) returns (found: bool)
    requires si.Valid() && GoodFile(si.file) && !e.Meta? && PassedBelow(si, e)
    modifies si
    ensures si.Valid() && PassedBelow(si, e)
    ensures found <==> e.key in EntriesOf(si.file)
  {
    while si.entry.Some? && EntryLess(si.entry.value, e)
      invariant si.Valid() && PassedBelow(si, e)
      decreases |si.file| - si.Index()
    {
      var _ := si.Next();
    }
    StopDecides(si.file, si.Index(), e);
    found := si.entry.Some? && !EntryLess(e, si.entry.value);
  }

  /** The scan over all shadows, stopping at the first that has the key. */
  method ScanShadows(its: seq<BucketInputIterator>, ghost files: seq<File>, e: BucketEntry) returns (found: bool)
    requires Cursors(its, files) && !e.Meta? && AllPassedBelow(its, files, e)
    modifies its
    ensures Cursors(its, files) && AllPassedBelow(its, files, e)
    ensures found <==> InAny(ContentsAll(files), e.key)
  {
    hide EntryLess, GoodFile, EntriesOf, PassedBelow, MetaOf, BucketInputIterator.Valid, BucketInputIterator.Index;
    ghost var shadows := ContentsAll(files);
    for j := 0 to |its|
      invariant Cursors(its, files) && AllPassedBelow(its, files, e)
      invariant forall i | 0 <= i < j :: e.key !in shadows[i].entries
    {
      var hit := ScanShadow(its[j], e);
      if hit {
        assert e.key in shadows[j].entries;
        return true;
      }
    }
    return false;
  }

  // ----- one candidate -----

  /** The file after a candidate has been offered: elided, dropped, or appended. */
  function Offered(f: File, e: BucketEntry, shadows: seq<Bucket>, keepDead: bool, keepLifecycle: bool): File
    requires !e.Meta?
  {
    if ShadowedOut(StateOf(e), e.key, shadows, keepLifecycle) || (!keepDead && e.Dead?) then f else f + [e]
  }

  /** maybePut: a candidate above everything written, legal at the merge's version, is put unless shadowed. */
  method MaybePut(out: BucketOutputIterator, e: BucketEntry, its: seq<BucketInputIterator>, ghost files: seq<File>,
                  keepLifecycle: bool)
    requires out.Valid() && !e.Meta? && Legal(e, out.version)
    requires forall i | 0 <= i < |out.Output()| :: EntryLess(out.Output()[i], e)
    requires Cursors(its, files) && AllPassedBelow(its, files, e)
    modifies out, its
    ensures out.Valid()
    ensures out.Output() == Offered(old(out.Output()), e, ContentsAll(files), out.keepDeadEntries, keepLifecycle)
    ensures Cursors(its, files) && AllPassedBelow(its, files, e)
  {
    hide EntryLess, GoodFile, EntriesOf, Sorted, Cursors, AllPassedBelow;
    assert out.buf.Some? ==> EntryLess(out.Output()[|out.written|], e);
    if out.buf.Some? { EntryOrder(out.buf.value, e, e); }
    if keepLifecycle && (e.Init? || e.Dead?) {
      var err := out.Put(e);
      return;
    }
    var shadowed := ScanShadows(its, files, e);
    if shadowed {
      return;
    }
    var err := out.Put(e);
  }

  // ----- the state of the pass, as values -----

  /** Nothing in the first n records of f reaches e. */
  predicate AllBelow(f: File, n: nat, e: BucketEntry)
    requires n <= |f|
  {
    forall x | 0 <= x < n :: EntryLess(f[x], e)
  }

  /** Both cursors' heads are above everything read and everything written. */
  predicate Ordered(oldF: File, newF: File, i: nat, j: nat, out: File)
    requires i <= |oldF| && j <= |newF|
  {
    (i < |oldF| ==> !oldF[i].Meta? && AllBelow(oldF, i, oldF[i]) && AllBelow(newF, j, oldF[i]) && AllBelow(out, |out|, oldF[i])) &&
    (j < |newF| ==> !newF[j].Meta? && AllBelow(oldF, i, newF[j]) && AllBelow(newF, j, newF[j]) && AllBelow(out, |out|, newF[j]))
  }

  /** Nothing read so far was illegal at version v or unmergeable. */
  predicate Clean(o: map<LedgerKey, State>, n: map<LedgerKey, State>, v: nat) {
    (v < FIRST_PROTOCOL_SUPPORTING_INITENTRY_AND_METAENTRY ==>
       (forall k | k in o :: !o[k].INIT?) && (forall k | k in n :: !n[k].INIT?)) &&
    forall k | k in o && k in n :: Mergeable(Get(o, k), Get(n, k))
  }

  /** What has been written is the merge of what has been read. */
  predicate Progress(oldF: File, newF: File, i: nat, j: nat, out: File, shadows: seq<Bucket>, keepDead: bool, v: nat)
    requires i <= |oldF| && j <= |newF|
  {
    var o, n := EntriesOf(oldF[..i]), EntriesOf(newF[..j]);
    MetaOf(out) == MetaFor(v) && Clean(o, n, v) &&
    EntriesOf(out) == MergedEntries(o, n, shadows, keepDead, v >= FIRST_PROTOCOL_SUPPORTING_INITENTRY_AND_METAENTRY)
  }

  /** A map with at most one more key. */
  function With(m: map<LedgerKey, State>, k: LedgerKey, s: Option<State>): map<LedgerKey, State> {
    if s.None? then m else m[k := s.value]
  }

  lemma MergedGet(o: map<LedgerKey, State>, n: map<LedgerKey, State>, shadows: seq<Bucket>, keepDead: bool, keepLifecycle: bool, x: LedgerKey)
    ensures Get(MergedEntries(o, n, shadows, keepDead, keepLifecycle), x) ==
            MergedState(Get(o, x), Get(n, x), shadows, keepDead, keepLifecycle, x)
  {
  }

  /** Reading one more key on either side or both merges that key alone. */
  lemma MergedWith(o: map<LedgerKey, State>, n: map<LedgerKey, State>, k: LedgerKey, a: Option<State>, b: Option<State>,
                   shadows: seq<Bucket>, keepDead: bool, keepLifecycle: bool)
    requires k !in o && k !in n && (a.Some? || b.Some?)
    ensures MergedEntries(With(o, k, a), With(n, k, b), shadows, keepDead, keepLifecycle) ==
            With(MergedEntries(o, n, shadows, keepDead, keepLifecycle), k,
                 MergedState(a, b, shadows, keepDead, keepLifecycle, k))
  {
    var o', n' := With(o, k, a), With(n, k, b);
    var m, m' := MergedEntries(o, n, shadows, keepDead, keepLifecycle), MergedEntries(o', n', shadows, keepDead, keepLifecycle);
    var c := MergedState(a, b, shadows, keepDead, keepLifecycle, k);
    forall x ensures Get(m', x) == Get(With(m, k, c), x) {
      hide MergedState, MergedEntries;
      MergedGet(o, n, shadows, keepDead, keepLifecycle, x);
      MergedGet(o', n', shadows, keepDead, keepLifecycle, x);
      assert Get(m, k).None? by { MergedNone(o, n, shadows, keepDead, keepLifecycle, k); }
    }
    SameMap(m', With(m, k, c));
  }

  lemma MergedNone(o: map<LedgerKey, State>, n: map<LedgerKey, State>, shadows: seq<Bucket>, keepDead: bool, keepLifecycle: bool, k: LedgerKey)
    requires k !in o && k !in n
    ensures Get(MergedEntries(o, n, shadows, keepDead, keepLifecycle), k) == None
  {
  }

  lemma CleanWith(o: map<LedgerKey, State>, n: map<LedgerKey, State>, v: nat, k: LedgerKey, a: Option<State>, b: Option<State>)
    requires Clean(o, n, v) && k !in o && k !in n && Mergeable(a, b)
    requires v < FIRST_PROTOCOL_SUPPORTING_INITENTRY_AND_METAENTRY ==>
               (a.Some? ==> !a.value.INIT?) && (b.Some? ==> !b.value.INIT?)
    ensures Clean(With(o, k, a), With(n, k, b), v)
  {
    var o', n' := With(o, k, a), With(n, k, b);
    forall x | x in o' && x in n' ensures Mergeable(Get(o', x), Get(n', x)) {
      if x != k { assert Get(o', x) == Get(o, x) && Get(n', x) == Get(n, x); }
    }
  }

  /** What is written when the merged state at k is s: the record is offered, or nothing is when s is None. */
  function Emitted(out: File, k: LedgerKey, s: Option<State>, shadows: seq<Bucket>, keepDead: bool, keepLifecycle: bool): File {
    if s.None? then out else Offered(out, RecordOf(k, s.value), shadows, keepDead, keepLifecycle)
  }

  lemma EmittedEntries(out: File, k: LedgerKey, a: Option<State>, b: Option<State>, shadows: seq<Bucket>, keepDead: bool, keepLifecycle: bool)
    ensures var f := Emitted(out, k, Combine(a, b), shadows, keepDead, keepLifecycle);
            EntriesOf(f) == With(EntriesOf(out), k, MergedState(a, b, shadows, keepDead, keepLifecycle, k)) && MetaOf(f) == MetaOf(out)
  {
    hide Combine, EntriesOf, InAny;
    var c := Combine(a, b);
    if c.Some? {
      EntriesAppend(out, RecordOf(k, c.value));
    }
  }

  /** One turn of the loop: the least unread key, from either side or both, is consumed. */
  lemma Consume(oldF: File, newF: File, i: nat, j: nat, i': nat, j': nat, out: File, shadows: seq<Bucket>, keepDead: bool, v: nat,
                k: LedgerKey, a: Option<State>, b: Option<State>)
    requires i <= |oldF| && j <= |newF| && Ordered(oldF, newF, i, j, out) && Progress(oldF, newF, i, j, out, shadows, keepDead, v)
    requires a.Some? || b.Some?
    requires if a.Some? then i < |oldF| && i' == i + 1 && oldF[i] == RecordOf(k, a.value) else i' == i
    requires if b.Some? then j < |newF| && j' == j + 1 && newF[j] == RecordOf(k, b.value) else j' == j
    requires Mergeable(a, b)
    requires v < FIRST_PROTOCOL_SUPPORTING_INITENTRY_AND_METAENTRY ==>
               (a.Some? ==> !a.value.INIT?) && (b.Some? ==> !b.value.INIT?)
    ensures Progress(oldF, newF, i', j',
                     Emitted(out, k, Combine(a, b), shadows, keepDead, v >= FIRST_PROTOCOL_SUPPORTING_INITENTRY_AND_METAENTRY),
                     shadows, keepDead, v)
  {
    hide Combine, MergedState, MergedEntries, Clean, EntryLess, Offered, EntriesOf;
    var keepLifecycle := v >= FIRST_PROTOCOL_SUPPORTING_INITENTRY_AND_METAENTRY;
    var o, n := EntriesOf(oldF[..i]), EntriesOf(newF[..j]);
    HeadIsNew(oldF, newF, i, j, out, k, a, b);
    MergedWith(o, n, k, a, b, shadows, keepDead, keepLifecycle);
    CleanWith(o, n, v, k, a, b);
    EmittedEntries(out, k, a, b, shadows, keepDead, keepLifecycle);
    if a.Some? { EntriesPush(oldF, i); }
    if b.Some? { EntriesPush(newF, j); }
  }

  lemma HeadIsNew(oldF: File, newF: File, i: nat, j: nat, out: File, k: LedgerKey, a: Option<State>, b: Option<State>)
    requires i <= |oldF| && j <= |newF| && Ordered(oldF, newF, i, j, out) && (a.Some? || b.Some?)
    requires a.Some? ==> i < |oldF| && oldF[i] == RecordOf(k, a.value)
    requires b.Some? ==> j < |newF| && newF[j] == RecordOf(k, b.value)
    ensures k !in EntriesOf(oldF[..i]) && k !in EntriesOf(newF[..j])
  {
    hide EntriesOf;
    var e := if a.Some? then oldF[i] else newF[j];
    assert AllBelow(oldF, i, e) && AllBelow(newF, j, e);
    forall x | 0 <= x < i ensures EntryLess(oldF[x], Dead(k)) { SameKeySameOrder(e, Dead(k), oldF[x]); }
    forall x | 0 <= x < j ensures EntryLess(newF[x], Dead(k)) { SameKeySameOrder(e, Dead(k), newF[x]); }
    PrefixLacksKey(oldF, i, k);
    PrefixLacksKey(newF, j, k);
  }

  /** After a key is consumed, the new heads are above everything read and written. */
  lemma Reorder(oldF: File, newF: File, i: nat, j: nat, i': nat, j': nat, out: File, out': File, e: BucketEntry, r: BucketEntry)
    requires i <= i' <= |oldF| && j <= j' <= |newF| && i' <= i + 1 && j' <= j + 1
    requires !e.Meta? && !r.Meta? && r.key == e.key && (out' == out || out' == out + [r])
    requires AllBelow(oldF, i, e) && AllBelow(newF, j, e) && AllBelow(out, |out|, e)
    requires i < i' ==> !oldF[i].Meta? && oldF[i].key == e.key
    requires j < j' ==> !newF[j].Meta? && newF[j].key == e.key
    requires i' < |oldF| ==> EntryLess(e, oldF[i'])
    requires j' < |newF| ==> EntryLess(e, newF[j'])
    ensures Ordered(oldF, newF, i', j', out')
  {
    forall h: BucketEntry | EntryLess(e, h)
      ensures !h.Meta? && AllBelow(oldF, i', h) && AllBelow(newF, j', h) && AllBelow(out', |out'|, h)
    {
      ReorderAbove(oldF, i, i', e, h);
      ReorderAbove(newF, j, j', e, h);
      if out' == out {
        ReorderAbove(out', |out|, |out|, e, h);
      } else {
        assert out'[..|out|] == out;
        assert AllBelow(out', |out|, e) by { assert forall x | 0 <= x < |out| :: out'[x] == out[x]; }
        ReorderAbove(out', |out|, |out| + 1, e, h);
      }
      EntryOrder(e, h, h);
    }
  }

  lemma ReorderAbove(f: File, n: nat, n': nat, e: BucketEntry, h: BucketEntry)
    requires n <= n' <= n + 1 && n' <= |f| && AllBelow(f, n, e) && EntryLess(e, h)
    requires n < n' ==> !f[n].Meta? && !e.Meta? && f[n].key == e.key
    ensures AllBelow(f, n', h)
  {
    forall x | 0 <= x < n' ensures EntryLess(f[x], h) {
      if x < n { EntryOrder(f[x], e, h); } else { SameKeySameOrder(f[x], e, h); }
    }
  }

  // ----- the pass itself -----

  /** Everything the loop of merge keeps true. */
  ghost predicate Pass(oi: BucketInputIterator, ni: BucketInputIterator, out: BucketOutputIterator,
                       its: seq<BucketInputIterator>, oldF: File, newF: File, files: seq<File>, keepDead: bool, v: nat)
    reads oi, ni, out, its
  {
    oi != ni && oi !in its && ni !in its &&
    oi.file == oldF && ni.file == newF && GoodFile(oldF) && GoodFile(newF) && oi.Valid() && ni.Valid() &&
    Cursors(its, files) && out.Valid() && out.version == v && out.keepDeadEntries == keepDead &&
    Ordered(oldF, newF, oi.Index(), ni.Index(), out.Output()) &&
    Progress(oldF, newF, oi.Index(), ni.Index(), out.Output(), ContentsAll(files), keepDead, v) &&
    (oi.entry.Some? ==> AllPassedBelow(its, files, oi.entry.value)) &&
    (ni.entry.Some? ==> AllPassedBelow(its, files, ni.entry.value))
  }

  predicate KeepLifecycle(v: nat) {
    v >= FIRST_PROTOCOL_SUPPORTING_INITENTRY_AND_METAENTRY
  }

  /** The merge has a reason to throw for an illegal record. */
  ghost predicate IllegalIn(oldF: File, newF: File, v: nat) {
    v < FIRST_PROTOCOL_SUPPORTING_INITENTRY_AND_METAENTRY && (HasInit(Contents(oldF)) || HasInit(Contents(newF)))
  }

  lemma IllegalFound(f: File, i: nat, v: nat)
    requires Sorted(f) && i < |f| && !f[i].Meta? && !Legal(f[i], v)
    ensures v < FIRST_PROTOCOL_SUPPORTING_INITENTRY_AND_METAENTRY && HasInit(Contents(f))
  {
    InitRecords(f, i);
  }

  /**
    mergeCasesWithDefaultAcceptance: when one side is exhausted or the heads
    differ, the lesser head is taken; otherwise both heads have the same key and
    nothing happens.
   */
  method MergeCasesWithDefaultAcceptance(oi: BucketInputIterator, ni: BucketInputIterator, out: BucketOutputIterator,
                                         its: seq<BucketInputIterator>, ghost oldF: File, ghost newF: File,
                                         ghost files: seq<File>, v: nat)
    returns (taken: bool, err: Option<MergeError>)
    requires Pass(oi, ni, out, its, oldF, newF, files, out.keepDeadEntries, v)
    requires oi.entry.Some? || ni.entry.Some?
    modifies oi, ni, out, its
    ensures err.None? ==> Pass(oi, ni, out, its, oldF, newF, files, out.keepDeadEntries, v)
    ensures err.None? && taken ==> oi.Index() + ni.Index() == old(oi.Index() + ni.Index()) + 1
    ensures err.None? && !taken ==>
              oi.Index() == old(oi.Index()) && ni.Index() == old(ni.Index()) &&
              oi.entry.Some? && ni.entry.Some? && oi.entry.value.key == ni.entry.value.key
    ensures err.Some? ==> err.value == IllegalEntry && IllegalIn(oldF, newF, v)
  {
    ghost var i, j := oi.Index(), ni.Index();
    if ni.entry.None? || (oi.entry.Some? && ni.entry.Some? && EntryLess(oi.entry.value, ni.entry.value)) {
      var e := oi.entry.value;
      if !Legal(e, v) {
        IllegalFound(oldF, i, v);
        return true, Some(IllegalEntry);
      }
      TakeOne(oi, ni, oi, out, its, oldF, newF, files, v);
      return true, None;
    } else if oi.entry.None? || (oi.entry.Some? && ni.entry.Some? && EntryLess(ni.entry.value, oi.entry.value)) {
      var e := ni.entry.value;
      if !Legal(e, v) {
        IllegalFound(newF, j, v);
        return true, Some(IllegalEntry);
      }
      TakeOne(oi, ni, ni, out, its, oldF, newF, files, v);
      return true, None;
    }
    EntryOrder(oi.entry.value, ni.entry.value, ni.entry.value);
    return false, None;
  }

  lemma NextAbove(f: File, i: nat)
    requires GoodFile(f) && i < |f|
    ensures Sorted(f) && (i + 1 < |f| ==> EntryLess(f[i], f[i + 1]))
  {
  }

  /** One head, below the other, has been offered and its cursor advanced. */
  lemma TookOne(oldF: File, newF: File, i: nat, j: nat, i': nat, j': nat, f: File, shadows: seq<Bucket>, keepDead: bool, v: nat,
                e: BucketEntry)
    requires i <= |oldF| && j <= |newF| && GoodFile(oldF) && GoodFile(newF)
    requires Ordered(oldF, newF, i, j, f) && Progress(oldF, newF, i, j, f, shadows, keepDead, v)
    requires !e.Meta? && Legal(e, v)
    requires || (i' == i + 1 && j' == j && i < |oldF| && oldF[i] == e && (j < |newF| ==> EntryLess(e, newF[j])))
             || (i' == i && j' == j + 1 && j < |newF| && newF[j] == e && (i < |oldF| ==> EntryLess(e, oldF[i])))
    ensures var f' := Offered(f, e, shadows, keepDead, KeepLifecycle(v));
            Ordered(oldF, newF, i', j', f') && Progress(oldF, newF, i', j', f', shadows, keepDead, v)
    ensures i' < |oldF| ==> EntryLess(e, oldF[i'])
    ensures j' < |newF| ==> EntryLess(e, newF[j'])
  {
    hide GoodFile, Progress, EntryLess, EntriesOf, MetaOf, ShadowedOut;
    var f', s := Offered(f, e, shadows, keepDead, KeepLifecycle(v)), Some(StateOf(e));
    if i' == i + 1 {
      NextAbove(oldF, i);
      Consume(oldF, newF, i, j, i', j', f, shadows, keepDead, v, e.key, s, None);
    } else {
      NextAbove(newF, j);
      Consume(oldF, newF, i, j, i', j', f, shadows, keepDead, v, e.key, None, s);
    }
    Reorder(oldF, newF, i, j, i', j', f, f', e, e);
  }

  /** Offers the head of one cursor, which is below the other's, and advances that cursor. */
  method TakeOne(oi: BucketInputIterator, ni: BucketInputIterator, it: BucketInputIterator, out: BucketOutputIterator,
                 its: seq<BucketInputIterator>, ghost oldF: File, ghost newF: File, ghost files: seq<File>, v: nat)
    requires Pass(oi, ni, out, its, oldF, newF, files, out.keepDeadEntries, v)
    requires (it == oi || it == ni) && it.entry.Some? && Legal(it.entry.value, v)
    requires it == oi && ni.entry.Some? ==> EntryLess(oi.entry.value, ni.entry.value)
    requires it == ni && oi.entry.Some? ==> EntryLess(ni.entry.value, oi.entry.value)
    modifies it, out, its
    ensures Pass(oi, ni, out, its, oldF, newF, files, out.keepDeadEntries, v)
    ensures oi.Index() + ni.Index() == old(oi.Index() + ni.Index()) + 1
  {
    hide GoodFile, Progress, EntryLess, EntriesOf, MetaOf, Offered, Cursors, AllPassedBelow, BucketOutputIterator.Valid, Legal;
    ghost var i, j, f := oi.Index(), ni.Index(), out.Output();
    var e := it.entry.value;
    assert AllBelow(f, |f|, e);
    MaybePut(out, e, its, files, KeepLifecycle(v));
    var _ := it.Next();
    TookOne(oldF, newF, i, j, oi.Index(), ni.Index(), f, ContentsAll(files), out.keepDeadEntries, v, e);
    if oi.entry.Some? { PassedBelowMore(its, files, e, oi.entry.value); }
    if ni.entry.Some? { PassedBelowMore(its, files, e, ni.entry.value); }
  }

  /** Both heads, of the same key, have been merged and both cursors advanced. */
  lemma TookBoth(oldF: File, newF: File, i: nat, j: nat, f: File, shadows: seq<Bucket>, keepDead: bool, v: nat,
                 d: BucketEntry, e: BucketEntry)
    requires i < |oldF| && j < |newF| && GoodFile(oldF) && GoodFile(newF)
    requires Ordered(oldF, newF, i, j, f) && Progress(oldF, newF, i, j, f, shadows, keepDead, v)
    requires d == oldF[i] && e == newF[j] && d.key == e.key && Legal(d, v) && Legal(e, v)
    requires Mergeable(Some(StateOf(d)), Some(StateOf(e)))
    ensures var f' := Emitted(f, e.key, Combine(Some(StateOf(d)), Some(StateOf(e))), shadows, keepDead, KeepLifecycle(v));
            Ordered(oldF, newF, i + 1, j + 1, f') && Progress(oldF, newF, i + 1, j + 1, f', shadows, keepDead, v)
    ensures i + 1 < |oldF| ==> EntryLess(e, oldF[i + 1])
    ensures j + 1 < |newF| ==> EntryLess(e, newF[j + 1])
  {
    hide GoodFile, Progress, EntryLess, EntriesOf, MetaOf, ShadowedOut, Combine, Mergeable;
    var a, b := Some(StateOf(d)), Some(StateOf(e));
    var c := Combine(a, b);
    var f' := Emitted(f, e.key, c, shadows, keepDead, KeepLifecycle(v));
    NextAbove(oldF, i);
    NextAbove(newF, j);
    Consume(oldF, newF, i, j, i + 1, j + 1, f, shadows, keepDead, v, e.key, a, b);
    if i + 1 < |oldF| { SameKeySameOrder(d, e, oldF[i + 1]); }
    Reorder(oldF, newF, i, j, i + 1, j + 1, f, f', e, if c.Some? then RecordOf(e.key, c.value) else e);
  }

  lemma UnmergeableFound(oldF: File, newF: File, i: nat, j: nat)
    requires Sorted(oldF) && Sorted(newF) && i < |oldF| && j < |newF| && !oldF[i].Meta? && !newF[j].Meta?
    requires oldF[i].key == newF[j].key && !Mergeable(Some(StateOf(oldF[i])), Some(StateOf(newF[j])))
    ensures !AllMergeable(Contents(oldF), Contents(newF))
  {
    EntriesValue(oldF, i);
    EntriesValue(newF, j);
    var k := newF[j].key;
    assert k in Contents(oldF).entries && k in Contents(newF).entries;
    assert !Mergeable(At(Contents(oldF), k), At(Contents(newF), k));
  }

  /** The old/new table: what the two entries become is offered, or the pair is malformed. */
  method PutMerged(out: BucketOutputIterator, its: seq<BucketInputIterator>, ghost files: seq<File>,
                   oldEntry: BucketEntry, newEntry: BucketEntry, v: nat)
    returns (ok: bool)
    requires out.Valid() && out.version == v && Cursors(its, files)
    requires !oldEntry.Meta? && !newEntry.Meta? && oldEntry.key == newEntry.key && Legal(oldEntry, v) && Legal(newEntry, v)
    requires AllBelow(out.Output(), |out.Output()|, newEntry) && AllPassedBelow(its, files, newEntry)
    modifies out, its
    ensures ok <==> Mergeable(Some(StateOf(oldEntry)), Some(StateOf(newEntry)))
    ensures ok ==>
              out.Valid() && Cursors(its, files) && AllPassedBelow(its, files, newEntry) &&
              out.Output() == Emitted(old(out.Output()), newEntry.key, Combine(Some(StateOf(oldEntry)), Some(StateOf(newEntry))),
                                      ContentsAll(files), out.keepDeadEntries, KeepLifecycle(v))
  {
    hide EntryLess, Cursors, AllPassedBelow, BucketOutputIterator.Valid, ShadowedOut;
    ghost var f := out.Output();
    if newEntry.Init? {
      if !oldEntry.Dead? {
        return false;
      }
      var newLive := Live(newEntry.key, newEntry.body);
      OfferSameKey(f, its, files, newEntry, newLive);
      MaybePut(out, newLive, its, files, KeepLifecycle(v));
      OfferSameKey(f, its, files, newLive, newEntry);
    } else if oldEntry.Init? {
      if newEntry.Live? {
        var newInit := Init(newEntry.key, newEntry.body);
        OfferSameKey(f, its, files, newEntry, newInit);
        MaybePut(out, newInit, its, files, KeepLifecycle(v));
        OfferSameKey(f, its, files, newInit, newEntry);
      }
    } else {
      MaybePut(out, newEntry, its, files, KeepLifecycle(v));
    }
    return true;
  }

  /** mergeCasesWithEqualKeys: the old/new lifecycle table, with its error. */
  method MergeCasesWithEqualKeys(oi: BucketInputIterator, ni: BucketInputIterator, out: BucketOutputIterator,
                                 its: seq<BucketInputIterator>, ghost oldF: File, ghost newF: File,
                                 ghost files: seq<File>, v: nat)
    returns (err: Option<MergeError>)
    requires Pass(oi, ni, out, its, oldF, newF, files, out.keepDeadEntries, v)
    requires oi.entry.Some? && ni.entry.Some? && oi.entry.value.key == ni.entry.value.key
    modifies oi, ni, out, its
    ensures err.None? ==>
              Pass(oi, ni, out, its, oldF, newF, files, out.keepDeadEntries, v) &&
              oi.Index() + ni.Index() == old(oi.Index() + ni.Index()) + 2
    ensures err.Some? ==>
              || (err.value == IllegalEntry && IllegalIn(oldF, newF, v))
              || (err.value == MalformedLifecycle && KeepLifecycle(v) && !AllMergeable(Contents(oldF), Contents(newF)))
  {
    hide GoodFile, Progress, EntryLess, EntriesOf, MetaOf, Emitted, Combine, Cursors, AllPassedBelow, BucketOutputIterator.Valid;
    ghost var i, j, f := oi.Index(), ni.Index(), out.Output();
    var oldEntry, newEntry := oi.entry.value, ni.entry.value;
    NextAbove(oldF, i);
    NextAbove(newF, j);
    if !Legal(oldEntry, v) {
      IllegalFound(oldF, i, v);
      return Some(IllegalEntry);
    }
    if !Legal(newEntry, v) {
      IllegalFound(newF, j, v);
      return Some(IllegalEntry);
    }
    var ok := PutMerged(out, its, files, oldEntry, newEntry, v);
    if !ok {
      UnmergeableFound(oldF, newF, i, j);
      return Some(MalformedLifecycle);
    }
    var _ := oi.Next();
    var _ := ni.Next();
    TookBoth(oldF, newF, i, j, f, ContentsAll(files), out.keepDeadEntries, v, oldEntry, newEntry);
    if oi.entry.Some? { PassedBelowMore(its, files, newEntry, oi.entry.value); }
    if ni.entry.Some? { PassedBelowMore(its, files, newEntry, ni.entry.value); }
    err := None;
  }

  /** Replacing a candidate by another record of its key changes nothing about its place. */
  lemma OfferSameKey(f: File, its: seq<BucketInputIterator>, files: seq<File>, d: BucketEntry, e: BucketEntry)
    requires Cursors(its, files) && AllPassedBelow(its, files, d) && !d.Meta? && !e.Meta? && d.key == e.key
    ensures AllPassedBelow(its, files, e)
    ensures AllBelow(f, |f|, d) ==> AllBelow(f, |f|, e)
  {
    forall j | 0 <= j < |its| ensures PassedBelow(its[j], e) {
      assert PassedBelow(its[j], d);
      forall i | 0 <= i < its[j].Index() ensures EntryLess(its[j].file[i], e) {
        SameKeySameOrder(d, e, its[j].file[i]);
      }
    }
    forall i | 0 <= i < |f| && EntryLess(f[i], d) ensures EntryLess(f[i], e) {
      SameKeySameOrder(d, e, f[i]);
    }
  }

  // ----- merge -----

  /** A cursor on each shadow. */
  method OpenAll(files: seq<File>) returns (its: seq<BucketInputIterator>)
    requires forall i | 0 <= i < |files| :: GoodFile(files[i])
    ensures Cursors(its, files)
    ensures forall i | 0 <= i < |its| :: fresh(its[i]) && its[i].Index() == Landing(files[i], 0) && its[i].metadata == Version(Contents(files[i]))
  {
    hide GoodFile, Landing, Contents, MetaOf;
    its := [];
    for j := 0 to |files|
      invariant |its| == j
      invariant forall i | 0 <= i < j :: fresh(its[i]) && its[i].file == files[i] && its[i].Valid()
      invariant forall i | 0 <= i < j :: its[i].Index() == Landing(files[i], 0) && its[i].metadata == Version(Contents(files[i]))
      invariant forall i, k | 0 <= i < k < j :: its[i] != its[k]
    {
      var it, _ := Open(files[j]);
      its := its + [it];
    }
  }

  /** calculateMergeProtocolVersion: the version of the merge, or why it must not run. */
  method CalculateMergeProtocolVersion(maxProtocolVersion: nat, oldVersion: nat, newVersion: nat,
                                       its: seq<BucketInputIterator>, ghost oldB: Bucket, ghost newB: Bucket,
                                       ghost files: seq<File>)
    returns (r: Result<nat, MergeError>)
    requires oldVersion == Version(oldB) && newVersion == Version(newB) && |its| == |files|
    requires forall i | 0 <= i < |its| :: its[i].metadata == Version(Contents(files[i]))
    ensures var v := MergeVersion(oldB, newB, ContentsAll(files));
            r == if v > maxProtocolVersion then Failure(VersionExceedsMax)
                 else if v >= FIRST_PROTOCOL_SHADOWS_REMOVED && files != [] then Failure(ShadowsUnsupported)
                 else Success(v)
  {
    hide Version, Contents;
    ghost var shadows := ContentsAll(files);
    var v := Max(oldVersion, newVersion);
    for j := 0 to |its|
      invariant v == MergeVersion(oldB, newB, shadows[..j])
    {
      assert shadows[..j + 1][..j] == shadows[..j];
      if its[j].metadata < FIRST_PROTOCOL_SHADOWS_REMOVED {
        v := Max(its[j].metadata, v);
      }
    }
    assert shadows[..|its|] == shadows;
    if v > maxProtocolVersion {
      return Failure(VersionExceedsMax);
    }
    if v >= FIRST_PROTOCOL_SHADOWS_REMOVED && its != [] {
      return Failure(ShadowsUnsupported);
    }
    return Success(v);
  }

  lemma {:induction false} StartOfPass(oldF: File, newF: File, i: nat, j: nat, out: File, shadows: seq<Bucket>, keepDead: bool, v: nat)
    requires GoodFile(oldF) && GoodFile(newF) && i == Landing(oldF, 0) && j == Landing(newF, 0)
    requires out == if KeepLifecycle(v) then [Meta(v)] else []
    ensures i <= |oldF| && j <= |newF|
    ensures Ordered(oldF, newF, i, j, out) && Progress(oldF, newF, i, j, out, shadows, keepDead, v)
  {
    MetaOnly(oldF, i);
    MetaOnly(newF, j);
    assert EntriesOf(out) == map[];
    assert MergedEntries(map[], map[], shadows, keepDead, KeepLifecycle(v)) == map[];
    forall h: BucketEntry | !h.Meta? ensures AllBelow(oldF, i, h) && AllBelow(newF, j, h) && AllBelow(out, |out|, h) {
    }
  }

  lemma MetaOnly(f: File, i: nat)
    requires GoodFile(f) && i == Landing(f, 0)
    ensures i <= |f| && EntriesOf(f[..i]) == map[]
    ensures forall x | 0 <= x < i :: f[x].Meta?
    ensures forall x | i <= x < |f| :: !f[x].Meta?
  {
    if i == 1 {
      assert f[..1] == [f[0]];
      forall x | 1 <= x < |f| ensures !f[x].Meta? { EntryOrder(f[0], f[x], f[x]); }
    } else {
      forall x | 0 < x < |f| ensures !f[x].Meta? { EntryOrder(f[0], f[x], f[x]); }
    }
  }

  lemma FreshCursors(its: seq<BucketInputIterator>, files: seq<File>, e: BucketEntry)
    requires Cursors(its, files) && !e.Meta?
    requires forall i | 0 <= i < |its| :: its[i].Index() == Landing(files[i], 0)
    ensures AllPassedBelow(its, files, e)
  {
    forall j | 0 <= j < |its| ensures PassedBelow(its[j], e) {
      MetaOnly(files[j], its[j].Index());
    }
  }

  lemma EndOfPass(oldF: File, newF: File, out: File, shadows: seq<Bucket>, keepDead: bool, v: nat)
    requires Progress(oldF, newF, |oldF|, |newF|, out, shadows, keepDead, v) && Sorted(out)
    requires v == MergeVersion(Contents(oldF), Contents(newF), shadows)
    ensures Contents(out) == Merged(Contents(oldF), Contents(newF), shadows, keepDead)
    ensures AllMergeable(Contents(oldF), Contents(newF)) && !IllegalIn(oldF, newF, v)
    ensures SelfLegal(out)
  {
    hide MergedEntries, MergeVersion, EntriesOf;
    assert oldF[..|oldF|] == oldF && newF[..|newF|] == newF;
    if MetaOf(out).Some? {
      forall i | 0 < i < |out| ensures Legal(out[i], v) { }
    }
  }

  /**
    Bucket::merge refines its key-by-key description: over good files the one
    pass returns exactly what Buckets.Merge says, error included, and the file it
    writes is good: strictly ascending, META first, legal.
   */
  method MergeFiles(maxProtocolVersion: nat, oldF: File, newF: File, shadowFs: seq<File>, keepDeadEntries: bool)
    returns (r: Result<File, MergeError>)
    requires GoodFile(oldF) && GoodFile(newF) && forall i | 0 <= i < |shadowFs| :: GoodFile(shadowFs[i])
    ensures var spec := Merge(Contents(oldF), Contents(newF), ContentsAll(shadowFs), keepDeadEntries, maxProtocolVersion);
            match r
            case Success(f) => spec == Success(Contents(f)) && GoodFile(f)
            case Failure(e) => spec == Failure(e)
  {
    hide EntriesOf, MergedEntries, MergeVersion, EntryLess, Progress, Ordered, HasInit, AllMergeable, Landing, MetaOf, SelfLegal, ReadFault, Sorted;
    var oi, _ := Open(oldF);
    var ni, _ := Open(newF);
    var its := OpenAll(shadowFs);
    ghost var shadows := ContentsAll(shadowFs);
    var version := CalculateMergeProtocolVersion(maxProtocolVersion, oi.metadata, ni.metadata, its, Contents(oldF), Contents(newF), shadowFs);
    if version.Failure? {
      return Failure(version.error);
    }
    var v := version.value;
    var out := new BucketOutputIterator(keepDeadEntries, v);
    StartOfPass(oldF, newF, oi.Index(), ni.Index(), out.Output(), shadows, keepDeadEntries, v);
    if oi.entry.Some? { FreshCursors(its, shadowFs, oi.entry.value); }
    if ni.entry.Some? { FreshCursors(its, shadowFs, ni.entry.value); }
    var err := RunPass(oi, ni, out, its, oldF, newF, shadowFs, v);
    if err.Some? {
      return Failure(err.value);
    }
    EndOfPass(oldF, newF, out.Output(), shadows, keepDeadEntries, v);
    var f := out.GetBucket();
    return Success(f);
  }

  /** The loop of merge. */
  method RunPass(oi: BucketInputIterator, ni: BucketInputIterator, out: BucketOutputIterator,
                 its: seq<BucketInputIterator>, ghost oldF: File, ghost newF: File, ghost files: seq<File>, v: nat)
    returns (err: Option<MergeError>)
    requires Pass(oi, ni, out, its, oldF, newF, files, out.keepDeadEntries, v)
    modifies oi, ni, out, its
    ensures err.None? ==>
              out.Valid() && Progress(oldF, newF, |oldF|, |newF|, out.Output(), ContentsAll(files), out.keepDeadEntries, v)
    ensures err.Some? ==>
              || (err.value == IllegalEntry && IllegalIn(oldF, newF, v))
              || (err.value == MalformedLifecycle && KeepLifecycle(v) && !AllMergeable(Contents(oldF), Contents(newF)))
  {
    hide Progress, Ordered, AllPassedBelow, Cursors, GoodFile;
    while oi.entry.Some? || ni.entry.Some?
      invariant Pass(oi, ni, out, its, oldF, newF, files, out.keepDeadEntries, v)
      decreases |oldF| + |newF| - oi.Index() - ni.Index()
    {
      var taken;
      taken, err := MergeCasesWithDefaultAcceptance(oi, ni, out, its, oldF, newF, files, v);
      if err.Some? {
        return;
      }
      if !taken {
        err := MergeCasesWithEqualKeys(oi, ni, out, its, oldF, newF, files, v);
        if err.Some? {
          return;
        }
      }
    }
    err := None;
  }
}
