/** Bucket files: sequences of records, and the bucket each one denotes. */
module Files {
  import opened Wrappers
  import opened LedgerCmp
  import opened Buckets

  type File = seq<BucketEntry>

  /** Strictly ascending: META, if any, in first place, and one record per key. */
  predicate Sorted(f: File) {
    forall i, j | 0 <= i < j < |f| :: EntryLess(f[i], f[j])
  }

  function MetaOf(f: File): Option<nat> {
    if f != [] && f[0].Meta? then Some(f[0].ledgerVersion) else None
  }

  /** checkProtocolLegality: INIT and META need protocol 11. */
  predicate Legal(e: BucketEntry, version: nat) {
    version < FIRST_PROTOCOL_SUPPORTING_INITENTRY_AND_METAENTRY ==> !e.Init? && !e.Meta?
  }

  /** A file with a META holds only records its META version allows. */
  predicate SelfLegal(f: File) {
    MetaOf(f).Some? ==> forall i | 0 < i < |f| :: Legal(f[i], MetaOf(f).value)
  }

  predicate GoodFile(f: File) {
    Sorted(f) && SelfLegal(f)
  }

  function StateOf(e: BucketEntry): State
    requires !e.Meta?
  {
    match e
    case Live(_, b) => LIVE(b)
    case Init(_, b) => INIT(b)
    case Dead(_) => DEAD
  }

  /** The record for a state. */
  function RecordOf(k: LedgerKey, s: State): BucketEntry {
    match s
    case LIVE(b) => Live(k, b)
    case INIT(b) => Init(k, b)
    case DEAD => Dead(k)
  }

  function EntriesOf(f: File): map<LedgerKey, State> {
    if f == [] then map[]
    else
      var m, e := EntriesOf(f[..|f| - 1]), f[|f| - 1];
      if e.Meta? then m else m[e.key := StateOf(e)]
  }

  function Contents(f: File): Bucket {
    Bucket(MetaOf(f), EntriesOf(f))
  }

  function ContentsAll(fs: seq<File>): (r: seq<Bucket>)
    ensures |r| == |fs|
    ensures forall i | 0 <= i < |fs| :: r[i] == Contents(fs[i])
  {
    seq(|fs|, i requires 0 <= i < |fs| => Contents(fs[i]))
  }

  /** f has a record for k. */
  predicate HasKey(f: File, k: LedgerKey) {
    exists i | 0 <= i < |f| :: !f[i].Meta? && f[i].key == k
  }

  lemma {:induction false} EntriesKeys(f: File, k: LedgerKey)
    ensures k in EntriesOf(f) <==> HasKey(f, k)
  {
    if f != [] {
      var g, e := f[..|f| - 1], f[|f| - 1];
      EntriesKeys(g, k);
      if HasKey(g, k) {
        var i :| 0 <= i < |g| && !g[i].Meta? && g[i].key == k;
        assert f[i] == g[i];
      }
      if HasKey(f, k) && !(!e.Meta? && e.key == k) {
        var i :| 0 <= i < |f| && !f[i].Meta? && f[i].key == k;
        assert g[i] == f[i];
      }
    }
  }

  lemma SortedPrefix(f: File, n: nat)
    requires Sorted(f) && n <= |f|
    ensures Sorted(f[..n])
  {
  }

  /** In a sorted file every record is what the bucket holds at its key. */
  lemma {:induction false} EntriesValue(f: File, i: nat)
    requires Sorted(f) && i < |f| && !f[i].Meta?
    ensures f[i].key in EntriesOf(f) && EntriesOf(f)[f[i].key] == StateOf(f[i])
  {
    var n := |f| - 1;
    if i < n {
      SortedPrefix(f, n);
      EntriesValue(f[..n], i);
      EntryOrder(f[i], f[n], f[n]);
    }
  }

  /** A prefix of a sorted file has no record for a key that a later record has. */
  lemma PrefixLacksKey(f: File, n: nat, k: LedgerKey)
    requires n <= |f|
    requires forall i | 0 <= i < n :: EntryLess(f[i], Dead(k))
    ensures k !in EntriesOf(f[..n])
  {
    EntriesKeys(f[..n], k);
    if HasKey(f[..n], k) {
      var i :| 0 <= i < n && !f[..n][i].Meta? && f[..n][i].key == k;
      EntryOrder(f[i], Dead(k), f[i]);
    }
  }

  /** Reading one more record. */
  lemma EntriesPush(f: File, n: nat)
    requires n < |f|
    ensures EntriesOf(f[..n + 1]) == if f[n].Meta? then EntriesOf(f[..n]) else EntriesOf(f[..n])[f[n].key := StateOf(f[n])]
  {
    assert f[..n + 1][..n] == f[..n];
  }

  lemma EntriesAppend(f: File, e: BucketEntry)
    ensures EntriesOf(f + [e]) == if e.Meta? then EntriesOf(f) else EntriesOf(f)[e.key := StateOf(e)]
  {
    assert (f + [e])[..|f|] == f;
  }

  /** The order does not look at bodies or lifecycle: any two records of the same key compare alike. */
  lemma SameKeySameOrder(a: BucketEntry, b: BucketEntry, c: BucketEntry)
    requires !a.Meta? && !b.Meta? && a.key == b.key
    ensures EntryLess(a, c) <==> EntryLess(b, c)
    ensures EntryLess(c, a) <==> EntryLess(c, b)
  {
  }

  /** Buckets only: a legal file has INIT only under a META of at least 11, or without META. */
  lemma InitRecords(f: File, i: nat)
    requires Sorted(f) && i < |f| && f[i].Init?
    ensures HasInit(Contents(f))
  {
    EntriesValue(f, i);
  }
}
