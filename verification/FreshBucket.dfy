/** Turning one ledger's changes into a sorted bucket file (src/bucket/Bucket.cpp:107-178). */
module FreshBucket {
  import opened Wrappers
  import opened LedgerCmp
  import opened Buckets
  import opened Files
  import opened Iterators
  import opened Runs

  datatype LedgerEntry = LedgerEntry(key: LedgerKey, body: Body)

  /** The records before sorting: creations, updates, deletions. */
  function Collected(useInit: bool, init: seq<LedgerEntry>, live: seq<LedgerEntry>, dead: seq<LedgerKey>): (r: File)
    ensures |r| == |init| + |live| + |dead|
  {
    seq(|init|, i requires 0 <= i < |init| => if useInit then Init(init[i].key, init[i].body) else Live(init[i].key, init[i].body)) +
    seq(|live|, i requires 0 <= i < |live| => Live(live[i].key, live[i].body)) +
    seq(|dead|, i requires 0 <= i < |dead| => Dead(dead[i]))
  }

  /** No key occurs twice among the records. */
  predicate DistinctKeys(f: File) {
    forall i, j | 0 <= i < j < |f| :: !SameIdentity(f[i], f[j])
  }

  predicate Ascending(f: File) {
    forall i, j | 0 <= i < j < |f| :: !EntryLess(f[j], f[i])
  }

  /** Some record of f has the identity of e. */
  predicate Clash(f: File, e: BucketEntry) {
    exists d | d in f :: SameIdentity(d, e)
  }

  /** The order is negatively transitive. */
  lemma LessSplits(a: BucketEntry, b: BucketEntry, c: BucketEntry)
    ensures EntryLess(a, c) ==> EntryLess(a, b) || EntryLess(b, c)
  {
    EntryOrder(a, b, c);
    EntryOrder(b, a, c);
    EntryOrder(c, b, a);
  }

  lemma DistinctExtend(f: File, e: BucketEntry)
    ensures DistinctKeys(f + [e]) <==> DistinctKeys(f) && !Clash(f, e)
  {
    var g := f + [e];
    assert forall i | 0 <= i < |f| :: f[i] in f && g[i] == f[i];
    if DistinctKeys(g) {
      forall d | d in f ensures !SameIdentity(d, e) {
        var i :| 0 <= i < |f| && f[i] == d;
        assert !SameIdentity(g[i], g[|f|]);
      }
      forall i, j | 0 <= i < j < |f| ensures !SameIdentity(f[i], f[j]) { assert !SameIdentity(g[i], g[j]); }
    }
  }

  /** Where a record is inserted does not matter to distinctness. */
  lemma DistinctInsert(f: File, i: nat, e: BucketEntry)
    requires i <= |f|
    ensures DistinctKeys(f[..i] + [e] + f[i..]) <==> DistinctKeys(f) && !Clash(f, e)
  {
    hide SameIdentity;
    var r := f[..i] + [e] + f[i..];
    forall d ensures SameIdentity(d, e) <==> SameIdentity(e, d) { SameIdentitySymmetric(d, e); }
    assert forall x | 0 <= x < |f| :: f[x] == if x < i then r[x] else r[x + 1];
    if DistinctKeys(r) {
      DistinctRemove(f, i, e);
    } else {
      var x, y :| 0 <= x < y < |r| && SameIdentity(r[x], r[y]);
      if x == i { assert SameIdentity(f[y - 1], e); }
      else if y == i { assert SameIdentity(f[x], e); }
      else { assert SameIdentity(f[if x < i then x else x - 1], f[if y < i then y else y - 1]); }
    }
  }

  lemma DistinctRemove(f: File, i: nat, e: BucketEntry)
    requires i <= |f| && DistinctKeys(f[..i] + [e] + f[i..])
    ensures DistinctKeys(f) && !Clash(f, e)
  {
    hide SameIdentity;
    var r := f[..i] + [e] + f[i..];
    forall x | 0 <= x < |f| ensures !SameIdentity(f[x], e) {
      SameIdentitySymmetric(f[x], e);
      if x < i { assert !SameIdentity(r[x], r[i]); } else { assert !SameIdentity(r[i], r[x + 1]); }
    }
    forall x, y | 0 <= x < y < |f| ensures !SameIdentity(f[x], f[y]) {
      assert !SameIdentity(r[if x < i then x else x + 1], r[if y < i then y else y + 1]);
    }
  }

  lemma SameIdentitySymmetric(a: BucketEntry, b: BucketEntry)
    ensures SameIdentity(a, b) <==> SameIdentity(b, a)
    ensures SameIdentity(a, a)
  {
  }

  lemma AscendingInsert(f: File, i: nat, e: BucketEntry)
    requires Ascending(f) && i <= |f|
    requires i > 0 ==> !EntryLess(e, f[i - 1])
    requires forall x | i <= x < |f| :: EntryLess(e, f[x])
    ensures Ascending(f[..i] + [e] + f[i..])
  {
    forall x | 0 <= x < i ensures !EntryLess(e, f[x]) { LessSplits(e, f[i - 1], f[x]); }
    forall x | i <= x < |f| ensures !EntryLess(f[x], e) { EntryOrder(e, f[x], f[x]); }
  }

  /** One insertion of the sort. */
  method Insert(f: File, e: BucketEntry) returns (r: File)
    requires Ascending(f)
    ensures Ascending(r) && multiset(r) == multiset(f) + multiset{e}
    ensures DistinctKeys(r) <==> DistinctKeys(f) && !Clash(f, e)
  {
    hide EntryLess, Ascending, DistinctKeys, Clash;
    var i := |f|;
    while i > 0 && EntryLess(e, f[i - 1])
      invariant 0 <= i <= |f|
      invariant forall x | i <= x < |f| :: EntryLess(e, f[x])
    {
      i := i - 1;
    }
    r := f[..i] + [e] + f[i..];
    AscendingInsert(f, i, e);
    DistinctInsert(f, i, e);
    assert f[..i] + f[i..] == f;
  }

  /** The sort: the same records in ascending order. */
  method SortEntries(f: File) returns (r: File)
    ensures Ascending(r) && multiset(r) == multiset(f)
    ensures DistinctKeys(r) <==> DistinctKeys(f)
  {
    hide EntryLess, Ascending, DistinctKeys;
    r := [];
    AscendingEmpty();
    for i := 0 to |f|
      invariant Ascending(r) && multiset(r) == multiset(f[..i])
      invariant DistinctKeys(r) <==> DistinctKeys(f[..i])
    {
      SameClash(r, f[..i], f[i]);
      DistinctExtend(f[..i], f[i]);
      r := Insert(r, f[i]);
      assert f[..i + 1] == f[..i] + [f[i]];
    }
    assert f[..|f|] == f;
  }

  lemma SameClash(f: File, g: File, e: BucketEntry)
    requires multiset(f) == multiset(g)
    ensures Clash(f, e) <==> Clash(g, e)
  {
    assert forall d :: d in f <==> d in multiset(f);
    assert forall d :: d in g <==> d in multiset(g);
  }

  lemma AscendingEmpty()
    ensures Ascending([]) && DistinctKeys([])
  {
  }

  lemma {:induction false} AdjacentSorted(f: File, i: nat, j: nat)
    requires forall x | 0 <= x < |f| - 1 :: EntryLess(f[x], f[x + 1])
    requires i < j < |f|
    ensures EntryLess(f[i], f[j])
    decreases j
  {
    if i + 1 < j {
      AdjacentSorted(f, i, j - 1);
      assert EntryLess(f[j - 1], f[j - 1 + 1]);
      EntryOrder(f[i], f[j - 1], f[j]);
    }
  }

  /** convertToBucketEntry. The assertion that all keys are distinct is the None outcome. */
  method ConvertToBucketEntry(useInit: bool, init: seq<LedgerEntry>, live: seq<LedgerEntry>, dead: seq<LedgerKey>)
    returns (r: Option<File>)
    ensures r.Some? <==> DistinctKeys(Collected(useInit, init, live, dead))
    ensures r.Some? ==> Sorted(r.value) && multiset(r.value) == multiset(Collected(useInit, init, live, dead))
  {
    ghost var all := Collected(useInit, init, live, dead);
    var bucket: File := [];
    for i := 0 to |init|
      invariant bucket == all[..i]
    {
      bucket := bucket + [if useInit then Init(init[i].key, init[i].body) else Live(init[i].key, init[i].body)];
    }
    for i := 0 to |live|
      invariant bucket == all[..|init| + i]
    {
      bucket := bucket + [Live(live[i].key, live[i].body)];
    }
    for i := 0 to |dead|
      invariant bucket == all[..|init| + |live| + i]
    {
      bucket := bucket + [Dead(dead[i])];
    }
    assert bucket == all;
    r := SortDistinct(bucket);
  }

  /** Sorts, then looks for two adjacent records that are not strictly ascending. */
  method SortDistinct(f: File) returns (r: Option<File>)
    ensures r.Some? <==> DistinctKeys(f)
    ensures r.Some? ==> Sorted(r.value) && multiset(r.value) == multiset(f)
  {
    hide EntryLess, SameIdentity;
    var g := SortEntries(f);
    var i := 0;
    while i + 1 < |g|
      invariant i <= |g|
      invariant forall x | 0 <= x < i && x + 1 < |g| :: EntryLess(g[x], g[x + 1])
    {
      if !EntryLess(g[i], g[i + 1]) {
        EntryOrder(g[i], g[i + 1], g[i]);
        return None;
      }
      i := i + 1;
    }
    forall x, y | 0 <= x < y < |g| ensures EntryLess(g[x], g[y]) && !SameIdentity(g[x], g[y]) {
      AdjacentSorted(g, x, y);
      EntryOrder(g[x], g[y], g[y]);
    }
    return Some(g);
  }

  // ----- the bucket the file denotes -----

  function MapOf(es: seq<LedgerEntry>): map<LedgerKey, Body> {
    if es == [] then map[] else MapOf(es[..|es| - 1])[es[|es| - 1].key := es[|es| - 1].body]
  }

  /** The batch that three vectors describe. */
  function BatchOf(protocol: nat, init: seq<LedgerEntry>, live: seq<LedgerEntry>, dead: seq<LedgerKey>): Batch {
    Batch(protocol, MapOf(init), MapOf(live), set k | k in dead)
  }

  predicate UniqueKeys(es: seq<LedgerEntry>) {
    forall i, j | 0 <= i < j < |es| :: es[i].key != es[j].key
  }

  lemma {:induction false} MapOfAt(es: seq<LedgerEntry>, k: LedgerKey)
    requires UniqueKeys(es)
    ensures k in MapOf(es) <==> exists i | 0 <= i < |es| :: es[i].key == k
    ensures forall i | 0 <= i < |es| && es[i].key == k :: k in MapOf(es) && MapOf(es)[k] == es[i].body
  {
    if es != [] {
      var n := |es| - 1;
      MapOfAt(es[..n], k);
      assert forall i | 0 <= i < n :: es[..n][i] == es[i];
    }
  }

  /** The record collected for each key is the one the fresh bucket holds, and there are no others. */
  lemma CollectedIsFresh(useInit: bool, init: seq<LedgerEntry>, live: seq<LedgerEntry>, dead: seq<LedgerKey>, protocol: nat, k: LedgerKey)
    requires useInit == (protocol >= FIRST_PROTOCOL_SUPPORTING_INITENTRY_AND_METAENTRY)
    requires DistinctKeys(Collected(useInit, init, live, dead))
    ensures var b := At(Fresh(BatchOf(protocol, init, live, dead)), k);
            && (b.Some? ==> RecordOf(k, b.value) in Collected(useInit, init, live, dead))
            && (b.None? ==> !HasKey(Collected(useInit, init, live, dead), k))
  {
    hide MapOf, SameIdentity;
    var all := Collected(useInit, init, live, dead);
    var m, n := |init|, |init| + |live|;
    VectorsApart(useInit, init, live, dead);
    MapOfAt(init, k);
    MapOfAt(live, k);
    var b := Fresh(BatchOf(protocol, init, live, dead));
    if k in MapOf(init) {
      var i :| 0 <= i < |init| && init[i].key == k;
      assert all[i] == RecordOf(k, b.entries[k]);
    } else if k in MapOf(live) {
      var i :| 0 <= i < |live| && live[i].key == k;
      assert all[m + i] == RecordOf(k, b.entries[k]);
    } else if k in dead {
      var i :| 0 <= i < |dead| && dead[i] == k;
      assert all[n + i] == RecordOf(k, b.entries[k]);
    } else {
      assert forall i | 0 <= i < |all| :: all[i].key != k;
    }
  }

  lemma VectorsApart(useInit: bool, init: seq<LedgerEntry>, live: seq<LedgerEntry>, dead: seq<LedgerKey>)
    requires DistinctKeys(Collected(useInit, init, live, dead))
    ensures UniqueKeys(init) && UniqueKeys(live)
    ensures forall i | 0 <= i < |Collected(useInit, init, live, dead)| :: !Collected(useInit, init, live, dead)[i].Meta?
  {
    var all := Collected(useInit, init, live, dead);
    forall i, j | 0 <= i < j < |init| ensures init[i].key != init[j].key { assert !SameIdentity(all[i], all[j]); }
    forall i, j | 0 <= i < j < |live| ensures live[i].key != live[j].key {
      assert !SameIdentity(all[|init| + i], all[|init| + j]);
    }
  }

  /** Bucket b holds at k exactly the record that all has for k. */
  predicate Records(all: File, b: Bucket, k: LedgerKey) {
    if k in b.entries then RecordOf(k, b.entries[k]) in all else !HasKey(all, k)
  }

  lemma SameMembers(f: File, g: File)
    requires multiset(f) == multiset(g)
    ensures forall e :: e in f <==> e in g
  {
    assert forall e :: e in f <==> e in multiset(f);
    assert forall e :: e in g <==> e in multiset(g);
  }

  lemma SameHasKey(f: File, g: File, k: LedgerKey)
    requires multiset(f) == multiset(g)
    ensures HasKey(f, k) <==> HasKey(g, k)
  {
    SameMembers(f, g);
    if HasKey(f, k) {
      var i :| 0 <= i < |f| && !f[i].Meta? && f[i].key == k;
      assert f[i] in g;
    }
    if HasKey(g, k) {
      var i :| 0 <= i < |g| && !g[i].Meta? && g[i].key == k;
      assert g[i] in f;
    }
  }

  lemma SortedAt(all: File, g: File, b: Bucket, k: LedgerKey)
    requires Sorted(g) && multiset(g) == multiset(all) && Records(all, b, k)
    ensures Get(EntriesOf(g), k) == Get(b.entries, k)
  {
    hide EntriesOf, Sorted;
    EntriesKeys(g, k);
    SameHasKey(all, g, k);
    if k in b.entries {
      SameMembers(all, g);
      var e := RecordOf(k, b.entries[k]);
      var i :| 0 <= i < |g| && g[i] == e;
      EntriesValue(g, i);
    }
  }

  lemma AllLegal(useInit: bool, init: seq<LedgerEntry>, live: seq<LedgerEntry>, dead: seq<LedgerKey>, protocol: nat, g: File)
    requires useInit == (protocol >= FIRST_PROTOCOL_SUPPORTING_INITENTRY_AND_METAENTRY)
    requires multiset(g) == multiset(Collected(useInit, init, live, dead))
    ensures forall i | 0 <= i < |g| :: !g[i].Meta? && Legal(g[i], protocol)
  {
    var all := Collected(useInit, init, live, dead);
    assert forall i | 0 <= i < |all| :: !all[i].Meta? && Legal(all[i], protocol);
    SameMembers(all, g);
    forall i | 0 <= i < |g| ensures !g[i].Meta? && Legal(g[i], protocol) {
      assert g[i] in all;
    }
  }

  /** A sorted file of the collected records denotes the fresh bucket's entries. */
  lemma SortedIsFresh(useInit: bool, init: seq<LedgerEntry>, live: seq<LedgerEntry>, dead: seq<LedgerKey>, protocol: nat, g: File)
    requires useInit == (protocol >= FIRST_PROTOCOL_SUPPORTING_INITENTRY_AND_METAENTRY)
    requires DistinctKeys(Collected(useInit, init, live, dead))
    requires Sorted(g) && multiset(g) == multiset(Collected(useInit, init, live, dead))
    ensures EntriesOf(g) == Fresh(BatchOf(protocol, init, live, dead)).entries
  {
    hide EntriesOf, Sorted, Fresh, DistinctKeys, Collected;
    var all, b := Collected(useInit, init, live, dead), Fresh(BatchOf(protocol, init, live, dead));
    forall k ensures Get(EntriesOf(g), k) == Get(b.entries, k) {
      CollectedIsFresh(useInit, init, live, dead, protocol, k);
      SortedAt(all, g, b, k);
    }
    SameMap(EntriesOf(g), b.entries);
  }

  /** Bucket::fresh: the file of one ledger's changes. */
  method FreshFile(protocol: nat, init: seq<LedgerEntry>, live: seq<LedgerEntry>, dead: seq<LedgerKey>)
    returns (r: Option<File>)
    ensures r.Some? <==>
              DistinctKeys(Collected(protocol >= FIRST_PROTOCOL_SUPPORTING_INITENTRY_AND_METAENTRY, init, live, dead))
    ensures r.Some? ==> GoodFile(r.value) && Contents(r.value) == Fresh(BatchOf(protocol, init, live, dead))
  {
    hide Contents, Collected, DistinctKeys, Fresh, GoodFile, Sorted, Legal;
    var useInit := protocol >= FIRST_PROTOCOL_SUPPORTING_INITENTRY_AND_METAENTRY;
    var entries := ConvertToBucketEntry(useInit, init, live, dead);
    if entries.None? {
      return None;
    }
    var g := entries.value;
    AllLegal(useInit, init, live, dead, protocol, g);
    var out := new BucketOutputIterator(true, protocol);
    ghost var head := out.Output();
    PutAll(out, g);
    var f := out.GetBucket();
    FreshContents(protocol, init, live, dead, head, g);
    return Some(f);
  }

  lemma FreshContents(protocol: nat, init: seq<LedgerEntry>, live: seq<LedgerEntry>, dead: seq<LedgerKey>, head: File, g: File)
    requires head == if protocol >= FIRST_PROTOCOL_SUPPORTING_INITENTRY_AND_METAENTRY then [Meta(protocol)] else []
    requires forall i | 0 <= i < |g| :: !g[i].Meta? && Legal(g[i], protocol)
    requires Sorted(g) && Sorted(head + g)
    requires var all := Collected(protocol >= FIRST_PROTOCOL_SUPPORTING_INITENTRY_AND_METAENTRY, init, live, dead);
             DistinctKeys(all) && multiset(g) == multiset(all)
    ensures GoodFile(head + g) && Contents(head + g) == Fresh(BatchOf(protocol, init, live, dead))
  {
    hide Collected, DistinctKeys, EntriesOf;
    SortedIsFresh(protocol >= FIRST_PROTOCOL_SUPPORTING_INITENTRY_AND_METAENTRY, init, live, dead, protocol, g);
    HeadEntries(head, g);
  }

  /** Puts sorted records after whatever META the iterator opened with. */
  method PutAll(out: BucketOutputIterator, g: File)
    requires out.Valid() && out.keepDeadEntries && Sorted(g)
    requires forall i | 0 <= i < |g| :: !g[i].Meta? && Legal(g[i], out.version)
    requires out.Output() == [] || (|out.Output()| == 1 && out.Output()[0].Meta?)
    modifies out
    ensures out.Valid() && out.Output() == old(out.Output()) + g
  {
    hide EntryLess, Legal, Sorted, BucketOutputIterator.Valid, LastBelow;
    ghost var head := out.Output();
    for i := 0 to |g|
      invariant out.Valid() && out.Output() == head + g[..i]
    {
      PutNext(head, g, i);
      PutOne(out, g[i]);
      assert head + g[..i] + [g[i]] == head + g[..i + 1];
    }
    assert head + g[..|g|] == head + g;
  }

  /** The file is empty or ends below e. */
  predicate LastBelow(f: File, e: BucketEntry) {
    f == [] || (EntryLess(f[|f| - 1], e) && !EntryLess(e, f[|f| - 1]))
  }

  method PutOne(out: BucketOutputIterator, e: BucketEntry)
    requires out.Valid() && out.keepDeadEntries && !e.Meta? && Legal(e, out.version) && LastBelow(out.Output(), e)
    modifies out
    ensures out.Valid() && out.Output() == old(out.Output()) + [e]
  {
    hide EntryLess, Sorted;
    if out.buf.Some? { assert out.buf.value == out.Output()[|out.Output()| - 1]; }
    var err := out.Put(e);
  }

  lemma PutNext(head: File, g: File, i: nat)
    requires head == [] || (|head| == 1 && head[0].Meta?)
    requires Sorted(g) && i < |g| && !g[i].Meta?
    ensures LastBelow(head + g[..i], g[i])
  {
    if i > 0 { EntryOrder(g[i - 1], g[i], g[i]); }
  }

  lemma {:induction false} HeadEntries(head: File, g: File)
    requires head == [] || (|head| == 1 && head[0].Meta?)
    requires forall i | 0 <= i < |g| :: !g[i].Meta?
    ensures EntriesOf(head + g) == EntriesOf(g)
    ensures MetaOf(head + g) == MetaOf(head)
  {
    if g == [] {
      assert head + g == head;
      assert EntriesOf([]) == map[];
    } else {
      var n := |g| - 1;
      HeadEntries(head, g[..n]);
      assert (head + g)[..|head + g| - 1] == head + g[..n];
    }
  }
}
