/**
  Replaying buckets into a ledger during catch-up (src/bucket/BucketApplicator.cpp:59-183),
  oldest bucket first, in chunks.
 */
module Applicator {
  import opened Wrappers
  import opened LedgerCmp
  import opened Buckets
  import opened Files
  import opened Iterators
  import opened Schedule
  import opened ListModel
  import opened Runs
  import opened Versions
  import opened Refinement
  import opened Theorems

  type Ledger = map<LedgerKey, Body>

  const LEDGER_ENTRY_BATCH_COMMIT_SIZE: nat := 0xfff

  /** What is asked of the ledger transaction. */
  datatype Op = Create(key: LedgerKey, body: Body) | Update(key: LedgerKey, body: Body) | Erase(key: LedgerKey)

  /** Creations are of absent keys, updates and erasures of present ones. */
  predicate OpValid(m: Ledger, op: Op) {
    if op.Create? then op.key !in m else op.key in m
  }

  function DoOp(m: Ledger, op: Op): Ledger {
    match op
    case Create(k, b) => m[k := b]
    case Update(k, b) => m[k := b]
    case Erase(k) => m - {k}
  }

  /** The operation advance chooses for an entry of a level, given the oldest protocol version seen. */
  function OpFor(m: Ledger, e: BucketEntry, lastLevel: bool, minVersion: nat): Option<Op>
    requires !e.Meta?
  {
    if !e.Dead? then
      if lastLevel && e.Live? then Some(Create(e.key, e.body))
      else if minVersion < FIRST_PROTOCOL_SUPPORTING_INITENTRY_AND_METAENTRY then
        if e.key in m then Some(Update(e.key, e.body)) else Some(Create(e.key, e.body))
      else if e.Live? then Some(Update(e.key, e.body))
      else Some(Create(e.key, e.body))
    else if minVersion < FIRST_PROTOCOL_SUPPORTING_INITENTRY_AND_METAENTRY && e.key !in m then None
    else Some(Erase(e.key))
  }

  /** The ledger and the operations issued to it so far. */
  datatype Store = Store(entries: Ledger, ops: seq<Op>)

  function Issue(s: Store, op: Op): Store {
    Store(DoOp(s.entries, op), s.ops + [op])
  }

  /** One entry's effect, if the filter accepts its type. */
  function Applied(s: Store, e: BucketEntry, filter: nat -> bool, lastLevel: bool, minVersion: nat): Store {
    if e.Meta? || !filter(KeyType(e.key)) then s
    else
      var op := OpFor(s.entries, e, lastLevel, minVersion);
      if op.Some? then Issue(s, op.value) else s
  }

  function Replay(s: Store, es: File, filter: nat -> bool, lastLevel: bool, minVersion: nat): Store {
    if es == [] then s
    else Applied(Replay(s, es[..|es| - 1], filter, lastLevel, minVersion), es[|es| - 1], filter, lastLevel, minVersion)
  }

  /** How many entries the filter accepts: each is counted, and applied, once. */
  function Accepted(es: File, filter: nat -> bool): nat {
    if es == [] then 0
    else Accepted(es[..|es| - 1], filter) + (if !es[|es| - 1].Meta? && filter(KeyType(es[|es| - 1].key)) then 1 else 0)
  }

  /** Every operation was valid when it was issued, starting from m. */
  predicate OpsValid(m: Ledger, ops: seq<Op>) {
    ops == [] || (OpsValid(m, ops[..|ops| - 1]) && OpValid(After(m, ops[..|ops| - 1]), ops[|ops| - 1]))
  }

  function After(m: Ledger, ops: seq<Op>): Ledger {
    if ops == [] then m else DoOp(After(m, ops[..|ops| - 1]), ops[|ops| - 1])
  }

  lemma ReplayPush(m: Store, es: File, n: nat, filter: nat -> bool, lastLevel: bool, minVersion: nat)
    requires n < |es|
    ensures Replay(m, es[..n + 1], filter, lastLevel, minVersion) ==
            Applied(Replay(m, es[..n], filter, lastLevel, minVersion), es[n], filter, lastLevel, minVersion)
    ensures Accepted(es[..n + 1], filter) ==
            Accepted(es[..n], filter) + (if !es[n].Meta? && filter(KeyType(es[n].key)) then 1 else 0)
  {
    assert es[..n + 1][..n] == es[..n];
  }

  /** The ledger the transactions commit into. */
  class LedgerRoot {
    var entries: Ledger
    var ops: seq<Op>

    ghost function Value(): Store
      reads this
    {
      Store(entries, ops)
    }

    constructor (m: Ledger)
      ensures Value() == Store(m, [])
    {
      entries, ops := m, [];
    }

    method CreateWithoutLoading(k: LedgerKey, b: Body)
      modifies this
      ensures Value() == Issue(old(Value()), Create(k, b))
    {
      entries, ops := entries[k := b], ops + [Create(k, b)];
    }

    method UpdateWithoutLoading(k: LedgerKey, b: Body)
      modifies this
      ensures Value() == Issue(old(Value()), Update(k, b))
    {
      entries, ops := entries[k := b], ops + [Update(k, b)];
    }

    method EraseWithoutLoading(k: LedgerKey)
      modifies this
      ensures Value() == Issue(old(Value()), Erase(k))
    {
      entries, ops := entries - {k}, ops + [Erase(k)];
    }
  }

  /** A single apply-bucket-to-ledger operation in progress. */
  class BucketApplicator {
    const maxProtocolVersion: nat
    const minProtocolVersionSeen: nat
    const lastLevel: bool
    const filter: nat -> bool
    const iter: BucketInputIterator
    var count: nat

    ghost predicate Valid()
      reads this, iter
    {
      iter.Valid() && GoodFile(iter.file) &&
      count == Accepted(iter.file[..iter.Index()], filter)
    }

    /** Opens the bucket. Its version must not exceed the maximum. */
    constructor (maxVersion: nat, minVersion: nat, last: bool, it: BucketInputIterator, accept: nat -> bool)
      requires it.Valid() && GoodFile(it.file) && it.Index() == Landing(it.file, 0) && it.metadata <= maxVersion
      ensures iter == it && filter == accept && lastLevel == last && minProtocolVersionSeen == minVersion && maxProtocolVersion == maxVersion
      ensures Valid() && count == 0
    {
      maxProtocolVersion, minProtocolVersionSeen, lastLevel, filter := maxVersion, minVersion, last, accept;
      iter := it;
      count := 0;
      new;
      assert Landing(it.file, 0) == 1 ==> it.file[..1][..0] == [];
      assert Accepted(it.file[..Landing(it.file, 0)], accept) == 0;
    }

    /**
      advance: applies entries in order until one more than the commit size was
      accepted or the bucket ends. Starting from a ledger that has everything
      before the cursor replayed into `m`, it leaves one that has everything
      before the new cursor replayed.
     */
    method Advance(root: LedgerRoot, ghost m: Store) returns (applied: nat, illegal: bool)
      requires Valid()
      requires root.Value() == Replay(m, iter.file[..iter.Index()], filter, lastLevel, minProtocolVersionSeen)
      modifies this`count, iter, root
      ensures !illegal ==>
                Valid() && root.Value() == Replay(m, iter.file[..iter.Index()], filter, lastLevel, minProtocolVersionSeen) &&
                iter.Index() >= old(iter.Index()) && applied == count - old(count) &&
                (iter.entry.Some? ==> applied == 4096 && iter.Index() > old(iter.Index())) && applied <= 4096
      ensures illegal ==> maxProtocolVersion < 11 && exists i | 0 <= i < |iter.file| :: iter.file[i].Init?
    {
      hide GoodFile, Replay, Accepted, Applied, Landing;
      ghost var f, start := iter.file, iter.Index();
      applied := 0;
      while iter.entry.Some?
        invariant iter.Valid() && start <= iter.Index()
        invariant root.Value() == Replay(m, f[..iter.Index()], filter, lastLevel, minProtocolVersionSeen)
        invariant applied == Accepted(f[..iter.Index()], filter) - Accepted(f[..start], filter)
        invariant applied <= LEDGER_ENTRY_BATCH_COMMIT_SIZE && count == old(count)
        decreases |f| - iter.Index()
      {
        var e := iter.entry.value;
        if !Legal(e, maxProtocolVersion) {
          return applied, true;
        }
        ghost var i := iter.Index();
        ReplayPush(m, f, i, filter, lastLevel, minProtocolVersionSeen);
        var accepted := filter(KeyType(e.key));
        if accepted {
          ApplyOne(root, e);
          applied := applied + 1;
        } else {
          FilteredOut(root.Value(), e, filter, lastLevel, minProtocolVersionSeen);
        }
        var _ := iter.Next();
        assert f[..i + 1] == f[..iter.Index()];
        if accepted && applied > LEDGER_ENTRY_BATCH_COMMIT_SIZE {
          break;
        }
      }
      count := count + applied;
      illegal := false;
    }

    /** The branch advance takes for one accepted entry. */
    method ApplyOne(root: LedgerRoot, e: BucketEntry)
      requires !e.Meta? && filter(KeyType(e.key))
      modifies root
      ensures root.Value() == Applied(old(root.Value()), e, filter, lastLevel, minProtocolVersionSeen)
    {
      if e.Live? || e.Init? {
        if lastLevel && e.Live? {
          root.CreateWithoutLoading(e.key, e.body);
        } else if minProtocolVersionSeen < FIRST_PROTOCOL_SUPPORTING_INITENTRY_AND_METAENTRY {
          if e.key in root.entries {
            root.UpdateWithoutLoading(e.key, e.body);
          } else {
            root.CreateWithoutLoading(e.key, e.body);
          }
        } else if e.Live? {
          root.UpdateWithoutLoading(e.key, e.body);
        } else {
          root.CreateWithoutLoading(e.key, e.body);
        }
      } else if minProtocolVersionSeen < FIRST_PROTOCOL_SUPPORTING_INITENTRY_AND_METAENTRY {
        if e.key in root.entries {
          root.EraseWithoutLoading(e.key);
        }
      } else {
        root.EraseWithoutLoading(e.key);
      }
    }

    /** Advancing until the bucket is exhausted replays the whole bucket, however it was chunked. */
    method ApplyAll(root: LedgerRoot) returns (illegal: bool)
      requires Valid() && count == 0 && Accepted(iter.file[..iter.Index()], filter) == 0
      requires iter.Index() == Landing(iter.file, 0)
      modifies this`count, iter, root
      ensures !illegal ==>
                root.Value() == Replay(old(root.Value()), iter.file, filter, lastLevel, minProtocolVersionSeen) &&
                count == Accepted(iter.file, filter)
      ensures illegal ==> maxProtocolVersion < 11 && exists i | 0 <= i < |iter.file| :: iter.file[i].Init?
    {
      ghost var m := root.Value();
      ReplayMeta(m, iter.file, filter, lastLevel, minProtocolVersionSeen);
      while iter.entry.Some?
        invariant Valid()
        invariant root.Value() == Replay(m, iter.file[..iter.Index()], filter, lastLevel, minProtocolVersionSeen)
        decreases |iter.file| - iter.Index()
      {
        var applied;
        applied, illegal := Advance(root, m);
        if illegal {
          return;
        }
      }
      assert iter.file[..|iter.file|] == iter.file;
      illegal := false;
    }
  }

  lemma FilteredOut(m: Store, e: BucketEntry, filter: nat -> bool, lastLevel: bool, minVersion: nat)
    requires e.Meta? || !filter(KeyType(e.key))
    ensures Applied(m, e, filter, lastLevel, minVersion) == m
  {
  }

  lemma ReplayMeta(m: Store, f: File, filter: nat -> bool, lastLevel: bool, minVersion: nat)
    ensures Landing(f, 0) <= |f| && Replay(m, f[..Landing(f, 0)], filter, lastLevel, minVersion) == m
  {
    if Landing(f, 0) == 1 { assert f[..1][..0] == []; }
  }

  // ----- what one bucket's replay does -----

  lemma AppliedAt(m: Store, e: BucketEntry, filter: nat -> bool, lastLevel: bool, minVersion: nat, k: LedgerKey)
    ensures Get(Applied(m, e, filter, lastLevel, minVersion).entries, k) ==
            if !e.Meta? && e.key == k && filter(KeyType(k)) then Reader(Some(StateOf(e))) else Get(m.entries, k)
  {
  }

  /** A replay of a sorted bucket sets every accepted key to what the bucket says and leaves the rest. */
  lemma {:induction false} ReplayAt(s: Store, es: File, filter: nat -> bool, lastLevel: bool, minVersion: nat, k: LedgerKey)
    requires Sorted(es)
    ensures Get(Replay(s, es, filter, lastLevel, minVersion).entries, k) ==
            if k in EntriesOf(es) && filter(KeyType(k)) then Reader(Get(EntriesOf(es), k)) else Get(s.entries, k)
  {
    hide Applied, Sorted;
    if es != [] {
      var n := |es| - 1;
      SortedPrefix(es, n);
      ReplayAt(s, es[..n], filter, lastLevel, minVersion, k);
      AppliedAt(Replay(s, es[..n], filter, lastLevel, minVersion), es[n], filter, lastLevel, minVersion, k);
    }
  }

  /** What the operation for a state at k demands of the ledger before it. */
  predicate Suitable(m: Ledger, k: LedgerKey, st: State, lastLevel: bool, minVersion: nat) {
    var checked := minVersion < FIRST_PROTOCOL_SUPPORTING_INITENTRY_AND_METAENTRY;
    match st
    case INIT(_) => checked || k !in m
    case LIVE(_) => if lastLevel then k !in m else checked || k in m
    case DEAD => checked || k in m
  }

  /** Every accepted entry of a bucket finds its key as its operation demands. */
  predicate Suits(m: Ledger, es: File, filter: nat -> bool, lastLevel: bool, minVersion: nat) {
    forall k | k in EntriesOf(es) && filter(KeyType(k)) :: Suitable(m, k, EntriesOf(es)[k], lastLevel, minVersion)
  }

  /** Replaying a bucket issues only valid operations exactly if it suits the ledger key by key. */
  lemma {:induction false} ReplayIssuesValid(m: Ledger, s: Store, es: File, filter: nat -> bool, lastLevel: bool, minVersion: nat)
    requires Sorted(es) && After(m, s.ops) == s.entries
    ensures var r := Replay(s, es, filter, lastLevel, minVersion);
            && After(m, r.ops) == r.entries
            && (OpsValid(m, r.ops) <==> OpsValid(m, s.ops) && Suits(s.entries, es, filter, lastLevel, minVersion))
  {
    hide EntriesOf, Sorted, OpFor, Suitable, OpValid, DoOp, Applied, EntryLess, Suits, OpsValid;
    if es == [] {
      NothingToSuit(s.entries, filter, lastLevel, minVersion);
    } else {
      var n := |es| - 1;
      SortedPrefix(es, n);
      ReplayIssuesValid(m, s, es[..n], filter, lastLevel, minVersion);
      LastSuits(s.entries, es, filter, lastLevel, minVersion);
      if !es[n].Meta? && filter(KeyType(es[n].key)) { LastSuitable(s, es, filter, lastLevel, minVersion); }
      LastIssued(m, Replay(s, es[..n], filter, lastLevel, minVersion), es[n], filter, lastLevel, minVersion);
    }
  }

  lemma NothingToSuit(m: Ledger, filter: nat -> bool, lastLevel: bool, minVersion: nat)
    ensures Suits(m, [], filter, lastLevel, minVersion)
  {
  }

  /** A bucket suits a ledger if all but its last entry do, and the last one does. */
  lemma LastSuits(m: Ledger, es: File, filter: nat -> bool, lastLevel: bool, minVersion: nat)
    requires Sorted(es) && es != []
    ensures var e := es[|es| - 1];
            Suits(m, es, filter, lastLevel, minVersion) <==>
            && Suits(m, es[..|es| - 1], filter, lastLevel, minVersion)
            && (!e.Meta? && filter(KeyType(e.key)) ==> Suitable(m, e.key, StateOf(e), lastLevel, minVersion))
  {
    hide Suitable, EntryLess, Sorted;
    var n := |es| - 1;
    if !es[n].Meta? { PrefixLacksLast(es); }
  }

  /** One more entry issues at most one more operation, and all are valid if that is and the others were. */
  lemma LastIssued(m: Ledger, before: Store, e: BucketEntry, filter: nat -> bool, lastLevel: bool, minVersion: nat)
    requires After(m, before.ops) == before.entries
    ensures var r := Applied(before, e, filter, lastLevel, minVersion);
            && After(m, r.ops) == r.entries
            && (OpsValid(m, r.ops) <==>
                && OpsValid(m, before.ops)
                && (!e.Meta? && filter(KeyType(e.key)) ==> OpSuits(before.entries, e, lastLevel, minVersion)))
  {
    hide OpFor, OpValid, DoOp;
    if !e.Meta? && filter(KeyType(e.key)) {
      var op := OpFor(before.entries, e, lastLevel, minVersion);
      if op.Some? { assert (before.ops + [op.value])[..|before.ops|] == before.ops; }
    }
  }

  /** The operation an entry calls for, if any, is valid. */
  predicate OpSuits(m: Ledger, e: BucketEntry, lastLevel: bool, minVersion: nat)
    requires !e.Meta?
  {
    var op := OpFor(m, e, lastLevel, minVersion);
    op.Some? ==> OpValid(m, op.value)
  }

  lemma PrefixLacksLast(es: File)
    requires Sorted(es) && es != [] && !es[|es| - 1].Meta?
    ensures es[|es| - 1].key !in EntriesOf(es[..|es| - 1])
  {
    var n := |es| - 1;
    forall i | 0 <= i < n ensures EntryLess(es[i], Dead(es[n].key)) {
      SameKeySameOrder(es[n], Dead(es[n].key), es[i]);
    }
    PrefixLacksKey(es, n, es[n].key);
  }

  /** The last operation meets the ledger as it was before the bucket, at its key. */
  lemma LastSuitable(s: Store, es: File, filter: nat -> bool, lastLevel: bool, minVersion: nat)
    requires Sorted(es) && es != [] && !es[|es| - 1].Meta?
    ensures var e := es[|es| - 1];
            OpSuits(Replay(s, es[..|es| - 1], filter, lastLevel, minVersion).entries, e, lastLevel, minVersion) <==>
            Suitable(s.entries, e.key, StateOf(e), lastLevel, minVersion)
  {
    hide Replay;
    var n := |es| - 1;
    SortedPrefix(es, n);
    PrefixLacksLast(es);
    ReplayAt(s, es[..n], filter, lastLevel, minVersion, es[n].key);
  }

  // ----- catching up from a whole list -----

  /** The files from position j on, replayed oldest first into an empty ledger. */
  function ReplayList(n: nat, fs: seq<File>, j: nat, filter: nat -> bool, mins: seq<nat>): Store
    requires j <= |fs| == |mins|
    decreases |fs| - j
  {
    if j == |fs| then Store(map[], [])
    else Replay(ReplayList(n, fs, j + 1, filter, mins), fs[j], filter, j / 2 == n - 1, mins[j])
  }

  /** The files hold the buckets of the list, newest first. */
  predicate FilesOf(fs: seq<File>, levels: seq<Level>) {
    |fs| == 2 * |levels| && forall j | 0 <= j < |fs| :: GoodFile(fs[j]) && Contents(fs[j]) == Flat(levels)[j]
  }

  /** The applicators of nonempty buckets check for presence, or the whole run knows INIT. */
  predicate Checked(bs: seq<Batch>, fs: seq<File>, mins: seq<nat>)
    requires |fs| == |mins|
  {
    From(ELEVEN, bs) || forall j | 0 <= j < |fs| && fs[j] != [] :: mins[j] < ELEVEN
  }

  /**
    The entry of bucket j at k demands what the older buckets read. Unless the
    applicator checks for presence, INIT needs an absent key and LIVE and DEAD a
    present one; at the oldest level LIVE needs an absent one.
   */
  predicate SuitsOlder(n: nat, flat: seq<Bucket>, mins: seq<nat>, j: nat, k: LedgerKey)
    requires j < |flat| == |mins| && k in flat[j].entries
  {
    var present := Reader(NewestFrom(flat, j + 1, k)).Some?;
    match flat[j].entries[k]
    case INIT(_) => mins[j] < ELEVEN || !present
    case LIVE(_) => if j / 2 == n - 1 then !present else mins[j] < ELEVEN || present
    case DEAD => mins[j] < ELEVEN || present
  }

  /** All accepted entries of the buckets from position j on do. */
  predicate SuitsFrom(n: nat, flat: seq<Bucket>, mins: seq<nat>, filter: nat -> bool, j: nat)
    requires |flat| == |mins|
  {
    forall q, k | j <= q < |flat| && k in flat[q].entries && filter(KeyType(k)) :: SuitsOlder(n, flat, mins, q, k)
  }

  lemma CheckedSuits(era: Era, n: nat, bs: seq<Batch>, t: nat, levels: seq<Level>, mins: seq<nat>, j: nat, k: LedgerKey)
    requires 2 <= n == |levels| && t <= |bs| && j < 2 * n == |mins| && Invariant(era, n, bs, levels, t) && Upgrading(bs)
    requires From(ELEVEN, bs) || mins[j] < ELEVEN
    requires k in Flat(levels)[j].entries
    ensures SuitsOlder(n, Flat(levels), mins, j, k)
  {
    hide Invariant, Flat, Touched, From;
    if From(ELEVEN, bs) { FollowsAt(era, n, bs, levels, t, j, k); }
    if j / 2 == n - 1 {
      LastTops(n, t);
      ReadFrom(era, n, bs, levels, t, 2 * n - 1, k);
      assert Top(n, 2 * n - 1, t) == SnapTop(n, n - 1, t) by { assert (2 * n - 1) / 2 == n - 1; }
      assert j == 2 * n - 2 || j == 2 * n - 1;
    }
  }

  /** A bucket suits the ledger its elders have left if it suits what they read. */
  lemma SuitsRead(n: nat, flat: seq<Bucket>, mins: seq<nat>, f: File, filter: nat -> bool, j: nat, m: Ledger)
    requires j < |flat| == |mins| && EntriesOf(f) == flat[j].entries
    requires forall k :: Get(m, k) == if filter(KeyType(k)) then Reader(NewestFrom(flat, j + 1, k)) else None
    ensures SuitsFrom(n, flat, mins, filter, j) <==>
            SuitsFrom(n, flat, mins, filter, j + 1) && Suits(m, f, filter, j / 2 == n - 1, mins[j])
  {
    hide NewestFrom, EntriesOf;
    forall k | k in flat[j].entries && filter(KeyType(k))
      ensures Suitable(m, k, flat[j].entries[k], j / 2 == n - 1, mins[j]) <==> SuitsOlder(n, flat, mins, j, k) {
      assert Get(m, k) == Reader(NewestFrom(flat, j + 1, k));
    }
  }

  lemma {:induction false} CatchUpFrom(n: nat, levels: seq<Level>, fs: seq<File>, mins: seq<nat>, filter: nat -> bool, j: nat)
    requires n == |levels| && FilesOf(fs, levels) && j <= |fs| == |mins|
    ensures var s := ReplayList(n, fs, j, filter, mins);
            && (forall k :: Get(s.entries, k) == if filter(KeyType(k)) then Reader(NewestFrom(Flat(levels), j, k)) else None)
            && After(map[], s.ops) == s.entries
            && (OpsValid(map[], s.ops) <==> SuitsFrom(n, Flat(levels), mins, filter, j))
    decreases |fs| - j
  {
    hide Flat, Replay, OpsValid, After, Suits, SuitsFrom, SuitsOlder;
    var flat := Flat(levels);
    if j == |fs| {
      NoOps(n, flat, mins, filter);
    } else {
      CatchUpFrom(n, levels, fs, mins, filter, j + 1);
      var s := ReplayList(n, fs, j + 1, filter, mins);
      var last := j / 2 == n - 1;
      assert Contents(fs[j]) == flat[j];
      SuitsRead(n, flat, mins, fs[j], filter, j, s.entries);
      ReplayIssuesValid(map[], s, fs[j], filter, last, mins[j]);
      forall k ensures Get(ReplayList(n, fs, j, filter, mins).entries, k) ==
                       if filter(KeyType(k)) then Reader(NewestFrom(flat, j, k)) else None {
        ReplayAt(s, fs[j], filter, last, mins[j], k);
      }
    }
  }

  lemma NoOps(n: nat, flat: seq<Bucket>, mins: seq<nat>, filter: nat -> bool)
    requires |flat| == |mins|
    ensures OpsValid(map[], []) && After(map[], []) == map[] && SuitsFrom(n, flat, mins, filter, |flat|)
  {
  }

  /**
    Catch-up: replaying every bucket of a reachable list into an empty ledger,
    oldest first, gives exactly the part of the ledger map the filter accepts. It
    creates only absent keys, and updates and erases only present ones, if and
    only if each entry suits what the older buckets read; that is so in a run
    from protocol 11 on, and with the presence checks that versions below 11 turn
    on.
   */
  lemma CatchUp(n: nat, bs: seq<Batch>, t: nat, fs: seq<File>, mins: seq<nat>, filter: nat -> bool)
    requires 2 <= n && t <= |bs| && Upgrading(bs) && WellFormed(bs) && Harmless(n, Protocols(bs), t)
    requires Run(n, bs, t).Success? && FilesOf(fs, Run(n, bs, t).value) && |mins| == |fs|
    ensures var s := ReplayList(n, fs, 0, filter, mins);
            && (forall k :: Get(s.entries, k) == if filter(KeyType(k)) then Get(LedgerAfter(bs, t), k) else None)
            && (OpsValid(map[], s.ops) <==> SuitsFrom(n, Flat(Run(n, bs, t).value), mins, filter, 0))
            && (Checked(bs, fs, mins) ==> OpsValid(map[], s.ops))
  {
    hide ReplayList, Invariant, OpsValid, After, Harmless, WellFormed, From, Flat, SuitsOlder;
    RunInvariant(Shadows, n, bs, t);
    LookupIsLedger(n, bs, t);
    var levels := Run(n, bs, t).value;
    CatchUpFrom(n, levels, fs, mins, filter, 0);
    var s := ReplayList(n, fs, 0, filter, mins);
    forall k ensures Get(s.entries, k) == if filter(KeyType(k)) then Get(LedgerAfter(bs, t), k) else None {
      assert Lookup(levels, k) == Get(LedgerAfter(bs, t), k);
    }
    if Checked(bs, fs, mins) {
      forall q, k | 0 <= q < |fs| && k in Flat(levels)[q].entries && filter(KeyType(k)) ensures SuitsOlder(n, Flat(levels), mins, q, k) {
        NotEmptyFile(fs[q], k);
        CheckedSuits(Shadows, n, bs, t, levels, mins, q, k);
      }
    }
  }

  lemma NotEmptyFile(f: File, k: LedgerKey)
    requires k in Contents(f).entries
    ensures f != []
  {
  }
}
