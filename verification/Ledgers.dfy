/** Whole runs of the bucket list as it runs in place, read against the plain ledger map. */
module Ledgers {
  import opened Wrappers
  import opened LedgerCmp
  import opened Buckets
  import opened ListModel
  import opened Runs
  import opened Versions
  import opened Refinement
  import opened FreshBucket
  import opened Theorems
  import opened BucketListRun

  /** What closing one ledger hands to addBatch. */
  datatype Close = Close(protocol: nat, init: seq<LedgerEntry>, live: seq<LedgerEntry>, dead: seq<LedgerKey>)

  function BatchFor(c: Close): Batch {
    BatchOf(c.protocol, c.init, c.live, c.dead)
  }

  function Batches(closes: seq<Close>): (bs: seq<Batch>)
    ensures |bs| == |closes| && forall i | 0 <= i < |bs| :: bs[i] == BatchFor(closes[i])
  {
    seq(|closes|, i requires 0 <= i < |closes| => BatchFor(closes[i]))
  }

  /** No key is named twice. */
  predicate NoRepeats(c: Close) {
    DistinctKeys(Collected(c.protocol >= FIRST_PROTOCOL_SUPPORTING_INITENTRY_AND_METAENTRY, c.init, c.live, c.dead))
  }

  /**
    Adding well-formed batches one ledger after the other never fails, and what
    the levels then hold, read newest first, is the ledger the batches make.
   */
  method CloseLedgers(n: nat, closes: seq<Close>) returns (list: BucketList)
    requires 2 <= n && Upgrading(Batches(closes)) && WellFormed(Batches(closes)) && Harmless(n, Protocols(Batches(closes)), |closes|)
    requires forall i | 0 <= i < |closes| :: NoRepeats(closes[i])
    ensures list.n == n && list.Valid()
    ensures Run(n, Batches(closes), |closes|) == Success(list.Values())
    ensures forall k :: Lookup(list.Values(), k) == Get(LedgerAfter(Batches(closes), |closes|), k)
  {
    hide Upgrading, Harmless, WellFormed, Lookup, LedgerAfter, Run, NoRepeats, BatchFor, BucketList.Valid, BucketList.Values;
    ghost var bs := Batches(closes);
    list := new BucketList(n);
    RunStart(n, bs);
    for t := 0 to |closes|
      invariant fresh(list) && fresh(list.levels) && list.n == n && list.Valid()
      invariant Run(n, bs, t) == Success(list.Values())
    {
      HarmlessBefore(n, Protocols(bs), t + 1, |closes|);
      LookupIsLedger(n, bs, t + 1);
      CloseLedger(list, t + 1, closes[t], bs);
    }
    LookupIsLedger(n, bs, |closes|);
  }

  lemma RunStart(n: nat, bs: seq<Batch>)
    ensures Run(n, bs, 0) == Success(seq(n, _ => EmptyLevel))
  {
  }

  lemma RunStep(n: nat, bs: seq<Batch>, t: nat)
    requires 0 < t <= |bs| && Run(n, bs, t).Success? && Run(n, bs, t - 1).Success?
    ensures Run(n, bs, t) == ListModel.AddBatch(n, Run(n, bs, t - 1).value, t, bs[t - 1].protocol, Fresh(bs[t - 1]))
  {
  }

  /** One ledger of such a run. */
  method CloseLedger(list: BucketList, t: nat, c: Close, ghost bs: seq<Batch>)
    requires 0 < t <= |bs| && bs[t - 1] == BatchFor(c) && NoRepeats(c) && list.Valid()
    requires Run(list.n, bs, t).Success? && Run(list.n, bs, t - 1) == Success(list.Values())
    modifies list.levels
    ensures list.Valid() && Run(list.n, bs, t) == Success(list.Values())
  {
    hide Run, BucketList.Valid, BucketList.Values, MapOf, Fresh, ListModel.AddBatch, DistinctKeys, Collected;
    RunStep(list.n, bs, t);
    var err := list.AddBatch(t, c.protocol, c.init, c.live, c.dead);
  }
}
