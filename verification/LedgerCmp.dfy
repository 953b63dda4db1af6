/**
  The identity order on ledger keys and bucket entries (src/bucket/LedgerCmp.h).

  Account ids, assets, offer ids, data names, balance ids and pool ids are each
  totally ordered atoms; they are represented by naturals.
 */
module LedgerCmp {

  datatype LedgerKey =
    | Account(accountID: nat)
    | TrustLine(accountID: nat, asset: nat)
    | Offer(sellerID: nat, offerID: nat)
    | Data(accountID: nat, dataName: nat)
    | ClaimableBalance(balanceID: nat)
    | LiquidityPool(liquidityPoolID: nat)

  /** The body of a ledger entry is opaque: no comparison and no merge looks inside it. */
  type Body(==, !new)

  /** One record of a bucket file. */
  datatype BucketEntry =
    | Meta(ledgerVersion: nat)
    | Live(key: LedgerKey, body: Body)
    | Dead(key: LedgerKey)
    | Init(key: LedgerKey, body: Body)

  /** The LedgerEntryType tag. */
  function KeyType(k: LedgerKey): nat {
    match k
    case Account(_) => 0
    case TrustLine(_, _) => 1
    case Offer(_, _) => 2
    case Data(_, _) => 3
    case ClaimableBalance(_) => 4
    case LiquidityPool(_) => 5
  }

  /** The BucketEntryType tag. */
  function EntryType(e: BucketEntry): int {
    match e
    case Meta(_) => -1
    case Live(_, _) => 0
    case Dead(_) => 1
    case Init(_, _) => 2
  }

  /** Two-component lexCompare. */
  predicate LexCompare(lhs1: nat, rhs1: nat, lhs2: nat, rhs2: nat) {
    if lhs1 < rhs1 then true
    else if rhs1 < lhs1 then false
    else lhs2 < rhs2
  }

  /** LedgerEntryIdCmp: by type tag first, then by the identifying fields of that type. */
  predicate KeyLess(a: LedgerKey, b: LedgerKey) {
    if KeyType(a) < KeyType(b) then true
    else if KeyType(a) > KeyType(b) then false
    else
      match a
      case Account(id) => id < b.accountID
      case TrustLine(id, asset) => LexCompare(id, b.accountID, asset, b.asset)
      case Offer(seller, offer) => LexCompare(seller, b.sellerID, offer, b.offerID)
      case Data(id, name) => LexCompare(id, b.accountID, name, b.dataName)
      case ClaimableBalance(id) => id < b.balanceID
      case LiquidityPool(id) => id < b.liquidityPoolID
  }

  /** BucketEntryIdCmp: META below everything else, other entries by ledger key alone. */
  predicate EntryLess(a: BucketEntry, b: BucketEntry) {
    if a.Meta? || b.Meta? then EntryType(a) < EntryType(b) else KeyLess(a.key, b.key)
  }

  /** Two entries have the same identity exactly when both are META or both carry the same key. */
  predicate SameIdentity(a: BucketEntry, b: BucketEntry) {
    if a.Meta? || b.Meta? then a.Meta? && b.Meta? else a.key == b.key
  }

  /** The key order is a strict total order: exactly one of less, equal, greater holds. */
  lemma KeyTrichotomy(a: LedgerKey, b: LedgerKey)
    ensures !KeyLess(a, a)
    ensures KeyLess(a, b) || a == b || KeyLess(b, a)
    ensures !(KeyLess(a, b) && KeyLess(b, a))
  {
  }

  /** The identifying fields of a key, first and second; keys with one field have 0 in second place. */
  function Fields(k: LedgerKey): (nat, nat) {
    match k
    case Account(accountID) => (accountID, 0)
    case TrustLine(accountID, asset) => (accountID, asset)
    case Offer(sellerID, offerID) => (sellerID, offerID)
    case Data(accountID, dataName) => (accountID, dataName)
    case ClaimableBalance(balanceID) => (balanceID, 0)
    case LiquidityPool(liquidityPoolID) => (liquidityPoolID, 0)
  }

  /** Which difference decides: the type tag, then the first field, then the second; accounts come first, pools last. */
  lemma KeyOrderIs(a: LedgerKey, b: LedgerKey)
    ensures KeyType(a) < KeyType(b) ==> KeyLess(a, b)
    ensures KeyType(a) == KeyType(b) && Fields(a).0 < Fields(b).0 ==> KeyLess(a, b)
    ensures KeyType(a) == KeyType(b) && Fields(a).0 == Fields(b).0 && Fields(a).1 < Fields(b).1 ==> KeyLess(a, b)
    ensures KeyLess(a, b) ==> KeyType(a) < KeyType(b) || (KeyType(a) == KeyType(b) && Fields(a) != Fields(b))
    ensures (a.Account? <==> KeyType(a) == 0) && (a.TrustLine? <==> KeyType(a) == 1) && (a.Offer? <==> KeyType(a) == 2)
    ensures (a.Data? <==> KeyType(a) == 3) && (a.ClaimableBalance? <==> KeyType(a) == 4) && (a.LiquidityPool? <==> KeyType(a) == 5)
  {
  }

  lemma KeyLessTransitive(a: LedgerKey, b: LedgerKey, c: LedgerKey)
    requires KeyLess(a, b) && KeyLess(b, c)
    ensures KeyLess(a, c)
  {
  }

  /**
    The entry order is a strict weak order whose "neither is less" relation is
    identity of entries, so a strictly ascending file has at most one META, in
    first place, and at most one entry per key.
   */
  lemma EntryOrder(a: BucketEntry, b: BucketEntry, c: BucketEntry)
    ensures !EntryLess(a, a)
    ensures EntryLess(a, b) && EntryLess(b, c) ==> EntryLess(a, c)
    ensures !EntryLess(a, b) && !EntryLess(b, a) <==> SameIdentity(a, b)
    ensures EntryLess(a, b) ==> !EntryLess(b, a)
    ensures EntryLess(a, b) ==> !b.Meta?
  {
    if !a.Meta? && !b.Meta? {
      KeyTrichotomy(a.key, b.key);
      if !c.Meta? && EntryLess(a, b) && EntryLess(b, c) { KeyLessTransitive(a.key, b.key, c.key); }
    }
  }
}
