/**
  The mempool (src/core/mempool.rs): a table with three unique keys, replacement by
  fee, and the walk over the candidates for a block.
 */
module Mempool {

  import opened Numerals
  import opened Results
  import opened Wire

  datatype Rejection = ConflictingNonceInMempool

  datatype Tip = Tip(consensusHash: Bytes20, blockHash: Bytes32)

  datatype Slot = Slot(address: seq<u8>, nonce: u64)

  /** A row of the table; the transaction itself is left out. */
  datatype Tx = Tx(
    txid: Bytes32, origin: Slot, sponsor: Slot, estimatedFee: u64,
    tip: Tip, height: u64, acceptTime: u64)

  /** The blocks, as far as the node knows them. */
  datatype Chain = Chain(parent: Tip -> Option<Tip>, height: Tip -> nat)

  ghost predicate IsChain(c: Chain)
  {
    forall t :: c.parent(t).Some? ==> c.height(c.parent(t).value) + 1 == c.height(t)
  }

  /** The ancestor of `t` at height `h`: `t` itself at its own height. */
  function Ancestor(c: Chain, t: Tip, h: nat): (r: Option<Tip>)
    requires IsChain(c)
    ensures r.Some? ==> c.height(r.value) == h <= c.height(t)
    decreases c.height(t)
  {
    if c.height(t) == h then Some(t)
    else if c.height(t) < h then None
    else
      match c.parent(t)
      case None => None
      case Some(p) => Ancestor(c, p, h)
  }

  predicate InFork(c: Chain, before: Tip, tip: Tip)
    requires IsChain(c)
  {
    Ancestor(c, tip, c.height(before)) == Some(before)
  }

  /** A line of descent: each tip is the parent of the one before it. */
  ghost predicate IsPath(c: Chain, path: seq<Tip>)
  {
    path != [] && forall i :: 0 <= i < |path| - 1 ==> c.parent(path[i]) == Some(path[i + 1])
  }

  /** A tip is in the fork of another exactly when following parents leads to it. */
  lemma {:induction false} InForkIffPath(c: Chain, before: Tip, tip: Tip)
    requires IsChain(c)
    ensures InFork(c, before, tip) <==> exists path :: IsPath(c, path) && path[0] == tip && path[|path| - 1] == before
    decreases c.height(tip)
  {
    if tip == before {
      assert IsPath(c, [tip]) && [tip][0] == tip;
    } else {
      if InFork(c, before, tip) {
        var p := c.parent(tip).value;
        InForkIffPath(c, before, p);
        var path :| IsPath(c, path) && path[0] == p && path[|path| - 1] == before;
        var longer := [tip] + path;
        assert IsPath(c, longer) && longer[0] == tip && longer[|longer| - 1] == before;
      }
      forall path | IsPath(c, path) && path[0] == tip && path[|path| - 1] == before
        ensures InFork(c, before, tip)
      {
        assert |path| > 1;
        assert c.parent(path[0]) == Some(path[1]);
        var rest := path[1..];
        assert IsPath(c, rest) && rest[0] == path[1] && rest[|rest| - 1] == before;
        InForkIffPath(c, before, path[1]);
        assert InFork(c, before, path[1]);
      }
    }
  }

  lemma {:induction false} AncestorAgain(c: Chain, t: Tip, h: nat, k: nat)
    requires IsChain(c) && k <= h && Ancestor(c, t, h).Some?
    ensures Ancestor(c, Ancestor(c, t, h).value, k) == Ancestor(c, t, k)
    decreases c.height(t)
  {
    if c.height(t) != h {
      AncestorAgain(c, c.parent(t).value, h, k);
    }
  }

  // ---------------------------------------------------------------- replacement

  /** Each of the three keys names at most one row. */
  ghost predicate UniqueKeys(rows: set<Tx>)
  {
    && (forall a, b :: a in rows && b in rows && a.txid == b.txid ==> a == b)
    && (forall a, b :: a in rows && b in rows && a.origin == b.origin ==> a == b)
    && (forall a, b :: a in rows && b in rows && a.sponsor == b.sponsor ==> a == b)
  }

  predicate Clash(a: Tx, b: Tx)
  {
    a.txid == b.txid || a.origin == b.origin || a.sponsor == b.sponsor
  }

  /** The row that the source compares fees with. */
  ghost predicate IsPrior(rows: set<Tx>, tx: Tx, prior: Tx)
  {
    && prior in rows
    && (prior.origin == tx.origin || (prior.sponsor == tx.sponsor && forall r :: r in rows ==> r.origin != tx.origin))
  }

  /** A transaction loses to its prior when that is in its fork and pays as much. */
  ghost predicate Refused(c: Chain, rows: set<Tx>, tx: Tx)
    requires IsChain(c)
  {
    exists prior :: IsPrior(rows, tx, prior) && tx.estimatedFee <= prior.estimatedFee && InFork(c, prior.tip, tx.tip)
  }

  function SlotOf(t: Tx, isOrigin: bool): (s: Slot)
  {
    if isOrigin then t.origin else t.sponsor
  }

  /** `get_tx_metadata_by_address` */
  method FindByAddress(rows: set<Tx>, isOrigin: bool, slot: Slot) returns (r: Option<Tx>)
    ensures r.Some? ==> r.value in rows && SlotOf(r.value, isOrigin) == slot
    ensures r.None? ==> forall t :: t in rows ==> SlotOf(t, isOrigin) != slot
  {
    var todo := rows;
    while todo != {}
      invariant todo <= rows && forall t :: t in rows && t !in todo ==> SlotOf(t, isOrigin) != slot
    {
      var t :| t in todo;
      if SlotOf(t, isOrigin) == slot {
        return Some(t);
      }
      todo := todo - {t};
    }
    return None;
  }

  /** `INSERT OR REPLACE`: every row that clashes on a key goes. */
  function Replace(rows: set<Tx>, tx: Tx): (r: set<Tx>)
  {
    (set t | t in rows && !Clash(t, tx)) + {tx}
  }

  lemma ReplaceKeepsUnique(rows: set<Tx>, tx: Tx)
    requires UniqueKeys(rows)
    ensures UniqueKeys(Replace(rows, tx))
  {
    hide UniqueKeys;
    var kept := set t | t in rows && !Clash(t, tx);
    FewerUnique(rows, kept);
    OneMoreUnique(kept, tx);
  }

  lemma FewerUnique(rows: set<Tx>, kept: set<Tx>)
    requires UniqueKeys(rows) && kept <= rows
    ensures UniqueKeys(kept)
  {
  }

  lemma OneMoreUnique(kept: set<Tx>, tx: Tx)
    requires UniqueKeys(kept) && forall t :: t in kept ==> !Clash(t, tx)
    ensures UniqueKeys(kept + {tx})
  {
  }

  /** The row with the same origin slot is always compared. */
  lemma HolderPaidLess(c: Chain, rows: set<Tx>, tx: Tx)
    requires IsChain(c) && UniqueKeys(rows) && !Refused(c, rows, tx)
    ensures forall t ::
              t in rows && t.origin == tx.origin && InFork(c, t.tip, tx.tip) ==> t.estimatedFee < tx.estimatedFee
  {
    forall t | t in rows && t.origin == tx.origin && InFork(c, t.tip, tx.tip)
      ensures t.estimatedFee < tx.estimatedFee
    {
      assert IsPrior(rows, tx, t);
    }
  }

  /**
    A transaction is refused exactly when the holder of its origin slot is in its fork and
    pays as much, or, if there is none, the holder of its sponsor slot does.
   */
  lemma RefusedIff(c: Chain, rows: set<Tx>, tx: Tx)
    requires IsChain(c)
    ensures Refused(c, rows, tx) <==>
              || (exists t :: t in rows && t.origin == tx.origin
                    && t.estimatedFee >= tx.estimatedFee && InFork(c, t.tip, tx.tip))
              || ((forall t :: t in rows ==> t.origin != tx.origin)
                  && exists t :: t in rows && t.sponsor == tx.sponsor
                       && t.estimatedFee >= tx.estimatedFee && InFork(c, t.tip, tx.tip))
  {
    forall t | t in rows && t.estimatedFee >= tx.estimatedFee && InFork(c, t.tip, tx.tip)
      ensures IsPrior(rows, tx, t) ==> Refused(c, rows, tx)
    {
    }
    if Refused(c, rows, tx) {
      var prior :| IsPrior(rows, tx, prior) && tx.estimatedFee <= prior.estimatedFee && InFork(c, prior.tip, tx.tip);
    }
  }

  /** Whoever holds its slots on other forks, a transaction is accepted. */
  lemma AcceptedAcrossForks(c: Chain, rows: set<Tx>, tx: Tx)
    requires IsChain(c)
    requires forall t :: t in rows && (t.origin == tx.origin || t.sponsor == tx.sponsor) ==>
               t.estimatedFee < tx.estimatedFee || !InFork(c, t.tip, tx.tip)
    ensures !Refused(c, rows, tx)
  {
    RefusedIff(c, rows, tx);
  }

  method FindPrior(rows: set<Tx>, tx: Tx) returns (prior: Option<Tx>)
    requires UniqueKeys(rows)
    ensures forall p :: IsPrior(rows, tx, p) <==> prior == Some(p)
  {
    prior := FindByAddress(rows, true, tx.origin);
    if prior.None? {
      prior := FindByAddress(rows, false, tx.sponsor);
    }
  }

  class MemPool {
    var rows: set<Tx>

    ghost predicate Valid()
      reads this
    {
      UniqueKeys(rows)
    }

    constructor ()
      ensures Valid() && rows == {}
    {
      rows := {};
    }

    /** `inFork` is the answer of the chain state for the row that is asked about. */
    method TryAddTx(ghost c: Chain, inFork: (Tip, Tip) -> bool, tx: Tx) returns (r: Result<(), Rejection>)
      requires Valid() && IsChain(c) && forall a, b :: inFork(a, b) == InFork(c, a, b)
      modifies this
      ensures Valid()
      ensures r.Failure? <==> Refused(c, old(rows), tx)
      ensures r.Failure? ==> rows == old(rows)
      ensures r.Success? ==> forall t :: t in rows <==>
                t == tx || (t in old(rows) && t.txid != tx.txid && t.origin != tx.origin && t.sponsor != tx.sponsor)
      ensures r.Success? ==> forall t ::
                t in old(rows) && t.origin == tx.origin && InFork(c, t.tip, tx.tip) ==> t.estimatedFee < tx.estimatedFee
      ensures r.Failure? <==>
                || (exists t :: t in old(rows) && t.origin == tx.origin
                      && t.estimatedFee >= tx.estimatedFee && InFork(c, t.tip, tx.tip))
                || ((forall t :: t in old(rows) ==> t.origin != tx.origin)
                    && exists t :: t in old(rows) && t.sponsor == tx.sponsor
                         && t.estimatedFee >= tx.estimatedFee && InFork(c, t.tip, tx.tip))
    {
      hide IsPrior, UniqueKeys, IsChain, InFork;
      RefusedIff(c, rows, tx);
      var prior := FindPrior(rows, tx);
      if prior.Some? && tx.estimatedFee <= prior.value.estimatedFee && inFork(prior.value.tip, tx.tip) {
        return Failure(ConflictingNonceInMempool);
      }
      HolderPaidLess(c, rows, tx);
      ReplaceKeepsUnique(rows, tx);
      rows := Replace(rows, tx);
      r := Success(());
    }

    method GarbageCollect(minHeight: u64)
      requires Valid()
      modifies this
      ensures Valid() && forall t :: t in rows <==> t in old(rows) && minHeight <= t.height
    {
      rows := set t | t in rows && t.height >= minHeight;
    }
  }

  /** Rows with one id are rows of one transaction, and an id names its slots. */
  ghost predicate TxidNamesOrigin(rows: set<Tx>, tx: Tx)
  {
    forall t :: t in rows && t.txid == tx.txid ==> t.origin == tx.origin
  }

  /** Everything that an accepted transaction pushes out of its own fork paid less. */
  ghost predicate ReplacesCheaper(c: Chain, rows: set<Tx>, tx: Tx)
    requires IsChain(c)
  {
    forall t :: t in rows && Clash(t, tx) && InFork(c, t.tip, tx.tip) ==> t.estimatedFee < tx.estimatedFee
  }

  /**
    When somebody holds the origin slot, nobody looks at who holds the sponsor slot:
    replacement by fee holds exactly when that row is out of the fork or paid less.
   */
  lemma ReplacesCheaperIff(c: Chain, rows: set<Tx>, tx: Tx)
    requires IsChain(c) && UniqueKeys(rows) && TxidNamesOrigin(rows, tx) && !Refused(c, rows, tx)
    ensures ReplacesCheaper(c, rows, tx) <==>
              forall a, b :: a in rows && a.origin == tx.origin && b in rows && b.sponsor == tx.sponsor ==>
                !InFork(c, b.tip, tx.tip) || b.estimatedFee < tx.estimatedFee
  {
    forall t | t in rows && Clash(t, tx) && InFork(c, t.tip, tx.tip)
      ensures IsPrior(rows, tx, t) ==> t.estimatedFee < tx.estimatedFee
    {
    }
  }

  /** A cheap transaction pushes out an expensive one of its own fork. */
  lemma SponsorReplacedForLess()
    ensures exists c: Chain, rows: set<Tx>, tx: Tx ::
              && IsChain(c) && UniqueKeys(rows) && TxidNamesOrigin(rows, tx)
              && !Refused(c, rows, tx) && !ReplacesCheaper(c, rows, tx)
  {
    var tip := Tip(Zeros(20), Zeros(32));
    var x, y := Slot([1], 0), Slot([2], 0);
    var cheap := Tx(Zeros(31) + [1], y, y, 1, tip, 0, 1);
    var dear := Tx(Zeros(31) + [2], x, x, 100, tip, 0, 1);
    var tx := Tx(Zeros(31) + [3], y, x, 2, tip, 0, 2);
    assert cheap.txid[31] == 1 && dear.txid[31] == 2 && tx.txid[31] == 3;
    assert x.address[0] == 1 && y.address[0] == 2;
    ReplacedForLess(cheap, dear, tx);
  }

  lemma ReplacedForLess(cheap: Tx, dear: Tx, tx: Tx)
    requires !Clash(cheap, dear) && cheap.origin == tx.origin && dear.sponsor == tx.sponsor
    requires cheap.txid != tx.txid && dear.txid != tx.txid && cheap.tip == dear.tip == tx.tip
    requires cheap.estimatedFee < tx.estimatedFee < dear.estimatedFee
    ensures exists c: Chain, rows: set<Tx> ::
              && IsChain(c) && UniqueKeys(rows) && TxidNamesOrigin(rows, tx)
              && !Refused(c, rows, tx) && !ReplacesCheaper(c, rows, tx)
  {
    var c := Chain(_ => None, _ => 0);
    var rows := {cheap, dear};
    assert UniqueKeys(rows) && TxidNamesOrigin(rows, tx);
    assert !Refused(c, rows, tx);
    assert Clash(dear, tx) && InFork(c, tx.tip, tx.tip);
  }

  // ---------------------------------------------------------------- queries

  ghost predicate HasTxs(rows: set<Tx>, tip: Tip)
  {
    exists t :: t in rows && t.tip == tip
  }

  ghost predicate Populated(rows: set<Tx>, h: nat)
  {
    exists t :: t in rows && t.height == h
  }

  /** `time` is the next accept time after `after` at this tip. */
  ghost predicate IsNextTime(rows: set<Tx>, tip: Tip, after: nat, time: nat)
  {
    && (exists t :: t in rows && t.tip == tip && t.acceptTime == time)
    && after < time && forall t :: t in rows && t.tip == tip && t.acceptTime > after ==> time <= t.acceptTime
  }

  method GetNextTimestamp(rows: set<Tx>, tip: Tip, after: nat) returns (r: Option<nat>)
    ensures r.None? ==> forall t :: t in rows && t.tip == tip ==> t.acceptTime <= after
    ensures r.Some? ==> IsNextTime(rows, tip, after, r.value)
  {
    r := None;
    var todo := rows;
    while todo != {}
      invariant todo <= rows
      invariant r.None? ==> forall t :: t in rows - todo && t.tip == tip ==> t.acceptTime <= after
      invariant r.Some? ==> IsNextTime(rows - todo, tip, after, r.value)
    {
      var t :| t in todo;
      if t.tip == tip && t.acceptTime > after && (r.None? || t.acceptTime < r.value) {
        r := Some(t.acceptTime);
        assert t in rows - (todo - {t});
      }
      todo := todo - {t};
    }
    assert rows - {} == rows;
  }

  method GetPreviousBlockHeight(rows: set<Tx>, height: nat) returns (r: Option<nat>)
    ensures r.None? ==> forall h: nat :: Populated(rows, h) ==> height <= h
    ensures r.Some? ==> r.value < height && Populated(rows, r.value)
    ensures r.Some? ==> forall h: nat :: Populated(rows, h) && h < height ==> h <= r.value
  {
    r := None;
    var todo := rows;
    while todo != {}
      invariant todo <= rows
      invariant forall t :: t in rows - todo && t.height < height ==> r.Some? && t.height <= r.value
      invariant r.Some? ==> r.value < height && Populated(rows, r.value)
    {
      var t :| t in todo;
      if t.height < height && (r.None? || t.height > r.value) {
        r := Some(t.height);
        assert Populated(rows, t.height);
      }
      todo := todo - {t};
    }
  }

  method GetChainTipsAtHeight(rows: set<Tx>, height: nat) returns (tips: set<Tip>)
    ensures tips == set t | t in rows && t.height == height :: t.tip
  {
    tips := set t | t in rows && t.height == height :: t.tip;
  }

  ghost predicate ByNonce(txs: seq<Tx>)
  {
    forall i, j :: 0 <= i < j < |txs| ==> txs[i].origin.nonce <= txs[j].origin.nonce
  }

  /** A batch: the rows of one tip and time, each once, in the order of their origin nonces. */
  ghost predicate IsBatch(rows: set<Tx>, tip: Tip, time: nat, batch: seq<Tx>)
  {
    && ByNonce(batch)
    && (forall i, j :: 0 <= i < j < |batch| ==> batch[i] != batch[j])
    && forall t :: t in batch <==> t in rows && t.tip == tip && t.acceptTime == time
  }

  method GetTxsAt(rows: set<Tx>, tip: Tip, time: nat) returns (batch: seq<Tx>)
    ensures IsBatch(rows, tip, time, batch)
  {
    batch := [];
    var todo := set t | t in rows && t.tip == tip && t.acceptTime == time;
    ghost var all := todo;
    while todo != {}
      invariant todo <= all && IsBatch(all - todo, tip, time, batch)
    {
      var t :| t in todo;
      batch := InsertByNonce(batch, t);
      todo := todo - {t};
    }
    assert all - {} == all;
  }

  method InsertByNonce(batch: seq<Tx>, tx: Tx) returns (r: seq<Tx>)
    requires ByNonce(batch) && tx !in batch && forall i, j :: 0 <= i < j < |batch| ==> batch[i] != batch[j]
    ensures ByNonce(r) && (forall i, j :: 0 <= i < j < |r| ==> r[i] != r[j])
    ensures forall t :: t in r <==> t in batch || t == tx
  {
    var k := 0;
    while k < |batch| && batch[k].origin.nonce <= tx.origin.nonce
      invariant 0 <= k <= |batch| && forall i :: 0 <= i < k ==> batch[i].origin.nonce <= tx.origin.nonce
    {
      k := k + 1;
    }
    r := batch[..k] + [tx] + batch[k..];
    InsertMembers(batch, tx, k);
  }

  lemma InsertMembers(batch: seq<Tx>, tx: Tx, k: nat)
    requires k <= |batch|
    ensures forall t :: t in batch[..k] + [tx] + batch[k..] <==> t in batch || t == tx
  {
    assert batch == batch[..k] + batch[k..];
  }

  // ---------------------------------------------------------------- the walk

  /** Every populated height from `h` up to the start has an ancestor of the start with transactions. */
  ghost predicate Unbroken(c: Chain, rows: set<Tx>, start: Tip, h: nat)
    requires IsChain(c)
  {
    forall k: nat :: h <= k < c.height(start) && Populated(rows, k) ==>
      Ancestor(c, start, k).Some? && HasTxs(rows, Ancestor(c, start, k).value)
  }

  /** Which tips the walk from `start` gets to. */
  ghost predicate Reached(c: Chain, rows: set<Tx>, start: Tip, tip: Tip)
    requires IsChain(c)
  {
    || tip == start
    || (c.height(tip) < c.height(start) && Ancestor(c, start, c.height(tip)) == Some(tip)
       && Unbroken(c, rows, start, c.height(tip)))
  }

  /** The table is consistent with the chain, and clocks do not show zero. */
  ghost predicate Consistent(c: Chain, rows: set<Tx>)
  {
    IsChain(c) && forall t :: t in rows ==> t.height == c.height(t.tip) && 0 < t.acceptTime
  }

  /** A row was handed out before time `time` of tip `tip`. */
  ghost predicate Before(c: Chain, t: Tx, tip: Tip, time: nat)
  {
    c.height(tip) < c.height(t.tip) || (t.tip == tip && t.acceptTime < time)
  }

  datatype Stop = Stop(tip: Tip, height: nat, time: nat)

  /** The next stop of the walk, if any: the next populated height down, if an ancestor has transactions there. */
  method Walk(c: Chain, rows: set<Tx>, ancestor: (Tip, nat) -> Option<Tip>, tip: Tip,
              height: nat) returns (r: Option<Stop>)
    requires Consistent(c, rows) && height == c.height(tip)
    requires forall t, h :: ancestor(t, h) == Ancestor(c, t, h)
    ensures r.Some? ==> IsStop(c, rows, tip, r.value)
    ensures r.None? ==> forall k: nat :: Populated(rows, k) && k < height ==> !Unbroken(c, rows, tip, k)
  {
    var previous := GetPreviousBlockHeight(rows, height);
    var nextHeight := if previous.Some? then previous.value else 0;
    if nextHeight == 0 && height == 0 {
      return None;
    }
    var nextTips := GetChainTipsAtHeight(rows, nextHeight);
    if |nextTips| == 0 {
      NoTips(rows, height, previous, nextHeight, nextTips);
      return None;
    }
    var ancestorTip := ancestor(tip, nextHeight);
    if ancestorTip.None? || ancestorTip.value !in nextTips {
      TipMissing(c, rows, tip, height, nextHeight, nextTips);
      return None;
    }
    var nextTimestamp := GetNextTimestamp(rows, ancestorTip.value, 0);
    TipHasTxs(c, rows, nextHeight, ancestorTip.value, nextTips);
    assert nextTimestamp.Some?;
    r := Some(Stop(ancestorTip.value, nextHeight, nextTimestamp.value));
  }

  lemma NoTips(rows: set<Tx>, height: nat, previous: Option<nat>, h: nat, tips: set<Tip>)
    requires tips == (set t | t in rows && t.height == h :: t.tip) && tips == {}
    requires previous.Some? ==> previous.value == h && Populated(rows, h)
    requires previous.None? ==> forall k: nat :: Populated(rows, k) ==> height <= k
    ensures forall k: nat :: Populated(rows, k) ==> height <= k
  {
    if Populated(rows, h) {
      var t :| t in rows && t.height == h;
      assert t.tip in tips;
    }
  }

  lemma TipMissing(c: Chain, rows: set<Tx>, tip: Tip, height: nat, h: nat, tips: set<Tip>)
    requires Consistent(c, rows) && height == c.height(tip) && tips == (set t | t in rows && t.height == h :: t.tip)
             && tips != {}
    requires h < height && forall k: nat :: Populated(rows, k) && k < height ==> k <= h
    requires Ancestor(c, tip, h).None? || Ancestor(c, tip, h).value !in tips
    ensures forall k: nat :: Populated(rows, k) && k < height ==> !Unbroken(c, rows, tip, k)
  {
    var t :| t in tips;
    assert Populated(rows, h);
  }

  lemma TipHasTxs(c: Chain, rows: set<Tx>, h: nat, tip: Tip, tips: set<Tip>)
    requires Consistent(c, rows) && tips == (set t | t in rows && t.height == h :: t.tip) && tip in tips
    ensures exists t :: t in rows && t.tip == tip && 0 < t.acceptTime
  {
  }

  // ---------------------------------------------------------------- candidates

  ghost predicate Handed(batches: seq<seq<Tx>>, t: Tx)
  {
    exists i :: 0 <= i < |batches| && t in batches[i]
  }

  /** Handed out so far: exactly what the walk reaches before `time` of `tip`. */
  ghost predicate UpTo(c: Chain, rows: set<Tx>, start: Tip, batches: seq<seq<Tx>>, tip: Tip, time: nat)
    requires IsChain(c)
  {
    forall t :: t in rows ==> (Handed(batches, t) <==> Reached(c, rows, start, t.tip) && Before(c, t, tip, time))
  }

  /** Handed out so far: exactly what the walk reaches down to `tip`, and all of it. */
  ghost predicate Through(c: Chain, rows: set<Tx>, start: Tip, batches: seq<seq<Tx>>, tip: Tip)
    requires IsChain(c)
  {
    forall t :: t in rows ==> (Handed(batches, t) <==>
          Reached(c, rows, start, t.tip) && c.height(tip) <= c.height(t.tip))
  }

  /** Batches are whole, and go from newer tips to older ones and from earlier to later. */
  ghost predicate InSequence(c: Chain, rows: set<Tx>, batches: seq<seq<Tx>>)
  {
    && (forall i :: 0 <= i < |batches| ==>
         batches[i] != [] && IsBatch(rows, batches[i][0].tip, batches[i][0].acceptTime, batches[i]))
    && (forall i, j :: 0 <= i < j < |batches| ==> Before(c, batches[i][0], batches[j][0].tip, batches[j][0].acceptTime))
  }

  lemma SameHeight(c: Chain, rows: set<Tx>, start: Tip, a: Tip, b: Tip)
    requires IsChain(c) && Reached(c, rows, start, a) && Reached(c, rows, start, b) && c.height(a) == c.height(b)
    ensures a == b
  {
  }

  lemma HandedAppend(batches: seq<seq<Tx>>, batch: seq<Tx>, t: Tx)
    ensures Handed(batches + [batch], t) <==> Handed(batches, t) || t in batch
  {
    var all := batches + [batch];
    assert all[|batches|] == batch;
    if Handed(batches, t) {
      var i :| 0 <= i < |batches| && t in batches[i];
      assert all[i] == batches[i];
    }
  }

  /** One more batch, and the next time at this tip. */
  lemma NextTime(c: Chain, rows: set<Tx>, start: Tip, batches: seq<seq<Tx>>, tip: Tip, time: nat, batch: seq<Tx>,
                 next: nat)
    requires IsChain(c) && UpTo(c, rows, start, batches, tip, time) && IsBatch(rows, tip, time, batch)
    requires Reached(c, rows, start, tip) && IsNextTime(rows, tip, time, next)
    ensures UpTo(c, rows, start, batches + [batch], tip, next)
  {
    hide Reached;
    forall t | t in rows
      ensures Handed(batches + [batch], t) <==> Reached(c, rows, start, t.tip) && Before(c, t, tip, next)
    {
      HandedAppend(batches, batch, t);
    }
  }

  /** One more batch, and no later time at this tip. */
  lemma LastTime(c: Chain, rows: set<Tx>, start: Tip, batches: seq<seq<Tx>>, tip: Tip, time: nat, batch: seq<Tx>)
    requires IsChain(c) && UpTo(c, rows, start, batches, tip, time) && IsBatch(rows, tip, time, batch)
    requires Reached(c, rows, start, tip) && forall t :: t in rows && t.tip == tip ==> t.acceptTime <= time
    ensures Through(c, rows, start, batches + [batch], tip)
  {
    forall t | t in rows
      ensures Handed(batches + [batch], t) <==> Reached(c, rows, start, t.tip) && c.height(tip) <= c.height(t.tip)
    {
      HandedAppend(batches, batch, t);
      if Reached(c, rows, start, t.tip) && c.height(tip) == c.height(t.tip) {
        SameHeight(c, rows, start, tip, t.tip);
      }
    }
  }

  ghost predicate IsStop(c: Chain, rows: set<Tx>, tip: Tip, stop: Stop)
    requires IsChain(c)
  {
    && stop.height == c.height(stop.tip) < c.height(tip) && Ancestor(c, tip, stop.height) == Some(stop.tip)
    && IsNextTime(rows, stop.tip, 0, stop.time)
    && forall k: nat :: Populated(rows, k) && k < c.height(tip) ==> k <= stop.height
  }

  lemma StopReached(c: Chain, rows: set<Tx>, start: Tip, tip: Tip, stop: Stop)
    requires Consistent(c, rows) && Reached(c, rows, start, tip) && IsStop(c, rows, tip, stop)
    ensures Reached(c, rows, start, stop.tip)
  {
    AncestorAgain(c, start, c.height(tip), stop.height);
    assert HasTxs(rows, stop.tip);
    forall k: nat | stop.height <= k < c.height(start) && Populated(rows, k)
      ensures Ancestor(c, start, k).Some? && HasTxs(rows, Ancestor(c, start, k).value)
    {
      assert k < c.height(tip) ==> k == stop.height;
    }
  }

  lemma WalkedOn(c: Chain, rows: set<Tx>, start: Tip, batches: seq<seq<Tx>>, tip: Tip, stop: Stop)
    requires Consistent(c, rows) && Reached(c, rows, start, tip) && Through(c, rows, start, batches, tip)
             && IsStop(c, rows, tip, stop)
    ensures UpTo(c, rows, start, batches, stop.tip, stop.time)
  {
    hide Reached, Handed;
    forall t | t in rows
      ensures Handed(batches, t) <==> Reached(c, rows, start, t.tip) && Before(c, t, stop.tip, stop.time)
    {
      assert Populated(rows, t.height);
    }
  }

  lemma WalkEnded(c: Chain, rows: set<Tx>, start: Tip, batches: seq<seq<Tx>>, tip: Tip, t: Tx)
    requires Consistent(c, rows) && Reached(c, rows, start, tip) && Through(c, rows, start, batches, tip) && t in rows
    requires forall k: nat :: Populated(rows, k) && k < c.height(tip) ==> !Unbroken(c, rows, tip, k)
    ensures Handed(batches, t) <==> Reached(c, rows, start, t.tip)
  {
    if Reached(c, rows, start, t.tip) && c.height(t.tip) < c.height(tip) {
      StillUnbroken(c, rows, start, tip, t.height);
      assert Populated(rows, t.height);
    }
  }

  /** What is unbroken from the start is unbroken from any tip on the way. */
  lemma StillUnbroken(c: Chain, rows: set<Tx>, start: Tip, tip: Tip, h: nat)
    requires IsChain(c) && Reached(c, rows, start, tip) && h < c.height(tip) && Unbroken(c, rows, start, h)
    ensures Unbroken(c, rows, tip, h)
  {
    forall k: nat | h <= k < c.height(tip) && Populated(rows, k)
      ensures Ancestor(c, tip, k).Some? && HasTxs(rows, Ancestor(c, tip, k).value)
    {
      AncestorAgain(c, start, c.height(tip), k);
    }
  }

  ghost function Later(rows: set<Tx>, tip: Tip, time: nat): (s: set<Tx>)
  {
    set t | t in rows && t.tip == tip && t.acceptTime > time
  }

  /** A new batch goes after all that were handed out. */
  lemma BatchInSequence(c: Chain, rows: set<Tx>, start: Tip, batches: seq<seq<Tx>>, tip: Tip, time: nat, batch: seq<Tx>)
    requires IsChain(c) && InSequence(c, rows, batches) && UpTo(c, rows, start, batches, tip, time)
    requires batch != [] && IsBatch(rows, tip, time, batch)
    ensures InSequence(c, rows, batches + [batch])
  {
    hide Reached;
    var all := batches + [batch];
    assert batch[0] in batch;
    forall i | 0 <= i < |batches|
      ensures Before(c, batches[i][0], tip, time)
    {
      var t := batches[i][0];
      assert IsBatch(rows, batches[i][0].tip, batches[i][0].acceptTime, batches[i]);
      assert t in batches[i];
      assert Handed(batches, t);
    }
  }

  lemma NotEmpty(rows: set<Tx>, tip: Tip, after: nat, time: nat, batch: seq<Tx>)
    requires IsNextTime(rows, tip, after, time) && IsBatch(rows, tip, time, batch)
    ensures batch != []
  {
    var t :| t in rows && t.tip == tip && t.acceptTime == time;
    assert t in batch;
  }

  lemma LaterShrinks(rows: set<Tx>, tip: Tip, time: nat, next: nat)
    requires IsNextTime(rows, tip, time, next)
    ensures Later(rows, tip, next) < Later(rows, tip, time)
  {
    var t :| t in rows && t.tip == tip && t.acceptTime == next;
    assert t in Later(rows, tip, time) && t !in Later(rows, tip, next);
  }

  lemma NothingHanded(c: Chain, rows: set<Tx>, start: Tip, first: Option<nat>)
    requires Consistent(c, rows)
    requires first.Some? ==> IsNextTime(rows, start, 0, first.value)
    requires first.None? ==> forall t :: t in rows && t.tip == start ==> t.acceptTime <= 0
    ensures first.Some? ==> UpTo(c, rows, start, [], start, first.value)
    ensures first.None? ==> Through(c, rows, start, [], start)
  {
  }

  /**
    `iterate_candidates` over a fixed table.  `todo` is the caller's closure, given
    everything that it was handed so far; it may end the iteration with an error.
    Every transaction at a tip that the walk reaches is handed out exactly once.
   */
  method IterateCandidates(c: Chain, rows: set<Tx>, ancestor: (Tip, nat) -> Option<Tip>,
                           startTip: Tip, startHeight: nat, todo: seq<seq<Tx>> -> bool)
    returns (batches: seq<seq<Tx>>, ok: bool)
    requires Consistent(c, rows) && startHeight == c.height(startTip)
    requires forall t, h :: ancestor(t, h) == Ancestor(c, t, h)
    ensures InSequence(c, rows, batches)
    ensures forall t :: t in rows && Handed(batches, t) ==> Reached(c, rows, startTip, t.tip)
    ensures ok ==> forall t :: t in rows && Reached(c, rows, startTip, t.tip) ==> Handed(batches, t)
    ensures forall i :: 0 < i < |batches| ==> todo(batches[..i])
    ensures batches != [] ==> ok == todo(batches)
  {
    hide Reached, Unbroken, IsChain, IsBatch, IsNextTime, InSequence, Through, UpTo, IsStop, Handed, Later;
    batches, ok := [], true;
    EmptySequence(c, rows);
    var tip, height := startTip, startHeight;
    StartReached(c, rows, startTip);
    var nextTimestamp := GetNextTimestamp(rows, tip, 0);
    NothingHanded(c, rows, startTip, nextTimestamp);
    if nextTimestamp.None? {
      var stop := Walk(c, rows, ancestor, tip, height);
      match stop {
        case None =>
          AllHanded(c, rows, startTip, batches, tip);
          return;
        case Some(s) =>
          StopReached(c, rows, startTip, tip, s);
          WalkedOn(c, rows, startTip, batches, tip, s);
          StopFacts(c, rows, tip, s);
          tip, height, nextTimestamp := s.tip, s.height, Some(s.time);
      }
    }
    var time := nextTimestamp.value;
    ghost var after := 0;
    while true
      invariant height == c.height(tip) && Reached(c, rows, startTip, tip) && IsNextTime(rows, tip, after, time)
      invariant UpTo(c, rows, startTip, batches, tip, time) && InSequence(c, rows, batches)
      invariant forall i :: 0 < i <= |batches| ==> todo(batches[..i])
      decreases height, Later(rows, tip, time)
    {
      ghost var was := batches;
      var availableTxs := GetTxsAt(rows, tip, time);
      NotEmpty(rows, tip, after, time, availableTxs);
      BatchInSequence(c, rows, startTip, batches, tip, time, availableTxs);
      batches := batches + [availableTxs];
      assert forall i :: 0 < i <= |was| ==> batches[..i] == was[..i];
      assert batches[..|batches|] == batches;
      if !todo(batches) {
        OnlyReached(c, rows, startTip, was, tip, time, availableTxs);
        return batches, false;
      }
      nextTimestamp := GetNextTimestamp(rows, tip, time);
      if nextTimestamp.Some? {
        NextTime(c, rows, startTip, was, tip, time, availableTxs, nextTimestamp.value);
        LaterShrinks(rows, tip, time, nextTimestamp.value);
        after := time;
        time := nextTimestamp.value;
      } else {
        LastTime(c, rows, startTip, was, tip, time, availableTxs);
        var stop := Walk(c, rows, ancestor, tip, height);
        match stop {
          case None =>
            AllHanded(c, rows, startTip, batches, tip);
            return;
          case Some(s) =>
            StopReached(c, rows, startTip, tip, s);
            WalkedOn(c, rows, startTip, batches, tip, s);
            StopFacts(c, rows, tip, s);
            tip, height, time := s.tip, s.height, s.time;
            after := 0;
        }
      }
    }
  }

  lemma EmptySequence(c: Chain, rows: set<Tx>)
    ensures InSequence(c, rows, [])
  {
  }

  lemma StartReached(c: Chain, rows: set<Tx>, start: Tip)
    requires Consistent(c, rows)
    ensures Reached(c, rows, start, start)
  {
  }

  lemma StopFacts(c: Chain, rows: set<Tx>, tip: Tip, stop: Stop)
    requires IsChain(c) && IsStop(c, rows, tip, stop)
    ensures stop.height == c.height(stop.tip) < c.height(tip) && IsNextTime(rows, stop.tip, 0, stop.time)
  {
  }

  lemma OnlyReached(c: Chain, rows: set<Tx>, start: Tip, batches: seq<seq<Tx>>, tip: Tip, time: nat, batch: seq<Tx>)
    requires IsChain(c) && UpTo(c, rows, start, batches, tip, time) && IsBatch(rows, tip, time, batch)
             && Reached(c, rows, start, tip)
    ensures forall t :: t in rows && Handed(batches + [batch], t) ==> Reached(c, rows, start, t.tip)
  {
    hide Reached, Handed;
    forall t | t in rows && Handed(batches + [batch], t)
      ensures Reached(c, rows, start, t.tip)
    {
      HandedAppend(batches, batch, t);
    }
  }

  lemma AllHanded(c: Chain, rows: set<Tx>, start: Tip, batches: seq<seq<Tx>>, tip: Tip)
    requires Consistent(c, rows) && Reached(c, rows, start, tip) && Through(c, rows, start, batches, tip)
    requires forall k: nat :: Populated(rows, k) && k < c.height(tip) ==> !Unbroken(c, rows, tip, k)
    ensures forall t :: t in rows ==> (Handed(batches, t) <==> Reached(c, rows, start, t.tip))
  {
    hide Reached, Handed, Through, Unbroken;
    forall t | t in rows
      ensures Handed(batches, t) <==> Reached(c, rows, start, t.tip)
    {
      WalkEnded(c, rows, start, batches, tip, t);
    }
  }

  /**
    What is handed out in sequence: newer tips first, at one tip earlier times first, and
    at one time all transactions, once, in the order of their origin nonces.
   */
  lemma SequenceIs(c: Chain, rows: set<Tx>, batches: seq<seq<Tx>>, i: nat, j: nat)
    requires InSequence(c, rows, batches) && i < j < |batches|
    ensures batches[i] != [] && batches[j] != []
    ensures forall a, b :: 0 <= a < b < |batches[i]| ==>
              && batches[i][a].tip == batches[i][b].tip && batches[i][a].acceptTime == batches[i][b].acceptTime
              && batches[i][a].origin.nonce <= batches[i][b].origin.nonce && batches[i][a] != batches[i][b]
    ensures forall t :: t in rows && t.tip == batches[i][0].tip && t.acceptTime == batches[i][0].acceptTime ==>
              t in batches[i]
    ensures forall t, u :: t in batches[i] && u in batches[j] ==>
              c.height(u.tip) < c.height(t.tip) || (t.tip == u.tip && t.acceptTime < u.acceptTime)
  {
    assert IsBatch(rows, batches[i][0].tip, batches[i][0].acceptTime, batches[i]);
    assert IsBatch(rows, batches[j][0].tip, batches[j][0].acceptTime, batches[j]);
    assert Before(c, batches[i][0], batches[j][0].tip, batches[j][0].acceptTime);
    forall a | 0 <= a < |batches[i]|
      ensures batches[i][a].tip == batches[i][0].tip && batches[i][a].acceptTime == batches[i][0].acceptTime
    {
      assert batches[i][a] in batches[i];
    }
  }

  /** No transaction is handed out twice. */
  lemma HandedOnce(c: Chain, rows: set<Tx>, batches: seq<seq<Tx>>, t: Tx, i: nat, j: nat)
    requires InSequence(c, rows, batches) && i < j < |batches| && t in batches[i]
    ensures t !in batches[j]
  {
    assert IsBatch(rows, batches[i][0].tip, batches[i][0].acceptTime, batches[i]);
    assert IsBatch(rows, batches[j][0].tip, batches[j][0].acceptTime, batches[j]);
    assert Before(c, batches[i][0], batches[j][0].tip, batches[j][0].acceptTime);
  }

  /** A transaction at the tip of one of our own ancestors. */
  ghost predicate OnOurFork(c: Chain, rows: set<Tx>, start: Tip, t: Tx)
    requires IsChain(c)
  {
    t in rows && Ancestor(c, start, t.height) == Some(t.tip)
  }

  /**
    The promise that every transaction of our own fork is handed out holds exactly when,
    from the oldest of them up, every height with transactions has some of this fork.
   */
  lemma EveryAncestorReachedIff(c: Chain, rows: set<Tx>, start: Tip, batches: seq<seq<Tx>>, oldest: Tx)
    requires Consistent(c, rows) && OnOurFork(c, rows, start, oldest)
    requires forall t :: OnOurFork(c, rows, start, t) ==> oldest.height <= t.height
    requires forall t :: t in rows ==> (Handed(batches, t) <==> Reached(c, rows, start, t.tip))
    ensures (forall t :: OnOurFork(c, rows, start, t) ==> Handed(batches, t))
       <==> Unbroken(c, rows, start, oldest.height)
  {
    if Unbroken(c, rows, start, oldest.height) {
      forall t | OnOurFork(c, rows, start, t)
        ensures Handed(batches, t)
      {
        assert Unbroken(c, rows, start, t.height);
      }
    } else {
      assert Populated(rows, oldest.height);
      assert !Handed(batches, oldest);
    }
  }

  /** A transaction on another fork hides the older ones of this fork, in a table that keeps all keys. */
  lemma ForkHidesAncestor()
    ensures exists c: Chain, rows: set<Tx>, start: Tip, t: Tx ::
              && Consistent(c, rows) && UniqueKeys(rows) && OnOurFork(c, rows, start, t)
              && !Reached(c, rows, start, t.tip)
  {
    var genesis, ours := Tip(Zeros(20), Zeros(32)), Tip(Zeros(20), Zeros(31) + [1]);
    var theirs, start := Tip(Zeros(20), Zeros(31) + [2]), Tip(Zeros(20), Zeros(31) + [3]);
    assert genesis.blockHash[31] == 0 && ours.blockHash[31] == 1;
    assert theirs.blockHash[31] == 2 && start.blockHash[31] == 3;
    var a, b := Slot([1], 0), Slot([2], 0);
    var older, other := Tx(Zeros(32), a, a, 0, genesis, 0, 1), Tx(Zeros(31) + [1], b, b, 0, theirs, 1, 1);
    assert a.address[0] == 1 && b.address[0] == 2 && older.txid[31] == 0 && other.txid[31] == 1;
    ForkHides(ours, start, older, other);
  }

  lemma KeysApart(a: Tx, b: Tx)
    requires !Clash(a, b)
    ensures UniqueKeys({a, b})
  {
  }

  lemma ForkHides(ours: Tip, start: Tip, older: Tx, other: Tx)
    requires older.tip != ours && older.tip != other.tip && older.tip != start
    requires ours != other.tip && ours != start && other.tip != start
    requires !Clash(older, other) && older.height == 0 && other.height == 1 && older.acceptTime > 0
             && other.acceptTime > 0
    ensures exists c: Chain, rows: set<Tx> ::
              && Consistent(c, rows) && UniqueKeys(rows) && OnOurFork(c, rows, start, older)
              && !Reached(c, rows, start, older.tip)
  {
    hide UniqueKeys;
    KeysApart(older, other);
    var genesis, theirs := older.tip, other.tip;
    var c := Chain(
      (t: Tip) => if t == start then Some(ours) else if t == ours || t == theirs then Some(genesis) else None,
      (t: Tip) => if t == start then 2 else if t == ours || t == theirs then 1 else 0);
    var rows := {older, other};
    assert Consistent(c, rows);
    assert Ancestor(c, ours, 0) == Some(genesis);
    assert Ancestor(c, start, 0) == Some(genesis) && Ancestor(c, start, 1) == Some(ours);
    assert Populated(rows, 1) by {
      assert other in rows;
    }
    assert !HasTxs(rows, ours);
    assert OnOurFork(c, rows, start, older) && !Reached(c, rows, start, older.tip);
  }
}
