/**
  The checks and filters over the operations of one burnchain block
  (src/burnchains/db.rs and src/burnchains/burnchain.rs).
 */
module BurnOps {

  import opened Results
  import opened Wire

  type VrfKey = seq<nat>

  datatype Op =
    | LeaderKeyRegister(vtxindex: u32, blockHeight: u64, publicKey: VrfKey)
    | LeaderBlockCommit(vtxindex: u32, blockHeight: u64, keyBlockPtr: u32, keyVtxindex: u16, burnFee: u64)
    | UserBurnSupport(vtxindex: u32, blockHeight: u64, publicKey: VrfKey, burnFee: u64)

  // ---------------------------------------------------------------- specification

  /** In block order, all positions different. */
  ghost predicate InOrder(ops: seq<Op>)
  {
    forall i, j :: 0 <= i < j < |ops| ==> ops[i].vtxindex < ops[j].vtxindex
  }

  ghost function Keep(ops: seq<Op>, p: Op -> bool): (r: seq<Op>)
  {
    if ops == [] then []
    else Keep(ops[..|ops| - 1], p) + if p(ops[|ops| - 1]) then [ops[|ops| - 1]] else []
  }

  /** The key registration that a commit consumes. */
  function KeyLoc(c: Op): (k: (u32, u16))
    requires c.LeaderBlockCommit?
  {
    (c.keyBlockPtr, c.keyVtxindex)
  }

  /** A commit that consumes the key registered in this block, at this position. */
  predicate Consumes(c: Op, keyBlockPtr: u32, keyVtxindex: u16)
  {
    c.LeaderBlockCommit? && c.keyBlockPtr == keyBlockPtr && c.keyVtxindex == keyVtxindex
  }

  /** `c` burns more than `d`, or as much and comes first. */
  predicate Beats(c: Op, d: Op)
    requires c.LeaderBlockCommit? && d.LeaderBlockCommit?
  {
    c.burnFee > d.burnFee || (c.burnFee == d.burnFee && c.vtxindex < d.vtxindex)
  }

  /** Among the commits that consume the same key, `op` wins. */
  ghost predicate Wins(ops: seq<Op>, op: Op)
  {
    op.LeaderBlockCommit? ==>
      forall d :: d in ops && d.LeaderBlockCommit? && KeyLoc(d) == KeyLoc(op) ==> d == op || Beats(op, d)
  }

  /** No earlier operation registers the same VRF key. */
  ghost predicate FirstRegistration(ops: seq<Op>, op: Op)
  {
    op.LeaderKeyRegister? ==>
      forall d :: d in ops && d.LeaderKeyRegister? && d.publicKey == op.publicKey ==> op.vtxindex <= d.vtxindex
  }

  ghost function WithoutLosers(ops: seq<Op>): (r: seq<Op>)
  {
    Keep(ops, op => Wins(ops, op))
  }

  ghost function WithoutDuplicates(ops: seq<Op>): (r: seq<Op>)
  {
    Keep(ops, op => FirstRegistration(ops, op))
  }

  // ---------------------------------------------------------------- sublists

  lemma {:induction false} KeepMembers(ops: seq<Op>, p: Op -> bool, op: Op)
    ensures op in Keep(ops, p) <==> op in ops && p(op)
  {
    if ops != [] {
      KeepMembers(ops[..|ops| - 1], p, op);
      assert ops == ops[..|ops| - 1] + [ops[|ops| - 1]];
    }
  }

  lemma {:induction false} KeepInOrder(ops: seq<Op>, p: Op -> bool)
    requires InOrder(ops)
    ensures InOrder(Keep(ops, p))
    ensures forall i :: 0 <= i < |Keep(ops, p)| ==> Keep(ops, p)[i] in ops
  {
    if ops != [] {
      KeepInOrder(ops[..|ops| - 1], p);
    }
  }

  /** A list in block order is determined by its members. */
  lemma {:induction false} SameMembers(a: seq<Op>, b: seq<Op>)
    requires InOrder(a) && InOrder(b) && forall op :: op in a <==> op in b
    ensures a == b
  {
    SameEmpty(a, b);
    SameEmpty(b, a);
    if a != [] {
      assert a[0] in b && b[0] in a;
      assert a[0] == b[0];
      forall op
        ensures op in a[1..] <==> op in b[1..]
      {
        TailMembers(a, op);
        TailMembers(b, op);
      }
      SameMembers(a[1..], b[1..]);
      assert a == [a[0]] + a[1..] && b == [b[0]] + b[1..];
    }
  }

  lemma SameEmpty(a: seq<Op>, b: seq<Op>)
    requires forall op :: op in a ==> op in b
    ensures b == [] ==> a == []
  {
    assert a == [] || a[0] in a;
  }

  lemma TailMembers(a: seq<Op>, op: Op)
    requires InOrder(a) && a != []
    ensures op in a[1..] <==> op in a && op != a[0]
  {
    assert a == [a[0]] + a[1..];
  }

  lemma KeepKeep(ops: seq<Op>, p: Op -> bool, q: Op -> bool, r: Op -> bool)
    requires InOrder(ops) && forall op :: op in ops ==> r(op) == (p(op) && q(op))
    ensures Keep(Keep(ops, p), q) == Keep(ops, r)
  {
    KeepInOrder(ops, p);
    KeepInOrder(Keep(ops, p), q);
    KeepInOrder(ops, r);
    forall op
      ensures op in Keep(Keep(ops, p), q) <==> op in Keep(ops, r)
    {
      KeepMembers(ops, p, op);
      KeepMembers(Keep(ops, p), q, op);
      KeepMembers(ops, r, op);
    }
    SameMembers(Keep(Keep(ops, p), q), Keep(ops, r));
  }

  // ---------------------------------------------------------------- properties

  lemma LosersMembers(ops: seq<Op>, op: Op)
    ensures op in WithoutLosers(ops) <==> op in ops && Wins(ops, op)
  {
    KeepMembers(ops, x => Wins(ops, x), op);
  }

  lemma DuplicatesMembers(ops: seq<Op>, op: Op)
    ensures op in WithoutDuplicates(ops) <==> op in ops && FirstRegistration(ops, op)
  {
    KeepMembers(ops, x => FirstRegistration(ops, x), op);
  }

  /** Some commit wins each key: burn first, then position. */
  lemma {:induction false} SomebodyWins(ops: seq<Op>, k: (u32, u16)) returns (w: Op)
    requires InOrder(ops)
    requires exists c :: c in ops && c.LeaderBlockCommit? && KeyLoc(c) == k
    ensures w in ops && w.LeaderBlockCommit? && KeyLoc(w) == k && Wins(ops, w)
  {
    hide Wins;
    var n := |ops| - 1;
    var front, last := ops[..n], ops[n];
    assert ops == front + [last];
    if exists c :: c in front && c.LeaderBlockCommit? && KeyLoc(c) == k {
      var v := SomebodyWins(front, k);
      w := if last.LeaderBlockCommit? && KeyLoc(last) == k && last.burnFee > v.burnFee then last else v;
      WinnerOfBoth(front, last, v);
    } else {
      w := last;
      LoneWinner(front, last);
    }
  }

  /** The winner so far stays the winner unless a later commit for its key burns more. */
  lemma WinnerOfBoth(front: seq<Op>, last: Op, v: Op)
    requires InOrder(front + [last]) && v in front && v.LeaderBlockCommit? && Wins(front, v)
    ensures var beaten := last.LeaderBlockCommit? && KeyLoc(last) == KeyLoc(v) && last.burnFee > v.burnFee;
            Wins(front + [last], if beaten then last else v)
  {
    LastIsLater(front, last, v);
  }

  lemma LastIsLater(front: seq<Op>, last: Op, d: Op)
    requires InOrder(front + [last]) && d in front
    ensures d.vtxindex < last.vtxindex
  {
    var all := front + [last];
    var i :| 0 <= i < |front| && front[i] == d;
    assert all[i] == d && all[|front|] == last;
  }

  lemma LoneWinner(front: seq<Op>, last: Op)
    requires last.LeaderBlockCommit?
    requires forall c :: c in front && c.LeaderBlockCommit? ==> KeyLoc(c) != KeyLoc(last)
    ensures Wins(front + [last], last)
  {
  }

  /**
    After the filter, every VRF key that was consumed is consumed by exactly one
    commit: the earliest of those that burn most.  Everything else is untouched.
   */
  lemma OneCommitPerKey(ops: seq<Op>, k: (u32, u16)) returns (w: Op)
    requires InOrder(ops)
    requires exists c :: c in ops && Consumes(c, k.0, k.1)
    ensures w in ops && Consumes(w, k.0, k.1)
    ensures forall c :: c in ops && Consumes(c, k.0, k.1) ==> c.burnFee <= w.burnFee
    ensures forall c :: c in ops && Consumes(c, k.0, k.1) && c.burnFee == w.burnFee ==> w.vtxindex <= c.vtxindex
    ensures forall c :: c in WithoutLosers(ops) && Consumes(c, k.0, k.1) <==> c == w
  {
    w := SomebodyWins(ops, k);
    forall c: Op
      ensures c in WithoutLosers(ops) && Consumes(c, k.0, k.1) <==> c == w
    {
      LosersMembers(ops, c);
    }
  }

  lemma FiltersKeepTheRest(ops: seq<Op>, op: Op)
    requires InOrder(ops)
    ensures InOrder(WithoutLosers(ops)) && InOrder(WithoutDuplicates(ops))
    ensures !op.LeaderBlockCommit? ==> (op in WithoutLosers(ops) <==> op in ops)
    ensures !op.LeaderKeyRegister? ==> (op in WithoutDuplicates(ops) <==> op in ops)
  {
    KeepInOrder(ops, x => Wins(ops, x));
    KeepInOrder(ops, x => FirstRegistration(ops, x));
    LosersMembers(ops, op);
    DuplicatesMembers(ops, op);
  }

  lemma {:induction false} SomebodyFirst(ops: seq<Op>, key: VrfKey) returns (w: Op)
    requires InOrder(ops) && Registers(ops, key)
    ensures w in ops && w.LeaderKeyRegister? && w.publicKey == key && FirstRegistration(ops, w)
  {
    var n := |ops| - 1;
    var front, last := ops[..n], ops[n];
    assert ops == front + [last];
    if Registers(front, key) {
      w := SomebodyFirst(front, key);
    } else {
      w := last;
    }
  }

  /** A key that is registered stays registered, once, where it was registered first. */
  lemma OneRegistrationPerKey(ops: seq<Op>, key: VrfKey) returns (w: Op)
    requires InOrder(ops) && Registers(ops, key)
    ensures w in ops && w.LeaderKeyRegister? && w.publicKey == key
    ensures forall d :: d in ops && d.LeaderKeyRegister? && d.publicKey == key ==> w.vtxindex <= d.vtxindex
    ensures forall d :: d in WithoutDuplicates(ops) && d.LeaderKeyRegister? && d.publicKey == key <==> d == w
  {
    hide WithoutDuplicates;
    w := SomebodyFirst(ops, key);
    forall d: Op
      ensures d in WithoutDuplicates(ops) && d.LeaderKeyRegister? && d.publicKey == key <==> d == w
    {
      DuplicatesMembers(ops, d);
      if d in ops && d.vtxindex == w.vtxindex {
        SameIndex(ops, d, w);
      }
    }
  }

  lemma FilterAgain(ops: seq<Op>)
    requires InOrder(ops)
    ensures WithoutLosers(WithoutLosers(ops)) == WithoutLosers(ops)
    ensures WithoutDuplicates(WithoutDuplicates(ops)) == WithoutDuplicates(ops)
  {
    var a, b := WithoutLosers(ops), WithoutDuplicates(ops);
    forall op | op in ops
      ensures Wins(ops, op) == (Wins(ops, op) && Wins(a, op))
      ensures FirstRegistration(ops, op) == (FirstRegistration(ops, op) && FirstRegistration(b, op))
    {
      forall d | d in a { LosersMembers(ops, d); }
      forall d | d in b { DuplicatesMembers(ops, d); }
    }
    KeepKeep(ops, x => Wins(ops, x), x => Wins(a, x), x => Wins(ops, x));
    KeepKeep(ops, x => FirstRegistration(ops, x), x => FirstRegistration(b, x), x => FirstRegistration(ops, x));
  }

  /** The two filters do not interfere: their order does not matter. */
  lemma FiltersCommute(ops: seq<Op>)
    requires InOrder(ops)
    ensures WithoutLosers(WithoutDuplicates(ops)) == WithoutDuplicates(WithoutLosers(ops))
  {
    var a, b := WithoutLosers(ops), WithoutDuplicates(ops);
    forall op | op in ops
      ensures Wins(b, op) == Wins(ops, op) && FirstRegistration(a, op) == FirstRegistration(ops, op)
    {
      forall d: Op
        ensures d.LeaderBlockCommit? ==> (d in b <==> d in ops)
        ensures d.LeaderKeyRegister? ==> (d in a <==> d in ops)
      {
        FiltersKeepTheRest(ops, d);
      }
    }
    KeepKeep(ops, x => FirstRegistration(ops, x), x => Wins(b, x), x => Wins(ops, x) && FirstRegistration(ops, x));
    KeepKeep(ops, x => Wins(ops, x), x => FirstRegistration(a, x), x => Wins(ops, x) && FirstRegistration(ops, x));
  }

  // ---------------------------------------------------------------- the operations

  method OpsAreSorted(ops: seq<Op>) returns (r: bool)
    ensures r <==> InOrder(ops)
    ensures r <==> forall i, j :: 0 <= i < j < |ops| ==> ops[i].vtxindex < ops[j].vtxindex
  {
    if |ops| > 1 {
      for i := 0 to |ops| - 1
        invariant InOrder(ops[..i + 1])
      {
        if ops[i].vtxindex >= ops[i + 1].vtxindex {
          return false;
        }
        assert ops[..i + 2] == ops[..i + 1] + [ops[i + 1]];
        assert ops[..i + 1][i] == ops[i];
      }
      assert ops[..|ops|] == ops;
    }
    return true;
  }

  ghost predicate SortedByIndex(ops: seq<Op>)
  {
    forall i, j :: 0 <= i < j < |ops| ==> ops[i].vtxindex <= ops[j].vtxindex
  }

  /** The library sort: stable, by position in the block. */
  method SortByIndex(ops: seq<Op>) returns (r: seq<Op>)
    ensures SortedByIndex(r) && multiset(r) == multiset(ops)
  {
    r := [];
    for i := 0 to |ops|
      invariant SortedByIndex(r) && multiset(r) == multiset(ops[..i])
    {
      assert ops[..i + 1] == ops[..i] + [ops[i]];
      r := Insert(r, ops[i]);
    }
    assert ops[..|ops|] == ops;
  }

  method Insert(ops: seq<Op>, op: Op) returns (r: seq<Op>)
    requires SortedByIndex(ops)
    ensures SortedByIndex(r) && multiset(r) == multiset(ops) + multiset{op}
  {
    var k := |ops|;
    while k > 0 && op.vtxindex < ops[k - 1].vtxindex
      invariant 0 <= k <= |ops|
      invariant forall i :: k <= i < |ops| ==> op.vtxindex < ops[i].vtxindex
    {
      k := k - 1;
    }
    InsertSorted(ops, op, k);
    InsertMembers(ops, op, k);
    r := ops[..k] + [op] + ops[k..];
  }

  lemma InsertSorted(ops: seq<Op>, op: Op, k: nat)
    requires SortedByIndex(ops) && k <= |ops|
    requires 0 < k ==> ops[k - 1].vtxindex <= op.vtxindex
    requires forall i :: k <= i < |ops| ==> op.vtxindex < ops[i].vtxindex
    ensures SortedByIndex(ops[..k] + [op] + ops[k..])
  {
  }

  lemma InsertMembers(ops: seq<Op>, op: Op, k: nat)
    requires k <= |ops|
    ensures multiset(ops[..k] + [op] + ops[k..]) == multiset(ops) + multiset{op}
  {
    assert ops == ops[..k] + ops[k..];
  }

  /** Sorting by index keeps the members; without two equal indexes it yields block order. */
  lemma SortedInOrder(r: seq<Op>, ops: seq<Op>)
    requires SortedByIndex(r) && multiset(r) == multiset(ops)
    ensures forall op :: op in r <==> op in ops
    ensures (forall i, j :: 0 <= i < j < |ops| ==> ops[i].vtxindex != ops[j].vtxindex) ==> InOrder(r)
  {
    forall op
      ensures op in r <==> op in ops
    {
      assert op in multiset(r) <==> op in multiset(ops);
    }
    if (forall i, j :: 0 <= i < j < |ops| ==> ops[i].vtxindex != ops[j].vtxindex) && !InOrder(r) {
      var i, j :| 0 <= i < j < |r| && r[i].vtxindex == r[j].vtxindex;
      TwoAlike(r, ops, i, j);
    }
  }

  /** Two entries with one index stay two entries when the list is rearranged. */
  lemma TwoAlike(r: seq<Op>, ops: seq<Op>, i: nat, j: nat)
    requires multiset(r) == multiset(ops) && i < j < |r| && r[i].vtxindex == r[j].vtxindex
    ensures exists a, b :: 0 <= a < b < |ops| && ops[a].vtxindex == ops[b].vtxindex
  {
    if r[i] == r[j] {
      CountsTwo(r, i, j);
      var a, b := TwoOf(ops, r[i]);
      assert ops[a].vtxindex == ops[b].vtxindex;
    } else {
      assert r[i] in multiset(ops) && r[j] in multiset(ops);
      var a :| 0 <= a < |ops| && ops[a] == r[i];
      var b :| 0 <= b < |ops| && ops[b] == r[j];
      var lo, hi := if a < b then a else b, if a < b then b else a;
      assert ops[lo].vtxindex == ops[hi].vtxindex;
    }
  }

  lemma CountsTwo(r: seq<Op>, i: nat, j: nat)
    requires i < j < |r| && r[i] == r[j]
    ensures multiset(r)[r[i]] >= 2
  {
    var front := r[..j];
    assert r == front + r[j..] && r[i] == front[i] && r[j] == r[j..][0];
    assert r[i] in multiset(front) && r[j] in multiset(r[j..]);
  }

  lemma {:induction false} TwoOf(s: seq<Op>, x: Op) returns (a: nat, b: nat)
    requires multiset(s)[x] >= 2
    ensures a < b < |s| && s[a] == s[b] == x
  {
    var n := |s| - 1;
    assert s == s[..n] + [s[n]];
    if s[n] == x {
      assert x in multiset(s[..n]);
      a :| 0 <= a < n && s[..n][a] == x;
      b := n;
    } else {
      a, b := TwoOf(s[..n], x);
    }
  }

  /** The source panics where this yields nothing. */
  method ApplySafetyChecks(blockHeight: u64, txs: seq<Op>) returns (r: Option<seq<Op>>)
    ensures r.Some? <==>
              && (forall i, j :: 0 <= i < j < |txs| ==> txs[i].vtxindex != txs[j].vtxindex)
              && (forall i :: 0 <= i < |txs| ==> txs[i].blockHeight == blockHeight)
    ensures r.Some? ==> InOrder(r.value) && multiset(r.value) == multiset(txs)
  {
    var sorted := SortByIndex(txs);
    SortedInOrder(sorted, txs);
    if |sorted| > 1 {
      for i := 0 to |sorted| - 1
        invariant InOrder(sorted[..i + 1])
      {
        if sorted[i].vtxindex == sorted[i + 1].vtxindex {
          TwoAlike(sorted, txs, i, i + 1);
          return None;
        }
        assert sorted[..i + 2] == sorted[..i + 1] + [sorted[i + 1]];
        assert sorted[..i + 1][i] == sorted[i];
      }
      assert sorted[..|sorted|] == sorted;
    }
    Distinct(sorted, txs);
    for i := 0 to |sorted|
      invariant forall k :: 0 <= k < i ==> sorted[k].blockHeight == blockHeight
    {
      if sorted[i].blockHeight != blockHeight {
        assert sorted[i] in txs;
        return None;
      }
    }
    forall i | 0 <= i < |txs|
      ensures txs[i].blockHeight == blockHeight
    {
      assert txs[i] in sorted;
    }
    r := Some(sorted);
  }

  lemma Distinct(sorted: seq<Op>, txs: seq<Op>)
    requires InOrder(sorted) && multiset(sorted) == multiset(txs)
    ensures forall i, j :: 0 <= i < j < |txs| ==> txs[i].vtxindex != txs[j].vtxindex
  {
    forall i, j | 0 <= i < j < |txs|
      ensures txs[i].vtxindex != txs[j].vtxindex
    {
      if txs[i].vtxindex == txs[j].vtxindex {
        TwoAlike(txs, sorted, i, j);
      }
    }
  }

  method FilterVrfDups(ops: seq<Op>) returns (r: seq<Op>)
    requires InOrder(ops)
    ensures r == WithoutDuplicates(ops)
  {
    hide InOrder, Keep, FirstRegistration, Registers;
    r := [];
    var allKeys: set<VrfKey> := {};
    ghost var keep := (op: Op) => FirstRegistration(ops, op);
    NothingKept(keep);
    for i := 0 to |ops|
      invariant r == Keep(ops[..i], keep)
      invariant forall k :: k in allKeys <==> Registers(ops[..i], k)
    {
      var op := ops[i];
      assert ops[..i + 1] == ops[..i] + [op];
      KeepAppend(ops[..i], op, keep);
      forall k
        ensures Registers(ops[..i + 1], k) <==> Registers(ops[..i], k) || (op.LeaderKeyRegister? && op.publicKey == k)
      {
        RegistersAppend(ops[..i], op, k);
      }
      match op
      case LeaderKeyRegister(_, _, publicKey) =>
        FirstSoFar(ops, i);
        if publicKey !in allKeys {
          allKeys := allKeys + {publicKey};
          r := r + [op];
        }
      case _ =>
        NotRegister(ops, op);
        r := r + [op];
    }
    assert ops[..|ops|] == ops;
  }

  lemma NothingKept(p: Op -> bool)
    ensures Keep([], p) == [] && forall k :: !Registers([], k)
  {
  }

  lemma NotRegister(ops: seq<Op>, op: Op)
    requires !op.LeaderKeyRegister?
    ensures FirstRegistration(ops, op)
  {
  }

  ghost predicate Registers(ops: seq<Op>, key: VrfKey)
  {
    exists d :: d in ops && d.LeaderKeyRegister? && d.publicKey == key
  }

  /** In block order, a registration is the first one when no operation before it has its key. */
  lemma FirstSoFar(ops: seq<Op>, i: nat)
    requires InOrder(ops) && i < |ops| && ops[i].LeaderKeyRegister?
    ensures FirstRegistration(ops, ops[i]) <==> !Registers(ops[..i], ops[i].publicKey)
  {
    if d :| d in ops[..i] && d.LeaderKeyRegister? && d.publicKey == ops[i].publicKey {
      var k :| 0 <= k < i && ops[k] == d;
      assert ops[k].vtxindex < ops[i].vtxindex;
    } else {
      NoneBefore(ops, i);
    }
  }

  lemma NoneBefore(ops: seq<Op>, i: nat)
    requires InOrder(ops) && i < |ops| && ops[i].LeaderKeyRegister? && !Registers(ops[..i], ops[i].publicKey)
    ensures FirstRegistration(ops, ops[i])
  {
    assert ops == ops[..i] + ops[i..];
    forall d | d in ops && d.LeaderKeyRegister? && d.publicKey == ops[i].publicKey
      ensures ops[i].vtxindex <= d.vtxindex
    {
      var k :| 0 <= k < |ops| - i && ops[i..][k] == d;
    }
  }

  lemma RegistersAppend(ops: seq<Op>, op: Op, key: VrfKey)
    ensures Registers(ops + [op], key) <==> Registers(ops, key) || (op.LeaderKeyRegister? && op.publicKey == key)
  {
    assert op in ops + [op];
    if Registers(ops, key) {
      var d :| d in ops && d.LeaderKeyRegister? && d.publicKey == key;
      assert d in ops + [op];
    }
  }

  lemma KeepAppend(ops: seq<Op>, op: Op, p: Op -> bool)
    ensures Keep(ops + [op], p) == Keep(ops, p) + if p(op) then [op] else []
  {
    assert (ops + [op])[..|ops|] == ops;
  }

  lemma InOrderPrefix(ops: seq<Op>, k: nat)
    requires InOrder(ops) && k <= |ops|
    ensures InOrder(ops[..k])
  {
  }

  predicate NotCommit(op: Op)
  {
    !op.LeaderBlockCommit?
  }

  /** The winners so far, by the key that they consume. */
  ghost predicate Winners(ops: seq<Op>, collisions: map<(u32, u16), Op>)
  {
    && (forall k :: k in collisions ==>
          collisions[k] in ops && collisions[k].LeaderBlockCommit? && KeyLoc(collisions[k]) == k
              && Wins(ops, collisions[k]))
    && (forall c :: c in ops && c.LeaderBlockCommit? ==> KeyLoc(c) in collisions)
  }

  /**
    Every other commit for the key registered at the same block and position burns less,
    or as much and comes later.
   */
  ghost predicate Unbeaten(ops: seq<Op>, c: Op)
    requires c.LeaderBlockCommit?
  {
    forall d :: d in ops && d != c && Consumes(d, c.keyBlockPtr, c.keyVtxindex) ==>
      d.burnFee < c.burnFee || (d.burnFee == c.burnFee && c.vtxindex < d.vtxindex)
  }

  /** A commit stays exactly when it is unbeaten; so does one whose key nobody else consumes. */
  lemma StaysIff(ops: seq<Op>, c: Op)
    requires c in ops && c.LeaderBlockCommit?
    ensures c in WithoutLosers(ops) <==> Unbeaten(ops, c)
    ensures (forall d :: d in ops && d != c && d.LeaderBlockCommit? ==>
               d.keyBlockPtr != c.keyBlockPtr || d.keyVtxindex != c.keyVtxindex) ==> c in WithoutLosers(ops)
  {
    LosersMembers(ops, c);
  }

  /** Of the commits of a block, exactly the unbeaten ones stay. */
  method FilterCommitsWithSameVrfKey(ops: seq<Op>) returns (r: seq<Op>)
    requires InOrder(ops)
    ensures r == WithoutLosers(ops)
    ensures forall op :: op in r <==> op in ops && (op.LeaderBlockCommit? ==> Unbeaten(ops, op))
  {
    hide InOrder, Keep, Winners;
    var ret: seq<Op> := [];
    var collisions: map<(u32, u16), Op> := map[];
    NothingKept(NotCommit);
    NoWinners();
    for i := 0 to |ops|
      invariant ret == Keep(ops[..i], NotCommit)
      invariant Winners(ops[..i], collisions)
    {
      var op := ops[i];
      assert ops[..i + 1] == ops[..i] + [op];
      KeepAppend(ops[..i], op, NotCommit);
      InOrderPrefix(ops, i + 1);
      if op.LeaderBlockCommit? {
        collisions := Collide(ops[..i], collisions, op);
      } else {
        OtherOp(ops[..i], collisions, op);
        ret := ret + [op];
      }
    }
    assert ops[..|ops|] == ops;
    r := FoldBack(ops, ret, collisions);
    forall op: Op
      ensures op in r <==> op in ops && (op.LeaderBlockCommit? ==> Unbeaten(ops, op))
    {
      LosersMembers(ops, op);
      if op in ops && op.LeaderBlockCommit? {
        StaysIff(ops, op);
      }
    }
  }

  lemma NoWinners()
    ensures Winners([], map[])
  {
  }

  lemma OtherOp(ops: seq<Op>, collisions: map<(u32, u16), Op>, op: Op)
    requires Winners(ops, collisions) && !op.LeaderBlockCommit?
    ensures Winners(ops + [op], collisions)
  {
  }

  /** One more commit: it takes the place of the holder when it burns strictly more. */
  method Collide(ghost before: seq<Op>, collisions: map<(u32, u16), Op>, op: Op) returns (r: map<(u32, u16), Op>)
    requires Winners(before, collisions) && op.LeaderBlockCommit? && InOrder(before + [op])
    ensures Winners(before + [op], r)
  {
    var keyLoc := KeyLoc(op);
    ghost var after := before + [op];
    forall d | d in before
      ensures d.vtxindex < op.vtxindex
    {
      var k :| 0 <= k < |before| && before[k] == d;
      assert after[k] == d && after[|before|] == op;
    }
    if keyLoc in collisions {
      if op.burnFee > collisions[keyLoc].burnFee {
        r := collisions[keyLoc := op];
      } else {
        r := collisions;
      }
    } else {
      r := collisions[keyLoc := op];
    }
  }

  /** Append the winners, in whatever order the hash map yields them, and restore block order. */
  method FoldBack(ghost ops: seq<Op>, others: seq<Op>, collisions: map<(u32, u16), Op>) returns (r: seq<Op>)
    requires InOrder(ops) && Winners(ops, collisions) && others == Keep(ops, NotCommit)
    ensures r == WithoutLosers(ops)
  {
    hide InOrder, Winners, Keep, Folded, SortedByIndex, WithoutLosers;
    var ret := others;
    var keys := collisions.Keys;
    NothingFolded(ops, collisions, others);
    while keys != {}
      invariant keys <= collisions.Keys
      invariant forall op :: op in ret <==> Folded(ops, collisions, keys, op)
      invariant forall i, j :: 0 <= i < j < |ret| ==> ret[i] != ret[j]
      decreases |keys|
    {
      var k :| k in keys;
      FoldOne(ops, collisions, keys, k);
      ret := ret + [collisions[k]];
      keys := keys - {k};
    }
    r := SortByIndex(ret);
    FoldedInOrder(ops, collisions, ret, r);
  }

  /** What has been folded back while the winners of `left` have not. */
  ghost predicate Folded(ops: seq<Op>, collisions: map<(u32, u16), Op>, left: set<(u32, u16)>, op: Op)
  {
    op in ops && (op.LeaderBlockCommit? ==>
          KeyLoc(op) in collisions && KeyLoc(op) !in left && collisions[KeyLoc(op)] == op)
  }

  lemma NothingFolded(ops: seq<Op>, collisions: map<(u32, u16), Op>, others: seq<Op>)
    requires InOrder(ops) && Winners(ops, collisions) && others == Keep(ops, NotCommit)
    ensures forall op :: op in others <==> Folded(ops, collisions, collisions.Keys, op)
    ensures forall i, j :: 0 <= i < j < |others| ==> others[i] != others[j]
  {
    hide Keep;
    forall op
      ensures op in others <==> Folded(ops, collisions, collisions.Keys, op)
    {
      KeepMembers(ops, NotCommit, op);
    }
    KeepInOrder(ops, NotCommit);
  }

  lemma FoldOne(ops: seq<Op>, collisions: map<(u32, u16), Op>, left: set<(u32, u16)>, k: (u32, u16))
    requires Winners(ops, collisions) && k in left && left <= collisions.Keys
    ensures !Folded(ops, collisions, left, collisions[k])
    ensures forall op :: Folded(ops, collisions, left - {k}, op) <==>
              Folded(ops, collisions, left, op) || op == collisions[k]
  {
  }

  lemma SameIndex(ops: seq<Op>, a: Op, b: Op)
    requires InOrder(ops) && a in ops && b in ops && a.vtxindex == b.vtxindex
    ensures a == b
  {
  }

  lemma FoldedInOrder(ops: seq<Op>, collisions: map<(u32, u16), Op>, ret: seq<Op>, r: seq<Op>)
    requires InOrder(ops) && Winners(ops, collisions)
    requires forall op :: op in ret <==> Folded(ops, collisions, {}, op)
    requires forall i, j :: 0 <= i < j < |ret| ==> ret[i] != ret[j]
    requires SortedByIndex(r) && multiset(r) == multiset(ret)
    ensures r == WithoutLosers(ops)
  {
    forall i, j | 0 <= i < j < |ret|
      ensures ret[i].vtxindex != ret[j].vtxindex
    {
      assert ret[i] in ret && ret[j] in ret;
      assert Folded(ops, collisions, {}, ret[i]) && Folded(ops, collisions, {}, ret[j]);
      if ret[i].vtxindex == ret[j].vtxindex {
        SameIndex(ops, ret[i], ret[j]);
      }
    }
    SortedInOrder(r, ret);
    KeepInOrder(ops, x => Wins(ops, x));
    forall op
      ensures op in r <==> op in WithoutLosers(ops)
    {
      LosersMembers(ops, op);
      assert op in ret <==> Folded(ops, collisions, {}, op);
    }
    SameMembers(r, WithoutLosers(ops));
  }
}
