/**
  Matching replies to requests on a connection (NetworkConnection in
  src/net/connection.rs): a message answers the oldest request in flight that
  expects its sequence number; requests in flight can also time out.
 */
module Routing {

  import opened Numerals
  import opened Results
  import opened Wire
  import opened Framing
  import opened Inbox
  import opened Outbox

  // ---------------------------------------------------------------- specification

  /** The position of the oldest request in flight that expects `seq`, or the end. */
  function FirstWaiting(ns: seq<Notify>, expected: u32): (i: nat)
    ensures i <= |ns| && (i < |ns| ==> ns[i].expectedSeq == expected)
    ensures forall j :: 0 <= j < i ==> ns[j].expectedSeq != expected
  {
    if ns == [] || ns[0].expectedSeq == expected then 0 else 1 + FirstWaiting(ns[1..], expected)
  }

  function Without<T>(s: seq<T>, i: nat): (r: seq<T>)
    requires i < |s|
  {
    s[..i] + s[i + 1..]
  }

  datatype Delivery<M> = Delivery(to: Notify, reply: M)

  /** Who still waits, who got what, and what nobody waited for. */
  datatype Routed<M> = Routed(inflight: seq<Notify>, delivered: seq<Delivery<M>>, unsolicited: seq<M>)

  function Route<M>(id: M -> u32, ns: seq<Notify>, ms: seq<M>): (r: Routed<M>)
  {
    if ms == [] then Routed(ns, [], [])
    else
      var before := Route(id, ns, ms[..|ms| - 1]);
      RouteOne(id, before, ms[|ms| - 1])
  }

  function RouteOne<M>(id: M -> u32, r: Routed<M>, m: M): (r': Routed<M>)
  {
    var i := FirstWaiting(r.inflight, id(m));
    if i < |r.inflight| then
      Routed(Without(r.inflight, i), r.delivered + [Delivery(r.inflight[i], m)], r.unsolicited)
    else r.(unsolicited := r.unsolicited + [m])
  }

  lemma RouteNothing<M>(id: M -> u32, ns: seq<Notify>)
    ensures Route(id, ns, []) == Routed(ns, [], [])
  {
  }

  lemma RouteStep<M>(id: M -> u32, ns: seq<Notify>, ms: seq<M>, m: M)
    ensures Route(id, ns, ms + [m]) == RouteOne(id, Route(id, ns, ms), m)
  {
    assert (ms + [m])[..|ms|] == ms;
  }

  // The same, seen per sequence number.

  function Expecting(ns: seq<Notify>, s: u32): (r: seq<Notify>)
  {
    if ns == [] then []
    else Expecting(ns[..|ns| - 1], s) + if ns[|ns| - 1].expectedSeq == s then [ns[|ns| - 1]] else []
  }

  function Carrying<M>(id: M -> u32, ms: seq<M>, s: u32): (r: seq<M>)
  {
    if ms == [] then []
    else Carrying(id, ms[..|ms| - 1], s) + if id(ms[|ms| - 1]) == s then [ms[|ms| - 1]] else []
  }

  function DeliveredFor<M>(ds: seq<Delivery<M>>, s: u32): (r: seq<Delivery<M>>)
  {
    if ds == [] then []
    else DeliveredFor(ds[..|ds| - 1], s) + if ds[|ds| - 1].to.expectedSeq == s then [ds[|ds| - 1]] else []
  }

  function Pairs<M>(ns: seq<Notify>, ms: seq<M>): (r: seq<Delivery<M>>)
    requires |ns| == |ms|
  {
    seq(|ns|, i requires 0 <= i < |ns| => Delivery(ns[i], ms[i]))
  }

  function Min(a: nat, b: nat): (c: nat)
  {
    if a <= b then a else b
  }

  lemma {:induction false} ExpectingConcat(a: seq<Notify>, b: seq<Notify>, s: u32)
    ensures Expecting(a + b, s) == Expecting(a, s) + Expecting(b, s)
  {
    if b == [] {
      assert a + b == a;
    } else {
      var n := |b| - 1;
      assert (a + b)[..|a| + n] == a + b[..n];
      ExpectingConcat(a, b[..n], s);
    }
  }

  lemma {:induction false} NoneExpecting(ns: seq<Notify>, s: u32)
    requires forall j :: 0 <= j < |ns| ==> ns[j].expectedSeq != s
    ensures Expecting(ns, s) == []
  {
    if ns != [] {
      NoneExpecting(ns[..|ns| - 1], s);
    }
  }

  lemma ExpectingOne(n: Notify, s: u32)
    ensures Expecting([n], s) == if n.expectedSeq == s then [n] else []
  {
    assert [n][..0] == [];
  }

  /** Taking the oldest request for `expected` takes the first one of its own kind and no other. */
  lemma TakeFirst(ns: seq<Notify>, expected: u32, s: u32)
    ensures var i := FirstWaiting(ns, expected);
            if i == |ns| then s == expected ==> Expecting(ns, s) == []
            else if s == expected then Expecting(ns, s) == [ns[i]] + Expecting(Without(ns, i), s)
            else Expecting(Without(ns, i), s) == Expecting(ns, s)
  {
    hide FirstWaiting, Expecting;
    var i := FirstWaiting(ns, expected);
    if i == |ns| {
      if s == expected {
        NoneExpecting(ns, s);
      }
    } else {
      var a, x, b := ns[..i], [ns[i]], ns[i + 1..];
      assert ns == a + x + b;
      ExpectingConcat(a + x, b, s);
      ExpectingConcat(a, x, s);
      ExpectingConcat(a, b, s);
      ExpectingOne(ns[i], s);
      if s == expected {
        NoneExpecting(a, s);
      }
    }
  }

  /**
    For every sequence number, the replies that carry it go to the requests that
    expect it, oldest to oldest, until one side runs out; what is left on either
    side stays where it was, in order.
   */
  lemma {:induction false} RouteMatches<M>(id: M -> u32, ns: seq<Notify>, ms: seq<M>, s: u32)
    ensures var r := Route(id, ns, ms);
            var waiting, replies := Expecting(ns, s), Carrying(id, ms, s);
            var k := Min(|waiting|, |replies|);
            && DeliveredFor(r.delivered, s) == Pairs(waiting[..k], replies[..k])
            && Expecting(r.inflight, s) == waiting[k..]
            && Carrying(id, r.unsolicited, s) == replies[k..]
  {
    if ms == [] {
      assert Pairs<M>(Expecting(ns, s)[..0], []) == [];
    } else {
      var front, m := ms[..|ms| - 1], ms[|ms| - 1];
      RouteMatches(id, ns, front, s);
      var before := Route(id, ns, front);
      TakeFirst(before.inflight, id(m), s);
      RouteOneMatches(id, before, m, Expecting(ns, s), Carrying(id, front, s), s);
    }
  }

  /** The state of one sequence number: its requests and replies, matched as far as both go. */
  ghost predicate Matched<M>(id: M -> u32, r: Routed<M>, waiting: seq<Notify>, replies: seq<M>, s: u32)
  {
    var k := Min(|waiting|, |replies|);
    && DeliveredFor(r.delivered, s) == Pairs(waiting[..k], replies[..k])
    && Expecting(r.inflight, s) == waiting[k..]
    && Carrying(id, r.unsolicited, s) == replies[k..]
  }

  lemma RouteOneMatches<M>(id: M -> u32, before: Routed<M>, m: M, waiting: seq<Notify>, front: seq<M>, s: u32)
    requires Matched(id, before, waiting, front, s)
    ensures Matched(id, RouteOne(id, before, m), waiting, front + if id(m) == s then [m] else [], s)
  {
    TakeFirst(before.inflight, id(m), s);
    if FirstWaiting(before.inflight, id(m)) < |before.inflight| {
      SolicitedMatches(id, before, m, waiting, front, s);
    } else {
      UnsolicitedMatches(id, before, m, waiting, front, s);
    }
  }

  lemma SolicitedMatches<M>(id: M -> u32, before: Routed<M>, m: M, waiting: seq<Notify>, front: seq<M>, s: u32)
    requires Matched(id, before, waiting, front, s) && FirstWaiting(before.inflight, id(m)) < |before.inflight|
    ensures Matched(id, RouteOne(id, before, m), waiting, front + if id(m) == s then [m] else [], s)
  {
    TakeFirst(before.inflight, id(m), s);
    hide FirstWaiting, Expecting, Carrying, Without;
    var r := RouteOne(id, before, m);
    var i := FirstWaiting(before.inflight, id(m));
    var k := Min(|waiting|, |front|);
    var d := Delivery(before.inflight[i], m);
    assert r.delivered[..|before.delivered|] == before.delivered;
    if id(m) == s {
      assert waiting[k..][0] == before.inflight[i] && waiting[k..][1..] == waiting[k + 1..];
      assert k == |front| && front[..k] == front;
      assert Pairs(waiting[..k + 1], front + [m]) == Pairs(waiting[..k], front) + [d];
      assert (front + [m])[..k + 1] == front + [m];
    } else {
      assert front + [] == front;
    }
  }

  lemma UnsolicitedMatches<M>(id: M -> u32, before: Routed<M>, m: M, waiting: seq<Notify>, front: seq<M>, s: u32)
    requires Matched(id, before, waiting, front, s) && FirstWaiting(before.inflight, id(m)) == |before.inflight|
    ensures Matched(id, RouteOne(id, before, m), waiting, front + if id(m) == s then [m] else [], s)
  {
    TakeFirst(before.inflight, id(m), s);
    hide FirstWaiting, Expecting, DeliveredFor;
    var r := RouteOne(id, before, m);
    var k := Min(|waiting|, |front|);
    assert r.unsolicited[..|before.unsolicited|] == before.unsolicited;
    if id(m) == s {
      assert waiting[k..] == [] && k == |waiting|;
      assert (front + [m])[..k] == front[..k] && (front + [m])[k..] == front[k..] + [m];
    } else {
      assert front + [] == front;
    }
  }

  function Replies<M>(ds: seq<Delivery<M>>): (ms: seq<M>)
  {
    if ds == [] then [] else Replies(ds[..|ds| - 1]) + [ds[|ds| - 1].reply]
  }

  /** `all` is `a` and `b` merged, each in its own order. */
  ghost predicate Interleaved<M>(a: seq<M>, b: seq<M>, all: seq<M>)
  {
    if all == [] then a == [] && b == []
    else
      var n := |all| - 1;
      || (a != [] && a[|a| - 1] == all[n] && Interleaved(a[..|a| - 1], b, all[..n]))
      || (b != [] && b[|b| - 1] == all[n] && Interleaved(a, b[..|b| - 1], all[..n]))
  }

  /** Every message is delivered or returned, once, and both in the order of arrival. */
  lemma {:induction false} RouteKeepsOrder<M>(id: M -> u32, ns: seq<Notify>, ms: seq<M>)
    ensures var r := Route(id, ns, ms); Interleaved(Replies(r.delivered), r.unsolicited, ms)
  {
    if ms != [] {
      var front, m := ms[..|ms| - 1], ms[|ms| - 1];
      RouteKeepsOrder(id, ns, front);
      var before, after := Route(id, ns, front), Route(id, ns, ms);
      var i := FirstWaiting(before.inflight, id(m));
      if i < |before.inflight| {
        assert after.delivered[..|before.delivered|] == before.delivered;
        assert Replies(after.delivered)[..|Replies(after.delivered)| - 1] == Replies(before.delivered);
      } else {
        assert after.unsolicited[..|before.unsolicited|] == before.unsolicited;
      }
    }
  }

  // ---------------------------------------------------------------- timeouts

  function Alive(ns: seq<Notify>, now: u64): (r: seq<Notify>)
  {
    if ns == [] then []
    else Alive(ns[..|ns| - 1], now) + if ns[|ns| - 1].ttl < now then [] else [ns[|ns| - 1]]
  }

  function Expired(ns: seq<Notify>, now: u64): (r: seq<Notify>)
  {
    if ns == [] then []
    else Expired(ns[..|ns| - 1], now) + if ns[|ns| - 1].ttl < now then [ns[|ns| - 1]] else []
  }

  function ExpiredAt(ns: seq<Notify>, now: u64): (r: seq<nat>)
    ensures |r| == |Expired(ns, now)|
  {
    if ns == [] then []
    else ExpiredAt(ns[..|ns| - 1], now) + if ns[|ns| - 1].ttl < now then [|ns| - 1] else []
  }

  /** Removal at the given positions, last one first; a position past the end removes nothing. */
  function RemoveAt(ns: seq<Notify>, at: seq<nat>): (r: seq<Notify>)
    decreases |at|
  {
    if at == [] then ns
    else
      var last := at[|at| - 1];
      RemoveAt(if last < |ns| then Without(ns, last) else ns, at[..|at| - 1])
  }

  lemma RemoveLast(ns: seq<Notify>, at: seq<nat>, n: nat)
    requires n < |ns|
    ensures RemoveAt(ns, at + [n]) == RemoveAt(Without(ns, n), at)
  {
    assert (at + [n])[..|at|] == at;
  }

  /** Removing from the back keeps the remaining positions meaningful. */
  lemma {:induction false} RemoveExpired(ns: seq<Notify>, tail: seq<Notify>, now: u64)
    ensures RemoveAt(ns + tail, ExpiredAt(ns, now)) == Alive(ns, now) + tail
  {
    if ns == [] {
      assert ns + tail == tail;
    } else {
      var n := |ns| - 1;
      var front, last := ns[..n], [ns[n]];
      LastStep(ns, now);
      AroundLast(ns, tail);
      hide RemoveAt, ExpiredAt, Alive, Without;
      if ns[n].ttl < now {
        RemoveLast(ns + tail, ExpiredAt(front, now), n);
        RemoveExpired(front, tail, now);
      } else {
        RemoveExpired(front, last + tail, now);
        Regroup(Alive(front, now), last, tail);
      }
    }
  }

  lemma AroundLast(ns: seq<Notify>, tail: seq<Notify>)
    requires ns != []
    ensures var n := |ns| - 1;
            Without(ns + tail, n) == ns[..n] + tail && ns + tail == ns[..n] + ([ns[n]] + tail)
  {
  }

  lemma LastStep(ns: seq<Notify>, now: u64)
    requires ns != []
    ensures var n := |ns| - 1;
            if ns[n].ttl < now
            then Alive(ns, now) == Alive(ns[..n], now) && ExpiredAt(ns, now) == ExpiredAt(ns[..n], now) + [n]
            else Alive(ns, now) == Alive(ns[..n], now) + [ns[n]] && ExpiredAt(ns, now) == ExpiredAt(ns[..n], now)
  {
  }

  lemma NothingExpires(now: u64)
    ensures Alive([], now) == [] && Expired([], now) == []
  {
  }

  lemma SplitStep(ns: seq<Notify>, now: u64)
    requires ns != []
    ensures var n := |ns| - 1;
            if ns[n].ttl < now
            then Alive(ns, now) == Alive(ns[..n], now) && Expired(ns, now) == Expired(ns[..n], now) + [ns[n]]
            else Alive(ns, now) == Alive(ns[..n], now) + [ns[n]] && Expired(ns, now) == Expired(ns[..n], now)
  {
  }

  lemma ConserveStep(front: seq<Notify>, last: Notify, alive: seq<Notify>, expired: seq<Notify>)
    requires multiset(front) == multiset(alive) + multiset(expired)
    ensures multiset(front + [last]) == multiset(alive + [last]) + multiset(expired)
    ensures multiset(front + [last]) == multiset(alive) + multiset(expired + [last])
  {
  }

  lemma {:induction false} TimeoutsConserve(ns: seq<Notify>, now: u64)
    ensures multiset(ns) == multiset(Alive(ns, now)) + multiset(Expired(ns, now))
  {
    hide Alive, Expired;
    if ns == [] {
      NothingExpires(now);
    } else {
      var n := |ns| - 1;
      TimeoutsConserve(ns[..n], now);
      SplitStep(ns, now);
      assert ns == ns[..n] + [ns[n]];
      ConserveStep(ns[..n], ns[n], Alive(ns[..n], now), Expired(ns[..n], now));
    }
  }

  /** A request times out when its deadline lies before now, and only then. */
  lemma {:induction false} TimeoutsExact(ns: seq<Notify>, now: u64, n: Notify)
    ensures n in Alive(ns, now) <==> n in ns && now <= n.ttl
    ensures n in Expired(ns, now) <==> n in ns && n.ttl < now
  {
    if ns != [] {
      TimeoutsExact(ns[..|ns| - 1], now, n);
      assert ns == ns[..|ns| - 1] + [ns[|ns| - 1]];
    }
  }

  // ---------------------------------------------------------------- accounting

  function Recipients<M>(ds: seq<Delivery<M>>): (ns: seq<Notify>)
    ensures |ns| == |ds| && forall i :: 0 <= i < |ds| ==> ns[i] == ds[i].to
  {
    seq(|ds|, i requires 0 <= i < |ds| => ds[i].to)
  }

  /** Every request that went in flight is in flight, answered or timed out, once. */
  ghost predicate Accounted<M>(launched: seq<Notify>, inflight: seq<Notify>, delivered: seq<Delivery<M>>,
                               expired: seq<Notify>)
  {
    multiset(launched) == multiset(inflight) + multiset(Recipients(delivered)) + multiset(expired)
  }

  ghost predicate Answering<M>(id: M -> u32, delivered: seq<Delivery<M>>)
  {
    forall i :: 0 <= i < |delivered| ==> id(delivered[i].reply) == delivered[i].to.expectedSeq
  }

  lemma TimeoutsAccounted<M>(launched: seq<Notify>, inflight: seq<Notify>, delivered: seq<Delivery<M>>,
                             expired: seq<Notify>, now: u64)
    requires Accounted(launched, inflight, delivered, expired)
    ensures Accounted(launched, Alive(inflight, now), delivered, expired + Expired(inflight, now))
  {
    TimeoutsConserve(inflight, now);
    hide Alive, Expired;
  }

  lemma DeliveredLaunched<M>(launched: seq<Notify>, inflight: seq<Notify>, delivered: seq<Delivery<M>>,
                             expired: seq<Notify>, k: nat)
    requires Accounted(launched, inflight, delivered, expired) && k < |delivered|
    ensures delivered[k].to in launched
  {
    var n := delivered[k].to;
    assert Recipients(delivered)[k] == n;
    assert n in multiset(Recipients(delivered)) && n in multiset(launched);
  }

  /** Reply channels are made one after the other. */
  ghost predicate Numbered(ns: seq<Notify>, next: nat)
  {
    && (forall i :: 0 <= i < |ns| ==> ns[i].handle < next)
    && (forall i, j :: 0 <= i < j < |ns| ==> ns[i].handle < ns[j].handle)
  }

  lemma WithoutConserves<T>(s: seq<T>, i: nat)
    requires i < |s|
    ensures multiset(s) == multiset(Without(s, i)) + multiset{s[i]}
  {
    assert s == s[..i] + [s[i]] + s[i + 1..];
  }

  lemma RouteOneConserves<M>(id: M -> u32, launched: seq<Notify>, before: Routed<M>, m: M, expired: seq<Notify>)
    requires Accounted(launched, before.inflight, before.delivered, expired) && Answering(id, before.delivered)
    ensures var r := RouteOne(id, before, m);
            Accounted(launched, r.inflight, r.delivered, expired) && Answering(id, r.delivered)
  {
    var r := RouteOne(id, before, m);
    var i := FirstWaiting(before.inflight, id(m));
    if i < |before.inflight| {
      WithoutConserves(before.inflight, i);
      assert Recipients(r.delivered) == Recipients(before.delivered) + [before.inflight[i]];
    }
  }

  /** Earlier deliveries and leftovers do not matter for the next message. */
  lemma RouteOneLater<M>(id: M -> u32, r: Routed<M>, earlier: seq<Delivery<M>>, m: M)
    ensures var a, b := RouteOne(id, r, m), RouteOne(id, Routed(r.inflight, earlier + r.delivered, []), m);
            && a.inflight == b.inflight && earlier + a.delivered == b.delivered
            && a.unsolicited == r.unsolicited + b.unsolicited
  {
  }

  lemma {:induction false} NotifiesPrefix(qs: seq<Queued>, k: nat)
    requires k <= |qs|
    ensures Notifies(qs[..k]) <= Notifies(qs)
  {
    if k < |qs| {
      assert qs[..|qs| - 1][..k] == qs[..k];
      NotifiesPrefix(qs[..|qs| - 1], k);
    } else {
      assert qs[..k] == qs;
    }
  }

  lemma NotifiesAppend(qs: seq<Queued>, q: Queued)
    ensures Notifies(qs + [q]) == Notifies(qs) + if q.notify.Some? then [q.notify.value] else []
  {
    assert (qs + [q])[..|qs|] == qs;
  }

  lemma {:induction false} NotifiesFrom(qs: seq<Queued>, n: Notify) returns (i: nat)
    requires n in Notifies(qs)
    ensures i < |qs| && qs[i].notify == Some(n)
  {
    var k := |qs| - 1;
    if n in Notifies(qs[..k]) {
      i := NotifiesFrom(qs[..k], n);
    } else {
      i := k;
    }
  }

  lemma {:induction false} NotifiedAt(qs: seq<Queued>, k: nat, n: Notify)
    requires k < |qs| && qs[k].notify == Some(n)
    ensures n in Notifies(qs)
  {
    if k < |qs| - 1 {
      NotifiedAt(qs[..|qs| - 1], k, n);
    }
  }

  lemma {:induction false} FinishedAre(qs: seq<Queued>, k: nat)
    requires k <= |qs|
    ensures Notifies(qs) == Notifies(qs[..k]) + Notifies(qs[k..])
  {
    if k == |qs| {
      assert qs[..k] == qs && qs[k..] == [];
    } else {
      var front := qs[..|qs| - 1];
      FinishedAre(front, k);
      assert front[..k] == qs[..k] && qs[k..][..|qs| - k - 1] == front[k..];
    }
  }

  lemma NumberedOnce(ns: seq<Notify>, next: nat, n: Notify)
    requires Numbered(ns, next) && n in ns
    ensures multiset(ns)[n] == 1
  {
    var i :| 0 <= i < |ns| && ns[i] == n;
    WithoutConserves(ns, i);
    assert n !in Without(ns, i);
  }

  class NetworkConnection<P(!new), M(!new), K(!new)> {
    const inbox: ConnectionInbox<P, M, K>
    const outbox: ConnectionOutbox
    const requestId: M -> u32
    var nextHandle: nat

    ghost var delivered: seq<Delivery<M>>
    ghost var expired: seq<Notify>

    /** Every request is accounted for; this holds whatever comes in. */
    ghost predicate Balanced()
      reads this, outbox
    {
      && outbox.Valid()
      && Accounted(outbox.launched, outbox.inflight, delivered, expired)
      && Answering(requestId, delivered)
      && Numbered(Notifies(outbox.queued), nextHandle)
    }

    /** The connection is also able to receive. */
    ghost predicate Valid()
      reads this, inbox, outbox
    {
      Balanced() && inbox.Idle()
    }

    constructor (family: Family<P, M, K>, requestId: M -> u32, inboxMaxlen: nat, outboxMaxlen: nat, key: Option<K>)
      requires Lawful(family)
      ensures Valid() && fresh(inbox) && fresh(outbox) && this.requestId == requestId && inbox.family == family
      ensures delivered == [] && expired == [] && outbox.queued == [] && outbox.wire == [] && inbox.inbox == []
    {
      inbox := new ConnectionInbox(family, inboxMaxlen, key);
      outbox := new ConnectionOutbox(outboxMaxlen);
      this.requestId := requestId;
      nextHandle := 0;
      delivered := [];
      expired := [];
    }

    /**
      Every request that was accepted is in exactly one of four places: in the outbox, as
      long as it is not sent completely, and then in flight, answered, or timed out.
     */
    lemma OnePlace(k: nat, n: Notify)
      requires Balanced() && k < |outbox.queued| && outbox.queued[k].notify == Some(n)
      ensures multiset(outbox.inflight)[n] + multiset(Recipients(delivered))[n] + multiset(expired)[n]
           == if k < outbox.finished then 1 else 0
    {
      hide Contents, Waiting, Recipients, Numbered, ConnectionOutbox.Valid, Notifies, Answering;
      var all := Notifies(outbox.queued);
      LaunchedAre();
      FinishedAre(outbox.queued, outbox.finished);
      NotifiedAt(outbox.queued, k, n);
      NumberedOnce(all, nextHandle, n);
      if k < outbox.finished {
        NotifiedAt(outbox.queued[..outbox.finished], k, n);
      } else {
        NotifiedAt(outbox.queued[outbox.finished..], k - outbox.finished, n);
      }
      assert multiset(all) == multiset(outbox.launched) + multiset(Notifies(outbox.queued[outbox.finished..]));
    }

    lemma LaunchedAre()
      requires outbox.Valid()
      ensures outbox.finished <= |outbox.queued| && outbox.launched == Notifies(outbox.queued[..outbox.finished])
    {
    }

    /** A reply is only delivered once the whole request is on the socket. */
    lemma AnsweredAfterSent(k: nat) returns (i: nat)
      requires Balanced() && k < |delivered|
      ensures i < outbox.finished && outbox.queued[i].notify == Some(delivered[k].to)
      ensures Contents(outbox.queued[..i + 1]) <= outbox.wire
      ensures requestId(delivered[k].reply) == delivered[k].to.expectedSeq
    {
      hide Numbered, Accounted, Notifies, Contents, Waiting;
      var n := delivered[k].to;
      DeliveredLaunched(outbox.launched, outbox.inflight, delivered, expired, k);
      i := NotifiesFrom(outbox.queued[..outbox.finished], n);
      ContentsPrefix(outbox.queued[..outbox.finished], i + 1);
      assert outbox.queued[..outbox.finished][..i + 1] == outbox.queued[..i + 1];
    }

    method IsSolicited(msg: M) returns (solicited: bool)
      ensures solicited <==> exists i :: 0 <= i < |outbox.inflight| && outbox.inflight[i].expectedSeq == requestId(msg)
    {
      solicited := false;
      for i := 0 to |outbox.inflight|
        invariant forall j :: 0 <= j < i ==> outbox.inflight[j].expectedSeq != requestId(msg)
      {
        if outbox.inflight[i].expectedSeq == requestId(msg) {
          return true;
        }
      }
    }

    method FulfillRequest(msg: M) returns (r: Option<M>)
      requires Balanced()
      modifies outbox`inflight, this`delivered
      ensures Balanced()
      ensures Routed(outbox.inflight, delivered, if r.Some? then [r.value] else [])
           == RouteOne(requestId, Routed(old(outbox.inflight), old(delivered), []), msg)
    {
      hide ConnectionInbox.Idle, ConnectionOutbox.Valid, Accounted, Answering, Numbered, Notifies;
      var outboxIndex, solicited := 0, false;
      for i := 0 to |outbox.inflight|
        invariant !solicited && forall j :: 0 <= j < i ==> outbox.inflight[j].expectedSeq != requestId(msg)
      {
        if outbox.inflight[i].expectedSeq == requestId(msg) {
          outboxIndex, solicited := i, true;
          break;
        }
      }
      RouteOneConserves(requestId, outbox.launched, Routed(outbox.inflight, delivered, []), msg, expired);
      if solicited {
        assert outboxIndex == FirstWaiting(outbox.inflight, requestId(msg));
        delivered := delivered + [Delivery(outbox.inflight[outboxIndex], msg)];
        outbox.inflight := Without(outbox.inflight, outboxIndex);
        r := None;
      } else {
        r := Some(msg);
      }
    }

    method DrainInbox() returns (unsolicited: seq<M>)
      requires Balanced()
      modifies inbox`inbox, outbox`inflight, this`delivered
      ensures Balanced() && inbox.inbox == []
      ensures var r := Route(requestId, old(outbox.inflight), old(inbox.inbox));
              outbox.inflight == r.inflight && delivered == old(delivered) + r.delivered && unsolicited == r.unsolicited
    {
      hide ConnectionInbox.Idle, ConnectionOutbox.Valid;
      hide Accounted, Answering, Numbered, Notifies, RouteOne, Route;
      unsolicited := [];
      ghost var done: seq<M> := [];
      RouteNothing(requestId, outbox.inflight);
      while true
        invariant Balanced() && old(inbox.inbox) == done + inbox.inbox && old(delivered) <= delivered
        invariant Route(requestId, old(outbox.inflight), done)
               == Routed(outbox.inflight, delivered[|old(delivered)|..], unsolicited)
        decreases |inbox.inbox|
      {
        var inMsg := inbox.NextMessage();
        match inMsg
        case None =>
          assert done + [] == done;
          return;
        case Some(msg) =>
          assert old(inbox.inbox) == done + [msg] + inbox.inbox;
          RouteStep(requestId, old(outbox.inflight), done, msg);
          RouteOneLater(requestId, Route(requestId, old(outbox.inflight), done), old(delivered), msg);
          assert delivered == old(delivered) + delivered[|old(delivered)|..];
          var m := FulfillRequest(msg);
          done := done + [msg];
          if m.Some? {
            unsolicited := unsolicited + [m.value];
          }
      }
    }

    method FindExpired(now: u64) returns (toRemove: seq<nat>)
      ensures toRemove == ExpiredAt(outbox.inflight, now)
    {
      toRemove := [];
      ghost var ns := outbox.inflight;
      for i := 0 to |outbox.inflight|
        invariant toRemove == ExpiredAt(ns[..i], now)
      {
        assert ns[..i + 1][..i] == ns[..i];
        if outbox.inflight[i].ttl < now {
          toRemove := toRemove + [i];
        }
      }
      assert ns[..|ns|] == ns;
    }

    method RemoveInflight(at: seq<nat>)
      modifies outbox`inflight
      ensures outbox.inflight == RemoveAt(old(outbox.inflight), at)
    {
      var toRemove := at;
      while toRemove != []
        invariant RemoveAt(outbox.inflight, toRemove) == RemoveAt(old(outbox.inflight), at)
      {
        var i := toRemove[|toRemove| - 1];
        if i < |outbox.inflight| {
          outbox.inflight := Without(outbox.inflight, i);
        }
        toRemove := toRemove[..|toRemove| - 1];
      }
    }

    method DrainTimeouts(now: u64) returns (res: nat)
      requires Balanced()
      modifies outbox`inflight, this`expired
      ensures Balanced()
      ensures outbox.inflight == Alive(old(outbox.inflight), now)
      ensures expired == old(expired) + Expired(old(outbox.inflight), now) && res == |expired| - |old(expired)|
    {
      hide ConnectionInbox.Idle, ConnectionOutbox.Valid, Accounted, Answering, Numbered, RemoveAt, Alive, Expired;
      ghost var was := outbox.inflight;
      var toRemove := FindExpired(now);
      RemoveInflight(toRemove);
      RemoveExpired(was, [], now);
      assert was + [] == was && Alive(was, now) + [] == Alive(was, now);
      TimeoutsAccounted(outbox.launched, was, delivered, expired, now);
      expired := expired + Expired(was, now);
      res := |toRemove|;
    }

    /** Queue a request: everything that will be written into its handle, and a new reply channel. */
    method MakeRequestHandle(content: seq<u8>, expectedSeq: u32, timeout: u64, now: u64) returns (r: Result<nat, Error>)
      requires Balanced()
      modifies outbox`outbox, outbox`queued, this`nextHandle
      ensures Balanced()
      ensures r.Failure? ==> r.error == OutboxOverflow && outbox.queued == old(outbox.queued)
      ensures r.Success? ==>
                && (forall n :: n in Notifies(old(outbox.queued)) ==> n.handle != r.value)
                && outbox.queued == old(outbox.queued)
                   + [Queued(content, Some(Notify(r.value, expectedSeq, (timeout + now) % 0x1_0000_0000_0000_0000)))]
    {
      hide ConnectionInbox.Idle, ConnectionOutbox.Valid;
      hide Accounted, Answering, Notifies;
      var notify := Notify(nextHandle, expectedSeq, (timeout + now) % 0x1_0000_0000_0000_0000);
      var queued := outbox.QueueMessage(content, Some(notify));
      if queued.Failure? {
        return Failure(queued.error);
      }
      NotifiesAppend(old(outbox.queued), Queued(content, Some(notify)));
      nextHandle := nextHandle + 1;
      r := Success(nextHandle - 1);
    }

    /** Queue a message that expects no reply. */
    method MakeRelayHandle(content: seq<u8>) returns (r: Result<(), Error>)
      requires Balanced()
      modifies outbox`outbox, outbox`queued
      ensures Balanced() && Notifies(outbox.queued) == Notifies(old(outbox.queued))
      ensures r.Failure? ==> r.error == OutboxOverflow && outbox.queued == old(outbox.queued)
      ensures r.Success? ==> outbox.queued == old(outbox.queued) + [Queued(content, None)]
    {
      hide ConnectionInbox.Idle, ConnectionOutbox.Valid, Accounted, Answering, Numbered, Notifies;
      r := outbox.QueueMessage(content, None);
      NotifiesAppend(old(outbox.queued), Queued(content, None));
      assert Notifies(old(outbox.queued)) + [] == Notifies(old(outbox.queued));
    }

    /**
      Receive data, in whatever chunks.  The inbox grows by the messages that arrived in
      full; nothing else about the requests changes, not even when the stream is bad.
     */
    method RecvData(chunks: seq<seq<u8>>, end: ReadEnd) returns (r: Result<nat, Error>)
      requires Valid()
      requires forall i :: 0 <= i < |chunks| ==> 0 < |chunks[i]| <= 4096
      modifies inbox
      ensures Balanced() && (r.Success? ==> Valid()) && inbox.publicKey == old(inbox.publicKey)
      ensures var p := old(inbox.Meaning(inbox.buf + Concat(chunks)));
              && inbox.Received(old(inbox.inbox), p, inbox.ReadResult(end, |Concat(chunks)|), r)
              && (p.Pending? && r != Failure(InboxOverflow) ==> Valid())
      ensures |old(inbox.inbox)| > inbox.inboxMaxlen ==>
                && r == Failure(InboxOverflow) && Valid()
                && inbox.inbox == old(inbox.inbox) && inbox.buf == old(inbox.buf)
      ensures |old(inbox.inbox)| <= inbox.inboxMaxlen ==>
                inbox.LossExact(old(inbox.inbox), old(inbox.buf), chunks, r)
    {
      hide ConnectionOutbox.Valid, Accounted, Answering, Numbered, Notifies;
      hide ConnectionInbox.Idle, ConnectionInbox.LossExact;
      r := inbox.RecvBytes(chunks, end);
    }

    /**
      Receive, and then drain the inbox even if that failed: every message that arrived in
      full is still routed, also those before a bad frame, unless the inbox overflowed.
     */
    method RecvAndDrain(chunks: seq<seq<u8>>, end: ReadEnd)
      returns (r: Result<nat, Error>, unsolicited: seq<M>, ghost got: seq<M>)
      requires Valid()
      requires forall i :: 0 <= i < |chunks| ==> 0 < |chunks[i]| <= 4096
      modifies inbox, outbox`inflight, this`delivered
      ensures Balanced() && (r.Success? ==> Valid()) && inbox.inbox == []
      ensures var p := old(inbox.Meaning(inbox.buf + Concat(chunks)));
              && got <= p.messages && (r != Failure(InboxOverflow) ==> got == p.messages)
              && (p.Failed? ==> r == Failure(p.error) || r == Failure(InboxOverflow))
      ensures var routed := Route(requestId, old(outbox.inflight), old(inbox.inbox) + got);
              && outbox.inflight == routed.inflight && delivered == old(delivered) + routed.delivered
              && unsolicited == routed.unsolicited
    {
      hide ConnectionOutbox.Valid, Accounted, Answering, Numbered, Notifies, Route;
      hide ConnectionInbox.Idle, ConnectionInbox.LossExact;
      ghost var was := inbox.inbox;
      r := RecvData(chunks, end);
      got := inbox.inbox[|was|..];
      assert inbox.inbox == was + got;
      unsolicited := DrainInbox();
    }

    method SendData() returns (r: Result<nat, Error>)
      requires Balanced()
      modifies outbox
      ensures Balanced() && old(outbox.wire) <= outbox.wire && outbox.queued == old(outbox.queued)
      ensures old(outbox.stalls) <= outbox.stalls
      ensures r == SendResult(outbox.stalls[|old(outbox.stalls)|..], |outbox.wire| - |old(outbox.wire)|)
      ensures outbox.stalls == old(outbox.stalls) ==>
                outbox.wire == Contents(outbox.queued) && outbox.finished == |outbox.queued|
    {
      hide ConnectionInbox.Idle, ConnectionOutbox.Valid, SendResult, Contents, Notifies, Answering, Numbered;
      ghost var launched := outbox.launched;
      r := outbox.SendBytes();
      assert outbox.launched == launched + outbox.launched[|launched|..];
      if outbox.outbox == [] {
        outbox.Drained();
      }
    }
  }
}
