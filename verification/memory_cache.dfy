/**
 * `memoryCache`: a table from ids to `AsyncSubject`s shared by three
 * operators. `load` passes a payload through the first time its id is seen
 * (and opens a subject for it); later loads of that id subscribe to the
 * subject instead. `save` completes an open subject with the payload, which
 * answers every subscribed load. `clear` forgets an id.
 *
 * When `maxItems` is truthy the table is an LRU map of that capacity: `get`
 * and `set` make an id the most recently used, and inserting beyond the
 * capacity evicts the least recently used id.
 */
module MemoryCache {
  import opened Wrappers

  /** A subject still open, with the loads (by ticket) subscribed to it; or completed with a payload. */
  datatype Slot<P> = Waiting(tickets: seq<nat>) | Ready(payload: P)

  /**
   * `limit` is `maxItems`, 0 standing for a falsy value (a plain `Map`, no
   * eviction); `order` lists the held ids from least to most recently used.
   */
  datatype Cache<K, P> = Cache(limit: nat, slots: map<K, Slot<P>>, order: seq<K>)

  /** The payload a load request (numbered `ticket`) emits. */
  datatype Delivery<P> = Delivery(ticket: nat, payload: P)

  ghost predicate Distinct<K>(s: seq<K>) {
    forall i, j :: 0 <= i < j < |s| ==> s[i] != s[j]
  }

  /** `order` lists exactly the held ids, once each, and the capacity is respected. */
  ghost predicate Valid<K(!new), P>(c: Cache<K, P>) {
    (forall k :: k in c.slots <==> k in c.order) &&
    Distinct(c.order) &&
    (c.limit > 0 ==> |c.order| <= c.limit)
  }

  function New<K(==,!new), P>(maxItems: nat): (c: Cache<K, P>)
    ensures Valid(c) && c.slots == map[]
  {
    Cache(maxItems, map[], [])
  }

  /** `order` without `k`. */
  function Without<K(==,!new)>(order: seq<K>, k: K): (r: seq<K>)
    ensures forall x :: x in r <==> x in order && x != k
    ensures Distinct(order) ==> Distinct(r)
    ensures Distinct(order) ==> |r| == |order| - (if k in order then 1 else 0)
  {
    if |order| == 0 then []
    else
      var rest := Without(order[1..], k);
      assert Distinct(order) ==> order[0] !in order[1..];
      if order[0] == k then rest else [order[0]] + rest
  }

  /** Give the held id `k` the slot `s`; in an LRU map, `k` becomes the most recently used. */
  function Use<K(==,!new), P>(c: Cache<K, P>, k: K, s: Slot<P>): (r: Cache<K, P>)
    requires Valid(c) && k in c.slots
    ensures Valid(r)
    ensures r.slots == c.slots[k := s] && r.limit == c.limit
    ensures c.limit > 0 ==> |r.order| > 0 && r.order[|r.order| - 1] == k
    ensures c.limit > 0 ==> r.order[..|r.order| - 1] == Without(c.order, k)
    ensures c.limit == 0 ==> r.order == c.order
  {
    var order := if c.limit > 0 then Without(c.order, k) + [k] else c.order;
    var r := Cache(c.limit, c.slots[k := s], order);
    assert c.limit > 0 ==> r.order[..|r.order| - 1] == Without(c.order, k);
    r
  }

  /** The id an insertion of a new id evicts, if any. */
  function Evicted<K(==,!new), P>(c: Cache<K, P>): (r: Option<K>)
    requires Valid(c)
    ensures r.Some? <==> c.limit > 0 && |c.order| == c.limit
    ensures r.Some? ==> r.value == c.order[0]
  {
    if c.limit > 0 && |c.order| >= c.limit then Some(c.order[0]) else None
  }

  /** Insert the new id `k` as the most recently used, evicting the least recently used when full. */
  function Add<K(==,!new), P>(c: Cache<K, P>, k: K, s: Slot<P>): (r: Cache<K, P>)
    requires Valid(c) && k !in c.slots
    ensures Valid(r) && r.limit == c.limit
    ensures Evicted(c).None? ==> r.slots == c.slots[k := s]
    ensures Evicted(c).Some? ==> r.slots == c.slots[k := s] - {Evicted(c).value}
    ensures |r.order| > 0 && r.order[|r.order| - 1] == k
    ensures c.limit == 0 ==> r.order == c.order + [k]
  {
    var order := c.order + [k];
    var slots := c.slots[k := s];
    assert Distinct(order);
    if c.limit > 0 && |order| > c.limit then
      assert forall x :: x in order[1..] <==> x in order && x != order[0];
      Cache(c.limit, slots - {order[0]}, order[1..])
    else
      Cache(c.limit, slots, order)
  }

  /**
   * `load`: a held id answers from its subject (at once when completed,
   * else when saved); an unknown id opens a subject and passes the payload on.
   */
  function Load<K(==,!new), P>(c: Cache<K, P>, id: K, ticket: nat, p: P): (r: (Cache<K, P>, seq<Delivery<P>>))
    requires Valid(c)
    ensures Valid(r.0) && r.0.limit == c.limit
    ensures id in r.0.slots
    ensures id !in c.slots ==> r.1 == [Delivery(ticket, p)] && r.0.slots[id] == Waiting([])
    ensures id in c.slots && c.slots[id].Ready? ==>
              r.1 == [Delivery(ticket, c.slots[id].payload)] && r.0.slots == c.slots
    ensures id in c.slots && c.slots[id].Waiting? ==>
              r.1 == [] && r.0.slots == c.slots[id := Waiting(c.slots[id].tickets + [ticket])]
    ensures forall k :: k != id && k in r.0.slots ==> k in c.slots && r.0.slots[k] == c.slots[k]
    ensures forall k :: k in c.slots && k !in r.0.slots ==> Evicted(c) == Some(k) && id !in c.slots
    ensures c.limit == 0 ==> r.0.order == if id in c.slots then c.order else c.order + [id]
    ensures c.limit == 0 && id !in c.slots ==> r.0.slots == c.slots[id := Waiting([])]
  {
    if id in c.slots then
      match c.slots[id]
      case Ready(q) => (Use(c, id, Ready(q)), [Delivery(ticket, q)])
      case Waiting(ts) => (Use(c, id, Waiting(ts + [ticket])), [])
    else
      (Add(c, id, Waiting([])), [Delivery(ticket, p)])
  }

  /** One delivery of `p` per waiting ticket, in subscription order. */
  function Answer<P>(ts: seq<nat>, p: P): (r: seq<Delivery<P>>)
    ensures |r| == |ts|
    ensures forall i :: 0 <= i < |r| ==> r[i] == Delivery(ts[i], p)
  {
    seq(|ts|, i requires 0 <= i < |ts| => Delivery(ts[i], p))
  }

  /**
   * `save`: completes an open subject with `p`, answering its subscribers;
   * a completed subject keeps its first payload, and an unknown id is not
   * added. The payload itself passes on unchanged.
   */
  function Save<K(==,!new), P>(c: Cache<K, P>, id: K, p: P): (r: (Cache<K, P>, seq<Delivery<P>>))
    requires Valid(c)
    ensures Valid(r.0) && r.0.limit == c.limit
    ensures id in c.slots && c.slots[id].Waiting? ==>
              r.0.slots == c.slots[id := Ready(p)] &&
              |r.1| == |c.slots[id].tickets| &&
              forall i :: 0 <= i < |r.1| ==> r.1[i] == Delivery(c.slots[id].tickets[i], p)
    ensures !(id in c.slots && c.slots[id].Waiting?) ==> r.0.slots == c.slots && r.1 == []
    ensures c.limit == 0 ==> r.0.order == c.order
  {
    if id in c.slots then
      match c.slots[id]
      case Waiting(ts) => (Use(c, id, Ready(p)), Answer(ts, p))
      case Ready(q) => (Use(c, id, Ready(q)), [])
    else
      (c, [])
  }

  /** `clear`: forgets `id`; loads still waiting on its subject are never answered. */
  function Clear<K(==,!new), P>(c: Cache<K, P>, id: K): (r: Cache<K, P>)
    requires Valid(c)
    ensures Valid(r) && r.limit == c.limit
    ensures r.slots == c.slots - {id}
  {
    Cache(c.limit, c.slots - {id}, Without(c.order, id))
  }

  /** Loads of one id, one per ticket, in order. */
  function LoadMany<K(==,!new), P>(c: Cache<K, P>, id: K, ts: seq<nat>, p: P): (r: (Cache<K, P>, seq<Delivery<P>>))
    requires Valid(c)
    ensures Valid(r.0) && r.0.limit == c.limit
    ensures |ts| > 0 ==> id in r.0.slots
    decreases |ts|
  {
    if |ts| == 0 then (c, [])
    else
      var (c1, d1) := Load(c, id, ts[0], p);
      var (c2, d2) := LoadMany(c1, id, ts[1..], p);
      (c2, d1 + d2)
  }

  lemma {:induction false} JoinWaiting<K(!new), P>(c: Cache<K, P>, id: K, ts: seq<nat>, p: P)
    requires Valid(c) && id in c.slots && c.slots[id].Waiting?
    ensures LoadMany(c, id, ts, p).1 == []
    ensures LoadMany(c, id, ts, p).0.slots[id] == Waiting(c.slots[id].tickets + ts)
    decreases |ts|
  {
    if |ts| > 0 {
      var c1 := Load(c, id, ts[0], p).0;
      JoinWaiting(c1, id, ts[1..], p);
      assert c.slots[id].tickets + [ts[0]] + ts[1..] == c.slots[id].tickets + ts;
    } else {
      assert c.slots[id].tickets + ts == c.slots[id].tickets;
    }
  }

  /**
   * Concurrent loads of an unknown id are coalesced: only the first passes
   * on (to be fetched), the others wait on its subject, and a `save` then
   * answers each of them with the saved payload, once.
   */
  lemma CoalescedLoads<K(!new), P>(c: Cache<K, P>, id: K, ts: seq<nat>, p: P, q: P)
    requires Valid(c) && id !in c.slots && |ts| > 0
    ensures LoadMany(c, id, ts, p).1 == [Delivery(ts[0], p)]
    ensures LoadMany(c, id, ts, p).0.slots[id] == Waiting(ts[1..])
    ensures Save(LoadMany(c, id, ts, p).0, id, q).1 == Answer(ts[1..], q)
  {
    var c1 := Load(c, id, ts[0], p).0;
    JoinWaiting(c1, id, ts[1..], p);
    assert [] + ts[1..] == ts[1..];
    var r := LoadMany(c, id, ts, p).0;
    assert Save(r, id, q).1 == Answer(ts[1..], q);
  }

  /** Once saved, a held id answers later loads with the saved payload. */
  lemma LoadAfterSave<K(!new), P>(c: Cache<K, P>, id: K, q: P, ticket: nat, p: P)
    requires Valid(c) && id in c.slots && c.slots[id].Waiting?
    ensures Load(Save(c, id, q).0, id, ticket, p).1 == [Delivery(ticket, q)]
  {
  }

  /** The first save of an id wins: a second save changes nothing and answers nobody. */
  lemma FirstSaveWins<K(!new), P>(c: Cache<K, P>, id: K, p: P, q: P)
    requires Valid(c) && id in c.slots
    ensures var c1 := Save(c, id, p).0;
            Save(c1, id, q).0.slots == c1.slots && Save(c1, id, q).1 == []
  {
  }

  /**
   * After `clear`, the next load of the id passes on again, and a save no
   * longer reaches the loads that were waiting on the forgotten subject.
   */
  lemma ClearForgets<K(!new), P>(c: Cache<K, P>, id: K, ticket: nat, p: P, q: P)
    requires Valid(c)
    ensures Load(Clear(c, id), id, ticket, p).1 == [Delivery(ticket, p)]
    ensures Save(Clear(c, id), id, q).1 == []
  {
  }

  /**
   * In an LRU map, an id just loaded is the most recently used, so (with a
   * capacity of at least two) loading one new id cannot evict it.
   */
  lemma RecentlyLoadedSurvives<K(!new), P>(c: Cache<K, P>, id: K, t1: nat, p: P, other: K, t2: nat, p2: P)
    requires Valid(c) && c.limit >= 2 && other != id
    ensures var c1 := Load(c, id, t1, p).0;
            id in Load(c1, other, t2, p2).0.slots
  {
    var c1 := Load(c, id, t1, p).0;
    assert c1.order[|c1.order| - 1] == id;
    if Evicted(c1).Some? {
      assert c1.order[0] != id;
    }
  }

  // ---------------------------------------------------------------------------
  // Accounting for waiting loads (for a table without eviction).
  // ---------------------------------------------------------------------------

  function SlotWaiters<P>(s: Slot<P>): multiset<nat>
  {
    if s.Waiting? then multiset(s.tickets) else multiset{}
  }

  function WaitersIn<K(==,!new), P>(order: seq<K>, slots: map<K, Slot<P>>): multiset<nat>
  {
    if |order| == 0 then multiset{}
    else (if order[0] in slots then SlotWaiters(slots[order[0]]) else multiset{}) + WaitersIn(order[1..], slots)
  }

  /** The tickets of the loads waiting on open subjects. */
  function Waiters<K(==,!new), P>(c: Cache<K, P>): multiset<nat>
  {
    WaitersIn(c.order, c.slots)
  }

  function TicketsOf<P>(ds: seq<Delivery<P>>): multiset<nat>
  {
    if |ds| == 0 then multiset{} else multiset{ds[0].ticket} + TicketsOf(ds[1..])
  }

  lemma {:induction false} AnswerTickets<P>(ts: seq<nat>, p: P)
    ensures TicketsOf(Answer(ts, p)) == multiset(ts)
  {
    if |ts| > 0 {
      AnswerTickets(ts[1..], p);
      assert Answer(ts, p)[1..] == Answer(ts[1..], p);
      assert ts == [ts[0]] + ts[1..];
    }
  }

  lemma {:induction false} WaitersFrame<K(!new), P>(order: seq<K>, slots: map<K, Slot<P>>, k: K, s: Slot<P>)
    requires k !in order
    ensures WaitersIn(order, slots[k := s]) == WaitersIn(order, slots)
  {
    if |order| > 0 {
      WaitersFrame(order[1..], slots, k, s);
    }
  }

  lemma Swap(a: multiset<nat>, r: multiset<nat>, b: multiset<nat>)
    ensures (a + r) + b == (b + r) + a
  {
    assert forall x :: ((a + r) + b)[x] == ((b + r) + a)[x];
  }

  lemma AddBoth(h: multiset<nat>, x: multiset<nat>, y: multiset<nat>, o: multiset<nat>, n: multiset<nat>)
    requires x + o == y + n
    ensures (h + x) + o == (h + y) + n
  {
    assert forall t :: ((h + x) + o)[t] == h[t] + (x + o)[t];
    assert forall t :: ((h + y) + n)[t] == h[t] + (y + n)[t];
  }

  lemma Cancel(x: multiset<nat>, y: multiset<nat>, a: multiset<nat>)
    requires x + a == y + a
    ensures x == y
  {
    assert forall t :: x[t] == (x + a)[t] - a[t];
    assert forall t :: y[t] == (y + a)[t] - a[t];
  }

  lemma {:induction false} WaitersUpdate<K(!new), P>(order: seq<K>, slots: map<K, Slot<P>>, k: K, s: Slot<P>)
    requires Distinct(order) && k in order && k in slots
    ensures WaitersIn(order, slots[k := s]) + SlotWaiters(slots[k]) == WaitersIn(order, slots) + SlotWaiters(s)
  {
    if order[0] == k {
      assert k !in order[1..];
      WaitersFrame(order[1..], slots, k, s);
      assert WaitersIn(order, slots[k := s]) == SlotWaiters(s) + WaitersIn(order[1..], slots);
      assert WaitersIn(order, slots) == SlotWaiters(slots[k]) + WaitersIn(order[1..], slots);
      Swap(SlotWaiters(s), WaitersIn(order[1..], slots), SlotWaiters(slots[k]));
    } else {
      assert k in order[1..];
      assert Distinct(order[1..]);
      var head := if order[0] in slots then SlotWaiters(slots[order[0]]) else multiset{};
      if order[0] in slots {
        assert slots[k := s][order[0]] == slots[order[0]];
      }
      assert WaitersIn(order, slots[k := s]) == head + WaitersIn(order[1..], slots[k := s]);
      assert WaitersIn(order, slots) == head + WaitersIn(order[1..], slots);
      WaitersUpdate(order[1..], slots, k, s);
      AddBoth(head, WaitersIn(order[1..], slots[k := s]), WaitersIn(order[1..], slots), SlotWaiters(slots[k]), SlotWaiters(s));
    }
  }

  lemma {:induction false} WaitersSnoc<K(!new), P>(order: seq<K>, slots: map<K, Slot<P>>, k: K)
    requires k in slots
    ensures WaitersIn(order + [k], slots) == WaitersIn(order, slots) + SlotWaiters(slots[k])
  {
    if |order| > 0 {
      assert (order + [k])[1..] == order[1..] + [k];
      WaitersSnoc(order[1..], slots, k);
    } else {
      assert (order + [k])[1..] == [];
    }
  }

  lemma JoinConserves<K(!new), P>(c: Cache<K, P>, id: K, ticket: nat, p: P)
    requires Valid(c) && c.limit == 0 && id in c.slots && c.slots[id].Waiting?
    ensures var (r, ds) := Load(c, id, ticket, p);
            Waiters(r) + TicketsOf(ds) == Waiters(c) + multiset{ticket}
  {
    var ts := c.slots[id].tickets;
    var r := Load(c, id, ticket, p).0;
    WaitersUpdate(c.order, c.slots, id, Waiting(ts + [ticket]));
    assert multiset(ts + [ticket]) == multiset(ts) + multiset{ticket};
    assert Waiters(r) == WaitersIn(c.order, c.slots[id := Waiting(ts + [ticket])]);
    Cancel(Waiters(r), Waiters(c) + multiset{ticket}, multiset(ts));
  }

  lemma OpenConserves<K(!new), P>(c: Cache<K, P>, id: K, ticket: nat, p: P)
    requires Valid(c) && c.limit == 0 && id !in c.slots
    ensures var (r, ds) := Load(c, id, ticket, p);
            Waiters(r) + TicketsOf(ds) == Waiters(c) + multiset{ticket}
  {
    WaitersSnoc(c.order, c.slots[id := Waiting([])], id);
    WaitersFrame(c.order, c.slots, id, Waiting([]));
  }

  /** Without eviction, a load is either answered at once or left waiting: no ticket is lost or duplicated. */
  lemma LoadConserves<K(!new), P>(c: Cache<K, P>, id: K, ticket: nat, p: P)
    requires Valid(c) && c.limit == 0
    ensures var (r, ds) := Load(c, id, ticket, p);
            Waiters(r) + TicketsOf(ds) == Waiters(c) + multiset{ticket}
  {
    if id !in c.slots {
      OpenConserves(c, id, ticket, p);
    } else if c.slots[id].Waiting? {
      JoinConserves(c, id, ticket, p);
    } else {
      var (r, ds) := Load(c, id, ticket, p);
      assert TicketsOf(ds) == multiset{ticket};
    }
  }

  /** A save answers exactly the loads that were waiting on the id, and no others. */
  lemma SaveConserves<K(!new), P>(c: Cache<K, P>, id: K, p: P)
    requires Valid(c) && c.limit == 0
    ensures var (r, ds) := Save(c, id, p);
            Waiters(r) + TicketsOf(ds) == Waiters(c)
  {
    if id in c.slots && c.slots[id].Waiting? {
      var ts := c.slots[id].tickets;
      WaitersUpdate(c.order, c.slots, id, Ready(p));
      AnswerTickets(ts, p);
    }
  }

  /** With no open subject left, nobody is waiting. */
  lemma {:induction false} NoOpenNoWaiters<K(!new), P>(order: seq<K>, slots: map<K, Slot<P>>)
    requires forall k :: k in slots ==> slots[k].Ready?
    ensures WaitersIn(order, slots) == multiset{}
  {
    if |order| > 0 {
      NoOpenNoWaiters(order[1..], slots);
    }
  }

  /** With no ticket left in any slot, nobody is waiting. */
  lemma {:induction false} NoTicketsNoWaiters<K(!new), P>(order: seq<K>, slots: map<K, Slot<P>>)
    requires forall k :: k in slots ==> SlotWaiters(slots[k]) == multiset{}
    ensures WaitersIn(order, slots) == multiset{}
  {
    if |order| > 0 {
      NoTicketsNoWaiters(order[1..], slots);
    }
  }
}
