/**
 * The batching loader. Each request's args get a key (`argsToKey`) and go
 * through a `memoryCache`: a key already holding a found item is answered
 * from the cache; the rest (first requests of a key, and replays of
 * not-found answers) are collected per time window, cut into chunks of
 * `batchSize`, and each chunk becomes one loader call. Results are matched
 * back to the chunk's payloads by the key of the args they were loaded
 * from, saved into the cache (which answers the requests waiting on those
 * keys) and emitted. Every request emits its item, `undefined` when the
 * loader returned nothing for it.
 *
 * Windows are given: a `Tick` event closes the current one. The loader
 * answers a call immediately (before the next event).
 */
module DataLoader {
  import opened Wrappers
  import opened Traces
  import opened Keyed
  import ArgsKey
  import MC = MemoryCache

  type Args = ArgsKey.Value
  type Key = ArgsKey.Key

  /** A request on its way: its args, their key, and its item once looked up (`None` for `undefined`). */
  datatype Payload<I> = Payload(args: Args, id: Key, item: Option<I>)

  /** A payload on the not-found path, with the number of the request it answers. */
  datatype Entry<I> = Entry(ticket: nat, payload: Payload<I>)

  /** The item emitted for request `ticket`. */
  datatype Answer<I> = Answer(ticket: nat, item: Option<I>)

  /** What one loader call settles to: its results, or a rejection. */
  datatype Fetched<I> = Loaded(results: seq<I>) | Rejected(reason: string)

  /**
   * The operator's parameters: the loader, `getArgsFromData` (the args a
   * result was loaded from) and `batchSize`. `timeToBuffer` is replaced by
   * explicit window boundaries.
   */
  datatype Config<!I> = Config(loader: seq<Args> -> Fetched<I>, argsOf: I -> Args, batchSize: int)

  /** The shared cache and the current window's not-found payloads. */
  datatype State<I> = State(cache: MC.Cache<Key, Payload<I>>, missing: seq<Entry<I>>)

  // ---------------------------------------------------------------------------
  // Chunks: `bufferCount(batchSize)` over one window's payloads.
  // ---------------------------------------------------------------------------

  /**
   * Consecutive chunks of `size` (the last may be shorter). A `size` of zero
   * or less never fills a chunk, so the window becomes a single chunk.
   */
  function Chunk<T>(xs: seq<T>, size: int): (r: seq<seq<T>>)
    ensures Flatten(r) == xs
    ensures forall i :: 0 <= i < |r| ==> |r[i]| > 0
    ensures size > 0 ==> forall i :: 0 <= i < |r| ==> |r[i]| <= size
    ensures size > 0 ==> forall i :: 0 <= i < |r| - 1 ==> |r[i]| == size
    ensures size <= 0 ==> |r| <= 1
    decreases |xs|
  {
    if |xs| == 0 then []
    else if size <= 0 || |xs| <= size then [xs]
    else
      var rest := Chunk(xs[size..], size);
      assert xs == xs[..size] + xs[size..];
      [xs[..size]] + rest
  }

  // ---------------------------------------------------------------------------
  // The items map: `new Map(results.map(r => [key(r), r]))`.
  // ---------------------------------------------------------------------------

  /** `Map.prototype.set`: an existing key keeps its place and takes the new value; a new key goes last. */
  function MapSet<V>(m: seq<(Key, V)>, k: Key, v: V): (r: seq<(Key, V)>)
    ensures Lookup(r, k) == Some(v)
    ensures forall k2 :: k2 != k ==> Lookup(r, k2) == Lookup(m, k2)
    ensures UniqueKeys(m) ==> UniqueKeys(r)
    ensures Keys(r) == Keys(m) + {k}
  {
    if |m| == 0 then [(k, v)]
    else if m[0].0 == k then [(k, v)] + m[1..]
    else [m[0]] + MapSet(m[1..], k, v)
  }

  /** A `Map` built from `pairs` in order. */
  function BuildMap<V>(pairs: seq<(Key, V)>): (r: seq<(Key, V)>)
    ensures UniqueKeys(r)
  {
    if |pairs| == 0 then []
    else
      var last := pairs[|pairs| - 1];
      MapSet(BuildMap(pairs[..|pairs| - 1]), last.0, last.1)
  }

  /** The value of the last pair named `k`. */
  function LastValue<V>(pairs: seq<(Key, V)>, k: Key): (r: Option<V>)
    ensures r.Some? ==> (k, r.value) in pairs
    ensures r.None? ==> forall i :: 0 <= i < |pairs| ==> pairs[i].0 != k
  {
    if |pairs| == 0 then None
    else if pairs[|pairs| - 1].0 == k then Some(pairs[|pairs| - 1].1)
    else LastValue(pairs[..|pairs| - 1], k)
  }

  /** In a `Map` built from pairs, a key holds the value of its last pair: the last result wins. */
  lemma {:induction false} LastWins<V>(pairs: seq<(Key, V)>, k: Key)
    ensures Lookup(BuildMap(pairs), k) == LastValue(pairs, k)
  {
    if |pairs| > 0 {
      LastWins(pairs[..|pairs| - 1], k);
    }
  }

  /** The map a chunk's results are matched through: each result under the key of the args it was loaded from. */
  function KeyResults<I>(argsOf: I -> Args, results: seq<I>): (r: seq<(Key, I)>)
    ensures |r| == |results|
    ensures forall i :: 0 <= i < |r| ==> r[i] == (ArgsKey.ArgsToKey(argsOf(results[i])), results[i])
  {
    seq(|results|, i requires 0 <= i < |results| => (ArgsKey.ArgsToKey(argsOf(results[i])), results[i]))
  }

  // ---------------------------------------------------------------------------
  // Accounting by request number.
  // ---------------------------------------------------------------------------

  /** The requests a sequence of answers serves. */
  function Served<I>(ans: seq<Answer<I>>): multiset<nat>
  {
    if |ans| == 0 then multiset{} else multiset{ans[0].ticket} + Served(ans[1..])
  }

  /** The requests a sequence of not-found payloads stands for. */
  function Asked<I>(es: seq<Entry<I>>): multiset<nat>
  {
    if |es| == 0 then multiset{} else multiset{es[0].ticket} + Asked(es[1..])
  }

  lemma {:induction false} ServedAppend<I>(a: seq<Answer<I>>, b: seq<Answer<I>>)
    ensures Served(a + b) == Served(a) + Served(b)
  {
    if |a| > 0 {
      assert (a + b)[1..] == a[1..] + b;
      ServedAppend(a[1..], b);
    } else {
      assert a + b == b;
    }
  }

  lemma {:induction false} AskedAppend<I>(a: seq<Entry<I>>, b: seq<Entry<I>>)
    ensures Asked(a + b) == Asked(a) + Asked(b)
  {
    if |a| > 0 {
      assert (a + b)[1..] == a[1..] + b;
      AskedAppend(a[1..], b);
    } else {
      assert a + b == b;
    }
  }

  lemma ServedOne<I>(a: Answer<I>)
    ensures Served([a]) == multiset{a.ticket}
  {
    assert [a][1..] == [];
  }

  lemma {:induction false} ServedCount<I>(ans: seq<Answer<I>>)
    ensures |Served(ans)| == |ans|
  {
    if |ans| > 0 {
      ServedCount(ans[1..]);
    }
  }

  // ---------------------------------------------------------------------------
  // Routing: `loadObs` split into `foundObs` and `notFoundObs`.
  // ---------------------------------------------------------------------------

  /** The payloads coming out of the cache that hold an item: `foundObs`, emitted at once. */
  function Found<I>(ds: seq<MC.Delivery<Payload<I>>>): (r: seq<Answer<I>>)
    ensures forall i :: 0 <= i < |r| ==> r[i].item.Some?
    ensures |r| <= |ds|
  {
    if |ds| == 0 then []
    else if ds[0].payload.item.Some? then [Answer(ds[0].ticket, ds[0].payload.item)] + Found(ds[1..])
    else Found(ds[1..])
  }

  /** The payloads coming out of the cache without an item: `notFoundObs`, joining the window. */
  function NotFound<I>(ds: seq<MC.Delivery<Payload<I>>>): (r: seq<Entry<I>>)
    ensures forall i :: 0 <= i < |r| ==> r[i].payload.item.None?
    ensures forall i :: 0 <= i < |r| ==> MC.Delivery(r[i].ticket, r[i].payload) in ds
  {
    if |ds| == 0 then []
    else if ds[0].payload.item.None? then [Entry(ds[0].ticket, ds[0].payload)] + NotFound(ds[1..])
    else NotFound(ds[1..])
  }

  /** Routing loses and duplicates nothing: each payload out of the cache goes down exactly one path. */
  lemma {:induction false} RouteConserves<I>(ds: seq<MC.Delivery<Payload<I>>>)
    ensures Served(Found(ds)) + Asked(NotFound(ds)) == MC.TicketsOf(ds)
  {
    if |ds| > 0 {
      RouteConserves(ds[1..]);
      var d := ds[0];
      if d.payload.item.Some? {
        assert ([Answer(d.ticket, d.payload.item)] + Found(ds[1..]))[1..] == Found(ds[1..]);
      } else {
        assert ([Entry(d.ticket, d.payload)] + NotFound(ds[1..]))[1..] == NotFound(ds[1..]);
      }
    }
  }

  lemma RouteOne<I>(ds: seq<MC.Delivery<Payload<I>>>)
    ensures |ds| == 1 && ds[0].payload.item.Some? ==>
              Found(ds) == [Answer(ds[0].ticket, ds[0].payload.item)] && NotFound(ds) == []
    ensures |ds| == 1 && ds[0].payload.item.None? ==>
              Found(ds) == [] && NotFound(ds) == [Entry(ds[0].ticket, ds[0].payload)]
  {
    if |ds| == 1 {
      assert ds[1..] == [];
    }
  }

  /**
   * A request arrives: its args get their key and go through `cache.load`.
   * A key holding a found item answers at once and nothing is fetched; a
   * new key, or one whose saved item is `undefined`, joins the window; a key
   * being fetched waits for the fetch.
   */
  function Arrive<I>(st: State<I>, ticket: nat, args: Args): (r: (State<I>, seq<Answer<I>>))
    requires MC.Valid(st.cache)
    ensures MC.Valid(r.0.cache) && r.0.cache.limit == st.cache.limit
    ensures var id := ArgsKey.ArgsToKey(args);
            var slots := st.cache.slots;
            && (id !in slots ==>
                  r.1 == [] && r.0.missing == st.missing + [Entry(ticket, Payload(args, id, None))] &&
                  (st.cache.limit == 0 ==> r.0.cache.slots == slots[id := MC.Waiting([])]))
            && (id in slots && slots[id].Ready? && slots[id].payload.item.Some? ==>
                  r.1 == [Answer(ticket, slots[id].payload.item)] && r.0.missing == st.missing &&
                  r.0.cache.slots == slots)
            && (id in slots && slots[id].Ready? && slots[id].payload.item.None? ==>
                  r.1 == [] && r.0.missing == st.missing + [Entry(ticket, slots[id].payload)] &&
                  r.0.cache.slots == slots)
            && (id in slots && slots[id].Waiting? ==>
                  r.1 == [] && r.0.missing == st.missing &&
                  r.0.cache.slots == slots[id := MC.Waiting(slots[id].tickets + [ticket])])
  {
    var id := ArgsKey.ArgsToKey(args);
    var (c, ds) := MC.Load(st.cache, id, ticket, Payload(args, id, None));
    RouteOne(ds);
    (State(c, st.missing + NotFound(ds)), Found(ds))
  }

  // ---------------------------------------------------------------------------
  // Closing a window: chunks, loader calls, match-back and `cache.save`.
  // ---------------------------------------------------------------------------

  /** The args of a run of payloads, in order: one loader call's argument. */
  function ArgsOf<I>(es: seq<Entry<I>>): (r: seq<Args>)
    ensures |r| == |es|
    ensures forall i :: 0 <= i < |es| ==> r[i] == es[i].payload.args
  {
    seq(|es|, i requires 0 <= i < |es| => es[i].payload.args)
  }

  /** `itemsMap` of one loader call: each result under the key of the args it was loaded from. */
  function ItemsMap<I>(argsOf: I -> Args, results: seq<I>): (r: seq<(Key, I)>)
    ensures UniqueKeys(r)
  {
    BuildMap(KeyResults(argsOf, results))
  }

  /**
   * Match-back: a payload gets the last result whose args have its key, or
   * `undefined` when no result has it.
   */
  lemma MatchBack<I>(argsOf: I -> Args, results: seq<I>, id: Key)
    ensures var r := Lookup(ItemsMap(argsOf, results), id);
            && r == LastValue(KeyResults(argsOf, results), id)
            && (r.Some? ==> r.value in results && ArgsKey.ArgsToKey(argsOf(r.value)) == id)
            && (r.None? <==> forall i :: 0 <= i < |results| ==> ArgsKey.ArgsToKey(argsOf(results[i])) != id)
  {
    var pairs := KeyResults(argsOf, results);
    LastWins(pairs, id);
    var r := LastValue(pairs, id);
    if r.Some? {
      assert (id, r.value) in pairs;
    } else {
      assert forall i :: 0 <= i < |pairs| ==> pairs[i].0 != id;
    }
  }

  /**
   * Emits a chunk's payloads with their matched items, each through
   * `cache.save`: saving answers the requests waiting on the key (those
   * without an item go back to the window), and then the payload itself is
   * emitted.
   */
  function SaveEntries<I>(c: MC.Cache<Key, Payload<I>>, es: seq<Entry<I>>, items: seq<(Key, I)>)
    : (r: (MC.Cache<Key, Payload<I>>, seq<Answer<I>>, seq<Entry<I>>))
    requires MC.Valid(c)
    ensures MC.Valid(r.0) && r.0.limit == c.limit && r.0.slots.Keys == c.slots.Keys
    decreases |es|
  {
    if |es| == 0 then (c, [], [])
    else
      var e := es[0];
      var p := e.payload.(item := Lookup(items, e.payload.id));
      var (c1, ds) := MC.Save(c, p.id, p);
      var (c2, ans, reps) := SaveEntries(c1, es[1..], items);
      (c2, Found(ds) + [Answer(e.ticket, p.item)] + ans, NotFound(ds) + reps)
  }

  /** Each payload of a chunk is emitted with the result matched to its key, or `undefined`. */
  lemma {:induction false} SaveEntriesMatched<I>(c: MC.Cache<Key, Payload<I>>, es: seq<Entry<I>>, items: seq<(Key, I)>)
    requires MC.Valid(c)
    ensures var ans := SaveEntries(c, es, items).1;
            forall i :: 0 <= i < |es| ==> Answer(es[i].ticket, Lookup(items, es[i].payload.id)) in ans
    decreases |es|
  {
    if |es| > 0 {
      var e := es[0];
      var p := e.payload.(item := Lookup(items, e.payload.id));
      var (c1, ds) := MC.Save(c, p.id, p);
      var ans := SaveEntries(c1, es[1..], items).1;
      assert SaveEntries(c, es, items).1 == Found(ds) + [Answer(e.ticket, p.item)] + ans;
      SaveEntriesMatched(c1, es[1..], items);
      assert forall i :: 1 <= i < |es| ==> es[i] == es[1..][i - 1];
    }
  }

  /** The outcome of a window's loader calls. */
  datatype Closed<I> = Closed(
    cache: MC.Cache<Key, Payload<I>>,
    answers: seq<Answer<I>>,
    replays: seq<Entry<I>>,
    calls: seq<seq<Args>>,
    failure: Option<string>)

  /** The loader call for `chunk` yields results. */
  predicate Settles<I>(cfg: Config<I>, chunk: seq<Entry<I>>) {
    cfg.loader(ArgsOf(chunk)).Loaded?
  }

  /**
   * `concatMap` over the chunks: one loader call at a time, in order; a
   * rejected call ends the stream with its error.
   */
  function ProcessChunks<I>(cfg: Config<I>, c: MC.Cache<Key, Payload<I>>, chunks: seq<seq<Entry<I>>>): (r: Closed<I>)
    requires MC.Valid(c)
    ensures MC.Valid(r.cache) && r.cache.limit == c.limit
    ensures |r.calls| <= |chunks|
    ensures r.failure.Some? ==> 0 < |r.calls| && cfg.loader(r.calls[|r.calls| - 1]) == Rejected(r.failure.value)
    decreases |chunks|
  {
    if |chunks| == 0 then Closed(c, [], [], [], None)
    else
      var args := ArgsOf(chunks[0]);
      match cfg.loader(args)
      case Rejected(e) => Closed(c, [], [], [args], Some(e))
      case Loaded(results) =>
        var (c1, ans, reps) := SaveEntries(c, chunks[0], ItemsMap(cfg.argsOf, results));
        var rest := ProcessChunks(cfg, c1, chunks[1..]);
        Closed(rest.cache, ans + rest.answers, reps + rest.replays, [args] + rest.calls, rest.failure)
  }

  /**
   * The loader is called once per chunk, in order, with the chunk's args,
   * until a call rejects: then no further chunk is fetched and the
   * rejection's reason is the failure.
   */
  lemma ProcessCalls<I>(cfg: Config<I>, c: MC.Cache<Key, Payload<I>>, chunks: seq<seq<Entry<I>>>)
    requires MC.Valid(c)
    ensures var r := ProcessChunks(cfg, c, chunks);
            && (forall i :: 0 <= i < |r.calls| ==> r.calls[i] == ArgsOf(chunks[i]))
            && (r.failure.None? ==>
                  |r.calls| == |chunks| && forall i :: 0 <= i < |chunks| ==> Settles(cfg, chunks[i]))
            && (r.failure.Some? ==>
                  && 0 < |r.calls|
                  && (forall i :: 0 <= i < |r.calls| - 1 ==> Settles(cfg, chunks[i]))
                  && cfg.loader(ArgsOf(chunks[|r.calls| - 1])) == Rejected(r.failure.value))
  {
    CallArgs(cfg, c, chunks);
    CallsSettle(cfg, c, chunks);
  }

  lemma {:induction false} CallArgs<I>(cfg: Config<I>, c: MC.Cache<Key, Payload<I>>, chunks: seq<seq<Entry<I>>>)
    requires MC.Valid(c)
    ensures var r := ProcessChunks(cfg, c, chunks);
            forall i :: 0 <= i < |r.calls| ==> r.calls[i] == ArgsOf(chunks[i])
    decreases |chunks|
  {
    if |chunks| > 0 && cfg.loader(ArgsOf(chunks[0])).Loaded? {
      var args := ArgsOf(chunks[0]);
      var c1 := SaveEntries(c, chunks[0], ItemsMap(cfg.argsOf, cfg.loader(args).results)).0;
      var rest := ProcessChunks(cfg, c1, chunks[1..]);
      var r := ProcessChunks(cfg, c, chunks);
      assert r.calls == [args] + rest.calls;
      CallArgs(cfg, c1, chunks[1..]);
      forall i | 1 <= i < |r.calls|
        ensures r.calls[i] == ArgsOf(chunks[i])
      {
        assert r.calls[i] == rest.calls[i - 1] && chunks[1..][i - 1] == chunks[i];
      }
    }
  }

  lemma {:induction false} CallsSettle<I>(cfg: Config<I>, c: MC.Cache<Key, Payload<I>>, chunks: seq<seq<Entry<I>>>)
    requires MC.Valid(c)
    ensures var r := ProcessChunks(cfg, c, chunks);
            && (r.failure.None? ==>
                  |r.calls| == |chunks| && forall i :: 0 <= i < |chunks| ==> Settles(cfg, chunks[i]))
            && (r.failure.Some? ==>
                  && (forall i :: 0 <= i < |r.calls| - 1 ==> Settles(cfg, chunks[i]))
                  && cfg.loader(ArgsOf(chunks[|r.calls| - 1])) == Rejected(r.failure.value))
    decreases |chunks|
  {
    if |chunks| > 0 && cfg.loader(ArgsOf(chunks[0])).Loaded? {
      var args := ArgsOf(chunks[0]);
      var c1 := SaveEntries(c, chunks[0], ItemsMap(cfg.argsOf, cfg.loader(args).results)).0;
      var rest := ProcessChunks(cfg, c1, chunks[1..]);
      var r := ProcessChunks(cfg, c, chunks);
      assert r.calls == [args] + rest.calls && r.failure == rest.failure;
      CallsSettle(cfg, c1, chunks[1..]);
      forall i | 1 <= i < |chunks|
        ensures chunks[1..][i - 1] == chunks[i]
      {
      }
    }
  }

  lemma {:induction false} ArgsOfAppend<I>(a: seq<Entry<I>>, b: seq<Entry<I>>)
    ensures ArgsOf(a + b) == ArgsOf(a) + ArgsOf(b)
  {
    assert forall i :: 0 <= i < |a + b| ==> ArgsOf(a + b)[i] == (ArgsOf(a) + ArgsOf(b))[i];
  }

  /** Calls made one per chunk, in order, carry the args of the chunks joined end to end. */
  lemma {:induction false} FlattenArgs<I>(calls: seq<seq<Args>>, gs: seq<seq<Entry<I>>>)
    requires |calls| == |gs|
    requires forall i :: 0 <= i < |gs| ==> calls[i] == ArgsOf(gs[i])
    ensures Flatten(calls) == ArgsOf(Flatten(gs))
  {
    if |gs| > 0 {
      FlattenArgs(calls[1..], gs[1..]);
      ArgsOfAppend(gs[0], Flatten(gs[1..]));
    }
  }

  /**
   * A window closes (`bufferTime`): its payloads are cut into chunks of
   * `batchSize` and fetched chunk by chunk. The payloads replayed while
   * saving form the next window.
   */
  function Close<I>(cfg: Config<I>, st: State<I>): (r: Closed<I>)
    requires MC.Valid(st.cache)
    ensures MC.Valid(r.cache) && r.cache.limit == st.cache.limit
    ensures r.failure.None? ==> Flatten(r.calls) == ArgsOf(st.missing)
    ensures |st.missing| == 0 ==> r == Closed(st.cache, [], [], [], None)
    ensures r.failure.Some? ==> 0 < |r.calls| && cfg.loader(r.calls[|r.calls| - 1]) == Rejected(r.failure.value)
  {
    var chunks := Chunk(st.missing, cfg.batchSize);
    var r := ProcessChunks(cfg, st.cache, chunks);
    ProcessCalls(cfg, st.cache, chunks);
    if r.failure.None? then
      FlattenArgs(r.calls, chunks);
      r
    else r
  }

  /**
   * Each loader call of a window carries between one and `batchSize` args;
   * a `batchSize` that is not positive makes the whole window one call.
   */
  lemma CloseBatches<I>(cfg: Config<I>, st: State<I>)
    requires MC.Valid(st.cache)
    ensures var r := Close(cfg, st);
            && (cfg.batchSize > 0 ==> forall i :: 0 <= i < |r.calls| ==> 0 < |r.calls[i]| <= cfg.batchSize)
            && (cfg.batchSize <= 0 ==> |r.calls| <= 1)
  {
    CallArgs(cfg, st.cache, Chunk(st.missing, cfg.batchSize));
  }

  // ---------------------------------------------------------------------------
  // The operator over a whole input.
  // ---------------------------------------------------------------------------

  /** What the operator sees: a request (a value of `argsObs`), or the end of the current window. */
  datatype Signal = Request(args: Args) | Tick

  /** The number of requests among the signals. */
  function Requests(sigs: seq<Signal>): nat
  {
    if |sigs| == 0 then 0 else (if sigs[0].Request? then 1 else 0) + Requests(sigs[1..])
  }

  /** The request numbers `lo` up to (not including) `hi`. */
  function Span(lo: nat, hi: nat): multiset<nat>
    requires lo <= hi
    decreases hi - lo
  {
    if lo == hi then multiset{} else multiset{lo} + Span(lo + 1, hi)
  }

  /** The cache of `memoryCache()`: no `maxItems`, so a plain `Map`. */
  function Start<I>(): (st: State<I>)
    ensures MC.Valid(st.cache) && st.cache.limit == 0 && st.cache.slots == map[] && st.missing == []
  {
    State(MC.New(0), [])
  }

  /** The state after a run of signals, the answers emitted on the way and the first loader rejection. */
  datatype Fed<I> = Fed(state: State<I>, answers: seq<Answer<I>>, next: nat, failure: Option<string>)

  /** Requests are numbered from `next` in arrival order. */
  function Feed<I>(cfg: Config<I>, st: State<I>, next: nat, sigs: seq<Signal>): (r: Fed<I>)
    requires MC.Valid(st.cache)
    ensures MC.Valid(r.state.cache) && r.state.cache.limit == st.cache.limit
    ensures r.failure.None? ==> r.next == next + Requests(sigs)
    ensures r.failure.Some? ==> exists a :: cfg.loader(a) == Rejected(r.failure.value)
    decreases |sigs|
  {
    if |sigs| == 0 then Fed(st, [], next, None)
    else match sigs[0]
      case Request(args) =>
        var (st1, ans) := Arrive(st, next, args);
        var rest := Feed(cfg, st1, next + 1, sigs[1..]);
        Fed(rest.state, ans + rest.answers, rest.next, rest.failure)
      case Tick =>
        var c := Close(cfg, st);
        if c.failure.Some? then Fed(State(c.cache, c.replays), c.answers, next, c.failure)
        else
          var rest := Feed(cfg, State(c.cache, c.replays), next, sigs[1..]);
          Fed(rest.state, c.answers + rest.answers, rest.next, rest.failure)
  }

  /**
   * One stream through the operator, from state `st`: the answers it
   * emits, how its output ends, and the state it leaves. A rejected loader
   * call or an error of the input fails the output. After the input
   * completes, the remaining window is fetched, then the payloads that
   * fetch replayed, and the output completes.
   */
  function SessionFrom<I>(cfg: Config<I>, st: State<I>, input: seq<Event<Signal>>)
    : (r: (seq<Answer<I>>, Ending, State<I>))
    requires MC.Valid(st.cache)
    ensures MC.Valid(r.2.cache) && r.2.cache.limit == st.cache.limit
    ensures r.1 == Completed ==> EndingOf(input) == Completed
    ensures r.1 != Completed ==> r.1 == EndingOf(input) || r.1.Failed?
    ensures r.1.Failed? && r.1 != EndingOf(input) ==> exists a :: cfg.loader(a) == Rejected(r.1.reason)
  {
    var fed := Feed(cfg, st, 0, Values(input));
    if fed.failure.Some? then (fed.answers, Failed(fed.failure.value), fed.state)
    else match EndingOf(input)
      case Open => (fed.answers, Open, fed.state)
      case Failed(e) => (fed.answers, Failed(e), fed.state)
      case Completed =>
        var c1 := Close(cfg, fed.state);
        if c1.failure.Some? then (fed.answers + c1.answers, Failed(c1.failure.value), State(c1.cache, c1.replays))
        else
          var c2 := Close(cfg, State(c1.cache, c1.replays));
          var ans := fed.answers + c1.answers + c2.answers;
          if c2.failure.Some? then (ans, Failed(c2.failure.value), State(c2.cache, c2.replays))
          else (ans, Completed, State(c2.cache, c2.replays))
  }

  /** The whole operator over its first stream: the answers it emits and how its output ends. */
  function Session<I>(cfg: Config<I>, input: seq<Event<Signal>>): (r: (seq<Answer<I>>, Ending))
    ensures r.1 == Completed ==> EndingOf(input) == Completed
    ensures r.1 != Completed ==> r.1 == EndingOf(input) || r.1.Failed?
    ensures r.1.Failed? && r.1 != EndingOf(input) ==> exists a :: cfg.loader(a) == Rejected(r.1.reason)
  {
    var r := SessionFrom(cfg, Start(), input);
    (r.0, r.1)
  }

  /** The items of the answers, in emission order: `payload.item`. */
  function Items<I>(ans: seq<Answer<I>>): (r: seq<Option<I>>)
    ensures |r| == |ans|
    ensures forall i :: 0 <= i < |ans| ==> r[i] == ans[i].item
  {
    seq(|ans|, i requires 0 <= i < |ans| => ans[i].item)
  }

  /** The output trace of `dataloader(loader, getArgsFromData, timeToBuffer, batchSize)` over `input`. */
  function Run<I>(cfg: Config<I>, input: seq<Event<Signal>>): (r: seq<Event<Option<I>>>)
    ensures WellFormed(r)
    ensures |Values(r)| == |Session(cfg, input).0|
    ensures EndingOf(r) == Completed ==> EndingOf(input) == Completed
    ensures EndingOf(r) != Completed ==> EndingOf(r) == EndingOf(input) || EndingOf(r).Failed?
    ensures EndingOf(r).Failed? && EndingOf(r) != EndingOf(input) ==>
              exists a :: cfg.loader(a) == Rejected(EndingOf(r).reason)
  {
    var (ans, e) := Session(cfg, input);
    BuildReadsBack(Items(ans), e);
    Build(Items(ans), e)
  }

  // ---------------------------------------------------------------------------
  // Later streams. The cache is made once per `dataloader(...)` call, so
  // every stream the returned operator is applied to shares it.
  // ---------------------------------------------------------------------------

  /**
   * The cache a finished stream leaves to the next one: its subscriptions
   * to open subjects end with it, so no ticket waits any more, but the
   * subjects themselves stay, open or completed.
   */
  function Unsubscribe<I>(c: MC.Cache<Key, Payload<I>>): (r: MC.Cache<Key, Payload<I>>)
    requires MC.Valid(c)
    ensures MC.Valid(r) && r.limit == c.limit && r.slots.Keys == c.slots.Keys
    ensures MC.Waiters(r) == multiset{}
    ensures forall k :: k in c.slots ==> (r.slots[k].Waiting? <==> c.slots[k].Waiting?)
    ensures forall k :: k in c.slots && c.slots[k].Ready? ==> r.slots[k] == c.slots[k]
  {
    var slots := map k | k in c.slots :: if c.slots[k].Waiting? then MC.Waiting([]) else c.slots[k];
    MC.NoTicketsNoWaiters(c.order, slots);
    MC.Cache(c.limit, slots, c.order)
  }

  /**
   * The operator over a stream that finds `cache` as earlier streams left
   * it: the answers, how the output ends, and the cache it leaves. A
   * request whose key holds an open subject is handed that subject
   * (`flatMap` in `cache.load`), so while a request of the stream is still
   * unanswered its output cannot complete, and it stays open.
   */
  function Stream<I>(cfg: Config<I>, cache: MC.Cache<Key, Payload<I>>, input: seq<Event<Signal>>)
    : (r: (seq<Answer<I>>, Ending, MC.Cache<Key, Payload<I>>))
    requires MC.Valid(cache)
    ensures MC.Valid(r.2) && r.2.limit == cache.limit && MC.Waiters(r.2) == multiset{}
    ensures r.1 == Completed ==> EndingOf(input) == Completed
    ensures r.1 != EndingOf(input) ==>
              (r.1 == Open && EndingOf(input) == Completed) ||
              (r.1.Failed? && exists a :: cfg.loader(a) == Rejected(r.1.reason))
  {
    var s := SessionFrom(cfg, State(cache, []), input);
    var e := if s.1 == Completed && Outstanding(s.2) != multiset{} then Open else s.1;
    (s.0, e, Unsubscribe(s.2.cache))
  }

  // ---------------------------------------------------------------------------
  // No request is lost or answered twice.
  // ---------------------------------------------------------------------------

  /** The requests not answered yet: waiting on a fetch, or in the current window. */
  function Outstanding<I>(st: State<I>): multiset<nat>
  {
    MC.Waiters(st.cache) + Asked(st.missing)
  }

  // Rearrangements of ticket counts, proved pointwise.

  lemma RegroupArrive(w1: multiset<nat>, t: multiset<nat>, w: multiset<nat>, u: multiset<nat>,
                      f: multiset<nat>, n: multiset<nat>, a: multiset<nat>)
    requires w1 + t == w + u && f + n == t
    ensures (w1 + (a + n)) + f == (w + a) + u
  {
    forall x: nat
      ensures ((w1 + (a + n)) + f)[x] == ((w + a) + u)[x]
    {
      assert (w1 + t)[x] == (w + u)[x];
      assert (f + n)[x] == t[x];
    }
  }

  lemma RegroupSave(w2: multiset<nat>, s: multiset<nat>, r: multiset<nat>, w1: multiset<nat>, a1: multiset<nat>,
                    w: multiset<nat>, t: multiset<nat>, f: multiset<nat>, n: multiset<nat>, e: multiset<nat>,
                    served: multiset<nat>, replayed: multiset<nat>, asked: multiset<nat>)
    requires w1 + t == w && f + n == t && (w2 + s) + r == w1 + a1
    requires served == (f + e) + s && replayed == n + r && asked == e + a1
    ensures (w2 + served) + replayed == w + asked
  {
    forall x: nat
      ensures ((w2 + served) + replayed)[x] == (w + asked)[x]
    {
      assert (w1 + t)[x] == w[x];
      assert (f + n)[x] == t[x];
      assert ((w2 + s) + r)[x] == (w1 + a1)[x];
    }
  }

  lemma RegroupChain(w2: multiset<nat>, s2: multiset<nat>, r2: multiset<nat>, w1: multiset<nat>, af: multiset<nat>,
                     s1: multiset<nat>, r1: multiset<nat>, w: multiset<nat>, a0: multiset<nat>,
                     served: multiset<nat>, replayed: multiset<nat>, asked: multiset<nat>)
    requires (w1 + s1) + r1 == w + a0 && (w2 + s2) + r2 == w1 + af
    requires served == s1 + s2 && replayed == r1 + r2 && asked == a0 + af
    ensures (w2 + served) + replayed == w + asked
  {
    forall x: nat
      ensures ((w2 + served) + replayed)[x] == (w + asked)[x]
    {
      assert ((w1 + s1) + r1)[x] == (w + a0)[x];
      assert ((w2 + s2) + r2)[x] == (w1 + af)[x];
    }
  }

  /** An arriving request is either answered or becomes outstanding. */
  lemma ArriveConserves<I>(st: State<I>, ticket: nat, args: Args)
    requires MC.Valid(st.cache) && st.cache.limit == 0
    ensures var (r, ans) := Arrive(st, ticket, args);
            Outstanding(r) + Served(ans) == Outstanding(st) + multiset{ticket}
  {
    var id := ArgsKey.ArgsToKey(args);
    var (c, ds) := MC.Load(st.cache, id, ticket, Payload(args, id, None));
    assert Arrive(st, ticket, args) == (State(c, st.missing + NotFound(ds)), Found(ds));
    MC.LoadConserves(st.cache, id, ticket, Payload(args, id, None));
    RouteConserves(ds);
    AskedAppend(st.missing, NotFound(ds));
    RegroupArrive(MC.Waiters(c), MC.TicketsOf(ds), MC.Waiters(st.cache), multiset{ticket},
                  Served(Found(ds)), Asked(NotFound(ds)), Asked(st.missing));
  }

  /** Saving a chunk answers its payloads and moves the requests waiting on them to answers or replays. */
  lemma {:induction false} SaveEntriesConserve<I>(c: MC.Cache<Key, Payload<I>>, es: seq<Entry<I>>, items: seq<(Key, I)>)
    requires MC.Valid(c) && c.limit == 0
    ensures var (r, ans, reps) := SaveEntries(c, es, items);
            MC.Waiters(r) + Served(ans) + Asked(reps) == MC.Waiters(c) + Asked(es)
    decreases |es|
  {
    if |es| > 0 {
      var e := es[0];
      var p := e.payload.(item := Lookup(items, e.payload.id));
      var (c1, ds) := MC.Save(c, p.id, p);
      var (c2, ans, reps) := SaveEntries(c1, es[1..], items);
      var one := [Answer(e.ticket, p.item)];
      assert SaveEntries(c, es, items) == (c2, Found(ds) + one + ans, NotFound(ds) + reps);
      MC.SaveConserves(c, p.id, p);
      RouteConserves(ds);
      SaveEntriesConserve(c1, es[1..], items);
      ServedAppend(Found(ds) + one, ans);
      ServedAppend(Found(ds), one);
      ServedOne(Answer(e.ticket, p.item));
      AskedAppend(NotFound(ds), reps);
      assert Asked(es) == multiset{e.ticket} + Asked(es[1..]);
      RegroupSave(MC.Waiters(c2), Served(ans), Asked(reps), MC.Waiters(c1), Asked(es[1..]),
                  MC.Waiters(c), MC.TicketsOf(ds), Served(Found(ds)), Asked(NotFound(ds)), multiset{e.ticket},
                  Served(Found(ds) + one + ans), Asked(NotFound(ds) + reps), Asked(es));
    }
  }

  lemma {:induction false} ProcessConserves<I>(cfg: Config<I>, c: MC.Cache<Key, Payload<I>>, chunks: seq<seq<Entry<I>>>)
    requires MC.Valid(c) && c.limit == 0
    ensures var r := ProcessChunks(cfg, c, chunks);
            r.failure.None? ==>
              MC.Waiters(r.cache) + Served(r.answers) + Asked(r.replays) == MC.Waiters(c) + Asked(Flatten(chunks))
    decreases |chunks|
  {
    if |chunks| > 0 {
      var args := ArgsOf(chunks[0]);
      if cfg.loader(args).Loaded? {
        var items := ItemsMap(cfg.argsOf, cfg.loader(args).results);
        var (c1, ans, reps) := SaveEntries(c, chunks[0], items);
        var rest := ProcessChunks(cfg, c1, chunks[1..]);
        assert ProcessChunks(cfg, c, chunks) ==
               Closed(rest.cache, ans + rest.answers, reps + rest.replays, [args] + rest.calls, rest.failure);
        if rest.failure.None? {
          SaveEntriesConserve(c, chunks[0], items);
          ProcessConserves(cfg, c1, chunks[1..]);
          ServedAppend(ans, rest.answers);
          AskedAppend(reps, rest.replays);
          AskedAppend(chunks[0], Flatten(chunks[1..]));
          assert Flatten(chunks) == chunks[0] + Flatten(chunks[1..]);
          RegroupChain(MC.Waiters(rest.cache), Served(rest.answers), Asked(rest.replays), MC.Waiters(c1),
                       Asked(Flatten(chunks[1..])), Served(ans), Asked(reps), MC.Waiters(c), Asked(chunks[0]),
                       Served(ans + rest.answers), Asked(reps + rest.replays), Asked(Flatten(chunks)));
        }
      }
    }
  }

  /** A window that closes without a rejection answers or replays each of its requests. */
  lemma CloseConserves<I>(cfg: Config<I>, st: State<I>)
    requires MC.Valid(st.cache) && st.cache.limit == 0
    ensures var r := Close(cfg, st);
            r.failure.None? ==> Outstanding(State(r.cache, r.replays)) + Served(r.answers) == Outstanding(st)
  {
    ProcessConserves(cfg, st.cache, Chunk(st.missing, cfg.batchSize));
  }

  // ---------------------------------------------------------------------------
  // The bookkeeping the operator keeps, and the drain after the input ends.
  // ---------------------------------------------------------------------------

  /** A completed subject holds a payload saved under its own key. */
  ghost predicate ReadyKeyed<I>(c: MC.Cache<Key, Payload<I>>) {
    forall k :: k in c.slots && c.slots[k].Ready? ==> c.slots[k].payload.id == k
  }

  /** No subject is open: nobody waits on a fetch. */
  ghost predicate AllReady<I>(c: MC.Cache<Key, Payload<I>>) {
    forall k :: k in c.slots ==> c.slots[k].Ready?
  }

  /**
   * Between events: the cache never evicts, completed subjects are keyed
   * by their payload, and each open subject has a payload in the window
   * that will be fetched for it.
   */
  ghost predicate Inv<I>(st: State<I>) {
    && MC.Valid(st.cache) && st.cache.limit == 0 && ReadyKeyed(st.cache)
    && (forall k :: k in st.cache.slots && st.cache.slots[k].Waiting? ==>
          exists i :: 0 <= i < |st.missing| && st.missing[i].payload.id == k)
  }

  lemma ArriveKeepsInv<I>(st: State<I>, ticket: nat, args: Args)
    requires Inv(st)
    ensures Inv(Arrive(st, ticket, args).0)
  {
    var id := ArgsKey.ArgsToKey(args);
    var r := Arrive(st, ticket, args).0;
    assert forall i :: 0 <= i < |st.missing| ==> r.missing[i] == st.missing[i];
    forall k | k in r.cache.slots && r.cache.slots[k].Waiting?
      ensures exists i :: 0 <= i < |r.missing| && r.missing[i].payload.id == k
    {
      if k == id && id !in st.cache.slots {
        assert r.missing[|r.missing| - 1].payload.id == k;
      } else {
        var i :| 0 <= i < |st.missing| && st.missing[i].payload.id == k;
        assert r.missing[i].payload.id == k;
      }
    }
  }

  /** Saving a chunk leaves a completed subject as it was: the first save wins. */
  lemma {:induction false} SaveEntriesKeep<I>(c: MC.Cache<Key, Payload<I>>, es: seq<Entry<I>>, items: seq<(Key, I)>)
    requires MC.Valid(c)
    ensures var r := SaveEntries(c, es, items).0;
            forall k :: k in c.slots && c.slots[k].Ready? ==> r.slots[k] == c.slots[k]
    decreases |es|
  {
    if |es| > 0 {
      var e := es[0];
      var p := e.payload.(item := Lookup(items, e.payload.id));
      var c1 := MC.Save(c, p.id, p).0;
      assert SaveEntries(c, es, items).0 == SaveEntries(c1, es[1..], items).0;
      SaveEntriesKeep(c1, es[1..], items);
    }
  }

  /** Saving a chunk keeps completed subjects keyed by their payloads. */
  lemma {:induction false} SaveEntriesKeyed<I>(c: MC.Cache<Key, Payload<I>>, es: seq<Entry<I>>, items: seq<(Key, I)>)
    requires MC.Valid(c) && ReadyKeyed(c)
    ensures ReadyKeyed(SaveEntries(c, es, items).0)
    decreases |es|
  {
    if |es| > 0 {
      var e := es[0];
      var p := e.payload.(item := Lookup(items, e.payload.id));
      var c1 := MC.Save(c, p.id, p).0;
      assert SaveEntries(c, es, items).0 == SaveEntries(c1, es[1..], items).0;
      SaveEntriesKeyed(c1, es[1..], items);
    }
  }

  /** Saving a chunk completes the subject of each of its payloads. */
  lemma {:induction false} SaveEntriesReady<I>(c: MC.Cache<Key, Payload<I>>, es: seq<Entry<I>>, items: seq<(Key, I)>)
    requires MC.Valid(c)
    ensures var r := SaveEntries(c, es, items).0;
            forall i :: 0 <= i < |es| && es[i].payload.id in c.slots ==> r.slots[es[i].payload.id].Ready?
    decreases |es|
  {
    if |es| > 0 {
      var e := es[0];
      var p := e.payload.(item := Lookup(items, e.payload.id));
      var c1 := MC.Save(c, p.id, p).0;
      var r := SaveEntries(c, es, items).0;
      assert r == SaveEntries(c1, es[1..], items).0;
      SaveEntriesReady(c1, es[1..], items);
      SaveEntriesKeep(c1, es[1..], items);
      forall i | 0 <= i < |es| && es[i].payload.id in c.slots
        ensures r.slots[es[i].payload.id].Ready?
      {
        if i > 0 {
          assert es[i] == es[1..][i - 1];
        }
      }
    }
  }

  /** The payloads a chunk replays belong to subjects that exist; with no subject open, nothing is replayed. */
  lemma {:induction false} SaveEntriesReplays<I>(c: MC.Cache<Key, Payload<I>>, es: seq<Entry<I>>, items: seq<(Key, I)>)
    requires MC.Valid(c)
    ensures var reps := SaveEntries(c, es, items).2;
            && (forall i :: 0 <= i < |reps| ==> reps[i].payload.id in c.slots)
            && (AllReady(c) ==> reps == [])
    decreases |es|
  {
    if |es| > 0 {
      var e := es[0];
      var p := e.payload.(item := Lookup(items, e.payload.id));
      var (c1, ds) := MC.Save(c, p.id, p);
      var reps := SaveEntries(c1, es[1..], items).2;
      assert SaveEntries(c, es, items).2 == NotFound(ds) + reps;
      SaveEntriesReplays(c1, es[1..], items);
      SaveEntriesKeep(c1, es[1..], items);
      assert forall i :: 0 <= i < |NotFound(ds)| ==> NotFound(ds)[i].payload == p;
    }
  }

  /** Fetching chunks neither adds nor drops subjects, and leaves completed subjects as they were. */
  lemma {:induction false} ProcessKeep<I>(cfg: Config<I>, c: MC.Cache<Key, Payload<I>>, chunks: seq<seq<Entry<I>>>)
    requires MC.Valid(c)
    ensures var r := ProcessChunks(cfg, c, chunks).cache;
            && r.slots.Keys == c.slots.Keys
            && (forall k :: k in c.slots && c.slots[k].Ready? ==> r.slots[k] == c.slots[k])
            && (ReadyKeyed(c) ==> ReadyKeyed(r))
    decreases |chunks|
  {
    if |chunks| > 0 && cfg.loader(ArgsOf(chunks[0])).Loaded? {
      var items := ItemsMap(cfg.argsOf, cfg.loader(ArgsOf(chunks[0])).results);
      var c1 := SaveEntries(c, chunks[0], items).0;
      assert ProcessChunks(cfg, c, chunks).cache == ProcessChunks(cfg, c1, chunks[1..]).cache;
      SaveEntriesKeep(c, chunks[0], items);
      if ReadyKeyed(c) {
        SaveEntriesKeyed(c, chunks[0], items);
      }
      ProcessKeep(cfg, c1, chunks[1..]);
    }
  }

  /** Fetching every chunk completes the subject of each payload in them. */
  lemma {:induction false} ProcessReady<I>(cfg: Config<I>, c: MC.Cache<Key, Payload<I>>, chunks: seq<seq<Entry<I>>>)
    requires MC.Valid(c)
    ensures var r := ProcessChunks(cfg, c, chunks);
            var all := Flatten(chunks);
            r.failure.None? ==>
              forall i :: 0 <= i < |all| && all[i].payload.id in c.slots ==>
                all[i].payload.id in r.cache.slots && r.cache.slots[all[i].payload.id].Ready?
    decreases |chunks|
  {
    ProcessKeep(cfg, c, chunks);
    if |chunks| > 0 && cfg.loader(ArgsOf(chunks[0])).Loaded? {
      var items := ItemsMap(cfg.argsOf, cfg.loader(ArgsOf(chunks[0])).results);
      var c1 := SaveEntries(c, chunks[0], items).0;
      var r := ProcessChunks(cfg, c, chunks);
      assert r == ProcessChunks(cfg, c1, chunks[1..]).(
        answers := r.answers, replays := r.replays, calls := r.calls);
      SaveEntriesReady(c, chunks[0], items);
      ProcessKeep(cfg, c1, chunks[1..]);
      ProcessReady(cfg, c1, chunks[1..]);
      var all := Flatten(chunks);
      assert all == chunks[0] + Flatten(chunks[1..]);
      if r.failure.None? {
        forall i | 0 <= i < |all| && all[i].payload.id in c.slots
          ensures all[i].payload.id in r.cache.slots && r.cache.slots[all[i].payload.id].Ready?
        {
          if i < |chunks[0]| {
            assert all[i] == chunks[0][i];
          } else {
            assert all[i] == Flatten(chunks[1..])[i - |chunks[0]|];
          }
        }
      }
    }
  }

  /** With no subject open, fetching replays nothing and opens nothing. */
  lemma {:induction false} ProcessNoReplays<I>(cfg: Config<I>, c: MC.Cache<Key, Payload<I>>, chunks: seq<seq<Entry<I>>>)
    requires MC.Valid(c) && AllReady(c)
    ensures ProcessChunks(cfg, c, chunks).replays == []
    ensures AllReady(ProcessChunks(cfg, c, chunks).cache)
    decreases |chunks|
  {
    ProcessKeep(cfg, c, chunks);
    if |chunks| > 0 && cfg.loader(ArgsOf(chunks[0])).Loaded? {
      var items := ItemsMap(cfg.argsOf, cfg.loader(ArgsOf(chunks[0])).results);
      var (c1, ans, reps) := SaveEntries(c, chunks[0], items);
      var rest := ProcessChunks(cfg, c1, chunks[1..]).replays;
      assert ProcessChunks(cfg, c, chunks).replays == reps + rest;
      SaveEntriesReplays(c, chunks[0], items);
      SaveEntriesKeep(c, chunks[0], items);
      ProcessNoReplays(cfg, c1, chunks[1..]);
    }
  }

  /**
   * A window that closes without a rejection completes every subject that
   * was open: each had a payload in the window, and that payload was saved.
   */
  lemma CloseKeepsInv<I>(cfg: Config<I>, st: State<I>)
    requires Inv(st)
    ensures var r := Close(cfg, st);
            r.failure.None? ==> AllReady(r.cache) && Inv(State(r.cache, r.replays))
  {
    var chunks := Chunk(st.missing, cfg.batchSize);
    var r := Close(cfg, st);
    ProcessKeep(cfg, st.cache, chunks);
    ProcessReady(cfg, st.cache, chunks);
    if r.failure.None? {
      forall k | k in r.cache.slots
        ensures r.cache.slots[k].Ready?
      {
        if st.cache.slots[k].Waiting? {
          var i :| 0 <= i < |st.missing| && st.missing[i].payload.id == k;
          assert Flatten(chunks)[i] == st.missing[i];
        }
      }
    }
  }

  /** Once no subject is open, a window replays nothing, and no subject opens. */
  lemma CloseDrains<I>(cfg: Config<I>, st: State<I>)
    requires MC.Valid(st.cache) && AllReady(st.cache)
    ensures Close(cfg, st).replays == [] && AllReady(Close(cfg, st).cache)
  {
    ProcessNoReplays(cfg, st.cache, Chunk(st.missing, cfg.batchSize));
  }

  lemma RegroupFeed(o1: multiset<nat>, a: multiset<nat>, o: multiset<nat>, t: multiset<nat>,
                    o2: multiset<nat>, b: multiset<nat>, later: multiset<nat>,
                    served: multiset<nat>, span: multiset<nat>)
    requires o1 + a == o + t && o2 + b == o1 + later
    requires served == a + b && span == t + later
    ensures o2 + served == o + span
  {
    forall x: nat
      ensures (o2 + served)[x] == (o + span)[x]
    {
      assert (o1 + a)[x] == (o + t)[x];
      assert (o2 + b)[x] == (o1 + later)[x];
    }
  }

  /**
   * With a loader that never rejects, feeding requests and window ends
   * keeps the bookkeeping, and every request numbered on the way is either
   * answered or still outstanding, exactly once.
   */
  lemma {:induction false} FeedConserves<I>(cfg: Config<I>, st: State<I>, next: nat, sigs: seq<Signal>)
    requires Inv(st)
    requires forall args :: cfg.loader(args).Loaded?
    ensures var r := Feed(cfg, st, next, sigs);
            && r.failure.None?
            && Inv(r.state)
            && Outstanding(r.state) + Served(r.answers) == Outstanding(st) + Span(next, r.next)
    decreases |sigs|, 1
  {
    if |sigs| > 0 {
      if sigs[0].Request? {
        FeedRequest(cfg, st, next, sigs);
      } else {
        FeedTick(cfg, st, next, sigs);
      }
    }
  }

  /** `FeedConserves` when the first signal is a request. */
  lemma {:induction false} FeedRequest<I>(cfg: Config<I>, st: State<I>, next: nat, sigs: seq<Signal>)
    requires Inv(st)
    requires forall args :: cfg.loader(args).Loaded?
    requires |sigs| > 0 && sigs[0].Request?
    ensures var r := Feed(cfg, st, next, sigs);
            && r.failure.None?
            && Inv(r.state)
            && Outstanding(r.state) + Served(r.answers) == Outstanding(st) + Span(next, r.next)
    decreases |sigs|, 0
  {
    var args := sigs[0].args;
    var (st1, ans) := Arrive(st, next, args);
    var rest := Feed(cfg, st1, next + 1, sigs[1..]);
    assert Feed(cfg, st, next, sigs) == Fed(rest.state, ans + rest.answers, rest.next, rest.failure);
    ArriveConserves(st, next, args);
    ArriveKeepsInv(st, next, args);
    FeedConserves(cfg, st1, next + 1, sigs[1..]);
    ServedAppend(ans, rest.answers);
    RegroupFeed(Outstanding(st1), Served(ans), Outstanding(st), multiset{next},
                Outstanding(rest.state), Served(rest.answers), Span(next + 1, rest.next),
                Served(ans + rest.answers), Span(next, rest.next));
  }

  /** `FeedConserves` when the first signal ends a window. */
  lemma {:induction false} FeedTick<I>(cfg: Config<I>, st: State<I>, next: nat, sigs: seq<Signal>)
    requires Inv(st)
    requires forall args :: cfg.loader(args).Loaded?
    requires |sigs| > 0 && sigs[0].Tick?
    ensures var r := Feed(cfg, st, next, sigs);
            && r.failure.None?
            && Inv(r.state)
            && Outstanding(r.state) + Served(r.answers) == Outstanding(st) + Span(next, r.next)
    decreases |sigs|, 0
  {
    var c := Close(cfg, st);
    var st1 := State(c.cache, c.replays);
    TickConserves(cfg, st);
    var rest := Feed(cfg, st1, next, sigs[1..]);
    assert Feed(cfg, st, next, sigs) == Fed(rest.state, c.answers + rest.answers, rest.next, rest.failure);
    FeedConserves(cfg, st1, next, sigs[1..]);
    ServedAppend(c.answers, rest.answers);
    RegroupFeed(Outstanding(st1), Served(c.answers), Outstanding(st), multiset{},
                Outstanding(rest.state), Served(rest.answers), Span(next, rest.next),
                Served(c.answers + rest.answers), Span(next, rest.next));
  }

  /** With a loader that never rejects, a window closes without failing, keeps the bookkeeping and loses no request. */
  lemma TickConserves<I>(cfg: Config<I>, st: State<I>)
    requires Inv(st)
    requires forall args :: cfg.loader(args).Loaded?
    ensures var c := Close(cfg, st);
            && c.failure.None?
            && Inv(State(c.cache, c.replays))
            && Outstanding(State(c.cache, c.replays)) + Served(c.answers) == Outstanding(st)
  {
    CloseConserves(cfg, st);
    CloseKeepsInv(cfg, st);
  }

  lemma {:induction false} SpanSize(lo: nat, hi: nat)
    requires lo <= hi
    ensures |Span(lo, hi)| == hi - lo
    decreases hi - lo
  {
    if lo < hi {
      SpanSize(lo + 1, hi);
    }
  }

  lemma RegroupDrain(o0: multiset<nat>, a0: multiset<nat>, span: multiset<nat>,
                     o1: multiset<nat>, a1: multiset<nat>, a2: multiset<nat>, served: multiset<nat>)
    requires o0 + a0 == span && o1 + a1 == o0 && a2 == o1 && served == (a0 + a1) + a2
    ensures served == span
  {
    forall x: nat
      ensures served[x] == span[x]
    {
      assert (o0 + a0)[x] == span[x];
      assert (o1 + a1)[x] == o0[x];
    }
  }

  /**
   * With a loader that never rejects, a stream that starts with no open
   * subject and an empty window, once its input completes, completes too:
   * every request is answered exactly once (the answers serve requests 0
   * to n - 1, each once, for n requests), and every subject it leaves is
   * completed.
   */
  lemma EveryRequestAnsweredFrom<I>(cfg: Config<I>, st0: State<I>, input: seq<Event<Signal>>)
    requires Inv(st0) && st0.missing == []
    requires forall args :: cfg.loader(args).Loaded?
    requires EndingOf(input) == Completed
    ensures var r := SessionFrom(cfg, st0, input);
            && r.1 == Completed && Served(r.0) == Span(0, Requests(Values(input)))
            && Outstanding(r.2) == multiset{} && AllReady(r.2.cache) && Inv(r.2)
  {
    assert AllReady(st0.cache);
    MC.NoOpenNoWaiters(st0.cache.order, st0.cache.slots);
    assert Outstanding(st0) == multiset{};
    var fed := Feed(cfg, st0, 0, Values(input));
    FeedConserves(cfg, st0, 0, Values(input));
    DrainAnswers(cfg, fed.state);
    var c1 := Close(cfg, fed.state);
    var c2 := Close(cfg, State(c1.cache, c1.replays));
    assert SessionFrom(cfg, st0, input)
        == (fed.answers + c1.answers + c2.answers, Completed, State(c2.cache, c2.replays));
    ServedAppend(fed.answers, c1.answers);
    ServedAppend(fed.answers + c1.answers, c2.answers);
    RegroupDrain(Outstanding(fed.state), Served(fed.answers), Span(0, fed.next),
                 Outstanding(State(c1.cache, c1.replays)), Served(c1.answers), Served(c2.answers),
                 Served(fed.answers + c1.answers + c2.answers));
  }

  /**
   * The drain after the input completes, with a loader that never rejects:
   * the two closes answer every outstanding request and leave no subject open.
   */
  lemma DrainAnswers<I>(cfg: Config<I>, st: State<I>)
    requires Inv(st)
    requires forall args :: cfg.loader(args).Loaded?
    ensures var c1 := Close(cfg, st);
            var st1 := State(c1.cache, c1.replays);
            var c2 := Close(cfg, st1);
            && c1.failure.None? && c2.failure.None?
            && Outstanding(st1) + Served(c1.answers) == Outstanding(st)
            && Served(c2.answers) == Outstanding(st1)
            && Outstanding(State(c2.cache, c2.replays)) == multiset{}
            && AllReady(c2.cache) && Inv(State(c2.cache, c2.replays))
  {
    var c1 := Close(cfg, st);
    CloseConserves(cfg, st);
    CloseKeepsInv(cfg, st);
    var st1 := State(c1.cache, c1.replays);
    var c2 := Close(cfg, st1);
    CloseConserves(cfg, st1);
    CloseDrains(cfg, st1);
    CloseKeepsInv(cfg, st1);
    MC.NoOpenNoWaiters(c2.cache.order, c2.cache.slots);
    assert Outstanding(State(c2.cache, c2.replays)) == multiset{};
  }

  /**
   * With a loader that never rejects, once the input completes the output
   * completes too, and every request is answered exactly once.
   */
  lemma EveryRequestAnsweredOnce<I>(cfg: Config<I>, input: seq<Event<Signal>>)
    requires forall args :: cfg.loader(args).Loaded?
    requires EndingOf(input) == Completed
    ensures var (ans, e) := Session(cfg, input);
            e == Completed && Served(ans) == Span(0, Requests(Values(input)))
  {
    EveryRequestAnsweredFrom(cfg, Start(), input);
  }

  /**
   * Every request emits one item: over a completed input, with a loader
   * that never rejects, the output completes after exactly one value per
   * request.
   */
  lemma OneItemPerRequest<I>(cfg: Config<I>, input: seq<Event<Signal>>)
    requires forall args :: cfg.loader(args).Loaded?
    requires EndingOf(input) == Completed
    ensures var out := Run(cfg, input);
            EndingOf(out) == Completed && |Values(out)| == Requests(Values(input))
  {
    var (ans, e) := Session(cfg, input);
    EveryRequestAnsweredOnce(cfg, input);
    BuildReadsBack(Items(ans), e);
    ServedCount(ans);
    SpanSize(0, Requests(Values(input)));
  }

  // ---------------------------------------------------------------------------
  // A loader that rejects.
  // ---------------------------------------------------------------------------

  /** No subject has completed, and an empty window means nothing was asked yet. */
  ghost predicate Quiet<I>(st: State<I>) {
    && MC.Valid(st.cache) && st.cache.limit == 0
    && (forall k :: k in st.cache.slots ==> st.cache.slots[k].Waiting?)
    && (st.missing == [] ==> st.cache.slots == map[])
  }

  /** With a loader that rejects with `e`, an empty window closes quietly and any other window fails with `e`, answering nobody. */
  lemma CloseRejected<I>(cfg: Config<I>, st: State<I>, e: string)
    requires MC.Valid(st.cache)
    requires forall args :: cfg.loader(args) == Rejected(e)
    ensures var r := Close(cfg, st);
            && (st.missing == [] ==> r == Closed(st.cache, [], [], [], None))
            && (st.missing != [] ==> r.answers == [] && r.failure == Some(e) && r.cache == st.cache)
  {
    if st.missing != [] {
      var chunks := Chunk(st.missing, cfg.batchSize);
      assert Flatten(chunks) == st.missing;
      assert cfg.loader(ArgsOf(chunks[0])) == Rejected(e);
    }
  }

  /** A request arriving in a quiet state answers nobody and leaves a non-empty window. */
  lemma ArriveQuiet<I>(st: State<I>, ticket: nat, args: Args)
    requires Quiet(st)
    ensures var (st1, ans) := Arrive(st, ticket, args);
            ans == [] && st1.missing != [] && Quiet(st1)
  {
  }

  /**
   * What feeding signals with a loader that rejects with `e` amounts to:
   * nobody is answered, a failure is `e`, and otherwise the state stays
   * quiet, with a non-empty window as soon as any request has arrived.
   */
  ghost predicate RejectedFeed<I>(st: State<I>, sigs: seq<Signal>, r: Fed<I>, e: string)
  {
    && r.answers == []
    && (r.failure.Some? ==> r.failure == Some(e))
    && (r.failure.None? ==> Quiet(r.state))
    && (r.failure.None? && (st.missing != [] || Requests(sigs) > 0) ==> r.state.missing != [])
  }

  /** With a loader that rejects with `e`, feeding signals from a quiet state answers nobody. */
  lemma {:induction false} FeedRejecting<I>(cfg: Config<I>, st: State<I>, next: nat, sigs: seq<Signal>, e: string)
    requires forall args :: cfg.loader(args) == Rejected(e)
    requires Quiet(st)
    ensures RejectedFeed(st, sigs, Feed(cfg, st, next, sigs), e)
    decreases |sigs|, 1
  {
    if |sigs| > 0 {
      if sigs[0].Request? {
        FeedRejectRequest(cfg, st, next, sigs, e);
      } else {
        FeedRejectTick(cfg, st, next, sigs, e);
      }
    }
  }

  /** `FeedRejecting` when the first signal is a request. */
  lemma {:induction false} FeedRejectRequest<I>(cfg: Config<I>, st: State<I>, next: nat, sigs: seq<Signal>, e: string)
    requires forall args :: cfg.loader(args) == Rejected(e)
    requires Quiet(st)
    requires |sigs| > 0 && sigs[0].Request?
    ensures RejectedFeed(st, sigs, Feed(cfg, st, next, sigs), e)
    decreases |sigs|, 0
  {
    var (st1, ans) := Arrive(st, next, sigs[0].args);
    ArriveQuiet(st, next, sigs[0].args);
    FeedRejecting(cfg, st1, next + 1, sigs[1..], e);
    var rest := Feed(cfg, st1, next + 1, sigs[1..]);
    assert Feed(cfg, st, next, sigs) == Fed(rest.state, ans + rest.answers, rest.next, rest.failure);
  }

  /** `FeedRejecting` when the first signal ends a window. */
  lemma {:induction false} FeedRejectTick<I>(cfg: Config<I>, st: State<I>, next: nat, sigs: seq<Signal>, e: string)
    requires forall args :: cfg.loader(args) == Rejected(e)
    requires Quiet(st)
    requires |sigs| > 0 && sigs[0].Tick?
    ensures RejectedFeed(st, sigs, Feed(cfg, st, next, sigs), e)
    decreases |sigs|, 0
  {
    CloseRejected(cfg, st, e);
    if st.missing == [] {
      var st1 := State(st.cache, []);
      FeedRejecting(cfg, st1, next, sigs[1..], e);
      var rest := Feed(cfg, st1, next, sigs[1..]);
      assert Requests(sigs) == Requests(sigs[1..]);
      assert Feed(cfg, st, next, sigs) == Fed(rest.state, [] + rest.answers, rest.next, rest.failure);
    }
  }

  /**
   * A loader that rejects fails the output: once a request has arrived and
   * the input completes, the output fails with the loader's error and
   * emits nothing before it.
   */
  lemma RejectingLoaderFails<I>(cfg: Config<I>, input: seq<Event<Signal>>, e: string)
    requires forall args :: cfg.loader(args) == Rejected(e)
    requires EndingOf(input) == Completed && Requests(Values(input)) > 0
    ensures Session(cfg, input) == ([], Failed(e))
    ensures Run(cfg, input) == [Error(e)]
  {
    var st0: State<I> := Start();
    FeedRejecting(cfg, st0, 0, Values(input), e);
    var fed := Feed(cfg, st0, 0, Values(input));
    if fed.failure.None? {
      CloseRejected(cfg, fed.state, e);
    }
    assert Items<I>([]) == [];
  }

  // ---------------------------------------------------------------------------
  // Streams after the first.
  // ---------------------------------------------------------------------------

  /**
   * After streams that left only completed subjects (for example the first
   * stream, or any stream whose loader never rejected and whose input
   * completed), a stream whose loader never rejects answers each of its
   * requests exactly once, completes, and again leaves only completed
   * subjects.
   */
  lemma LaterStreamAnswered<I>(cfg: Config<I>, cache: MC.Cache<Key, Payload<I>>, input: seq<Event<Signal>>)
    requires MC.Valid(cache) && cache.limit == 0 && ReadyKeyed(cache) && AllReady(cache)
    requires forall args :: cfg.loader(args).Loaded?
    requires EndingOf(input) == Completed
    ensures var r := Stream(cfg, cache, input);
            && r.1 == Completed && Served(r.0) == Span(0, Requests(Values(input)))
            && r.2.limit == 0 && ReadyKeyed(r.2) && AllReady(r.2)
  {
    EveryRequestAnsweredFrom(cfg, State(cache, []), input);
  }

  /** The cache holding one open subject, for `id`, with nobody waiting on it. */
  function OneOpen<I>(id: Key): (c: MC.Cache<Key, Payload<I>>)
    ensures MC.Valid(c) && c.limit == 0 && c.slots == map[id := MC.Waiting([])]
  {
    MC.Cache(0, map[id := MC.Waiting([])], [id])
  }

  /**
   * A rejected fetch leaves its subject open for good: after a stream whose
   * loader rejected the call for `a`, a later stream that asks for `a`,
   * with a loader that never rejects, is handed that open subject. Its
   * input completes, nothing is fetched, the request is never answered and
   * the output never completes.
   */
  lemma LaterStreamStalls<I>(bad: Config<I>, good: Config<I>, a: Args, e: string)
    requires forall xs :: bad.loader(xs) == Rejected(e)
    requires forall xs :: good.loader(xs).Loaded?
    ensures var first := Stream(bad, MC.New(0), Build([Request(a), Tick], Open));
            && first.1 == Failed(e)
            && var second := Stream(good, first.2, Build([Request(a)], Completed));
            second.0 == [] && second.1 == Open
  {
    RejectedLeavesOpen(bad, a, e);
    OpenSubjectStalls(good, a);
  }

  /** The first half of `LaterStreamStalls`: the rejected key's subject is left open. */
  lemma RejectedLeavesOpen<I>(bad: Config<I>, a: Args, e: string)
    requires forall xs :: bad.loader(xs) == Rejected(e)
    ensures var first := Stream(bad, MC.New(0), Build([Request(a), Tick], Open));
            first.1 == Failed(e) && first.2 == OneOpen(ArgsKey.ArgsToKey(a))
  {
    var input := Build([Request(a), Tick], Open);
    BuildReadsBack([Request(a), Tick], Open);
    var fed := Feed(bad, State(MC.New(0), []), 0, [Request(a), Tick]);
    FeedRejectedOnce(bad, a, e);
    assert SessionFrom(bad, State(MC.New(0), []), input) == ([], Failed(e), State(OneOpen(ArgsKey.ArgsToKey(a)), fed.state.missing));
    UnsubscribeOneOpen<I>(ArgsKey.ArgsToKey(a));
  }

  /** Request `a`, then a window end whose fetch is rejected: the failure, and the subject left open. */
  lemma FeedRejectedOnce<I>(bad: Config<I>, a: Args, e: string)
    requires forall xs :: bad.loader(xs) == Rejected(e)
    ensures var fed := Feed(bad, State(MC.New(0), []), 0, [Request(a), Tick]);
            fed.failure == Some(e) && fed.answers == [] && fed.state.cache == OneOpen(ArgsKey.ArgsToKey(a))
  {
    var s0: State<I> := State(MC.New(0), []);
    var (s1, ans1) := Arrive(s0, 0, a);
    assert s1.cache == OneOpen(ArgsKey.ArgsToKey(a));
    CloseRejected(bad, s1, e);
    var sigs := [Request(a), Tick];
    assert sigs[1..] == [Tick];
  }

  lemma UnsubscribeOneOpen<I>(id: Key)
    ensures Unsubscribe<I>(OneOpen(id)) == OneOpen(id)
  {
    var r := Unsubscribe<I>(OneOpen(id));
    assert r.slots == map[id := MC.Waiting([])];
  }

  /**
   * The second half of `LaterStreamStalls`: a request for a key whose
   * subject is open joins its waiters, so nothing is fetched or answered.
   */
  lemma OpenSubjectStalls<I>(good: Config<I>, a: Args)
    ensures var second := Stream(good, OneOpen(ArgsKey.ArgsToKey(a)), Build([Request(a)], Completed));
            second.0 == [] && second.1 == Open
  {
    var id := ArgsKey.ArgsToKey(a);
    var input := Build([Request(a)], Completed);
    BuildReadsBack([Request(a)], Completed);
    var t0: State<I> := State(OneOpen(id), []);
    var t1 := State(MC.Cache(0, map[id := MC.Waiting([0])], [id]), []);
    FeedJoinsWaiters(good, a);
    assert Close(good, t1) == Closed(t1.cache, [], [], [], None);
    assert SessionFrom(good, t0, input) == ([], Completed, t1);
    assert MC.Waiters(t1.cache) == multiset{0} by {
      assert t1.cache.order[1..] == [];
      assert MC.SlotWaiters(t1.cache.slots[id]) == multiset{0};
      assert MC.WaitersIn(t1.cache.order, t1.cache.slots)
          == MC.SlotWaiters(t1.cache.slots[id]) + MC.WaitersIn(t1.cache.order[1..], t1.cache.slots);
    }
  }

  /** Request `a` against its open subject: the request waits, and the window stays empty. */
  lemma FeedJoinsWaiters<I>(good: Config<I>, a: Args)
    ensures var id := ArgsKey.ArgsToKey(a);
            Feed(good, State(OneOpen(id), []), 0, [Request(a)])
              == Fed(State(MC.Cache(0, map[id := MC.Waiting([0])], [id]), []), [], 1, None)
  {
    var id := ArgsKey.ArgsToKey(a);
    var c := OneOpen<I>(id);
    var (t1, ans) := Arrive(State(c, []), 0, a);
    assert c.slots[id].tickets + [0] == [0];
    var (c1, ds) := MC.Load(c, id, 0, Payload(a, id, None));
    assert c1.order == [id] && c1.slots == map[id := MC.Waiting([0])];
    assert t1.cache == c1;
    assert [Request(a)][1..] == [];
  }
}
