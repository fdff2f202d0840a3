/**
 * `multiCache`: a stack of cache layers behind one `load` and one `clear`.
 *
 * `load` tags a payload whose item already exists as coming from `'input'`;
 * otherwise it offers the payload to the first layer, and each layer that
 * finds nothing hands its result to the next layer and passes whatever
 * comes back through its own `save` (when it has one). A layer that finds
 * the item tags it with the layer's name. `clear` runs every layer's
 * `clear`, from the last layer to the first.
 *
 * Layers are records of per-payload functions, and every call a layer
 * receives is recorded in a call log.
 */
module MultiCache {
  import opened Wrappers
  import ArgsKey

  datatype Payload<I> = Payload(id: string, item: I, source: Option<string>)

  /** A cache layer: `save` and `clear` are optional, as in the source's `Source` type. */
  datatype Layer<!I> = Layer(
    name: string,
    load: Payload<I> -> Payload<I>,
    save: Option<Payload<I> -> Payload<I>>,
    clear: Option<Payload<I> -> Payload<I>>)

  /** A call a layer received, with the payload it was given. */
  datatype Call<I> =
    | LoadCall(layer: nat, arg: Payload<I>)
    | SaveCall(layer: nat, arg: Payload<I>)
    | ClearCall(layer: nat, arg: Payload<I>)

  const InputSource := "input"

  /** The default existence test: the item is neither `undefined` nor `null`. */
  predicate DefaultItemExists(item: ArgsKey.Value)
  {
    ArgsKey.IsPresent(item)
  }

  function Tag<I>(p: Payload<I>, source: string): (r: Payload<I>)
    ensures r.id == p.id && r.item == p.item && r.source == Some(source)
  {
    p.(source := Some(source))
  }

  // ---------------------------------------------------------------------------
  // The load chain, built like the source's `reduceRight`: layer `i` wraps
  // the pipe made of layers `i + 1` onwards.
  // ---------------------------------------------------------------------------

  function Level<I>(layers: seq<Layer<I>>, found: I -> bool, i: nat, p: Payload<I>): (r: (Payload<I>, seq<Call<I>>))
    requires i < |layers|
    ensures found(p.item) ==> r == (Tag(p, InputSource), [])
    ensures !found(p.item) ==> |r.1| > 0 && r.1[0] == LoadCall(i, p)
    ensures forall k :: 0 <= k < |r.1| ==> i <= r.1[k].layer < |layers| && !r.1[k].ClearCall?
    decreases |layers| - i
  {
    if found(p.item) then (Tag(p, InputSource), [])
    else
      var q := layers[i].load(p);
      if found(q.item) then (Tag(q, layers[i].name), [LoadCall(i, p)])
      else if i + 1 == |layers| then (q, [LoadCall(i, p)])
      else
        var (o, cs) := Level(layers, found, i + 1, q);
        match layers[i].save
        case None => (o, [LoadCall(i, p)] + cs)
        case Some(save) => (save(o), [LoadCall(i, p)] + cs + [SaveCall(i, o)])
  }

  /** `multiCache(layers, found).load` on one payload: its output and the calls made. */
  function Load<I>(layers: seq<Layer<I>>, found: I -> bool, p: Payload<I>): (r: (Payload<I>, seq<Call<I>>))
    ensures |layers| == 0 ==> r == (p, [])
    ensures |layers| > 0 && found(p.item) ==> r == (Tag(p, InputSource), [])
    ensures forall k :: 0 <= k < |r.1| ==> r.1[k].layer < |layers| && !r.1[k].ClearCall?
  {
    if |layers| == 0 then (p, []) else Level(layers, found, 0, p)
  }

  // ---------------------------------------------------------------------------
  // A reference reading of the chain: descend to the first hit, then climb
  // back through the `save`s of the layers above it.
  // ---------------------------------------------------------------------------

  /** The payload the descent ends with and the layer it ends at (the first hit, or the last layer). */
  function Descend<I>(layers: seq<Layer<I>>, found: I -> bool, i: nat, p: Payload<I>): (r: (Payload<I>, nat))
    requires i < |layers|
    ensures i <= r.1 < |layers|
    ensures found(r.0.item) ==> r.0.source == Some(layers[r.1].name)
    ensures !found(r.0.item) ==> r.1 == |layers| - 1
    decreases |layers| - i
  {
    var q := layers[i].load(p);
    if found(q.item) then (Tag(q, layers[i].name), i)
    else if i + 1 == |layers| then (q, i)
    else Descend(layers, found, i + 1, q)
  }

  /** Apply the `save`s of layers `h - 1` down to `lo` to `o`. */
  function Climb<I>(layers: seq<Layer<I>>, lo: nat, h: nat, o: Payload<I>): Payload<I>
    requires lo <= h <= |layers|
    decreases h - lo
  {
    if lo == h then o
    else
      var inner := Climb(layers, lo + 1, h, o);
      match layers[lo].save
      case None => inner
      case Some(save) => save(inner)
  }

  /** The layers `lo <= j < h` for which `has` holds, deepest first. */
  function LayersWith<I>(layers: seq<Layer<I>>, lo: nat, h: nat, has: Layer<I> -> bool): (r: seq<nat>)
    requires lo <= h <= |layers|
    ensures forall k :: 0 <= k < |r| ==> lo <= r[k] < h && has(layers[r[k]])
    ensures forall j :: lo <= j < h && has(layers[j]) ==> j in r
    ensures forall k, m :: 0 <= k < m < |r| ==> r[k] > r[m]
    decreases h - lo
  {
    if lo == h then []
    else LayersWith(layers, lo + 1, h, has) + (if has(layers[lo]) then [lo] else [])
  }

  predicate HasSave<I>(l: Layer<I>) { l.save.Some? }

  predicate HasClear<I>(l: Layer<I>) { l.clear.Some? }

  /** The layers `lo <= j < h` that have a `save`, deepest first: the order their saves run in. */
  function SavingLayers<I>(layers: seq<Layer<I>>, lo: nat, h: nat): seq<nat>
    requires lo <= h <= |layers|
  {
    LayersWith(layers, lo, h, HasSave)
  }

  /** Layer numbers `lo` to `hi - 1`, ascending. */
  function Range(lo: nat, hi: nat): (r: seq<nat>)
    requires lo <= hi
    ensures |r| == hi - lo
    ensures forall k :: 0 <= k < |r| ==> r[k] == lo + k
    decreases hi - lo
  {
    if lo == hi then [] else [lo] + Range(lo + 1, hi)
  }

  function LoadLayers<I>(cs: seq<Call<I>>): seq<nat>
  {
    if |cs| == 0 then []
    else (if cs[0].LoadCall? then [cs[0].layer] else []) + LoadLayers(cs[1..])
  }

  function SaveLayers<I>(cs: seq<Call<I>>): seq<nat>
  {
    if |cs| == 0 then []
    else (if cs[0].SaveCall? then [cs[0].layer] else []) + SaveLayers(cs[1..])
  }

  lemma {:induction false} LayersAppend<I>(a: seq<Call<I>>, b: seq<Call<I>>)
    ensures LoadLayers(a + b) == LoadLayers(a) + LoadLayers(b)
    ensures SaveLayers(a + b) == SaveLayers(a) + SaveLayers(b)
  {
    if |a| > 0 {
      assert (a + b)[1..] == a[1..] + b;
      LayersAppend(a[1..], b);
    } else {
      assert a + b == b;
    }
  }

  /** The first `n` calls are loads and the rest are saves. */
  ghost predicate LoadsThenSaves<I>(cs: seq<Call<I>>, n: nat) {
    n <= |cs| &&
    (forall k :: 0 <= k < n ==> cs[k].LoadCall?) &&
    (forall k :: n <= k < |cs| ==> cs[k].SaveCall?)
  }

  /**
   * The chain from layer `i` is the descent followed by the climb: its output
   * is the payload the descent ends with, passed through the `save`s of the
   * layers above the layer it ended at.
   */
  lemma {:induction false} LevelOutput<I>(layers: seq<Layer<I>>, found: I -> bool, i: nat, p: Payload<I>)
    requires i < |layers| && !found(p.item)
    ensures var (o, h) := Descend(layers, found, i, p);
            Level(layers, found, i, p).0 == Climb(layers, i, h, o)
    decreases |layers| - i
  {
    var q := layers[i].load(p);
    if !found(q.item) && i + 1 < |layers| {
      LevelOutput(layers, found, i + 1, q);
    }
  }

  /** The loads of the chain from layer `i` go to layers `i` to `h` (where the descent ends), in order. */
  lemma {:induction false} LevelLoads<I>(layers: seq<Layer<I>>, found: I -> bool, i: nat, p: Payload<I>)
    requires i < |layers| && !found(p.item)
    ensures LoadLayers(Level(layers, found, i, p).1) == Range(i, Descend(layers, found, i, p).1 + 1)
    decreases |layers| - i
  {
    var q := layers[i].load(p);
    if !found(q.item) && i + 1 < |layers| {
      LevelLoads(layers, found, i + 1, q);
      var (o, cs) := Level(layers, found, i + 1, q);
      LayersAppend([LoadCall(i, p)], cs);
      if layers[i].save.Some? {
        LayersAppend([LoadCall(i, p)] + cs, [SaveCall(i, o)]);
      }
    }
  }

  /** The saves of the chain from layer `i` are those of the layers above `h` that have one, deepest first. */
  lemma {:induction false} LevelSaves<I>(layers: seq<Layer<I>>, found: I -> bool, i: nat, p: Payload<I>)
    requires i < |layers| && !found(p.item)
    ensures SaveLayers(Level(layers, found, i, p).1) == LayersWith(layers, i, Descend(layers, found, i, p).1, HasSave)
    decreases |layers| - i
  {
    var q := layers[i].load(p);
    if !found(q.item) && i + 1 < |layers| {
      LevelSaves(layers, found, i + 1, q);
      var (o, cs) := Level(layers, found, i + 1, q);
      LayersAppend([LoadCall(i, p)], cs);
      if layers[i].save.Some? {
        LayersAppend([LoadCall(i, p)] + cs, [SaveCall(i, o)]);
      }
    }
  }

  /** In the chain from layer `i`, every load comes before every save. */
  lemma {:induction false} LevelOrder<I>(layers: seq<Layer<I>>, found: I -> bool, i: nat, p: Payload<I>)
    requires i < |layers| && !found(p.item)
    ensures LoadsThenSaves(Level(layers, found, i, p).1, Descend(layers, found, i, p).1 + 1 - i)
    decreases |layers| - i
  {
    var q := layers[i].load(p);
    if !found(q.item) && i + 1 < |layers| {
      LevelOrder(layers, found, i + 1, q);
    }
  }

  /** The payloads offered to layers `i` onwards during the descent, one per consulted layer. */
  function Probes<I>(layers: seq<Layer<I>>, found: I -> bool, i: nat, p: Payload<I>): (r: seq<Payload<I>>)
    requires i < |layers|
    ensures |r| == Descend(layers, found, i, p).1 - i + 1
    ensures r[0] == p
    decreases |layers| - i
  {
    var q := layers[i].load(p);
    if found(q.item) || i + 1 == |layers| then [p]
    else [p] + Probes(layers, found, i + 1, q)
  }

  /**
   * The descent stops at the first layer whose `load` finds the item: every
   * layer above it was consulted, missed, and handed its result to the next
   * one; the result carries the finding layer's name. When no layer finds
   * it, every layer was consulted and the last layer's result comes back
   * with no tag added by the chain.
   */
  lemma {:induction false} FirstHitWins<I>(layers: seq<Layer<I>>, found: I -> bool, i: nat, p: Payload<I>)
    requires i < |layers|
    ensures var (o, h) := Descend(layers, found, i, p);
            var ps := Probes(layers, found, i, p);
            (forall k :: 0 <= k < h - i ==>
               !found(layers[i + k].load(ps[k]).item) && ps[k + 1] == layers[i + k].load(ps[k])) &&
            (found(o.item) ==> o == Tag(layers[h].load(ps[h - i]), layers[h].name)) &&
            (!found(o.item) ==> o == layers[h].load(ps[h - i]) && h == |layers| - 1)
  {
    var ps := Probes(layers, found, i, p);
    forall k | 0 <= k < Descend(layers, found, i, p).1 - i
      ensures !found(layers[i + k].load(ps[k]).item) && ps[k + 1] == layers[i + k].load(ps[k])
    {
      ProbeMisses(layers, found, i, p, k);
    }
    DescentEnd(layers, found, i, p);
  }

  /** The `k`-th layer the descent passes misses, and hands its result to the next. */
  lemma {:induction false} ProbeMisses<I>(layers: seq<Layer<I>>, found: I -> bool, i: nat, p: Payload<I>, k: nat)
    requires i < |layers| && k < Descend(layers, found, i, p).1 - i
    ensures var ps := Probes(layers, found, i, p);
            !found(layers[i + k].load(ps[k]).item) && ps[k + 1] == layers[i + k].load(ps[k])
    decreases k
  {
    var q := layers[i].load(p);
    var ps := Probes(layers, found, i, p);
    var rest := Probes(layers, found, i + 1, q);
    assert !found(q.item) && i + 1 < |layers|;
    assert ps == [p] + rest;
    if k > 0 {
      ProbeMisses(layers, found, i + 1, q, k - 1);
      assert ps[k] == rest[k - 1] && ps[k + 1] == rest[k];
      assert i + k == (i + 1) + (k - 1);
    }
  }

  /** The descent's result is the last consulted layer's, tagged with its name exactly when it found the item. */
  lemma {:induction false} DescentEnd<I>(layers: seq<Layer<I>>, found: I -> bool, i: nat, p: Payload<I>)
    requires i < |layers|
    ensures var (o, h) := Descend(layers, found, i, p);
            var ps := Probes(layers, found, i, p);
            (found(o.item) ==> o == Tag(layers[h].load(ps[h - i]), layers[h].name)) &&
            (!found(o.item) ==> o == layers[h].load(ps[h - i]) && h == |layers| - 1)
    decreases |layers| - i
  {
    var q := layers[i].load(p);
    if !found(q.item) && i + 1 < |layers| {
      DescentEnd(layers, found, i + 1, q);
      var ps := Probes(layers, found, i, p);
      var rest := Probes(layers, found, i + 1, q);
      assert ps[1..] == rest;
      var h := Descend(layers, found, i, p).1;
      assert ps[h - i] == rest[h - (i + 1)];
    }
  }

  /**
   * The calls a missing payload causes: layer `j`'s `load` is called once
   * for each `j` up to the layer the descent ends at, and never for a deeper
   * one; `save` is called on exactly the layers above that one which have a
   * `save`, so never on the layer that found the item nor on the last
   * layer; every load comes before every save.
   */
  lemma LoadCallLog<I>(layers: seq<Layer<I>>, found: I -> bool, p: Payload<I>)
    requires |layers| > 0 && !found(p.item)
    ensures var h := Descend(layers, found, 0, p).1;
            var cs := Load(layers, found, p).1;
            LoadLayers(cs) == Range(0, h + 1) &&
            (forall j :: j in SaveLayers(cs) <==> 0 <= j < h && layers[j].save.Some?) &&
            (forall j :: j in SaveLayers(cs) ==> j < |layers| - 1) &&
            LoadsThenSaves(cs, h + 1)
  {
    LevelLoads(layers, found, 0, p);
    LevelSaves(layers, found, 0, p);
    LevelOrder(layers, found, 0, p);
  }

  // ---------------------------------------------------------------------------
  // The clear chain.
  // ---------------------------------------------------------------------------

  /** Layers `|layers| - 1` down to `lo` apply their `clear` (those that have one) to the payload in turn. */
  function ClearFrom<I>(layers: seq<Layer<I>>, lo: nat, p: Payload<I>): (r: (Payload<I>, seq<Call<I>>))
    requires lo <= |layers|
    ensures forall k :: 0 <= k < |r.1| ==> r.1[k].ClearCall?
    ensures |r.1| == |LayersWith(layers, lo, |layers|, HasClear)|
    ensures forall k :: 0 <= k < |r.1| ==> r.1[k].layer == LayersWith(layers, lo, |layers|, HasClear)[k]
    decreases |layers| - lo
  {
    if lo == |layers| then (p, [])
    else
      var (q, cs) := ClearFrom(layers, lo + 1, p);
      match layers[lo].clear
      case None => (q, cs)
      case Some(clear) => (clear(q), cs + [ClearCall(lo, q)])
  }

  /**
   * `multiCache(layers).clear` on one payload: every layer's `clear` runs
   * once, from the last layer to the first, and no `load` or `save` runs.
   */
  function Clear<I>(layers: seq<Layer<I>>, p: Payload<I>): (r: (Payload<I>, seq<Call<I>>))
    ensures forall k :: 0 <= k < |r.1| ==> r.1[k].ClearCall?
    ensures forall j :: 0 <= j < |layers| && layers[j].clear.Some? ==>
              exists k :: 0 <= k < |r.1| && r.1[k].layer == j
    ensures forall k :: 0 <= k < |r.1| ==> r.1[k].layer < |layers| && layers[r.1[k].layer].clear.Some?
    ensures forall k, m :: 0 <= k < m < |r.1| ==> r.1[k].layer > r.1[m].layer
    ensures |layers| == 0 ==> r == (p, [])
  {
    var r := ClearFrom(layers, 0, p);
    var ls := LayersWith(layers, 0, |layers|, HasClear);
    forall j | 0 <= j < |layers| && layers[j].clear.Some?
      ensures exists k :: 0 <= k < |r.1| && r.1[k].layer == j
    {
      assert HasClear(layers[j]);
      var k :| 0 <= k < |ls| && ls[k] == j;
      assert r.1[k].layer == j;
    }
    r
  }
}
