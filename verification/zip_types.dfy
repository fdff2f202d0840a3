/**
 * Vocabulary shared by both `zipDiff` variants: the two sides, items tagged
 * with their side and key, the `{a?, b?}` objects the operator emits, and
 * the merged input of the two source observables.
 *
 * The two sources are modelled as one interleaved sequence of
 * notifications, each labelled with the side it came from, in the order a
 * subscriber of `merge` sees them.
 */
module ZipTypes {
  import opened Wrappers
  import opened Traces

  datatype Side = A | B

  function Other(s: Side): (r: Side)
    ensures r != s
  {
    if s == A then B else A
  }

  /** An item with the side it came from and the key its side's keyer gave it. */
  datatype Tagged<K, T> = Tagged(item: T, side: Side, key: K)

  /** A `SourceKeyedItem`: the object `{a?: item, b?: item}` put on the output. */
  datatype Pair<T> = Pair(a: Option<T>, b: Option<T>)

  /** The keyers as configured: `keyByB` is optional. */
  datatype Keyers<K, !T> = Keyers(keyBy: T -> K, keyByB: Option<T -> K>)

  /** The keyer a side uses; side B falls back to `keyBy` when `keyByB` is absent. */
  function KeyerOf<K, T>(ks: Keyers<K, T>, s: Side): (f: T -> K)
    ensures s == A ==> f == ks.keyBy
    ensures s == B && ks.keyByB.Some? ==> f == ks.keyByB.value
    ensures s == B && ks.keyByB.None? ==> f == ks.keyBy
  {
    match s
    case A => ks.keyBy
    case B => ks.keyByB.GetOr(ks.keyBy)
  }

  /** `itemToTaggedItem`: the key is computed once, with the item's own side's keyer. */
  function Tag<K, T>(ks: Keyers<K, T>, s: Side, x: T): (t: Tagged<K, T>)
    ensures t.item == x && t.side == s && t.key == KeyerOf(ks, s)(x)
  {
    Tagged(x, s, KeyerOf(ks, s)(x))
  }

  /** `taggedItemToSourceKeyedItem`: the item under its own side's field only. */
  function Single<K, T>(t: Tagged<K, T>): (p: Pair<T>)
    ensures t.side == A ==> p == Pair(Some(t.item), None)
    ensures t.side == B ==> p == Pair(None, Some(t.item))
  {
    if t.side == A then Pair(Some(t.item), None) else Pair(None, Some(t.item))
  }

  /** Object spread `{...p, ...q}`: a field present in `q` wins. */
  function Spread<T>(p: Pair<T>, q: Pair<T>): Pair<T>
  {
    Pair(if q.a.Some? then q.a else p.a, if q.b.Some? then q.b else p.b)
  }

  /**
   * The object emitted on a match: the arriving item spread first, the
   * buffered partner second. Items from different sides each keep their
   * own field, so the object carries exactly the two contributors.
   */
  function Join<K, T>(t: Tagged<K, T>, u: Tagged<K, T>): (p: Pair<T>)
    requires t.side != u.side
    ensures t.side == A ==> p == Pair(Some(t.item), Some(u.item))
    ensures t.side == B ==> p == Pair(Some(u.item), Some(t.item))
  {
    Spread(Single(t), Single(u))
  }

  /** The objects for items released one by one, in the given order. */
  function Singles<K, T>(ts: seq<Tagged<K, T>>): (ps: seq<Pair<T>>)
    ensures |ps| == |ts|
    ensures forall i :: 0 <= i < |ts| ==> ps[i] == Single(ts[i])
  {
    if |ts| == 0 then [] else [Single(ts[0])] + Singles(ts[1..])
  }

  /** Lone items of two buffer stretches, joined, are the lone items of the joined stretch. */
  lemma {:induction false} SinglesAppend<K, T>(xs: seq<Tagged<K, T>>, ys: seq<Tagged<K, T>>)
    ensures Singles(xs + ys) == Singles(xs) + Singles(ys)
  {
    assert |Singles(xs + ys)| == |Singles(xs) + Singles(ys)|;
    forall i | 0 <= i < |xs + ys|
      ensures Singles(xs + ys)[i] == (Singles(xs) + Singles(ys))[i]
    {
      if i < |xs| {
        assert (xs + ys)[i] == xs[i];
      } else {
        assert (xs + ys)[i] == ys[i - |xs|];
      }
    }
  }

  /** What a `map` that returns `undefined` for "nothing" contributes downstream. */
  function Emits<T>(o: Option<Pair<T>>): seq<Pair<T>>
  {
    if o.Some? then [o.value] else []
  }

  /** One notification of the merged input, with the side it came from. */
  datatype Input<T> = From(side: Side, event: Event<T>)

  /** The items carried by the emitted objects, counted with multiplicity. */
  function Emitted<T>(ps: seq<Pair<T>>): multiset<T>
  {
    if |ps| == 0 then multiset{}
    else Carried(ps[0]) + Emitted(ps[1..])
  }

  function Carried<T>(p: Pair<T>): multiset<T>
  {
    (if p.a.Some? then multiset{p.a.value} else multiset{})
    + (if p.b.Some? then multiset{p.b.value} else multiset{})
  }

  lemma {:induction false} EmittedAppend<T>(xs: seq<Pair<T>>, ys: seq<Pair<T>>)
    ensures Emitted(xs + ys) == Emitted(xs) + Emitted(ys)
  {
    if |xs| > 0 {
      assert (xs + ys)[0] == xs[0];
      assert (xs + ys)[1..] == xs[1..] + ys;
      EmittedAppend(xs[1..], ys);
    } else {
      assert xs + ys == ys;
    }
  }

  /**
   * How the merged input ends for the operator, judged from the input
   * alone: an error from a side still open fails it, the second side to
   * complete completes it, and notifications from a side that has already
   * completed are never delivered. `done` holds the sides already complete.
   */
  function InputEnding<T>(done: set<Side>, input: seq<Input<T>>): Ending
    decreases |input|
  {
    if |input| == 0 then Open
    else
      var From(s, ev) := input[0];
      if s in done then InputEnding(done, input[1..])
      else match ev
        case Next(_) => InputEnding(done, input[1..])
        case Error(r) => Failed(r)
        case Complete => if done + {s} == {A, B} then Completed else InputEnding(done + {s}, input[1..])
  }

  /** The items delivered by the merged input before it ends, counted with multiplicity. */
  function Accepted<T>(done: set<Side>, input: seq<Input<T>>): multiset<T>
    decreases |input|
  {
    if |input| == 0 then multiset{}
    else
      var From(s, ev) := input[0];
      if s in done then Accepted(done, input[1..])
      else match ev
        case Next(x) => multiset{x} + Accepted(done, input[1..])
        case Error(_) => multiset{}
        case Complete => if done + {s} == {A, B} then multiset{} else Accepted(done + {s}, input[1..])
  }

  /**
   * The merged input completes only once each side still open has sent
   * its own completion, and fails only on an error one of the sides sent.
   */
  lemma {:induction false} EndingNeedsBoth<T>(done: set<Side>, input: seq<Input<T>>)
    ensures InputEnding(done, input) == Completed ==>
              forall s :: s !in done ==> From(s, Complete) in input
    ensures forall r :: InputEnding(done, input) == Failed(r) ==>
              exists s :: From(s, Error(r)) in input
    decreases |input|
  {
    if |input| > 0 {
      var From(s, ev) := input[0];
      if s in done || ev.Next? {
        EndingNeedsBoth(done, input[1..]);
      } else if ev.Complete? && done + {s} != {A, B} {
        EndingNeedsBoth(done + {s}, input[1..]);
        assert forall t :: t !in done && t != s ==> t !in done + {s};
      } else if ev.Complete? {
        assert forall t :: t !in done ==> t == s;
      }
    }
  }
}
