/**
 * Finite observable traces. A trace is the sequence of notifications a
 * subscriber receives: values, then at most one terminal notification.
 * Every operator in this project is a total function on traces that, like an
 * rxjs subscriber, ignores whatever a source sends after its first terminal
 * notification.
 */
module Traces {

  datatype Event<+T> = Next(value: T) | Complete | Error(reason: string) {
    predicate IsTerminal() {
      Complete? || Error?
    }
  }

  /** How a trace ends: still open, completed gracefully, or failed. */
  datatype Ending = Open | Completed | Failed(reason: string)

  /** The values a subscriber sees before the first terminal notification. */
  function Values<T>(tr: seq<Event<T>>): seq<T>
  {
    if |tr| == 0 then []
    else match tr[0]
      case Next(v) => [v] + Values(tr[1..])
      case Complete => []
      case Error(_) => []
  }

  /** The first terminal notification of a trace, if any. */
  function EndingOf<T>(tr: seq<Event<T>>): Ending
  {
    if |tr| == 0 then Open
    else match tr[0]
      case Next(_) => EndingOf(tr[1..])
      case Complete => Completed
      case Error(r) => Failed(r)
  }

  /** The observable contract: a terminal notification can only come last. */
  predicate WellFormed<T>(tr: seq<Event<T>>)
  {
    forall i :: 0 <= i < |tr| - 1 ==> !tr[i].IsTerminal()
  }

  /** Emits each value in order, as `from(vs)` does without completing. */
  function Emit<T>(vs: seq<T>): (tr: seq<Event<T>>)
    ensures |tr| == |vs|
    ensures forall i :: 0 <= i < |vs| ==> tr[i] == Next(vs[i])
  {
    if |vs| == 0 then [] else [Next(vs[0])] + Emit(vs[1..])
  }

  /** The notifications that end a trace with the given ending. */
  function Close<T>(e: Ending): seq<Event<T>>
  {
    match e
    case Open => []
    case Completed => [Complete]
    case Failed(r) => [Error(r)]
  }

  /** The trace a subscriber sees for the given values and ending. */
  function Build<T>(vs: seq<T>, e: Ending): seq<Event<T>>
  {
    Emit(vs) + Close(e)
  }

  lemma {:induction false} BuildReadsBack<T>(vs: seq<T>, e: Ending)
    ensures Values(Build(vs, e)) == vs
    ensures EndingOf(Build(vs, e)) == e
    ensures WellFormed(Build(vs, e))
  {
    if |vs| > 0 {
      BuildReadsBack(vs[1..], e);
      assert Build(vs, e)[1..] == Build(vs[1..], e);
    }
  }

  /** A well-formed trace is determined by its values and its ending. */
  lemma {:induction false} WellFormedIsBuilt<T>(tr: seq<Event<T>>)
    requires WellFormed(tr)
    ensures tr == Build(Values(tr), EndingOf(tr))
  {
    if |tr| > 0 {
      match tr[0]
      case Next(v) =>
        assert WellFormed(tr[1..]) by {
          forall i | 0 <= i < |tr[1..]| - 1 ensures !tr[1..][i].IsTerminal() {
            assert tr[1..][i] == tr[i + 1];
          }
        }
        WellFormedIsBuilt(tr[1..]);
      case Complete =>
        assert |tr| == 1;
      case Error(r) =>
        assert |tr| == 1;
    }
  }

  /** The groups of `gs` joined end to end. */
  function Flatten<T>(gs: seq<seq<T>>): seq<T>
  {
    if |gs| == 0 then [] else gs[0] + Flatten(gs[1..])
  }

  /**
   * `concat(src, of(...tail))`: the source's values; on graceful completion
   * the tail values and then completion; a source error is forwarded and the
   * tail is never subscribed.
   */
  function Concat<T>(src: seq<Event<T>>, tail: seq<T>): (r: seq<Event<T>>)
    ensures Values(r) == Values(src) + (if EndingOf(src) == Completed then tail else [])
    ensures EndingOf(r) == EndingOf(src)
    ensures WellFormed(r)
  {
    if |src| == 0 then []
    else match src[0]
      case Next(v) =>
        var rest := Concat(src[1..], tail);
        assert ([Next(v)] + rest)[1..] == rest;
        [Next(v)] + rest
      case Complete =>
        BuildReadsBack(tail, Completed);
        Build(tail, Completed)
      case Error(reason) => [Error(reason)]
  }

  /** Keeps the values satisfying `p`, in order. */
  function KeepIf<T>(p: T -> bool, vs: seq<T>): (r: seq<T>)
    ensures |r| <= |vs|
    ensures forall i :: 0 <= i < |r| ==> r[i] in vs && p(r[i])
    ensures forall i :: 0 <= i < |vs| && p(vs[i]) ==> vs[i] in r
  {
    if |vs| == 0 then []
    else (if p(vs[0]) then [vs[0]] else []) + KeepIf(p, vs[1..])
  }

  lemma {:induction false} KeepIfAppend<T>(p: T -> bool, xs: seq<T>, ys: seq<T>)
    ensures KeepIf(p, xs + ys) == KeepIf(p, xs) + KeepIf(p, ys)
  {
    if |xs| > 0 {
      assert (xs + ys)[1..] == xs[1..] + ys;
      KeepIfAppend(p, xs[1..], ys);
    } else {
      assert xs + ys == ys;
    }
  }

  /** rxjs `filter(p)`: drops values failing `p`, forwards the terminal notification. */
  function Filter<T>(p: T -> bool, src: seq<Event<T>>): (r: seq<Event<T>>)
    ensures Values(r) == KeepIf(p, Values(src))
    ensures EndingOf(r) == EndingOf(src)
    ensures WellFormed(r)
  {
    if |src| == 0 then []
    else match src[0]
      case Next(v) =>
        var rest := Filter(p, src[1..]);
        if p(v) then
          assert ([Next(v)] + rest)[1..] == rest;
          [Next(v)] + rest
        else rest
      case Complete => [Complete]
      case Error(reason) => [Error(reason)]
  }

  /** Prepending a value to a trace. */
  lemma Cons<T>(v: T, rest: seq<Event<T>>)
    ensures Values([Next(v)] + rest) == [v] + Values(rest)
    ensures EndingOf([Next(v)] + rest) == EndingOf(rest)
    ensures WellFormed(rest) ==> WellFormed([Next(v)] + rest)
  {
    assert ([Next(v)] + rest)[1..] == rest;
  }
}
