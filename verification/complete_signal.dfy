/**
 * The `complete()` operator: a derived stream that stays silent while the
 * source emits values and, once the source completes gracefully, emits the
 * `COMPLETE` sentinel and completes. It is built as
 * `concat(source, of(COMPLETE))` followed by a filter that keeps only the
 * sentinel.
 */
module CompleteSignal {
  import opened Traces

  /** A source value: an ordinary item, or the `COMPLETE` symbol itself. */
  datatype Signal<+T> = Item(item: T) | Sentinel

  predicate IsSentinel<T>(s: Signal<T>) {
    s.Sentinel?
  }

  /** Source values other than the sentinel. */
  predicate PlainValues<T>(vs: seq<Signal<T>>) {
    forall i :: 0 <= i < |vs| ==> vs[i].Item?
  }

  function CompleteOp<T>(src: seq<Event<Signal<T>>>): (out: seq<Event<Signal<T>>>)
    ensures WellFormed(out)
    ensures forall i :: 0 <= i < |Values(out)| ==> Values(out)[i].Sentinel?
    ensures EndingOf(out) == EndingOf(src)
  {
    Filter(IsSentinel, Concat(src, [Sentinel]))
  }

  lemma {:induction false} KeepSentinelsOfPlain<T>(vs: seq<Signal<T>>)
    requires PlainValues(vs)
    ensures KeepIf(IsSentinel, vs) == []
  {
    if |vs| > 0 {
      KeepSentinelsOfPlain(vs[1..]);
    }
  }

  /** For a source without sentinel values, the sentinel is the only value out, and only on completion. */
  lemma SentinelOnlyOnCompletion<T>(src: seq<Event<Signal<T>>>)
    requires PlainValues(Values(src))
    ensures Values(CompleteOp(src)) == if EndingOf(src) == Completed then [Sentinel] else []
  {
    var vs := Values(src);
    var one: seq<Signal<T>> := [Sentinel];
    var tail: seq<Signal<T>> := if EndingOf(src) == Completed then one else [];
    KeepSentinelsOfPlain(vs);
    KeepIfAppend(IsSentinel, vs, tail);
    assert KeepIf(IsSentinel, one) == one;
  }

  /**
   * For a source that never sends the sentinel as a value, the whole output
   * is determined by how the source ends: nothing while it is open, exactly
   * one sentinel followed by completion when it completes, and the bare
   * error when it fails.
   */
  lemma CompleteOpOutcome<T>(src: seq<Event<Signal<T>>>)
    requires PlainValues(Values(src))
    ensures EndingOf(src) == Open ==> CompleteOp(src) == []
    ensures EndingOf(src) == Completed ==> CompleteOp(src) == [Next(Sentinel), Complete]
    ensures forall r :: EndingOf(src) == Failed(r) ==> CompleteOp(src) == [Error(r)]
  {
    var out := CompleteOp(src);
    SentinelOnlyOnCompletion(src);
    WellFormedIsBuilt(out);
    assert out == Build(Values(out), EndingOf(src));
  }

  /** While the source only emits (non-sentinel) values, the derived stream emits nothing. */
  lemma SilentWhileOpen<T>(vs: seq<Signal<T>>)
    requires PlainValues(vs)
    ensures CompleteOp(Emit(vs)) == []
  {
    BuildReadsBack(vs, Open);
    assert Emit(vs) == Build(vs, Open);
    CompleteOpOutcome(Emit(vs));
  }

  /** A graceful completion after plain values yields exactly one sentinel, then completion. */
  lemma OneSentinelOnCompletion<T>(vs: seq<Signal<T>>)
    requires PlainValues(vs)
    ensures CompleteOp(Emit(vs) + [Complete]) == [Next(Sentinel), Complete]
  {
    BuildReadsBack(vs, Completed);
    assert Emit(vs) + [Complete] == Build(vs, Completed);
    CompleteOpOutcome(Emit(vs) + [Complete]);
  }

  /** A source error is forwarded and no sentinel is emitted. */
  lemma ErrorWithoutSentinel<T>(vs: seq<Signal<T>>, reason: string)
    requires PlainValues(vs)
    ensures CompleteOp(Emit(vs) + [Error(reason)]) == [Error(reason)]
  {
    BuildReadsBack(vs, Failed(reason));
    assert Emit(vs) + [Error(reason)] == Build(vs, Failed(reason));
    CompleteOpOutcome(Emit(vs) + [Error(reason)]);
  }
}
