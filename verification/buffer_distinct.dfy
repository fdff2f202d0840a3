/**
 * `bufferDistinct(predicate)`: groups runs of consecutive source values that
 * share one comparison value. A group is emitted when a value with a
 * different comparison value arrives (before that value is added), and the
 * pending group is emitted on graceful completion if it is non-empty. On
 * error the pending group is discarded. Comparison is `Object.is`, which is
 * Dafny equality on the comparison type `K`.
 */
module BufferDistinct {
  import opened Wrappers
  import opened Traces

  /** The operator's three variables: the pending group, `first`, and `prevComparisonValue`. */
  datatype RunState<T, K> = RunState(buffer: seq<T>, first: bool, prev: Option<K>)

  function Start<T, K>(): RunState<T, K> {
    RunState([], true, None)
  }

  /** All values of `g` share the comparison value of its first value. */
  ghost predicate Uniform<T, K>(key: T -> K, g: seq<T>) {
    forall i :: 0 <= i < |g| ==> key(g[i]) == key(g[0])
  }

  /** The states the operator can reach. */
  ghost predicate Consistent<T, K>(key: T -> K, s: RunState<T, K>) {
    if s.first then s.buffer == [] && s.prev == None
    else |s.buffer| > 0 && s.prev == Some(key(s.buffer[0])) && Uniform(key, s.buffer)
  }

  /**
   * Handling of one source value: the group emitted, if any, and the next
   * state. A group is emitted exactly when a value arrives whose comparison
   * value differs from the pending group's; the emitted group is the pending
   * one, and the new value starts the next group.
   */
  function OnValue<T, K(==)>(key: T -> K, s: RunState<T, K>, v: T): (r: (Option<seq<T>>, RunState<T, K>))
    ensures Consistent(key, s) ==> Consistent(key, r.1)
    ensures Consistent(key, s) ==> (r.0.Some? <==> !s.first && key(v) != key(s.buffer[0]))
    ensures r.0.Some? ==> r.0.value == s.buffer && r.1.buffer == [v]
    ensures r.0.None? ==> r.1.buffer == s.buffer + [v]
  {
    var k := key(v);
    if !s.first && s.prev != Some(k) then
      (Some(s.buffer), RunState([v], false, Some(k)))
    else
      (None, RunState(s.buffer + [v], false, Some(k)))
  }

  /** The operator's output for the source notifications `src`, starting in state `s`. */
  function Run<T, K(==)>(key: T -> K, s: RunState<T, K>, src: seq<Event<T>>): (out: seq<Event<seq<T>>>)
    ensures WellFormed(out)
    ensures EndingOf(out) == EndingOf(src)
    decreases |src|
  {
    if |src| == 0 then []
    else match src[0]
      case Next(v) =>
        var (g, s') := OnValue(key, s, v);
        var rest := Run(key, s', src[1..]);
        if g.Some? then
          Cons(g.value, rest);
          [Next(g.value)] + rest
        else rest
      case Complete =>
        if |s.buffer| > 0 then [Next(s.buffer), Complete] else [Complete]
      case Error(reason) =>
        [Error(reason)]
  }

  /**
   * The operator from its initial state. On graceful completion the groups
   * split the source values into maximal runs; otherwise the groups emitted
   * so far concatenate to a prefix of the values.
   */
  function BufferDistinct<T, K(==)>(key: T -> K, src: seq<Event<T>>): (r: seq<Event<seq<T>>>)
    ensures WellFormed(r) && EndingOf(r) == EndingOf(src)
    ensures EndingOf(src) == Completed ==> IsRunSplit(key, Values(src), Values(r))
    ensures EndingOf(src) != Completed ==> Flatten(Values(r)) <= Values(src)
  {
    var r := Run(key, Start(), src);
    if EndingOf(src) == Completed then
      CompletedRunSplit(key, Start(), src);
      assert [] + Values(src) == Values(src);
      r
    else
      UnfinishedRunSplit(key, Start(), src);
      assert [] + Values(src) == Values(src);
      r
  }

  /** The state after feeding the values `vs` (no terminal notification). */
  function Feed<T, K(==)>(key: T -> K, s: RunState<T, K>, vs: seq<T>): (r: RunState<T, K>)
    decreases |vs|
  {
    if |vs| == 0 then s else Feed(key, OnValue(key, s, vs[0]).1, vs[1..])
  }

  /**
   * `gs` splits `xs` into maximal runs: concatenated they give back `xs`,
   * every group is non-empty and uniform, and consecutive groups have
   * different comparison values.
   */
  ghost predicate IsRunSplit<T, K>(key: T -> K, xs: seq<T>, gs: seq<seq<T>>) {
    && Flatten(gs) == xs
    && (forall i :: 0 <= i < |gs| ==> |gs[i]| > 0 && Uniform(key, gs[i]))
    && (forall i :: 0 <= i < |gs| - 1 ==> key(gs[i][0]) != key(gs[i + 1][0]))
  }

  lemma {:induction false} RunSplitOfCons<T, K>(key: T -> K, g: seq<T>, rest: seq<T>, gs: seq<seq<T>>)
    requires |g| > 0 && Uniform(key, g)
    requires IsRunSplit(key, rest, gs)
    requires |gs| > 0 ==> key(gs[0][0]) != key(g[0])
    ensures IsRunSplit(key, g + rest, [g] + gs)
  {
    assert ([g] + gs)[1..] == gs;
  }

  /** A split is empty exactly when the values are. */
  lemma RunSplitEmpty<T, K>(key: T -> K, xs: seq<T>, gs: seq<seq<T>>)
    requires IsRunSplit(key, xs, gs)
    ensures |gs| == 0 <==> |xs| == 0
  {
    if |gs| > 0 {
      assert Flatten(gs) == gs[0] + Flatten(gs[1..]);
    }
  }

  /**
   * On graceful completion the emitted groups split the pending group
   * followed by the source values into maximal runs.
   */
  lemma {:induction false} CompletedRunSplit<T, K>(key: T -> K, s: RunState<T, K>, src: seq<Event<T>>)
    requires Consistent(key, s)
    requires EndingOf(src) == Completed
    ensures IsRunSplit(key, s.buffer + Values(src), Values(Run(key, s, src)))
    ensures |Values(Run(key, s, src))| > 0 && |s.buffer| > 0 ==>
              Values(Run(key, s, src))[0][0] == s.buffer[0]
    decreases |src|
  {
    var out := Run(key, s, src);
    match src[0]
    case Next(v) =>
      var (g, s') := OnValue(key, s, v);
      var rest := Run(key, s', src[1..]);
      CompletedRunSplit(key, s', src[1..]);
      var gs' := Values(rest);
      if g.Some? {
        Cons(g.value, rest);
        assert Values(out) == [s.buffer] + gs';
        RunSplitEmpty(key, s'.buffer + Values(src[1..]), gs');
        assert gs'[0][0] == v by {
          assert Flatten(gs') == gs'[0] + Flatten(gs'[1..]);
        }
        RunSplitOfCons(key, s.buffer, [v] + Values(src[1..]), gs');
        assert s.buffer + ([v] + Values(src[1..])) == s.buffer + Values(src);
      } else {
        assert s.buffer + Values(src) == s.buffer + [v] + Values(src[1..]);
        if |s.buffer| > 0 && |gs'| > 0 {
          assert gs'[0][0] == s'.buffer[0];
        }
      }
    case Complete =>
      if |s.buffer| > 0 {
        var gs := [s.buffer];
        assert Values(out) == gs;
        assert Flatten(gs) == s.buffer + Flatten(gs[1..]);
        assert s.buffer + Values(src) == s.buffer;
      } else {
        assert Values(out) == [];
      }
  }

  /**
   * While the source is open or after it fails, the emitted groups followed
   * by the group still pending give back the input.
   */
  lemma {:induction false} UnfinishedRunSplit<T, K>(key: T -> K, s: RunState<T, K>, src: seq<Event<T>>)
    requires EndingOf(src) != Completed
    ensures Flatten(Values(Run(key, s, src))) + Feed(key, s, Values(src)).buffer == s.buffer + Values(src)
    decreases |src|
  {
    if |src| == 0 {
      assert Feed(key, s, []) == s;
    } else if src[0].Next? {
      var s' := OnValue(key, s, src[0].value).1;
      UnfinishedRunSplit(key, s', src[1..]);
      UnfinishedStep(key, s, src);
    } else {
      assert Values(src) == [];
      assert Values(Run(key, s, src)) == [];
      assert Feed(key, s, []) == s;
    }
  }

  /** The inductive step of `UnfinishedRunSplit`, for a source value. */
  lemma UnfinishedStep<T, K>(key: T -> K, s: RunState<T, K>, src: seq<Event<T>>)
    requires |src| > 0 && src[0].Next?
    requires var s' := OnValue(key, s, src[0].value).1;
      Flatten(Values(Run(key, s', src[1..]))) + Feed(key, s', Values(src[1..])).buffer
        == s'.buffer + Values(src[1..])
    ensures Flatten(Values(Run(key, s, src))) + Feed(key, s, Values(src)).buffer == s.buffer + Values(src)
  {
    var v := src[0].value;
    var r := OnValue(key, s, v);
    var vs := Values(src[1..]);
    assert Values(src) == [v] + vs;
    assert Feed(key, s, Values(src)) == Feed(key, r.1, vs) by {
      assert ([v] + vs)[1..] == vs;
    }
    var rest := Run(key, r.1, src[1..]);
    var fin := Feed(key, r.1, vs).buffer;
    if r.0.Some? {
      assert Run(key, s, src) == [Next(s.buffer)] + rest;
      EmittedStep(s.buffer, rest, [v], vs, fin);
    } else {
      assert Run(key, s, src) == rest;
      Assoc(s.buffer, [v], vs);
    }
  }

  lemma EmittedStep<T>(g: seq<T>, rest: seq<Event<seq<T>>>, head: seq<T>, xs: seq<T>, fin: seq<T>)
    requires Flatten(Values(rest)) + fin == head + xs
    ensures Flatten(Values([Next(g)] + rest)) + fin == g + (head + xs)
  {
    Cons(g, rest);
    FlattenCons(g, Values(rest));
  }

  lemma Assoc<T>(a: seq<T>, b: seq<T>, c: seq<T>)
    ensures (a + b) + c == a + (b + c)
  {
  }

  lemma FlattenCons<T>(g: seq<T>, gs: seq<seq<T>>)
    ensures Flatten([g] + gs) == g + Flatten(gs)
  {
    assert ([g] + gs)[1..] == gs;
  }

  /**
   * The first run of a split is the longest prefix of `xs` whose values share
   * the comparison value of `xs[0]`.
   */
  lemma {:induction false} FirstRunIsMaximal<T, K>(key: T -> K, xs: seq<T>, gs: seq<seq<T>>)
    requires IsRunSplit(key, xs, gs) && |gs| > 0
    ensures 0 < |gs[0]| <= |xs| && gs[0] == xs[..|gs[0]|]
    ensures forall j :: 0 <= j < |gs[0]| ==> key(xs[j]) == key(xs[0])
    ensures |gs[0]| < |xs| ==> key(xs[|gs[0]|]) != key(xs[0])
  {
    var tail := gs[1..];
    assert xs == gs[0] + Flatten(tail);
    if |gs[0]| < |xs| {
      assert |Flatten(tail)| > 0;
      assert IsRunSplit(key, Flatten(tail), tail);
      RunSplitEmpty(key, Flatten(tail), tail);
      assert Flatten(tail) == tail[0] + Flatten(tail[1..]);
      assert xs[|gs[0]|] == tail[0][0];
      assert tail[0] == gs[1];
    }
  }

  /** Two prefix lengths that both delimit the first maximal run are equal. */
  lemma MaximalPrefixUnique<T, K>(key: T -> K, xs: seq<T>, n: nat, m: nat)
    requires 0 < n <= |xs| && 0 < m <= |xs|
    requires forall j :: 0 <= j < n ==> key(xs[j]) == key(xs[0])
    requires n < |xs| ==> key(xs[n]) != key(xs[0])
    requires forall j :: 0 <= j < m ==> key(xs[j]) == key(xs[0])
    requires m < |xs| ==> key(xs[m]) != key(xs[0])
    ensures n == m
  {
  }

  /** Dropping the first run leaves a run split of the values after it. */
  lemma RunSplitTail<T, K>(key: T -> K, xs: seq<T>, gs: seq<seq<T>>)
    requires IsRunSplit(key, xs, gs) && |gs| > 0
    ensures |gs[0]| <= |xs| && IsRunSplit(key, xs[|gs[0]|..], gs[1..])
  {
    assert xs == gs[0] + Flatten(gs[1..]);
    assert xs[|gs[0]|..] == Flatten(gs[1..]);
  }

  /** Two splits of the same values into maximal runs are the same split. */
  lemma {:induction false} RunSplitUnique<T, K>(key: T -> K, xs: seq<T>, gs: seq<seq<T>>, hs: seq<seq<T>>)
    requires IsRunSplit(key, xs, gs) && IsRunSplit(key, xs, hs)
    ensures gs == hs
    decreases |xs|
  {
    RunSplitEmpty(key, xs, gs);
    RunSplitEmpty(key, xs, hs);
    if |xs| > 0 {
      FirstRunIsMaximal(key, xs, gs);
      FirstRunIsMaximal(key, xs, hs);
      MaximalPrefixUnique(key, xs, |gs[0]|, |hs[0]|);
      var n := |gs[0]|;
      assert gs[0] == hs[0];
      RunSplitTail(key, xs, gs);
      RunSplitTail(key, xs, hs);
      RunSplitUnique(key, xs[n..], gs[1..], hs[1..]);
      assert gs == [gs[0]] + gs[1..];
      assert hs == [hs[0]] + hs[1..];
    }
  }

  /**
   * The operator's whole output on a completed source: the unique split of
   * the source values into maximal runs, then completion. An empty source
   * completes without emitting.
   */
  lemma BufferDistinctCompleted<T, K>(key: T -> K, xs: seq<T>, gs: seq<seq<T>>)
    requires IsRunSplit(key, xs, gs)
    ensures BufferDistinct(key, Emit(xs) + [Complete]) == Emit(gs) + [Complete]
  {
    var src := Emit(xs) + [Complete];
    BuildReadsBack(xs, Completed);
    assert src == Build(xs, Completed);
    var out := BufferDistinct(key, src);
    CompletedRunSplit(key, Start(), src);
    assert [] + xs == xs;
    RunSplitUnique(key, xs, Values(out), gs);
    WellFormedIsBuilt(out);
  }

  lemma {:induction false} FeedNonEmpty<T, K>(key: T -> K, s: RunState<T, K>, vs: seq<T>)
    requires Consistent(key, s)
    requires |s.buffer| + |vs| > 0
    ensures |Feed(key, s, vs).buffer| > 0
    decreases |vs|
  {
    if |vs| > 0 {
      FeedNonEmpty(key, OnValue(key, s, vs[0]).1, vs[1..]);
    }
  }

  /**
   * A source error discards the pending group: fewer values are emitted
   * than arrived, and the output fails with the same error.
   */
  lemma ErrorDiscardsPending<T, K>(key: T -> K, xs: seq<T>, reason: string)
    requires |xs| > 0
    ensures |Flatten(Values(BufferDistinct(key, Emit(xs) + [Error(reason)])))| < |xs|
    ensures EndingOf(BufferDistinct(key, Emit(xs) + [Error(reason)])) == Failed(reason)
  {
    var src := Emit(xs) + [Error(reason)];
    BuildReadsBack(xs, Failed(reason));
    assert src == Build(xs, Failed(reason));
    UnfinishedRunSplit(key, Start(), src);
    FeedNonEmpty(key, Start(), xs);
  }
}
