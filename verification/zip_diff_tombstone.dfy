/**
 * `zipDiff` of the 92green package: a streaming join of two observables by
 * key. Each item waits in one shared buffer, keyed by its key, until an item
 * with the same key arrives from the other side; the two then leave
 * together as `{a, b}`. When one side completes, the other side's waiting
 * items can never match, so they are released as `{a}` or `{b}`, and from
 * then on that side's items skip the buffer unless they match.
 *
 * A key that has left the buffer, by a match or a release, stays in it as a
 * tombstone (`undefined` in the source), and any later item with that key,
 * from either side, is thrown away.
 */
module ZipTombstone {
  import opened Wrappers
  import opened Traces
  import opened Keyed
  import opened ZipTypes

  /** A buffer slot: a waiting item, or the tombstone of a key that has left. */
  type Slot<K, T> = Option<Tagged<K, T>>

  /**
   * The operator's state: the buffer as an insertion-ordered `Map`, the
   * `skipBuffer` flags (the sides whose items no longer wait), and the
   * sides that have completed.
   */
  datatype State<K, T> = State(buffer: seq<(K, Slot<K, T>)>, skip: set<Side>, done: set<Side>)

  function Start<K, T>(): State<K, T>
  {
    State([], {}, {})
  }

  predicate Tombstoned<K(==), T>(buf: seq<(K, Slot<K, T>)>, k: K)
  {
    Lookup(buf, k) == Some(None)
  }

  /** The items waiting in the buffer, counted with multiplicity. */
  function Live<K, T>(buf: seq<(K, Slot<K, T>)>): multiset<T>
  {
    if |buf| == 0 then multiset{}
    else SlotItems(buf[0].1) + Live(buf[1..])
  }

  function SlotItems<K, T>(o: Slot<K, T>): multiset<T>
  {
    if o.Some? then multiset{o.value.item} else multiset{}
  }

  /** The items of side `s` waiting in the buffer, in insertion order. */
  function Waiting<K, T>(buf: seq<(K, Slot<K, T>)>, s: Side): seq<Tagged<K, T>>
  {
    if |buf| == 0 then []
    else (if buf[0].1.Some? && buf[0].1.value.side == s then [buf[0].1.value] else [])
         + Waiting(buf[1..], s)
  }

  /**
   * What the buffer holds for the arriving item's key: the other side's
   * item waiting under it, if any.
   */
  function Partner<K(==), T>(buf: seq<(K, Slot<K, T>)>, t: Tagged<K, T>): Option<Tagged<K, T>>
  {
    var held := Lookup(buf, t.key);
    if held.Some? && held.value.Some? && held.value.value.side != t.side then held.value else None
  }

  /**
   * `pipeThroughBuffer`, for one tagged item: drop it if its key is a
   * tombstone; emit it with its partner and tombstone the key if the other
   * side's item is waiting; emit it alone if its side skips the buffer;
   * otherwise let it wait, replacing any same-side item under its key.
   */
  function Pipe<K(==), T>(st: State<K, T>, t: Tagged<K, T>): (r: (State<K, T>, Option<Pair<T>>))
    ensures r.0.skip == st.skip && r.0.done == st.done
    ensures Tombstoned(st.buffer, t.key) ==> r == (st, None)
    ensures Partner(st.buffer, t).Some? ==>
              r.1 == Some(Join(t, Partner(st.buffer, t).value)) && Tombstoned(r.0.buffer, t.key)
    ensures !Tombstoned(st.buffer, t.key) && Partner(st.buffer, t).None? && t.side in st.skip ==>
              r == (st, Some(Single(t)))
    ensures !Tombstoned(st.buffer, t.key) && Partner(st.buffer, t).None? && t.side !in st.skip ==>
              r.1 == None && Lookup(r.0.buffer, t.key) == Some(Some(t))
    ensures Keys(r.0.buffer) == Keys(st.buffer) + (if r.0.buffer == st.buffer then {} else {t.key})
  {
    var held := Lookup(st.buffer, t.key);
    if held == Some(None) then (st, None)
    else if held.Some? && held.value.value.side != t.side then
      PutHere(st.buffer, t.key, None);
      (st.(buffer := Put(st.buffer, t.key, None)), Some(Join(t, held.value.value)))
    else if t.side in st.skip then (st, Some(Single(t)))
    else
      PutHere(st.buffer, t.key, Some(t));
      (st.(buffer := Put(st.buffer, t.key, Some(t))), None)
  }

  /** An item only ever touches the slot of its own key. */
  lemma PipeOthers<K, T>(st: State<K, T>, t: Tagged<K, T>, j: K)
    requires j != t.key
    ensures Lookup(Pipe(st, t).0.buffer, j) == Lookup(st.buffer, j)
  {
    PutOthers(st.buffer, t.key, None, j);
    PutOthers(st.buffer, t.key, Some(t), j);
  }

  /**
   * The buffer pass of `sendBufferedItemsOnComplete(s)`: every waiting item
   * of side `s` is emitted alone and its key tombstoned.
   */
  function Release<K, T>(buf: seq<(K, Slot<K, T>)>, s: Side): (r: (seq<(K, Slot<K, T>)>, seq<Pair<T>>))
    ensures |r.0| == |buf|
    ensures forall i :: 0 <= i < |buf| ==>
              r.0[i] == (if buf[i].1.Some? && buf[i].1.value.side == s then (buf[i].0, None) else buf[i])
  {
    if |buf| == 0 then ([], [])
    else
      var rest := Release(buf[1..], s);
      if buf[0].1.Some? && buf[0].1.value.side == s then
        ([(buf[0].0, None)] + rest.0, [Single(buf[0].1.value)] + rest.1)
      else ([buf[0]] + rest.0, rest.1)
  }

  /**
   * Side `s` completes: the other side's items will never match, so they
   * skip the buffer from now on and the waiting ones are released.
   */
  function Finish<K, T>(st: State<K, T>, s: Side): (r: (State<K, T>, seq<Pair<T>>))
    ensures r.0.done == st.done + {s}
    ensures r.0.skip == st.skip + {Other(s)}
    ensures r.1 == Singles(Waiting(st.buffer, Other(s)))
    ensures Waiting(r.0.buffer, Other(s)) == []
    ensures Waiting(r.0.buffer, s) == Waiting(st.buffer, s)
  {
    var (buf, out) := Release(st.buffer, Other(s));
    ReleaseWaiting(st.buffer, Other(s));
    ReleaseOrder(st.buffer, Other(s));
    (State(buf, st.skip + {Other(s)}, st.done + {s}), out)
  }

  lemma {:induction false} ReleaseWaiting<K, T>(buf: seq<(K, Slot<K, T>)>, s: Side)
    ensures Waiting(Release(buf, s).0, s) == []
    ensures Waiting(Release(buf, s).0, Other(s)) == Waiting(buf, Other(s))
  {
    if |buf| > 0 {
      ReleaseWaiting(buf[1..], s);
      var r := Release(buf, s);
      assert r.0[1..] == Release(buf[1..], s).0;
    }
  }

  /** Release emits the waiting items of its side in insertion order. */
  lemma {:induction false} ReleaseOrder<K, T>(buf: seq<(K, Slot<K, T>)>, s: Side)
    ensures Release(buf, s).1 == Singles(Waiting(buf, s))
  {
    if |buf| > 0 {
      ReleaseOrder(buf[1..], s);
      var w := if buf[0].1.Some? && buf[0].1.value.side == s then [buf[0].1.value] else [];
      SinglesAppend(w, Waiting(buf[1..], s));
    }
  }

  /** Released items leave the buffer's waiting items and appear on the output. */
  lemma {:induction false} ReleaseLive<K, T>(buf: seq<(K, Slot<K, T>)>, s: Side)
    ensures Live(Release(buf, s).0) + Emitted(Release(buf, s).1) == Live(buf)
  {
    if |buf| > 0 {
      ReleaseLive(buf[1..], s);
      var rest := Release(buf[1..], s);
      var r := Release(buf, s);
      if buf[0].1.Some? && buf[0].1.value.side == s {
        assert r.0[1..] == rest.0 && r.0[0].1 == None;
        assert r.1[1..] == rest.1 && r.1[0] == Single(buf[0].1.value);
        assert Carried(r.1[0]) == multiset{buf[0].1.value.item};
      } else {
        assert r.0[1..] == rest.0 && r.0[0] == buf[0];
        assert r.1 == rest.1;
      }
    }
  }

  /** What the operator has done once the merged input has run. */
  datatype Outcome<K, T> = Outcome(state: State<K, T>, out: seq<Pair<T>>, ending: Ending)

  /**
   * Runs the operator over the merged input from `st`. Notifications from
   * a completed side are never delivered; an error from either side is
   * forwarded at once; the output completes when the second side does,
   * after that side's release.
   */
  function Drive<K(==), T>(ks: Keyers<K, T>, st: State<K, T>, input: seq<Input<T>>): (r: Outcome<K, T>)
    ensures r.ending == InputEnding(st.done, input)
    ensures st.done <= r.state.done
    ensures r.ending == Completed ==> r.state.done == {A, B}
    decreases |input|
  {
    if |input| == 0 then Outcome(st, [], Open)
    else
      var From(s, ev) := input[0];
      if s in st.done then Drive(ks, st, input[1..])
      else match ev
        case Error(e) => Outcome(st, [], Failed(e))
        case Next(x) =>
          var (st1, o) := Pipe(st, Tag(ks, s, x));
          var rest := Drive(ks, st1, input[1..]);
          rest.(out := Emits(o) + rest.out)
        case Complete =>
          var (st1, fl) := Finish(st, s);
          if st1.done == {A, B} then Outcome(st1, fl, Completed)
          else
            var rest := Drive(ks, st1, input[1..]);
            rest.(out := fl + rest.out)
  }

  /**
   * `zipDiff(obsA, obsB, keyBy, keyByB)` as a function of the merged input:
   * the output completes exactly when both inputs have, and fails with the
   * first error either input sends.
   */
  function ZipDiff<K(==), T>(ks: Keyers<K, T>, input: seq<Input<T>>): (r: seq<Event<Pair<T>>>)
    ensures WellFormed(r)
    ensures EndingOf(r) == InputEnding({}, input)
    ensures EndingOf(r) == Completed ==> From(A, Complete) in input && From(B, Complete) in input
  {
    var o := Drive(ks, Start(), input);
    BuildReadsBack(o.out, o.ending);
    EndingNeedsBoth({}, input);
    Build(o.out, o.ending)
  }

  // ---------------------------------------------------------------------
  // The buffer's invariant

  /**
   * One slot per key, every waiting item filed under its own key, a side
   * skips the buffer exactly when the other side has completed, and no
   * item of a side that skips the buffer is waiting.
   */
  predicate Inv<K(==), T>(st: State<K, T>)
  {
    && UniqueKeys(st.buffer)
    && (forall i :: 0 <= i < |st.buffer| && st.buffer[i].1.Some? ==> st.buffer[i].1.value.key == st.buffer[i].0)
    && (forall s :: s in st.skip <==> Other(s) in st.done)
    && (forall i :: 0 <= i < |st.buffer| && st.buffer[i].1.Some? ==> st.buffer[i].1.value.side !in st.skip)
  }

  lemma StartInv<K, T>()
    ensures Inv(Start<K, T>())
  {
  }

  lemma {:induction false} LookupAt<K, V>(m: seq<(K, V)>, k: K)
    requires UniqueKeys(m) && k in Keys(m)
    ensures exists i :: 0 <= i < |m| && m[i].0 == k && Lookup(m, k) == Some(m[i].1)
  {
    KeysMember(m, k);
    var i :| 0 <= i < |m| && m[i].0 == k;
    assert m[i] in m;
    LookupUnique(m, k, m[i].1);
  }

  /** Filing an item under its own key, or a tombstone, keeps the invariant. */
  lemma PutKeepsInv<K, T>(st: State<K, T>, k: K, v: Slot<K, T>, m: seq<(K, Slot<K, T>)>)
    requires Inv(st)
    requires v.Some? ==> v.value.key == k && v.value.side !in st.skip
    requires m == Put(st.buffer, k, v)
    ensures Inv(st.(buffer := m))
  {
    if k in Keys(st.buffer) {
      PutInPlace(st.buffer, k, v);
    } else {
      assert m == st.buffer + [(k, v)];
    }
  }

  lemma PipeKeepsInv<K, T>(st: State<K, T>, t: Tagged<K, T>)
    requires Inv(st)
    ensures Inv(Pipe(st, t).0)
  {
    var held := Lookup(st.buffer, t.key);
    if held == Some(None) {
    } else if held.Some? && held.value.value.side != t.side {
      PutKeepsInv(st, t.key, None, Put(st.buffer, t.key, None));
    } else if t.side in st.skip {
    } else {
      PutKeepsInv(st, t.key, Some(t), Put(st.buffer, t.key, Some(t)));
    }
  }

  lemma FinishKeepsInv<K, T>(st: State<K, T>, s: Side)
    requires Inv(st)
    ensures Inv(Finish(st, s).0)
  {
    var r := Release(st.buffer, Other(s));
    assert forall i :: 0 <= i < |r.0| ==> r.0[i].0 == st.buffer[i].0;
    UniqueKeysSameNames(st.buffer, r.0);
  }

  lemma {:induction false} UniqueKeysSameNames<K, V, W>(a: seq<(K, V)>, b: seq<(K, W)>)
    requires |a| == |b| && forall i :: 0 <= i < |a| ==> a[i].0 == b[i].0
    requires UniqueKeys(a)
    ensures UniqueKeys(b)
  {
    UniqueKeysDistinct(a);
    DistinctIsUnique(b);
  }

  lemma {:induction false} DriveKeepsInv<K, T>(ks: Keyers<K, T>, st: State<K, T>, input: seq<Input<T>>)
    requires Inv(st)
    ensures Inv(Drive(ks, st, input).state)
    decreases |input|
  {
    if |input| > 0 {
      var From(s, ev) := input[0];
      if s in st.done {
        DriveKeepsInv(ks, st, input[1..]);
      } else if ev.Next? {
        var t := Tag(ks, s, ev.value);
        PipeKeepsInv(st, t);
        DriveKeepsInv(ks, Pipe(st, t).0, input[1..]);
      } else if ev.Complete? {
        FinishKeepsInv(st, s);
        DriveKeepsInv(ks, Finish(st, s).0, input[1..]);
      }
    }
  }

  // ---------------------------------------------------------------------
  // Tombstones are permanent

  lemma {:induction false} ReleaseKeepsTombstone<K, T>(buf: seq<(K, Slot<K, T>)>, s: Side, k: K)
    requires Tombstoned(buf, k)
    ensures Tombstoned(Release(buf, s).0, k)
  {
    var r := Release(buf, s);
    if buf[0].0 != k {
      ReleaseKeepsTombstone(buf[1..], s, k);
      assert r.0[1..] == Release(buf[1..], s).0;
    }
  }

  /**
   * Once a key is a tombstone it stays one, whatever arrives or completes
   * later, so every later item with that key is dropped.
   */
  lemma {:induction false} TombstonesStay<K, T>(ks: Keyers<K, T>, st: State<K, T>, input: seq<Input<T>>, k: K)
    requires Tombstoned(st.buffer, k)
    ensures Tombstoned(Drive(ks, st, input).state.buffer, k)
    decreases |input|
  {
    if |input| > 0 {
      var From(s, ev) := input[0];
      if s in st.done {
        TombstonesStay(ks, st, input[1..], k);
      } else if ev.Next? {
        var t := Tag(ks, s, ev.value);
        if k != t.key {
          PipeOthers(st, t, k);
        }
        TombstonesStay(ks, Pipe(st, t).0, input[1..], k);
      } else if ev.Complete? {
        ReleaseKeepsTombstone(st.buffer, Other(s), k);
        TombstonesStay(ks, Finish(st, s).0, input[1..], k);
      }
    }
  }

  // ---------------------------------------------------------------------
  // No item is emitted twice

  /** The items held under `k`, if any. */
  function Held<K(==), T>(buf: seq<(K, Slot<K, T>)>, k: K): multiset<T>
  {
    var o := Lookup(buf, k);
    if o.Some? then SlotItems(o.value) else multiset{}
  }

  /** Putting a slot swaps the items held under its key for the new slot's. */
  lemma {:induction false} PutLive<K, T>(buf: seq<(K, Slot<K, T>)>, k: K, v: Slot<K, T>)
    ensures Live(Put(buf, k, v)) + Held(buf, k) == Live(buf) + SlotItems(v)
  {
    var r := Put(buf, k, v);
    if |buf| == 0 {
      assert r[1..] == [];
    } else if buf[0].0 == k {
      assert r[1..] == buf[1..];
    } else {
      PutLive(buf[1..], k, v);
      assert r[0] == buf[0] && r[1..] == Put(buf[1..], k, v);
      assert Held(buf, k) == Held(buf[1..], k);
      assert Live(r) == SlotItems(buf[0].1) + Live(r[1..]);
      assert Live(buf) == SlotItems(buf[0].1) + Live(buf[1..]);
      Regroup(SlotItems(buf[0].1), Live(r[1..]), Held(buf, k), Live(buf[1..]), SlotItems(v));
    }
  }

  lemma Regroup<T>(a: multiset<T>, x: multiset<T>, h: multiset<T>, y: multiset<T>, s: multiset<T>)
    requires x + h == y + s
    ensures (a + x) + h == (a + y) + s
  {
    assert (a + x) + h == a + (x + h);
  }

  /**
   * An arriving item either waits, replacing at most one waiting item,
   * leaves at once (alone or with a waiting partner), or is dropped:
   * together the output and the buffer gain at most that item.
   */
  lemma PipeLive<K, T>(st: State<K, T>, t: Tagged<K, T>)
    ensures Emitted(Emits(Pipe(st, t).1)) + Live(Pipe(st, t).0.buffer) <= Live(st.buffer) + multiset{t.item}
  {
    var held := Lookup(st.buffer, t.key);
    var r := Pipe(st, t);
    if held == Some(None) {
      assert r == (st, None);
      assert Emits(r.1) == [];
    } else if held.Some? && held.value.value.side != t.side {
      var u := held.value.value;
      assert r == (st.(buffer := Put(st.buffer, t.key, None)), Some(Join(t, u)));
      PutLive(st.buffer, t.key, None);
      assert Held(st.buffer, t.key) == multiset{u.item};
      EmittedOne(Join(t, u));
      assert Carried(Join(t, u)) == multiset{t.item} + multiset{u.item};
      MatchRegroup(multiset{t.item}, multiset{u.item}, Live(r.0.buffer), Live(st.buffer));
    } else if t.side in st.skip {
      assert r == (st, Some(Single(t)));
      EmittedOne(Single(t));
    } else {
      assert r == (st.(buffer := Put(st.buffer, t.key, Some(t))), None);
      assert Emits(r.1) == [];
      PutLive(st.buffer, t.key, Some(t));
      LeOfSum(Live(r.0.buffer), Held(st.buffer, t.key), Live(st.buffer) + multiset{t.item});
    }
  }

  lemma MatchRegroup<T>(x: multiset<T>, u: multiset<T>, after: multiset<T>, before: multiset<T>)
    requires after + u == before
    ensures (x + u) + after <= before + x
  {
    assert (x + u) + after == (after + u) + x;
  }

  lemma LeOfSum<T>(a: multiset<T>, h: multiset<T>, b: multiset<T>)
    requires a + h == b
    ensures multiset{} + a <= b
  {
  }

  lemma EmittedOne<T>(p: Pair<T>)
    ensures Emitted([p]) == Carried(p)
  {
    assert [p][1..] == [];
  }

  /**
   * Over any run, what has been emitted and what still waits together
   * never exceed what was waiting at the start plus the items delivered.
   */
  lemma {:induction false} DriveConserves<K, T>(ks: Keyers<K, T>, st: State<K, T>, input: seq<Input<T>>)
    ensures Emitted(Drive(ks, st, input).out) + Live(Drive(ks, st, input).state.buffer)
            <= Live(st.buffer) + Accepted(st.done, input)
    decreases |input|
  {
    if |input| > 0 {
      var From(s, ev) := input[0];
      if s in st.done {
        DriveConserves(ks, st, input[1..]);
      } else if ev.Next? {
        var t := Tag(ks, s, ev.value);
        var (st1, o) := Pipe(st, t);
        var rest := Drive(ks, st1, input[1..]);
        PipeLive(st, t);
        DriveConserves(ks, st1, input[1..]);
        EmittedAppend(Emits(o), rest.out);
        RegroupStep(Emitted(Emits(o)), Emitted(rest.out), Live(rest.state.buffer), Live(st1.buffer),
                    Accepted(st.done, input[1..]), Live(st.buffer), multiset{t.item});
      } else if ev.Complete? {
        var (st1, fl) := Finish(st, s);
        ReleaseLive(st.buffer, Other(s));
        if st1.done != {A, B} {
          var rest := Drive(ks, st1, input[1..]);
          DriveConserves(ks, st1, input[1..]);
          EmittedAppend(fl, rest.out);
          RegroupStep(Emitted(fl), Emitted(rest.out), Live(rest.state.buffer), Live(st1.buffer),
                      Accepted(st1.done, input[1..]), Live(st.buffer), multiset{});
        }
      }
    }
  }

  lemma RegroupStep<T>(e1: multiset<T>, e2: multiset<T>, l2: multiset<T>, l1: multiset<T>,
                       acc: multiset<T>, l0: multiset<T>, x: multiset<T>)
    requires e2 + l2 <= l1 + acc
    requires e1 + l1 <= l0 + x
    ensures (e1 + e2) + l2 <= l0 + (x + acc)
  {
    forall y
      ensures ((e1 + e2) + l2)[y] <= (l0 + (x + acc))[y]
    {
      assert (e2 + l2)[y] <= (l1 + acc)[y];
      assert (e1 + l1)[y] <= (l0 + x)[y];
    }
  }

  /**
   * No input item is emitted more than once: each value appears on the
   * output at most as many times as it arrived on the inputs.
   */
  lemma NoItemEmittedTwice<K, T>(ks: Keyers<K, T>, input: seq<Input<T>>)
    ensures Emitted(Values(ZipDiff(ks, input))) <= Accepted({}, input)
  {
    var o := Drive(ks, Start(), input);
    BuildReadsBack(o.out, o.ending);
    assert ZipDiff(ks, input) == Build(o.out, o.ending);
    DriveConserves(ks, Start(), input);
    assert Live(Start<K, T>().buffer) == multiset{};
    DropLive(Emitted(o.out), Live(o.state.buffer), Accepted({}, input));
  }

  lemma DropLive<T>(e: multiset<T>, l: multiset<T>, acc: multiset<T>)
    requires e + l <= multiset{} + acc
    ensures e <= acc
  {
    forall y
      ensures e[y] <= acc[y]
    {
      assert (e + l)[y] <= (multiset{} + acc)[y];
    }
  }

  // ---------------------------------------------------------------------
  // Nothing is left behind

  lemma {:induction false} NoneWaiting<K, T>(buf: seq<(K, Slot<K, T>)>)
    requires forall i :: 0 <= i < |buf| ==> buf[i].1.None?
    ensures Live(buf) == multiset{}
  {
    if |buf| > 0 {
      assert forall i :: 0 <= i < |buf[1..]| ==> buf[1..][i] == buf[i + 1];
      NoneWaiting(buf[1..]);
    }
  }

  /**
   * When the output completes, both sides have completed and every item
   * still waiting has been released: the buffer holds only tombstones.
   */
  lemma NothingLeftBehind<K, T>(ks: Keyers<K, T>, input: seq<Input<T>>)
    ensures var o := Drive(ks, Start(), input);
            o.ending == Completed ==> Live(o.state.buffer) == multiset{}
  {
    var o := Drive(ks, Start(), input);
    DriveKeepsInv(ks, Start(), input);
    if o.ending == Completed {
      assert o.state.skip == {A, B} by {
        assert Other(A) in o.state.done && Other(B) in o.state.done;
      }
      var buf := o.state.buffer;
      forall i | 0 <= i < |buf|
        ensures buf[i].1.None?
      {
        assert buf[i].1.Some? ==> buf[i].1.value.side in {A, B};
      }
      NoneWaiting(buf);
    }
  }

  /**
   * An item that arrives after the other side has completed, with no
   * partner, skips the buffer and is emitted alone: here A completes, then
   * B sends `x` and completes, and the output is `{b: x}` then completion.
   */
  lemma LateItemReleased<K, T>(ks: Keyers<K, T>, x: T)
    ensures var r := Drive(ks, Start(), [From(A, Complete), From(B, Next(x)), From(B, Complete)]);
            r.out == [Pair(None, Some(x))] && r.ending == Completed
  {
    var input := [From(A, Complete), From(B, Next(x)), From(B, Complete)];
    var t := Tag(ks, B, x);
    var st0 := Start<K, T>();
    var (st1, fl1) := Finish(st0, A);
    assert fl1 == [] && st1.buffer == [] && st1.skip == {B} && st1.done == {A};
    var (st2, o) := Pipe(st1, t);
    assert o == Some(Pair(None, Some(x))) && st2 == st1;
    var (st3, fl3) := Finish(st2, B);
    assert fl3 == [] && st3.done == {A, B};
    assert input[1..] == [From(B, Next(x)), From(B, Complete)];
    assert input[1..][1..] == [From(B, Complete)];
    var last := Drive(ks, st2, input[1..][1..]);
    assert last == Outcome(st3, [], Completed);
    var mid := Drive(ks, st1, input[1..]);
    assert mid == last.(out := Emits(o) + last.out);
    assert Drive(ks, st0, input) == mid.(out := fl1 + mid.out);
  }
}
