/**
 * `zipDiff` of the blueflag package: the same streaming join by key as the
 * 92green variant, without tombstones or skip flags. An item whose key has
 * the other side's item waiting is emitted together with it, and the waiting
 * item stays where it is; an unmatched item waits, replacing any item of
 * its own side under the same key. When one side completes, the other
 * side's waiting items are emitted alone and removed from the buffer.
 */
module ZipRetain {
  import opened Wrappers
  import opened Traces
  import opened Keyed
  import opened ZipTypes

  /** The buffer, an insertion-ordered `Map` from key to waiting item, and the sides that have completed. */
  datatype State<K, T> = State(buffer: seq<(K, Tagged<K, T>)>, done: set<Side>)

  function Start<K, T>(): State<K, T>
  {
    State([], {})
  }

  /** The items of side `s` waiting in the buffer, in insertion order. */
  function Waiting<K, T>(buf: seq<(K, Tagged<K, T>)>, s: Side): seq<Tagged<K, T>>
  {
    if |buf| == 0 then []
    else (if buf[0].1.side == s then [buf[0].1] else []) + Waiting(buf[1..], s)
  }

  /** The other side's item waiting under the arriving item's key, if any. */
  function Partner<K(==), T>(buf: seq<(K, Tagged<K, T>)>, t: Tagged<K, T>): Option<Tagged<K, T>>
  {
    var held := Lookup(buf, t.key);
    if held.Some? && held.value.side != t.side then held else None
  }

  /**
   * `bufferAndFilterMatching`, for one tagged item: if the other side's item
   * waits under its key, emit both and leave the buffer alone; otherwise
   * file the item under its key, replacing a same-side item, and emit nothing.
   */
  function Pipe<K(==), T>(st: State<K, T>, t: Tagged<K, T>): (r: (State<K, T>, Option<Pair<T>>))
    ensures r.0.done == st.done
    ensures Partner(st.buffer, t).Some? ==>
              r == (st, Some(Join(t, Partner(st.buffer, t).value)))
    ensures Partner(st.buffer, t).None? ==>
              r.1 == None && Lookup(r.0.buffer, t.key) == Some(t) && Keys(r.0.buffer) == Keys(st.buffer) + {t.key}
  {
    var held := Lookup(st.buffer, t.key);
    if held.Some? && held.value.side != t.side then (st, Some(Join(t, held.value)))
    else
      PutHere(st.buffer, t.key, t);
      (st.(buffer := Put(st.buffer, t.key, t)), None)
  }

  /**
   * The buffer pass of `sendBufferedItemsOnComplete(s)`: every waiting item
   * of side `s` is emitted alone and deleted; the rest keep their order.
   */
  function Release<K, T>(buf: seq<(K, Tagged<K, T>)>, s: Side): (r: (seq<(K, Tagged<K, T>)>, seq<Pair<T>>))
    ensures |r.0| + |r.1| == |buf|
    ensures forall i :: 0 <= i < |r.0| ==> r.0[i] in buf && r.0[i].1.side != s
  {
    if |buf| == 0 then ([], [])
    else
      var rest := Release(buf[1..], s);
      if buf[0].1.side == s then (rest.0, [Single(buf[0].1)] + rest.1)
      else ([buf[0]] + rest.0, rest.1)
  }

  /** Release emits the waiting items of its side in insertion order. */
  lemma {:induction false} ReleaseOrder<K, T>(buf: seq<(K, Tagged<K, T>)>, s: Side)
    ensures Release(buf, s).1 == Singles(Waiting(buf, s))
  {
    if |buf| > 0 {
      ReleaseOrder(buf[1..], s);
      var w := if buf[0].1.side == s then [buf[0].1] else [];
      SinglesAppend(w, Waiting(buf[1..], s));
    }
  }

  /** Release removes exactly the items of its side: the other side's items stay, in order. */
  lemma {:induction false} ReleaseWaiting<K, T>(buf: seq<(K, Tagged<K, T>)>, s: Side)
    ensures Waiting(Release(buf, s).0, s) == []
    ensures Waiting(Release(buf, s).0, Other(s)) == Waiting(buf, Other(s))
  {
    if |buf| > 0 {
      ReleaseWaiting(buf[1..], s);
      var r := Release(buf, s);
      var rest := Release(buf[1..], s);
      if buf[0].1.side != s {
        assert r.0[0] == buf[0] && r.0[1..] == rest.0;
      }
    }
  }

  /** An item of the side that stays keeps its key and its slot. */
  lemma {:induction false} ReleaseKeeps<K, T>(buf: seq<(K, Tagged<K, T>)>, s: Side, k: K)
    requires Lookup(buf, k).Some? && Lookup(buf, k).value.side != s
    ensures Lookup(Release(buf, s).0, k) == Lookup(buf, k)
  {
    var r := Release(buf, s);
    var rest := Release(buf[1..], s);
    if buf[0].0 == k {
      assert r.0[0] == buf[0];
    } else {
      ReleaseKeeps(buf[1..], s, k);
      if buf[0].1.side != s {
        assert r.0[0] == buf[0] && r.0[1..] == rest.0;
      }
    }
  }

  /** Side `s` completes: the other side's waiting items can no longer match and are released. */
  function Finish<K, T>(st: State<K, T>, s: Side): (r: (State<K, T>, seq<Pair<T>>))
    ensures r.0.done == st.done + {s}
    ensures r.1 == Singles(Waiting(st.buffer, Other(s)))
    ensures Waiting(r.0.buffer, Other(s)) == []
    ensures Waiting(r.0.buffer, s) == Waiting(st.buffer, s)
  {
    var (buf, out) := Release(st.buffer, Other(s));
    ReleaseWaiting(st.buffer, Other(s));
    ReleaseOrder(st.buffer, Other(s));
    (State(buf, st.done + {s}), out)
  }

  /** What the operator has done once the merged input has run. */
  datatype Outcome<K, T> = Outcome(state: State<K, T>, out: seq<Pair<T>>, ending: Ending)

  /**
   * Runs the operator over the merged input from `st`, delivering nothing
   * from a side that has completed, forwarding the first error, and
   * completing when the second side completes, after its release.
   */
  function Drive<K(==), T>(ks: Keyers<K, T>, st: State<K, T>, input: seq<Input<T>>): (r: Outcome<K, T>)
    ensures r.ending == InputEnding(st.done, input)
    ensures st.done <= r.state.done
    decreases |input|
  {
    if |input| == 0 then Outcome(st, [], Open)
    else
      var From(s, ev) := input[0];
      if s in st.done then Drive(ks, st, input[1..])
      else match ev
        case Error(e) => Outcome(st, [], Failed(e))
        case Next(x) =>
          var (st1, o) := Pipe(st, Tag(ks, s, x));
          var rest := Drive(ks, st1, input[1..]);
          rest.(out := Emits(o) + rest.out)
        case Complete =>
          var (st1, fl) := Finish(st, s);
          if st1.done == {A, B} then Outcome(st1, fl, Completed)
          else
            var rest := Drive(ks, st1, input[1..]);
            rest.(out := fl + rest.out)
  }

  /**
   * `zipDiff(obsA, obsB, keyBy, keyByB)` as a function of the merged input:
   * the output completes exactly when both inputs have, and fails with the
   * first error either input sends.
   */
  function ZipDiff<K(==), T>(ks: Keyers<K, T>, input: seq<Input<T>>): (r: seq<Event<Pair<T>>>)
    ensures WellFormed(r)
    ensures EndingOf(r) == InputEnding({}, input)
    ensures EndingOf(r) == Completed ==> From(A, Complete) in input && From(B, Complete) in input
  {
    var o := Drive(ks, Start(), input);
    BuildReadsBack(o.out, o.ending);
    EndingNeedsBoth({}, input);
    Build(o.out, o.ending)
  }

  // ---------------------------------------------------------------------
  // The buffer's invariant

  /** One entry per key, each item filed under its own key. */
  predicate Inv<K(==), T>(st: State<K, T>)
  {
    && UniqueKeys(st.buffer)
    && (forall i :: 0 <= i < |st.buffer| ==> st.buffer[i].1.key == st.buffer[i].0)
  }

  lemma PipeKeepsInv<K, T>(st: State<K, T>, t: Tagged<K, T>)
    requires Inv(st)
    ensures Inv(Pipe(st, t).0)
  {
    if Partner(st.buffer, t).None? {
      var m := Put(st.buffer, t.key, t);
      if t.key in Keys(st.buffer) {
        PutInPlace(st.buffer, t.key, t);
      } else {
        assert m == st.buffer + [(t.key, t)];
      }
    }
  }

  lemma {:induction false} ReleaseUnique<K, T>(buf: seq<(K, Tagged<K, T>)>, s: Side)
    requires UniqueKeys(buf)
    ensures UniqueKeys(Release(buf, s).0)
    ensures Keys(Release(buf, s).0) <= Keys(buf)
  {
    if |buf| > 0 {
      ReleaseUnique(buf[1..], s);
      var r := Release(buf, s);
      var rest := Release(buf[1..], s);
      if buf[0].1.side != s {
        assert r.0 == [buf[0]] + rest.0;
        assert r.0[1..] == rest.0;
      }
    }
  }

  lemma FinishKeepsInv<K, T>(st: State<K, T>, s: Side)
    requires Inv(st)
    ensures Inv(Finish(st, s).0)
  {
    ReleaseUnique(st.buffer, Other(s));
    var r := Release(st.buffer, Other(s));
    forall i | 0 <= i < |r.0|
      ensures r.0[i].1.key == r.0[i].0
    {
      assert r.0[i] in st.buffer;
    }
  }

  lemma {:induction false} DriveKeepsInv<K, T>(ks: Keyers<K, T>, st: State<K, T>, input: seq<Input<T>>)
    requires Inv(st)
    ensures Inv(Drive(ks, st, input).state)
    decreases |input|
  {
    if |input| > 0 {
      var From(s, ev) := input[0];
      if s in st.done {
        DriveKeepsInv(ks, st, input[1..]);
      } else if ev.Next? {
        var t := Tag(ks, s, ev.value);
        PipeKeepsInv(st, t);
        DriveKeepsInv(ks, Pipe(st, t).0, input[1..]);
      } else if ev.Complete? {
        FinishKeepsInv(st, s);
        DriveKeepsInv(ks, Finish(st, s).0, input[1..]);
      }
    }
  }

  // ---------------------------------------------------------------------
  // Behaviour over a run

  /** The object holds only an item of side `s`: a release of that side. */
  predicate AloneFrom<T>(p: Pair<T>, s: Side)
  {
    if s == A then p.a.Some? && p.b.None? else p.a.None? && p.b.Some?
  }

  /**
   * Once side `s`'s partner has completed, an item of side `s` waiting
   * under a key stays waiting under it for the rest of the run (a later
   * item of the same side may replace it), and no item of side `s` is ever
   * released alone: late items are buffered for good.
   */
  lemma {:induction false} LateItemsStay<K, T>(ks: Keyers<K, T>, st: State<K, T>, input: seq<Input<T>>, s: Side, k: K)
    requires Other(s) in st.done
    requires Lookup(st.buffer, k).Some? && Lookup(st.buffer, k).value.side == s
    ensures var r := Drive(ks, st, input);
            Lookup(r.state.buffer, k).Some? && Lookup(r.state.buffer, k).value.side == s
    decreases |input|
  {
    if |input| > 0 {
      var From(side, ev) := input[0];
      if side in st.done {
        LateItemsStay(ks, st, input[1..], s, k);
      } else if ev.Next? {
        var t := Tag(ks, side, ev.value);
        assert side == s;
        if t.key != k {
          PutOthers(st.buffer, t.key, t, k);
        }
        LateItemsStay(ks, Pipe(st, t).0, input[1..], s, k);
      } else if ev.Complete? {
        assert side == s;
        ReleaseKeeps(st.buffer, Other(s), k);
        if (Finish(st, side).0.done != {A, B}) {
          LateItemsStay(ks, Finish(st, side).0, input[1..], s, k);
        }
      }
    }
  }

  lemma {:induction false} NoneAloneIn<K, T>(ts: seq<Tagged<K, T>>, s: Side)
    requires forall i :: 0 <= i < |ts| ==> ts[i].side != s
    ensures forall p :: p in Singles(ts) ==> !AloneFrom(p, s)
  {
  }

  lemma {:induction false} WaitingSide<K, T>(buf: seq<(K, Tagged<K, T>)>, s: Side)
    ensures forall i :: 0 <= i < |Waiting(buf, s)| ==> Waiting(buf, s)[i].side == s
  {
    if |buf| > 0 {
      WaitingSide(buf[1..], s);
    }
  }

  /** After side `s`'s partner completes, nothing of side `s` is ever emitted alone. */
  lemma {:induction false} NeverReleasedLate<K, T>(ks: Keyers<K, T>, st: State<K, T>, input: seq<Input<T>>, s: Side)
    requires Other(s) in st.done
    ensures forall p :: p in Drive(ks, st, input).out ==> !AloneFrom(p, s)
    decreases |input|
  {
    if |input| > 0 {
      var From(side, ev) := input[0];
      if side in st.done {
        NeverReleasedLate(ks, st, input[1..], s);
      } else if ev.Next? {
        var t := Tag(ks, side, ev.value);
        NeverReleasedLate(ks, Pipe(st, t).0, input[1..], s);
      } else if ev.Complete? {
        assert side == s;
        WaitingSide(st.buffer, Other(s));
        NoneAloneIn(Waiting(st.buffer, Other(s)), s);
        if (Finish(st, side).0.done != {A, B}) {
          NeverReleasedLate(ks, Finish(st, side).0, input[1..], s);
        }
      }
    }
  }

  /**
   * Until a side completes, every emitted object is a match carrying one
   * item from each side: nothing leaves the buffer alone.
   */
  lemma {:induction false} OnlyMatchesBeforeCompletion<K, T>(ks: Keyers<K, T>, st: State<K, T>, input: seq<Input<T>>)
    requires forall i :: 0 <= i < |input| ==> !input[i].event.Complete?
    ensures forall p :: p in Drive(ks, st, input).out ==> p.a.Some? && p.b.Some?
    decreases |input|
  {
    if |input| > 0 {
      var From(s, ev) := input[0];
      assert forall i :: 0 <= i < |input[1..]| ==> input[1..][i] == input[i + 1];
      if s in st.done {
        OnlyMatchesBeforeCompletion(ks, st, input[1..]);
      } else if ev.Next? {
        OnlyMatchesBeforeCompletion(ks, Pipe(st, Tag(ks, s, ev.value)).0, input[1..]);
      }
    }
  }

  /**
   * A match does not consume the waiting partner: two items of side A with
   * the key of a waiting B item are each emitted with it, and it is still
   * waiting afterwards.
   */
  lemma PartnerReused<K, T>(ks: Keyers<K, T>, st: State<K, T>, x1: T, x2: T, u: Tagged<K, T>)
    requires A !in st.done && u.side == B
    requires Lookup(st.buffer, u.key) == Some(u)
    requires KeyerOf(ks, A)(x1) == u.key && KeyerOf(ks, A)(x2) == u.key
    ensures var r := Drive(ks, st, [From(A, Next(x1)), From(A, Next(x2))]);
            r.out == [Pair(Some(x1), Some(u.item)), Pair(Some(x2), Some(u.item))]
            && Lookup(r.state.buffer, u.key) == Some(u)
  {
    var input := [From(A, Next(x1)), From(A, Next(x2))];
    var t1, t2 := Tag(ks, A, x1), Tag(ks, A, x2);
    assert Partner(st.buffer, t1) == Some(u);
    assert Pipe(st, t1) == (st, Some(Join(t1, u)));
    assert Pipe(st, t2) == (st, Some(Join(t2, u)));
    assert input[1..] == [From(A, Next(x2))];
    assert input[1..][1..] == [];
    var last := Drive(ks, st, input[1..][1..]);
    assert last.out == [];
    var second := Drive(ks, st, input[1..]);
    assert second == last.(out := [Join(t2, u)] + last.out);
  }

  /** The items waiting in the buffer. */
  function Items<K, T>(buf: seq<(K, Tagged<K, T>)>): set<T>
  {
    set i | 0 <= i < |buf| :: buf[i].1.item
  }

  lemma {:induction false} PutItems<K, T>(buf: seq<(K, Tagged<K, T>)>, k: K, t: Tagged<K, T>)
    ensures Items(Put(buf, k, t)) <= Items(buf) + {t.item}
  {
    if |buf| > 0 && buf[0].0 != k {
      PutItems(buf[1..], k, t);
      var r := Put(buf, k, t);
      assert r[1..] == Put(buf[1..], k, t);
      forall x | x in Items(r)
        ensures x in Items(buf) + {t.item}
      {
        var i :| 0 <= i < |r| && r[i].1.item == x;
        if i > 0 {
          assert r[1..][i - 1] == r[i];
          assert x in Items(Put(buf[1..], k, t));
          if x != t.item {
            var j :| 0 <= j < |buf[1..]| && buf[1..][j].1.item == x;
            assert buf[j + 1] == buf[1..][j];
          }
        }
      }
    } else if |buf| > 0 {
      var r := Put(buf, k, t);
      forall x | x in Items(r)
        ensures x in Items(buf) + {t.item}
      {
        var i :| 0 <= i < |r| && r[i].1.item == x;
        if i > 0 { assert r[i] == buf[i]; }
      }
    }
  }

  lemma {:induction false} WaitingItems<K, T>(buf: seq<(K, Tagged<K, T>)>, s: Side)
    ensures forall i :: 0 <= i < |Waiting(buf, s)| ==> Waiting(buf, s)[i].item in Items(buf)
  {
    if |buf| > 0 {
      WaitingItems(buf[1..], s);
      var w := Waiting(buf, s);
      var head := if buf[0].1.side == s then [buf[0].1] else [];
      forall i | 0 <= i < |w|
        ensures w[i].item in Items(buf)
      {
        if i < |head| {
          assert w[i] == buf[0].1;
        } else {
          var j :| 0 <= j < |buf[1..]| && buf[1..][j].1.item == w[i].item;
          assert buf[j + 1] == buf[1..][j];
        }
      }
    }
  }

  lemma {:induction false} EmittedSingles<K, T>(ts: seq<Tagged<K, T>>)
    ensures forall x :: x in Emitted(Singles(ts)) ==> exists i :: 0 <= i < |ts| && ts[i].item == x
  {
    if |ts| > 0 {
      EmittedSingles(ts[1..]);
      assert Singles(ts)[1..] == Singles(ts[1..]);
      forall x | x in Emitted(Singles(ts))
        ensures exists i :: 0 <= i < |ts| && ts[i].item == x
      {
        if x !in Carried(Single(ts[0])) {
          var j :| 0 <= j < |ts[1..]| && ts[1..][j].item == x;
          assert ts[j + 1].item == x;
        }
      }
    }
  }

  /** One item passing through the buffer emits only itself and a waiting item, and files at most itself. */
  lemma PipeInvents<K, T>(st: State<K, T>, t: Tagged<K, T>)
    ensures var (st1, o) := Pipe(st, t);
            && (forall x :: x in Emitted(Emits(o)) ==> x in Items(st.buffer) || x == t.item)
            && Items(st1.buffer) <= Items(st.buffer) + {t.item}
  {
    var (st1, o) := Pipe(st, t);
    if o.None? {
      PutItems(st.buffer, t.key, t);
    } else {
      var u := Partner(st.buffer, t).value;
      LookupItem(st.buffer, t.key);
      assert Emitted(Emits(o)) == Carried(Join(t, u));
    }
  }

  /** A completion releases only waiting items and files nothing new. */
  lemma FinishInvents<K, T>(st: State<K, T>, s: Side)
    ensures var (st1, fl) := Finish(st, s);
            && (forall x :: x in Emitted(fl) ==> x in Items(st.buffer))
            && Items(st1.buffer) <= Items(st.buffer)
  {
    var st1 := Finish(st, s).0;
    WaitingItems(st.buffer, Other(s));
    EmittedSingles(Waiting(st.buffer, Other(s)));
    forall x | x in Items(st1.buffer)
      ensures x in Items(st.buffer)
    {
      var i :| 0 <= i < |st1.buffer| && st1.buffer[i].1.item == x;
      assert st1.buffer[i] in st.buffer;
    }
  }

  /**
   * The operator invents nothing: every item it emits, alone or in a
   * match, was waiting in the buffer at the start or arrived on an input
   * that was still open.
   */
  lemma {:induction false} NothingInvented<K, T>(ks: Keyers<K, T>, st: State<K, T>, input: seq<Input<T>>)
    ensures forall x :: x in Emitted(Drive(ks, st, input).out) ==>
              x in Items(st.buffer) || x in Accepted(st.done, input)
    decreases |input|
  {
    if |input| > 0 {
      var From(s, ev) := input[0];
      if s in st.done {
        NothingInvented(ks, st, input[1..]);
      } else if ev.Next? {
        var t := Tag(ks, s, ev.value);
        var (st1, o) := Pipe(st, t);
        PipeInvents(st, t);
        NothingInvented(ks, st1, input[1..]);
        EmittedAppend(Emits(o), Drive(ks, st1, input[1..]).out);
      } else if ev.Complete? {
        var (st1, fl) := Finish(st, s);
        FinishInvents(st, s);
        if st1.done != {A, B} {
          NothingInvented(ks, st1, input[1..]);
          EmittedAppend(fl, Drive(ks, st1, input[1..]).out);
        }
      }
    }
  }

  lemma {:induction false} LookupItem<K, T>(buf: seq<(K, Tagged<K, T>)>, k: K)
    requires Lookup(buf, k).Some?
    ensures Lookup(buf, k).value.item in Items(buf)
  {
    if buf[0].0 != k {
      LookupItem(buf[1..], k);
      var j :| 0 <= j < |buf[1..]| && buf[1..][j].1.item == Lookup(buf, k).value.item;
      assert buf[j + 1] == buf[1..][j];
    }
  }

  /**
   * An item that arrives after the other side has completed, with no
   * partner, is never emitted: here A completes, then B sends `x` and
   * completes, and the output completes empty while `x` stays buffered.
   */
  lemma LateItemLost<K, T>(ks: Keyers<K, T>, x: T)
    ensures var r := Drive(ks, Start(), [From(A, Complete), From(B, Next(x)), From(B, Complete)]);
            && r.out == []
            && r.ending == Completed
            && Lookup(r.state.buffer, KeyerOf(ks, B)(x)) == Some(Tag(ks, B, x))
  {
    var input := [From(A, Complete), From(B, Next(x)), From(B, Complete)];
    var t := Tag(ks, B, x);
    var st0 := Start<K, T>();
    assert Release(st0.buffer, B) == ([], []);
    assert st0.done + {A} == {A};
    assert Finish(st0, A) == (State([], {A}), []);
    var st1 := State([], {A});
    var (st2, o) := Pipe(st1, t);
    assert o == None && st2.buffer == [(t.key, t)] && st2.done == {A};
    assert Waiting(st2.buffer, A) == [];
    var (st3, fl3) := Finish(st2, B);
    assert fl3 == [] && st3.done == {A, B};
    ReleaseKeeps(st2.buffer, A, t.key);
    assert st3.buffer == Release(st2.buffer, A).0;
    assert input[1..] == [From(B, Next(x)), From(B, Complete)];
    assert input[1..][1..] == [From(B, Complete)];
    var last := Drive(ks, st2, input[1..][1..]);
    assert last == Outcome(st3, [], Completed);
    var mid := Drive(ks, st1, input[1..]);
    assert mid == last.(out := Emits(o) + last.out);
    assert Drive(ks, st0, input) == mid.(out := [] + mid.out);
  }
}
