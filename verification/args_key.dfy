/**
 * `argsToKey`: the canonical request key. Objects and arrays lose their
 * entries whose value is `null` or `undefined`, the remaining entries are
 * sorted by key name and each child is encoded the same way; the result,
 * a list of `[key, childKey]` pairs, is then passed to `JSON.stringify`.
 * Anything else is passed to `JSON.stringify` directly, and `undefined`
 * (for which `JSON.stringify` returns `undefined`) becomes `''`.
 *
 * `JSON.stringify` is modelled as a free term: a `Key` is the structure that
 * was stringified, so two keys are equal exactly when the stringified
 * structures are equal, which is the injectivity of `JSON.stringify` on
 * these shapes.
 */
module ArgsKey {
  import opened Wrappers
  import opened Keyed

  /** A request argument: the JSON-like values a caller can pass. */
  datatype Value =
    | Undefined
    | Null
    | Bool(b: bool)
    | Num(n: int)
    | Str(s: string)
    | Arr(items: seq<Value>)
    | Obj(fields: seq<(string, Value)>)

  /** What `JSON.stringify` is applied to: a primitive, or a list of `[key, childKey]` pairs. */
  datatype Json =
    | JNull
    | JBool(b: bool)
    | JNum(n: int)
    | JStr(s: string)
    | JPairs(pairs: seq<(string, Key)>)

  /** A key: `''`, or the text `JSON.stringify` produced. */
  datatype Key = Empty | Text(json: Json)

  // ---------------------------------------------------------------------------
  // String order: JavaScript's `<` on strings, lexicographic by character.
  // ---------------------------------------------------------------------------

  predicate Less(a: string, b: string)
  {
    if |a| == 0 then |b| > 0
    else if |b| == 0 then false
    else if a[0] != b[0] then a[0] < b[0]
    else Less(a[1..], b[1..])
  }

  lemma {:induction false} LessIrreflexive(a: string)
    ensures !Less(a, a)
  {
    if |a| > 0 {
      LessIrreflexive(a[1..]);
    }
  }

  lemma {:induction false} LessTransitive(a: string, b: string, c: string)
    requires Less(a, b) && Less(b, c)
    ensures Less(a, c)
  {
    if |a| > 0 && |b| > 0 && |c| > 0 && a[0] == b[0] && b[0] == c[0] {
      LessTransitive(a[1..], b[1..], c[1..]);
    }
  }

  lemma {:induction false} LessTotal(a: string, b: string)
    ensures a == b || Less(a, b) || Less(b, a)
  {
    if |a| > 0 && |b| > 0 && a[0] == b[0] {
      LessTotal(a[1..], b[1..]);
      assert a == [a[0]] + a[1..];
      assert b == [b[0]] + b[1..];
    }
  }

  lemma {:induction false} LessAsymmetric(a: string, b: string)
    ensures !(Less(a, b) && Less(b, a))
  {
    if |a| > 0 && |b| > 0 && a[0] == b[0] {
      LessAsymmetric(a[1..], b[1..]);
    }
  }

  // ---------------------------------------------------------------------------
  // Entries, presence filter and sort.
  // ---------------------------------------------------------------------------

  function DigitChar(d: nat): char
    requires d < 10
  {
    "0123456789"[d]
  }

  /** The decimal text of an array index, as `for...in` yields it. */
  function IndexKey(i: nat): string
  {
    if i < 10 then [DigitChar(i)] else IndexKey(i / 10) + [DigitChar(i % 10)]
  }

  /** The `for...in` entries of an array: its indices as strings, in ascending order. */
  function IndexEntries(items: seq<Value>): (r: seq<(string, Value)>)
    ensures |r| == |items|
    ensures forall i :: 0 <= i < |r| ==> r[i] == (IndexKey(i), items[i])
  {
    seq(|items|, i requires 0 <= i < |items| => (IndexKey(i), items[i]))
  }

  predicate IsPresent(v: Value) {
    v != Undefined && v != Null
  }

  /** The entries whose value is neither `null` nor `undefined`, in order. */
  function Present(es: seq<(string, Value)>): (r: seq<(string, Value)>)
    ensures forall i :: 0 <= i < |r| ==> r[i] in es && IsPresent(r[i].1)
    ensures forall i :: 0 <= i < |es| && IsPresent(es[i].1) ==> es[i] in r
  {
    if |es| == 0 then []
    else (if IsPresent(es[0].1) then [es[0]] else []) + Present(es[1..])
  }

  /** Non-decreasing by key. */
  ghost predicate SortedByKey<V>(s: seq<(string, V)>) {
    forall i, j :: 0 <= i < j < |s| ==> !Less(s[j].0, s[i].0)
  }

  /** Strictly increasing by key: sorted, and no key twice. */
  ghost predicate StrictlySorted<V>(s: seq<(string, V)>) {
    forall i, j :: 0 <= i < j < |s| ==> Less(s[i].0, s[j].0)
  }

  function Insert<V>(e: (string, V), s: seq<(string, V)>): (r: seq<(string, V)>)
    requires SortedByKey(s)
    ensures SortedByKey(r)
    ensures multiset(r) == multiset(s) + multiset{e}
  {
    if |s| == 0 then [e]
    else if Less(e.0, s[0].0) then
      InsertFront(e, s);
      [e] + s
    else
      var rest := Insert(e, s[1..]);
      LessTotal(e.0, s[0].0);
      InsertBehind(e, s, rest);
      assert s == [s[0]] + s[1..];
      [s[0]] + rest
  }

  lemma InsertFront<V>(e: (string, V), s: seq<(string, V)>)
    requires SortedByKey(s) && |s| > 0 && Less(e.0, s[0].0)
    ensures SortedByKey([e] + s)
  {
    var r := [e] + s;
    forall i, j | 0 <= i < j < |r| ensures !Less(r[j].0, r[i].0) {
      if i == 0 {
        assert r[j] == s[j - 1];
        if j > 1 {
          LessTotal(s[0].0, s[j - 1].0);
          if Less(s[0].0, s[j - 1].0) {
            LessTransitive(e.0, s[0].0, s[j - 1].0);
          }
        }
        LessAsymmetric(e.0, r[j].0);
      }
    }
  }

  lemma InsertBehind<V>(e: (string, V), s: seq<(string, V)>, rest: seq<(string, V)>)
    requires SortedByKey(s) && |s| > 0 && !Less(e.0, s[0].0)
    requires SortedByKey(rest)
    requires multiset(rest) == multiset(s[1..]) + multiset{e}
    ensures SortedByKey([s[0]] + rest)
  {
    var r := [s[0]] + rest;
    forall j | 0 < j < |r| ensures !Less(r[j].0, s[0].0) {
      assert r[j] in multiset(rest);
      if r[j] == e {
      } else {
        assert r[j] in multiset(s[1..]);
        var k :| 0 <= k < |s[1..]| && s[1..][k] == r[j];
        assert s[k + 1] == r[j];
      }
    }
  }

  /** `argsToKey` sorts its entries with the comparator `(a, b) => a[0] < b[0] ? -1 : 1`. */
  function SortByKey<V>(s: seq<(string, V)>): (r: seq<(string, V)>)
    ensures SortedByKey(r)
    ensures multiset(r) == multiset(s)
  {
    if |s| == 0 then []
    else
      var r := Insert(s[0], SortByKey(s[1..]));
      assert s == [s[0]] + s[1..];
      r
  }

  lemma {:induction false} PresentKeys(es: seq<(string, Value)>)
    ensures Keys(Present(es)) <= Keys(es)
    ensures UniqueKeys(es) ==> UniqueKeys(Present(es))
  {
    if |es| > 0 {
      PresentKeys(es[1..]);
      assert es == [es[0]] + es[1..];
      if IsPresent(es[0].1) {
        assert Present(es) == [es[0]] + Present(es[1..]);
        assert Present(es)[1..] == Present(es[1..]);
      } else {
        assert Present(es) == Present(es[1..]);
      }
    }
  }

  /** A sorted sequence without repeated keys is strictly increasing. */
  lemma SortedUniqueIsStrict<V>(s: seq<(string, V)>)
    requires SortedByKey(s) && UniqueKeys(s)
    ensures StrictlySorted(s)
  {
    UniqueKeysDistinct(s);
    forall i, j | 0 <= i < j < |s| ensures Less(s[i].0, s[j].0) {
      LessTotal(s[i].0, s[j].0);
    }
  }

  /** The head of a strictly sorted sequence holds its least key. */
  lemma HeadIsLeast<V>(a: seq<(string, V)>, i: nat)
    requires StrictlySorted(a) && i < |a|
    ensures !Less(a[i].0, a[0].0)
  {
    LessIrreflexive(a[0].0);
    if i > 0 {
      LessAsymmetric(a[0].0, a[i].0);
    }
  }

  lemma SameHead<V>(a: seq<(string, V)>, b: seq<(string, V)>)
    requires StrictlySorted(a) && StrictlySorted(b) && |a| > 0 && |b| > 0
    requires a[0] in b && b[0] in a
    ensures a[0] == b[0]
  {
    var j :| 0 <= j < |b| && b[j] == a[0];
    var i :| 0 <= i < |a| && a[i] == b[0];
    HeadIsLeast(a, i);
  }

  lemma TailMembers<V>(a: seq<(string, V)>, b: seq<(string, V)>)
    requires StrictlySorted(a) && StrictlySorted(b) && |a| > 0 && |b| > 0 && a[0] == b[0]
    requires forall i :: 0 <= i < |a| ==> a[i] in b
    ensures forall k :: 0 <= k < |a[1..]| ==> a[1..][k] in b[1..]
  {
    forall k | 0 <= k < |a[1..]| ensures a[1..][k] in b[1..] {
      var x := a[k + 1];
      LessIrreflexive(x.0);
      var m :| 0 <= m < |b| && b[m] == x;
      assert m != 0;
      assert b[1..][m - 1] == x;
    }
  }

  /** Two strictly sorted sequences with the same elements are equal. */
  lemma {:induction false} StrictlySortedUnique<V>(a: seq<(string, V)>, b: seq<(string, V)>)
    requires StrictlySorted(a) && StrictlySorted(b)
    requires forall i :: 0 <= i < |a| ==> a[i] in b
    requires forall j :: 0 <= j < |b| ==> b[j] in a
    ensures a == b
  {
    if |a| > 0 {
      assert a[0] in b;
    }
    if |b| > 0 {
      assert b[0] in a;
    }
    if |a| > 0 && |b| > 0 {
      SameHead(a, b);
      TailMembers(a, b);
      TailMembers(b, a);
      StrictlySortedUnique(a[1..], b[1..]);
      assert a == [a[0]] + a[1..];
      assert b == [b[0]] + b[1..];
    }
  }

  // ---------------------------------------------------------------------------
  // The key itself.
  // ---------------------------------------------------------------------------

  predicate IsCollection(v: Value) {
    v.Arr? || v.Obj?
  }

  /** The entries `for...in` visits: an object's fields, an array's indices. */
  function Entries(v: Value): (r: seq<(string, Value)>)
    requires IsCollection(v)
    ensures v.Obj? ==> r == v.fields
    ensures v.Arr? ==> forall i :: 0 <= i < |r| ==> r[i].1 in v.items
  {
    if v.Obj? then v.fields else IndexEntries(v.items)
  }

  /** The entries that survive the presence filter, sorted by key. */
  function Canonical(v: Value): (r: seq<(string, Value)>)
    requires IsCollection(v)
    ensures SortedByKey(r)
    ensures forall i :: 0 <= i < |r| ==> r[i] in Entries(v) && IsPresent(r[i].1)
  {
    var r := SortByKey(Present(Entries(v)));
    assert forall i :: 0 <= i < |r| ==> r[i] in multiset(Present(Entries(v)));
    r
  }

  function ArgsToKey(v: Value): (k: Key)
    decreases v
    ensures k == Empty <==> v == Undefined
    ensures IsCollection(v) ==> k.Text? && k.json.JPairs? && |k.json.pairs| == |Canonical(v)|
  {
    match v
    case Undefined => Empty
    case Null => Text(JNull)
    case Bool(b) => Text(JBool(b))
    case Num(n) => Text(JNum(n))
    case Str(s) => Text(JStr(s))
    case _ =>
      var es := Canonical(v);
      Text(JPairs(seq(|es|, i requires 0 <= i < |es| => (es[i].0, ArgsToKey(es[i].1)))))
  }

  /** Every pair of a collection's key is a present entry of the collection, encoded. */
  lemma PairEncodesEntry(v: Value)
    requires IsCollection(v)
    ensures forall p :: p in ArgsToKey(v).json.pairs ==>
              exists e :: e in Entries(v) && IsPresent(e.1) && p == (e.0, ArgsToKey(e.1))
  {
    var ps := ArgsToKey(v).json.pairs;
    forall p | p in ps
      ensures exists e :: e in Entries(v) && IsPresent(e.1) && p == (e.0, ArgsToKey(e.1))
    {
      var i :| 0 <= i < |ps| && ps[i] == p;
      var e := Canonical(v)[i];
      assert e in Entries(v) && IsPresent(e.1) && p == (e.0, ArgsToKey(e.1));
    }
  }

  /** A present entry of a collection appears, encoded, in the collection's key. */
  lemma PresentEntryEncoded(v: Value, e: (string, Value))
    requires IsCollection(v) && e in Entries(v) && IsPresent(e.1)
    ensures (e.0, ArgsToKey(e.1)) in ArgsToKey(v).json.pairs
  {
    InCanonical(v, e);
    var c := Canonical(v);
    var j :| 0 <= j < |c| && c[j] == e;
    assert ArgsToKey(v).json.pairs[j] == (e.0, ArgsToKey(e.1));
  }

  lemma InCanonical(v: Value, e: (string, Value))
    requires IsCollection(v) && e in Entries(v) && IsPresent(e.1)
    ensures e in Canonical(v)
  {
    var es := Entries(v);
    var p := Present(es);
    var i :| 0 <= i < |es| && es[i] == e;
    assert e in p;
    assert e in multiset(p);
    assert multiset(SortByKey(p)) == multiset(p);
    assert e in multiset(Canonical(v));
  }

  /** With unique entry keys, the pairs of a collection's key are strictly sorted. */
  lemma PairsStrictlySorted(v: Value)
    requires IsCollection(v) && UniqueKeys(Entries(v))
    ensures StrictlySorted(ArgsToKey(v).json.pairs)
  {
    PresentKeys(Entries(v));
    UniqueKeysOfPermutation(Present(Entries(v)), Canonical(v));
    SortedUniqueIsStrict(Canonical(v));
  }

  /** `k` names a field whose value is neither `null` nor `undefined`. */
  predicate PresentAt(fs: seq<(string, Value)>, k: string) {
    Lookup(fs, k).Some? && IsPresent(Lookup(fs, k).value)
  }

  /** Both objects have the same present fields, and their values have equal keys. */
  ghost predicate SameChildKeys(fs: seq<(string, Value)>, gs: seq<(string, Value)>) {
    forall k :: (PresentAt(fs, k) <==> PresentAt(gs, k)) &&
      (PresentAt(fs, k) ==> ArgsToKey(Lookup(fs, k).value) == ArgsToKey(Lookup(gs, k).value))
  }

  // ---------------------------------------------------------------------------
  // What an object's key depends on.
  // ---------------------------------------------------------------------------

  lemma PairMatched(fs: seq<(string, Value)>, gs: seq<(string, Value)>, i: nat)
    requires UniqueKeys(fs) && UniqueKeys(gs) && SameChildKeys(fs, gs)
    requires i < |ArgsToKey(Obj(fs)).json.pairs|
    ensures ArgsToKey(Obj(fs)).json.pairs[i] in ArgsToKey(Obj(gs)).json.pairs
  {
    var e := Canonical(Obj(fs))[i];
    LookupUnique(fs, e.0, e.1);
    assert PresentAt(fs, e.0);
    var y := Lookup(gs, e.0).value;
    PresentEntryEncoded(Obj(gs), (e.0, y));
  }

  /** Equal present fields with equal child keys give equal keys. */
  lemma KeyFromChildren(fs: seq<(string, Value)>, gs: seq<(string, Value)>)
    requires UniqueKeys(fs) && UniqueKeys(gs) && SameChildKeys(fs, gs)
    ensures ArgsToKey(Obj(fs)) == ArgsToKey(Obj(gs))
  {
    var a := ArgsToKey(Obj(fs)).json.pairs;
    var b := ArgsToKey(Obj(gs)).json.pairs;
    PairsStrictlySorted(Obj(fs));
    PairsStrictlySorted(Obj(gs));
    forall i | 0 <= i < |a| ensures a[i] in b {
      PairMatched(fs, gs, i);
    }
    assert SameChildKeys(gs, fs);
    forall j | 0 <= j < |b| ensures b[j] in a {
      PairMatched(gs, fs, j);
    }
    StrictlySortedUnique(a, b);
  }

  lemma ChildFound(fs: seq<(string, Value)>, gs: seq<(string, Value)>, k: string)
    requires UniqueKeys(fs) && UniqueKeys(gs)
    requires ArgsToKey(Obj(fs)) == ArgsToKey(Obj(gs)) && PresentAt(fs, k)
    ensures PresentAt(gs, k) && ArgsToKey(Lookup(fs, k).value) == ArgsToKey(Lookup(gs, k).value)
  {
    var x := Lookup(fs, k).value;
    PresentEntryEncoded(Obj(fs), (k, x));
    PairEncodesEntry(Obj(gs));
    var e :| e in gs && IsPresent(e.1) && (k, ArgsToKey(x)) == (e.0, ArgsToKey(e.1));
    LookupUnique(gs, e.0, e.1);
  }

  /** Equal keys give equal present fields with equal child keys. */
  lemma ChildrenFromKey(fs: seq<(string, Value)>, gs: seq<(string, Value)>)
    requires UniqueKeys(fs) && UniqueKeys(gs) && ArgsToKey(Obj(fs)) == ArgsToKey(Obj(gs))
    ensures SameChildKeys(fs, gs)
  {
    forall k ensures (PresentAt(fs, k) <==> PresentAt(gs, k)) &&
      (PresentAt(fs, k) ==> ArgsToKey(Lookup(fs, k).value) == ArgsToKey(Lookup(gs, k).value))
    {
      if PresentAt(fs, k) {
        ChildFound(fs, gs, k);
      }
      if PresentAt(gs, k) {
        ChildFound(gs, fs, k);
      }
    }
  }

  /**
   * Two objects (each with unique field names) get the same key exactly when
   * they have the same fields that are neither `null` nor `undefined`, and the
   * values of those fields have equal keys.
   */
  lemma ObjectKeyIff(fs: seq<(string, Value)>, gs: seq<(string, Value)>)
    requires UniqueKeys(fs) && UniqueKeys(gs)
    ensures ArgsToKey(Obj(fs)) == ArgsToKey(Obj(gs)) <==> SameChildKeys(fs, gs)
  {
    if SameChildKeys(fs, gs) {
      KeyFromChildren(fs, gs);
    }
    if ArgsToKey(Obj(fs)) == ArgsToKey(Obj(gs)) {
      ChildrenFromKey(fs, gs);
    }
  }

  /** Reordering the fields of an object does not change its key. */
  lemma FieldOrderIrrelevant(fs: seq<(string, Value)>, gs: seq<(string, Value)>)
    requires UniqueKeys(fs) && multiset(fs) == multiset(gs)
    ensures ArgsToKey(Obj(fs)) == ArgsToKey(Obj(gs))
  {
    UniqueKeysOfPermutation(fs, gs);
    KeysOfPermutation(fs, gs);
    forall k ensures Lookup(fs, k) == Lookup(gs, k) {
      if Lookup(fs, k).Some? {
        var x := Lookup(fs, k).value;
        assert (k, x) in multiset(gs);
        LookupUnique(gs, k, x);
      }
    }
    KeyFromChildren(fs, gs);
  }

  lemma {:induction false} PresentIdempotent(es: seq<(string, Value)>)
    ensures Present(Present(es)) == Present(es)
  {
    if |es| > 0 {
      PresentIdempotent(es[1..]);
      PresentAppend(if IsPresent(es[0].1) then [es[0]] else [], Present(es[1..]));
    }
  }

  lemma {:induction false} PresentAppend(a: seq<(string, Value)>, b: seq<(string, Value)>)
    ensures Present(a + b) == Present(a) + Present(b)
  {
    if |a| > 0 {
      assert (a + b)[0] == a[0] && (a + b)[1..] == a[1..] + b;
      PresentAppend(a[1..], b);
      var h := if IsPresent(a[0].1) then [a[0]] else [];
      assert Present(a + b) == h + Present(a[1..] + b);
      assert Present(a) == h + Present(a[1..]);
    } else {
      assert a + b == b;
    }
  }

  /** Each present entry is kept as often as it occurs; no other entry is kept. */
  lemma {:induction false} PresentCount(es: seq<(string, Value)>)
    ensures forall x :: multiset(Present(es))[x] == if IsPresent(x.1) then multiset(es)[x] else 0
  {
    if |es| > 0 {
      PresentCount(es[1..]);
      assert es == [es[0]] + es[1..];
      assert multiset(es) == multiset{es[0]} + multiset(es[1..]);
    }
  }

  /** Fields holding `null` or `undefined` do not contribute to the key. */
  lemma MissingFieldsIgnored(fs: seq<(string, Value)>)
    ensures ArgsToKey(Obj(fs)) == ArgsToKey(Obj(Present(fs)))
  {
    PresentIdempotent(fs);
  }

  lemma SamePresentSameKey(fs: seq<(string, Value)>, gs: seq<(string, Value)>)
    requires Present(fs) == Present(gs)
    ensures ArgsToKey(Obj(fs)) == ArgsToKey(Obj(gs))
  {
    assert Canonical(Obj(fs)) == Canonical(Obj(gs));
  }

  lemma PresentSkips(before: seq<(string, Value)>, after: seq<(string, Value)>, e: (string, Value))
    requires !IsPresent(e.1)
    ensures Present(before + [e] + after) == Present(before + after)
  {
    PresentAppend(before + [e], after);
    PresentAppend(before, [e]);
    PresentAppend(before, after);
    assert Present([e]) == [];
  }

  /** Adding a field that holds `null` or `undefined` does not change the key. */
  lemma MissingFieldAdded(before: seq<(string, Value)>, after: seq<(string, Value)>, k: string, x: Value)
    requires !IsPresent(x)
    ensures ArgsToKey(Obj(before + [(k, x)] + after)) == ArgsToKey(Obj(before + after))
  {
    PresentSkips(before, after, (k, x));
    SamePresentSameKey(before + [(k, x)] + after, before + after);
  }

  // ---------------------------------------------------------------------------
  // Arrays, and equivalence at every depth.
  // ---------------------------------------------------------------------------

  lemma {:induction false} IndexKeyLength(i: nat)
    ensures |IndexKey(i)| >= 1
    ensures i >= 10 ==> |IndexKey(i)| >= 2
  {
    if i >= 10 {
      IndexKeyLength(i / 10);
    }
  }

  lemma DigitCharInjective(a: nat, b: nat)
    requires a < 10 && b < 10 && DigitChar(a) == DigitChar(b)
    ensures a == b
  {
  }

  /** Distinct indices have distinct decimal texts. */
  lemma {:induction false} IndexKeyInjective(i: nat, j: nat)
    requires IndexKey(i) == IndexKey(j)
    ensures i == j
  {
    IndexKeyLength(i);
    IndexKeyLength(j);
    if i < 10 && j < 10 {
      assert IndexKey(i)[0] == IndexKey(j)[0];
      DigitCharInjective(i, j);
    } else if i >= 10 && j >= 10 {
      var a, b := IndexKey(i), IndexKey(j);
      assert a[|a| - 1] == DigitChar(i % 10) && b[|b| - 1] == DigitChar(j % 10);
      DigitCharInjective(i % 10, j % 10);
      assert a[..|a| - 1] == IndexKey(i / 10);
      assert b[..|b| - 1] == IndexKey(j / 10);
      IndexKeyInjective(i / 10, j / 10);
    }
  }

  lemma IndexEntriesUnique(items: seq<Value>)
    ensures UniqueKeys(IndexEntries(items))
  {
    var es := IndexEntries(items);
    forall i, j | 0 <= i < j < |es| ensures es[i].0 != es[j].0 {
      if IndexKey(i) == IndexKey(j) {
        IndexKeyInjective(i, j);
      }
    }
    DistinctIsUnique(es);
  }

  /**
   * An array gets the key of the object whose fields are its indices: the
   * source walks both with the same `for...in` loop.
   */
  lemma ArrayAsObject(items: seq<Value>)
    ensures ArgsToKey(Arr(items)) == ArgsToKey(Obj(IndexEntries(items)))
  {
    assert Canonical(Arr(items)) == Canonical(Obj(IndexEntries(items)));
  }

  /** Looking up index `i` of an array's entries finds element `i`. */
  lemma LookupIndex(items: seq<Value>, k: string)
    ensures Lookup(IndexEntries(items), k).Some? <==>
              exists i :: 0 <= i < |items| && IndexKey(i) == k
    ensures forall i :: 0 <= i < |items| && IndexKey(i) == k ==>
              Lookup(IndexEntries(items), k) == Some(items[i])
  {
    var es := IndexEntries(items);
    IndexEntriesUnique(items);
    KeysMember(es, k);
    if Lookup(es, k).Some? {
      assert k in Keys(es);
      var i :| 0 <= i < |es| && es[i].0 == k;
      assert IndexKey(i) == k;
      assert exists i :: 0 <= i < |items| && IndexKey(i) == k;
    }
    if i :| 0 <= i < |items| && IndexKey(i) == k {
      assert es[i].0 == k;
      assert k in Keys(es);
      assert Lookup(es, k).Some?;
    }
    forall i | 0 <= i < |items| && IndexKey(i) == k
      ensures Lookup(es, k) == Some(items[i])
    {
      LookupUnique(es, k, items[i]);
    }
  }

  /**
   * Same value up to the order of object fields and fields holding `null` or
   * `undefined`, at every depth. Objects are taken to have unique field names.
   */
  ghost predicate Equivalent(v: Value, w: Value)
    decreases v
  {
    match v
    case Arr(xs) =>
      w.Arr? && |xs| == |w.items| &&
      forall i :: 0 <= i < |xs| ==> Equivalent(xs[i], w.items[i])
    case Obj(fs) =>
      w.Obj? && UniqueKeys(fs) && UniqueKeys(w.fields) &&
      forall k :: (PresentAt(fs, k) <==> PresentAt(w.fields, k)) &&
        (PresentAt(fs, k) ==> Equivalent(Lookup(fs, k).value, Lookup(w.fields, k).value))
    case _ => v == w
  }

  lemma EquivalentPresence(v: Value, w: Value)
    requires Equivalent(v, w)
    ensures IsPresent(v) <==> IsPresent(w)
  {
  }

  /** Equivalent arguments get the same key. */
  lemma {:induction false} EquivalentSameKey(v: Value, w: Value)
    requires Equivalent(v, w)
    ensures ArgsToKey(v) == ArgsToKey(w)
    decreases v
  {
    match v
    case Obj(fs) =>
      var gs := w.fields;
      forall k | PresentAt(fs, k)
        ensures ArgsToKey(Lookup(fs, k).value) == ArgsToKey(Lookup(gs, k).value)
      {
        EquivalentSameKey(Lookup(fs, k).value, Lookup(gs, k).value);
      }
      KeyFromChildren(fs, gs);
    case Arr(xs) =>
      var ys := w.items;
      var fs, gs := IndexEntries(xs), IndexEntries(ys);
      forall k ensures (PresentAt(fs, k) <==> PresentAt(gs, k)) &&
        (PresentAt(fs, k) ==> ArgsToKey(Lookup(fs, k).value) == ArgsToKey(Lookup(gs, k).value))
      {
        LookupIndex(xs, k);
        LookupIndex(ys, k);
        if i :| 0 <= i < |xs| && IndexKey(i) == k {
          EquivalentPresence(xs[i], ys[i]);
          EquivalentSameKey(xs[i], ys[i]);
        }
      }
      IndexEntriesUnique(xs);
      IndexEntriesUnique(ys);
      KeyFromChildren(fs, gs);
      ArrayAsObject(xs);
      ArrayAsObject(ys);
    case _ =>
  }

  /**
   * Primitives (`undefined`, `null`, booleans, numbers, strings) get equal
   * keys only when they are equal: `2` and `"2"` differ, as do `null` (key
   * `"null"`) and `undefined` (key `''`).
   */
  lemma ScalarKeyIff(v: Value, w: Value)
    requires !IsCollection(v)
    ensures ArgsToKey(v) == ArgsToKey(w) <==> v == w
  {
  }

  lemma IndexEntriesSnoc(items: seq<Value>, x: Value)
    ensures IndexEntries(items + [x]) == IndexEntries(items) + [(IndexKey(|items|), x)]
  {
    var a := IndexEntries(items + [x]);
    var b := IndexEntries(items) + [(IndexKey(|items|), x)];
    assert |a| == |b|;
    forall i | 0 <= i < |a| ensures a[i] == b[i] {
      IndexEntriesSnocAt(items, x, i);
    }
  }

  lemma IndexEntriesSnocAt(items: seq<Value>, x: Value, i: nat)
    requires i <= |items|
    ensures IndexEntries(items + [x])[i] == (IndexEntries(items) + [(IndexKey(|items|), x)])[i]
  {
    if i < |items| {
      assert (items + [x])[i] == items[i];
    }
  }

  /**
   * A trailing `null` or `undefined` element does not change an array's key:
   * `[1, null]` and `[1]` are the same request.
   */
  lemma TrailingMissingIgnored(items: seq<Value>, x: Value)
    requires !IsPresent(x)
    ensures ArgsToKey(Arr(items + [x])) == ArgsToKey(Arr(items))
  {
    IndexEntriesSnoc(items, x);
    PresentSkips(IndexEntries(items), [], (IndexKey(|items|), x));
    assert IndexEntries(items) + [(IndexKey(|items|), x)] + [] == IndexEntries(items + [x]);
    assert IndexEntries(items) + [] == IndexEntries(items);
    assert Canonical(Arr(items + [x])) == Canonical(Arr(items));
    SameCanonicalSameKey(Arr(items + [x]), Arr(items));
  }

  /** A collection's key depends on its canonical entries only. */
  lemma SameCanonicalSameKey(v: Value, w: Value)
    requires IsCollection(v) && IsCollection(w) && Canonical(v) == Canonical(w)
    ensures ArgsToKey(v) == ArgsToKey(w)
  {
  }
}
