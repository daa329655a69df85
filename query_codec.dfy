/**
 * Translation between the location query (an ordered list of key/value
 * string pairs, keys may repeat) and a filter record
 * (`serializeToQuery` and `deserializeFromQuery` in filtersContext.tsx).
 */
module QueryCodec {
  import opened FilterValues

  datatype QueryPair = QueryPair(key: string, raw: string)

  /** `String(x)`: how a scalar is written into the query. */
  function Text(x: Scalar): (s: string)
    ensures s == "true" <==> x == Bool(true) || x == Str("true")
  {
    match x
    case Bool(b) => if b then "true" else "false"
    case Str(s) => s
  }

  /** `String(v)` for a value that is not an array. */
  function ValueText(v: FilterValue): string
    requires !v.Many?
  {
    match v
    case Undefined => "undefined"
    case One(x) => Text(x)
  }

  /** A scalar that survives being written to the query and read back. */
  predicate Canonical(x: Scalar) {
    x == Bool(true) || (x.Str? && x.s != "true")
  }

  /**
   * `_value === "true" || _value`: the literal `"true"` becomes boolean
   * `true`, every other string (the empty one included) is kept verbatim.
   * Decoding is a left inverse of writing.
   */
  function Coerce(raw: string): (x: Scalar)
    ensures x.Bool? <==> raw == "true"
    ensures x.Bool? ==> x.b
    ensures Text(x) == raw
    ensures Canonical(x)
  {
    if raw == "true" then Bool(true) else Str(raw)
  }

  /** Writing then reading a scalar gives it back exactly when it is canonical. */
  lemma CoerceText(x: Scalar)
    ensures Coerce(Text(x)) == x <==> Canonical(x)
  {
  }

  /** `[].concat(v)` for a defined value. */
  function Items(v: FilterValue): seq<Scalar>
    requires !v.Undefined?
  {
    match v
    case One(x) => [x]
    case Many(xs) => xs
  }

  /**
   * One step of the decoding reduce for a key already holding `prev`:
   * `prev && prev !== x ? [].concat(prev).concat(x) : x`.
   */
  function Merge(prev: FilterValue, x: Scalar): (r: FilterValue)
    ensures prev == Undefined ==> r == One(x)
    ensures !Truthy(prev) ==> r == One(x)
    ensures prev == One(x) ==> r == prev
    ensures prev.One? && TruthyScalar(prev.x) && prev.x != x ==> r == Many([prev.x, x])
    ensures prev.Many? ==> r == Many(prev.items + [x])
  {
    if Truthy(prev) && prev != One(x) then
      assert prev.One? ==> Items(prev) + [x] == [prev.x, x];
      Many(Items(prev) + [x])
    else One(x)
  }

  /** The reduce over the values of a single key, starting from what that key holds. */
  function FoldMerge(prev: FilterValue, xs: seq<Scalar>): FilterValue
    decreases |xs|
  {
    if xs == [] then prev else FoldMerge(Merge(prev, xs[0]), xs[1..])
  }

  /** The raw values the query carries for one key, in query order. */
  function RawValuesFor(q: seq<QueryPair>, k: string): seq<string> {
    if q == [] then []
    else (if q[0].key == k then [q[0].raw] else []) + RawValuesFor(q[1..], k)
  }

  /** The decoded values the query carries for one key, in query order. */
  function ValuesFor(q: seq<QueryPair>, k: string): (xs: seq<Scalar>)
    ensures |xs| == |RawValuesFor(q, k)|
    ensures forall i :: 0 <= i < |xs| ==> xs[i] == Coerce(RawValuesFor(q, k)[i])
  {
    if q == [] then []
    else (if q[0].key == k then [Coerce(q[0].raw)] else []) + ValuesFor(q[1..], k)
  }

  /** One step of the reduce of `deserializeFromQuery`: fold one query pair into the record. */
  function Step(acc: Model, p: QueryPair): (r: Model)
    ensures KeysOf(r) == if p.key in KeysOf(acc) then KeysOf(acc) else KeysOf(acc) + [p.key]
  {
    PutKeepsDistinct(acc, p.key, Merge(Lookup(acc, p.key), Coerce(p.raw)));
    Put(acc, p.key, Merge(Lookup(acc, p.key), Coerce(p.raw)))
  }

  /** What a step leaves under each key: the pair's key is merged, every other key is untouched. */
  lemma StepLookup(acc: Model, p: QueryPair, k: string)
    ensures Lookup(Step(acc, p), k) == if k == p.key then Merge(Lookup(acc, k), Coerce(p.raw)) else Lookup(acc, k)
  {
    PutLookup(acc, p.key, Merge(Lookup(acc, p.key), Coerce(p.raw)), k);
  }

  /** The reduce of `deserializeFromQuery`, from an accumulated record. */
  function DecodeInto(acc: Model, q: seq<QueryPair>): Model
    decreases |q|
  {
    if q == [] then acc else DecodeInto(Step(acc, q[0]), q[1..])
  }

  /** `deserializeFromQuery`: the record a location query describes. */
  function Decode(q: seq<QueryPair>): (r: Model)
    ensures forall k :: k in KeysOf(r) <==> RawValuesFor(q, k) != []
  {
    DecodeAllKeys(q);
    DecodeInto([], q)
  }

  /** `value.map(v => ({key, value: v}))`: one pair per array element, in array order. */
  function ArrayPairs(k: string, xs: seq<Scalar>): (ps: seq<QueryPair>)
    ensures |ps| == |xs|
    ensures forall p :: p in ps ==> p.key == k
  {
    if xs == [] then [] else [QueryPair(k, Text(xs[0]))] + ArrayPairs(k, xs[1..])
  }

  /** The pairs one entry contributes: one per array element, or exactly one. */
  function EntryPairs(e: Entry): seq<QueryPair> {
    match e.value
    case Many(xs) => ArrayPairs(e.key, xs)
    case _ => [QueryPair(e.key, ValueText(e.value))]
  }

  /** `serializeToQuery`: the entries of the record, flattened, in record order. */
  function Encode(m: seq<Entry>): (q: seq<QueryPair>)
    ensures |q| == Width(m)
  {
    if m == [] then [] else EntryPairs(m[0]) + Encode(m[1..])
  }

  /** Entries are written in record order: joining records joins their queries. */
  lemma {:induction false} EncodeAppend(a: seq<Entry>, b: seq<Entry>)
    ensures Encode(a + b) == Encode(a) + Encode(b)
  {
    if a == [] {
      assert a + b == b;
    } else {
      assert (a + b)[1..] == a[1..] + b;
      assert (a + b)[0] == a[0];
      EncodeAppend(a[1..], b);
    }
  }

  // ---------------------------------------------------------------------
  // Decoding, key by key
  // ---------------------------------------------------------------------

  lemma {:induction false} RawValuesForAppend(q1: seq<QueryPair>, q2: seq<QueryPair>, k: string)
    ensures RawValuesFor(q1 + q2, k) == RawValuesFor(q1, k) + RawValuesFor(q2, k)
  {
    if q1 != [] {
      var q := q1 + q2;
      assert q[1..] == q1[1..] + q2;
      assert q[0] == q1[0];
      RawValuesForAppend(q1[1..], q2, k);
      var head := if q1[0].key == k then [q1[0].raw] else [];
      calc {
        RawValuesFor(q, k);
        head + RawValuesFor(q1[1..] + q2, k);
        head + (RawValuesFor(q1[1..], k) + RawValuesFor(q2, k));
        (head + RawValuesFor(q1[1..], k)) + RawValuesFor(q2, k);
      }
    } else {
      assert q1 + q2 == q2;
    }
  }

  /**
   * Keys decode independently: what a key ends up holding is the reduce of
   * that key's own values, whatever the other keys do.
   */
  lemma {:induction false} DecodeIntoKey(acc: Model, q: seq<QueryPair>, k: string)
    ensures Lookup(DecodeInto(acc, q), k) == FoldMerge(Lookup(acc, k), ValuesFor(q, k))
    decreases |q|
  {
    if q != [] {
      var next := Step(acc, q[0]);
      StepLookup(acc, q[0], k);
      DecodeIntoKey(next, q[1..], k);
      var xs := ValuesFor(q, k);
      if q[0].key == k {
        assert xs == [Coerce(q[0].raw)] + ValuesFor(q[1..], k);
        assert xs[0] == Coerce(q[0].raw);
        assert xs[1..] == ValuesFor(q[1..], k);
      } else {
        assert xs == [] + ValuesFor(q[1..], k);
        assert xs == ValuesFor(q[1..], k);
      }
    }
  }

  /** A key of the decoded record is exactly a key that occurs in the query. */
  lemma {:induction false} DecodeIntoKeys(acc: Model, q: seq<QueryPair>, k: string)
    ensures k in KeysOf(DecodeInto(acc, q)) <==> k in KeysOf(acc) || RawValuesFor(q, k) != []
    decreases |q|
  {
    if q != [] {
      DecodeIntoKeys(Step(acc, q[0]), q[1..], k);
    }
  }

  lemma DecodeAllKeys(q: seq<QueryPair>)
    ensures forall k :: k in KeysOf(DecodeInto([], q)) <==> RawValuesFor(q, k) != []
  {
    forall k ensures k in KeysOf(DecodeInto([], q)) <==> RawValuesFor(q, k) != [] {
      DecodeIntoKeys([], q, k);
    }
  }

  // ---------------------------------------------------------------------
  // The reduce over one key's values, in closed form
  // ---------------------------------------------------------------------

  /**
   * Position `t` turns the stored value into an array: the value before it
   * was truthy and the value at `t` differs from it.
   */
  predicate SwitchAt(xs: seq<Scalar>, t: int) {
    1 <= t < |xs| && TruthyScalar(xs[t - 1]) && xs[t] != xs[t - 1]
  }

  /** Once the stored value is an array, every later value is appended, duplicates included. */
  lemma {:induction false} FoldMany(ys: seq<Scalar>, xs: seq<Scalar>)
    ensures FoldMerge(Many(ys), xs) == Many(ys + xs)
    decreases |xs|
  {
    if xs != [] {
      FoldMany(ys + [xs[0]], xs[1..]);
      assert ys + [xs[0]] + xs[1..] == ys + xs;
    }
  }

  /** While no position after `i` switches, the stored value is the latest scalar. */
  lemma {:induction false} FoldScalar(xs: seq<Scalar>, i: nat)
    requires i < |xs|
    requires forall t :: i < t < |xs| ==> !SwitchAt(xs, t)
    ensures FoldMerge(One(xs[i]), xs[i + 1..]) == One(xs[|xs| - 1])
    decreases |xs| - i
  {
    if i + 1 < |xs| {
      assert !SwitchAt(xs, i + 1);
      assert xs[i + 1..][1..] == xs[i + 2..];
      FoldScalar(xs, i + 1);
    }
  }

  /** Up to the first switch the stored value is a scalar; from it on, the array of everything since the value before it. */
  lemma {:induction false} FoldSwitch(xs: seq<Scalar>, i: nat, t: nat)
    requires i < t && SwitchAt(xs, t)
    requires forall u :: i < u < t ==> !SwitchAt(xs, u)
    ensures FoldMerge(One(xs[i]), xs[i + 1..]) == Many(xs[t - 1..])
    decreases t - i
  {
    assert xs[i + 1..][1..] == xs[i + 2..];
    if i + 1 < t {
      assert !SwitchAt(xs, i + 1);
      FoldSwitch(xs, i + 1, t);
    } else {
      FoldMany([xs[i], xs[i + 1]], xs[i + 2..]);
      assert [xs[i], xs[i + 1]] + xs[i + 2..] == xs[i..];
    }
  }

  /**
   * A key whose values never switch decodes to its last value as a scalar:
   * a repeat of a stored scalar and a value after a falsy one both just
   * leave the latest value in place.
   */
  lemma DecodeRepeatedScalar(q: seq<QueryPair>, k: string)
    requires RawValuesFor(q, k) != []
    requires forall t :: !SwitchAt(ValuesFor(q, k), t)
    ensures Lookup(Decode(q), k) == One(Coerce(RawValuesFor(q, k)[|RawValuesFor(q, k)| - 1]))
  {
    var xs := ValuesFor(q, k);
    DecodeIntoKey([], q, k);
    assert FoldMerge(Undefined, xs) == FoldMerge(One(xs[0]), xs[1..]);
    FoldScalar(xs, 0);
  }

  /**
   * A key whose values first switch at `t` decodes to the array of its
   * values from `t - 1` on, in query order, duplicates included.
   */
  lemma DecodeRepeatedArray(q: seq<QueryPair>, k: string, t: nat)
    requires SwitchAt(ValuesFor(q, k), t)
    requires forall u :: 1 <= u < t ==> !SwitchAt(ValuesFor(q, k), u)
    ensures Lookup(Decode(q), k) == Many(ValuesFor(q, k)[t - 1..])
  {
    var xs := ValuesFor(q, k);
    DecodeIntoKey([], q, k);
    assert FoldMerge(Undefined, xs) == FoldMerge(One(xs[0]), xs[1..]);
    FoldSwitch(xs, 0, t);
  }

  /** `status=true&color=red&color=blue` decodes to `{status: true, color: ["red", "blue"]}`. */
  lemma DecodeExample()
    ensures Decode([QueryPair("status", "true"), QueryPair("color", "red"), QueryPair("color", "blue")])
         == [Entry("status", One(Bool(true))), Entry("color", Many([Str("red"), Str("blue")]))]
  {
  }

  // ---------------------------------------------------------------------
  // Encoding, key by key
  // ---------------------------------------------------------------------

  /** The texts of an array's elements, in order. */
  function Texts(xs: seq<Scalar>): seq<string> {
    if xs == [] then [] else [Text(xs[0])] + Texts(xs[1..])
  }

  /** The raw values one field value is written as. */
  function Emitted(v: FilterValue): seq<string> {
    match v
    case Many(xs) => Texts(xs)
    case _ => [ValueText(v)]
  }

  lemma {:induction false} ArrayPairsFor(k: string, xs: seq<Scalar>, j: string)
    ensures RawValuesFor(ArrayPairs(k, xs), j) == if k == j then Texts(xs) else []
  {
    if xs != [] {
      ArrayPairsFor(k, xs[1..], j);
      var ps := ArrayPairs(k, xs);
      assert ps[0] == QueryPair(k, Text(xs[0]));
      assert ps[1..] == ArrayPairs(k, xs[1..]);
    }
  }

  lemma EntryPairsFor(e: Entry, k: string)
    ensures RawValuesFor(EntryPairs(e), k) == if e.key == k then Emitted(e.value) else []
  {
    if e.value.Many? {
      ArrayPairsFor(e.key, e.value.items, k);
    } else {
      var ps := EntryPairs(e);
      assert ps[1..] == [];
    }
  }

  /**
   * The query written from a record carries, for each key, exactly the
   * values that key holds: one raw value per array element in array order,
   * or exactly one for anything else; and nothing for a key not in the record.
   */
  lemma {:induction false} EncodeKey(m: Model, k: string)
    ensures RawValuesFor(Encode(m), k) == if k in KeysOf(m) then Emitted(Lookup(m, k)) else []
  {
    if m != [] {
      assert KeysOf(m) == [m[0].key] + KeysOf(m[1..]);
      var rest: Model := m[1..];
      EncodeKey(rest, k);
      RawValuesForAppend(EntryPairs(m[0]), Encode(rest), k);
      EntryPairsFor(m[0], k);
    }
  }

  /** The number of pairs is the sum of the array lengths plus one per non-array entry. */
  function Width(m: seq<Entry>): nat {
    if m == [] then 0
    else (if m[0].value.Many? then |m[0].value.items| else 1) + Width(m[1..])
  }

  // ---------------------------------------------------------------------
  // Round trip
  // ---------------------------------------------------------------------

  /**
   * A field value that the query reproduces: boolean `true` or any string
   * other than `"true"`, the empty one included; or an array of at least two canonical
   * scalars whose first is truthy and whose first two differ (a one-element
   * array reads back as a scalar, equal leading elements collapse).
   */
  predicate RoundTrips(v: FilterValue) {
    match v
    case Undefined => false
    case One(x) => Canonical(x)
    case Many(xs) =>
      && |xs| >= 2 && TruthyScalar(xs[0]) && xs[0] != xs[1]
      && forall i :: 0 <= i < |xs| ==> Canonical(xs[i])
  }

  lemma {:induction false} DecodeIntoAppend(acc: Model, q1: seq<QueryPair>, q2: seq<QueryPair>)
    ensures DecodeInto(acc, q1 + q2) == DecodeInto(DecodeInto(acc, q1), q2)
    decreases |q1|
  {
    if q1 != [] {
      var q := q1 + q2;
      assert q[1..] == q1[1..] + q2;
      assert q[0] == q1[0];
      DecodeIntoAppend(Step(acc, q1[0]), q1[1..], q2);
      assert DecodeInto(acc, q) == DecodeInto(Step(acc, q1[0]), q1[1..] + q2);
    } else {
      assert q1 + q2 == q2;
    }
  }

  /** A pair for the last key of the record merges into that last entry. */
  lemma StepLast(acc: Model, k: string, v: FilterValue, p: QueryPair)
    requires k !in KeysOf(acc) && p.key == k
    ensures DistinctKeys(acc + [Entry(k, v)])
    ensures Step(acc + [Entry(k, v)], p) == acc + [Entry(k, Merge(v, Coerce(p.raw)))]
  {
    AppendNewKey(acc, k, v);
    LookupLast(acc, k, v);
    PutLast(acc, k, v, Merge(v, Coerce(p.raw)));
  }

  /** Reading back an array's pairs after its last entry appends the elements one by one. */
  lemma {:induction false} DecodeArrayTail(acc: Model, k: string, ys: seq<Scalar>, zs: seq<Scalar>)
    requires k !in KeysOf(acc)
    requires forall i :: 0 <= i < |zs| ==> Canonical(zs[i])
    ensures DistinctKeys(acc + [Entry(k, Many(ys))])
    ensures DecodeInto(acc + [Entry(k, Many(ys))], ArrayPairs(k, zs)) == acc + [Entry(k, Many(ys + zs))]
    decreases |zs|
  {
    AppendNewKey(acc, k, Many(ys));
    if zs == [] {
      assert ys + zs == ys;
    } else {
      var ps := ArrayPairs(k, zs);
      CoerceText(zs[0]);
      StepLast(acc, k, Many(ys), ps[0]);
      assert ps[1..] == ArrayPairs(k, zs[1..]);
      DecodeArrayTail(acc, k, ys + [zs[0]], zs[1..]);
      SeqSplit(ys, zs);
    }
  }

  /** A pair under a key the record lacks appends that key with the pair's value. */
  lemma StepNew(acc: Model, p: QueryPair)
    requires p.key !in KeysOf(acc)
    ensures DistinctKeys(acc + [Entry(p.key, One(Coerce(p.raw)))])
    ensures Step(acc, p) == acc + [Entry(p.key, One(Coerce(p.raw)))]
  {
    AppendNewKey(acc, p.key, One(Coerce(p.raw)));
  }

  /** Reading a query that starts with two pairs is taking two steps, then reading the rest. */
  lemma DecodeIntoTwo(acc: Model, p0: QueryPair, p1: QueryPair, rest: seq<QueryPair>)
    ensures DecodeInto(acc, [p0, p1] + rest) == DecodeInto(Step(Step(acc, p0), p1), rest)
  {
    var q := [p0, p1] + rest;
    assert q[0] == p0;
    assert q[1..] == [p1] + rest;
    assert ([p1] + rest)[0] == p1;
    assert ([p1] + rest)[1..] == rest;
  }

  /** An array of at least two elements starts with the pairs of its first two. */
  lemma ArrayPairsHead(k: string, xs: seq<Scalar>)
    requires |xs| >= 2
    ensures ArrayPairs(k, xs) == [QueryPair(k, Text(xs[0])), QueryPair(k, Text(xs[1]))] + ArrayPairs(k, xs[2..])
  {
    assert xs[1..][1..] == xs[2..];
  }

  /** Two pairs under a new key, holding the first two elements of a round-tripping array, give the two-element array. */
  lemma StepTwoNew(acc: Model, k: string, xs: seq<Scalar>)
    requires k !in KeysOf(acc)
    requires RoundTrips(Many(xs))
    ensures DistinctKeys(acc + [Entry(k, Many(xs[..2]))])
    ensures Step(Step(acc, QueryPair(k, Text(xs[0]))), QueryPair(k, Text(xs[1]))) == acc + [Entry(k, Many(xs[..2]))]
  {
    var p0 := QueryPair(k, Text(xs[0]));
    var p1 := QueryPair(k, Text(xs[1]));
    CoerceText(xs[0]);
    CoerceText(xs[1]);
    StepNew(acc, p0);
    StepLast(acc, k, One(xs[0]), p1);
    assert Merge(One(xs[0]), xs[1]) == Many(xs[..2]);
    AppendNewKey(acc, k, Many(xs[..2]));
  }

  /** Reading back the first two pairs of an array under a new key gives the two-element array. */
  lemma DecodeArrayHead(acc: Model, k: string, xs: seq<Scalar>)
    requires k !in KeysOf(acc)
    requires RoundTrips(Many(xs))
    ensures DistinctKeys(acc + [Entry(k, Many(xs[..2]))])
    ensures DecodeInto(acc, ArrayPairs(k, xs)) == DecodeInto(acc + [Entry(k, Many(xs[..2]))], ArrayPairs(k, xs[2..]))
  {
    ArrayPairsHead(k, xs);
    DecodeIntoTwo(acc, QueryPair(k, Text(xs[0])), QueryPair(k, Text(xs[1])), ArrayPairs(k, xs[2..]));
    StepTwoNew(acc, k, xs);
  }

  /** Reading back the pairs of an array entry whose key is new appends that entry. */
  lemma DecodeArrayEntry(acc: Model, k: string, xs: seq<Scalar>)
    requires k !in KeysOf(acc)
    requires RoundTrips(Many(xs))
    ensures DistinctKeys(acc + [Entry(k, Many(xs))])
    ensures DecodeInto(acc, ArrayPairs(k, xs)) == acc + [Entry(k, Many(xs))]
  {
    DecodeArrayHead(acc, k, xs);
    assert forall i :: 0 <= i < |xs[2..]| ==> xs[2..][i] == xs[i + 2];
    DecodeArrayTail(acc, k, xs[..2], xs[2..]);
    TakeDrop(xs, 2);
    AppendNewKey(acc, k, Many(xs));
  }

  /** Reading back the pairs of one entry whose key is new appends that entry. */
  lemma DecodeEntry(acc: Model, e: Entry)
    requires e.key !in KeysOf(acc)
    requires RoundTrips(e.value)
    ensures DistinctKeys(acc + [e])
    ensures DecodeInto(acc, EntryPairs(e)) == acc + [e]
  {
    AppendNewKey(acc, e.key, e.value);
    match e.value
    case One(x) =>
      CoerceText(x);
      var ps := EntryPairs(e);
      assert ps == [QueryPair(e.key, Text(x))];
      assert DecodeInto(acc, ps) == Step(acc, ps[0]);
    case Many(xs) =>
      DecodeArrayEntry(acc, e.key, xs);
  }

  /** Reading back the pairs of the first entry moves that entry into the accumulated record. */
  lemma DecodeFirstEntry(acc: Model, m: Model)
    requires m != [] && DistinctKeys(acc + m)
    requires RoundTrips(m[0].value)
    ensures DistinctKeys(acc + [m[0]])
    ensures DecodeInto(acc, Encode(m)) == DecodeInto(acc + [m[0]], Encode(m[1..]))
  {
    DistinctKeysAppend(acc, m);
    KeyAt(m, 0);
    DecodeEntry(acc, m[0]);
    assert Encode(m) == EntryPairs(m[0]) + Encode(m[1..]);
    DecodeIntoAppend(acc, EntryPairs(m[0]), Encode(m[1..]));
  }

  /** Every value of the list round-trips, stated entry by entry. */
  predicate AllRoundTrip(m: seq<Entry>) {
    m == [] || (RoundTrips(m[0].value) && AllRoundTrip(m[1..]))
  }

  lemma {:induction false} AllRoundTripAt(m: seq<Entry>)
    requires forall i :: 0 <= i < |m| ==> RoundTrips(m[i].value)
    ensures AllRoundTrip(m)
  {
    if m != [] {
      assert forall i :: 0 <= i < |m[1..]| ==> m[1..][i] == m[i + 1];
      AllRoundTripAt(m[1..]);
    }
  }

  lemma {:induction false} DecodeIntoEncode(acc: Model, m: Model)
    requires DistinctKeys(acc + m)
    requires AllRoundTrip(m)
    ensures DecodeInto(acc, Encode(m)) == acc + m
    decreases |m|
  {
    if m == [] {
      assert acc + m == acc;
    } else {
      DecodeFirstEntry(acc, m);
      var next: Model := acc + [m[0]];
      var rest: Model := m[1..];
      SeqSplit(acc, m);
      assert AllRoundTrip(rest);
      DecodeIntoEncode(next, rest);
    }
  }

  /**
   * Round trip: a record whose every value is one the query reproduces
   * reads back from its own query exactly, key order included.
   */
  lemma {:induction false} DecodeEncode(m: Model)
    requires forall i :: 0 <= i < |m| ==> RoundTrips(m[i].value)
    ensures Decode(Encode(m)) == m
  {
    assert [] + m == m;
    AllRoundTripAt(m);
    DecodeIntoEncode([], m);
  }

  /** A one-element array does not survive the round trip: it reads back as its element. */
  lemma SingletonArrayCollapses(k: string, x: Scalar)
    requires Canonical(x)
    ensures Decode(Encode([Entry(k, Many([x]))])) == [Entry(k, One(x))]
  {
    CoerceText(x);
    var e := Entry(k, Many([x]));
    assert [e][1..] == [];
    assert ArrayPairs(k, [x]) == [QueryPair(k, Text(x))] + ArrayPairs(k, []);
    assert Encode([e]) == ArrayPairs(k, [x]) + Encode([]);
    var q := Encode([e]);
    assert q == [QueryPair(k, Text(x))];
    var first := Step([], q[0]);
    assert DecodeInto([], q) == DecodeInto(first, q[1..]);
    assert DecodeInto(first, []) == first;
    assert first == [Entry(k, One(x))];
  }
}
