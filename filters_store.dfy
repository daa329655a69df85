/**
 * The filter context: a live record updated on every write, a settled
 * record that lags it and that every read sees, and the address-bar query
 * the live record is written back to. The two timers of the original (the
 * settle window of the settled record and the write-back window of the
 * query) are explicit steps, `Settle` and `FlushQuery`.
 */
module FiltersContext {
  import opened Optional
  import opened FilterValues
  import opened QueryCodec
  import opened ValueSetter

  /** `ensureArray`: no elements for a falsy value, the value itself for a truthy scalar, the elements of an array. */
  function EnsureArray(v: FilterValue): (xs: seq<Scalar>)
    ensures v.Undefined? ==> xs == []
    ensures v.One? ==> xs == if TruthyScalar(v.x) then [v.x] else []
    ensures v.Many? ==> xs == v.items
  {
    match v
    case Undefined => []
    case One(x) => if TruthyScalar(x) then [x] else []
    case Many(xs) => xs
  }

  /**
   * On a pruned record, the array read of a key lists, as text, exactly the
   * values the encoded query carries under that key.
   */
  lemma EnsureArrayEncoded(m: Model, k: string)
    requires Pruned(m)
    ensures Texts(EnsureArray(Lookup(m, k))) == RawValuesFor(Encode(m), k)
  {
    EncodeKey(m, k);
    PrunedLookup(m, k);
    var v := Lookup(m, k);
    if k in KeysOf(m) {
      match v
      case One(x) =>
        assert Texts([x]) == [Text(x)] + Texts([]);
      case Many(xs) =>
    }
  }

  /** An empty query seeds an empty record: no filter is active. */
  lemma EmptyQuerySeed()
    ensures Decode([]) == []
  {
  }

  /**
   * The record seeded from a query need not be pruned: a key given with an
   * empty value holds the empty string, which no setter would leave.
   */
  lemma SeedMayHoldFalsy()
    ensures Decode([QueryPair("q", "")]) == [Entry("q", One(Str("")))]
    ensures !Pruned(Decode([QueryPair("q", "")]))
  {
    var first: Model := Step([], QueryPair("q", ""));
    assert first == [Entry("q", One(Str("")))];
    assert DecodeInto([], [QueryPair("q", "")]) == DecodeInto(first, []);
    assert !Kept(Decode([QueryPair("q", "")])[0].value);
  }

  class FilterStore {
    /** The live record (`model`), changed at once by every write. */
    var live: Model
    /** The settled record (`debouncedModel`), which reads see. */
    var settled: Model
    /** The address-bar query, as the list of its key-value pairs. */
    var query: seq<QueryPair>
    /** The value linker the provider was given, if any. */
    const linker: Option<Linker>

    /** The provider mounts: the live record is decoded from the query and the settled record starts equal to it. */
    constructor (initial: seq<QueryPair>, linker: Option<Linker>)
      ensures live == Decode(initial) && settled == live
      ensures query == initial && this.linker == linker
    {
      live := Decode(initial);
      settled := Decode(initial);
      query := initial;
      this.linker := linker;
    }

    /** `setFilter`: the linked update goes to the live record only. */
    method SetFilter(id: string, value: FilterValue)
      modifies this
      ensures live == LinkedUpdate(linker, id, value, old(live))
      ensures settled == old(settled) && query == old(query)
      ensures linker.None? ==> Pruned(live) && Lookup(live, id) == if Kept(value) then value else Undefined
    {
      live := LinkedUpdate(linker, id, value, live);
    }

    /**
     * `setFilterImmediately`: the same linked update goes to the settled
     * record and to the live record, each applied to its own previous
     * value; without a linker the caller's next read of `id` sees the value
     * written (other consumers hold settled copies of their own).
     */
    method SetFilterImmediately(id: string, value: FilterValue)
      modifies this
      ensures settled == LinkedUpdate(linker, id, value, old(settled))
      ensures live == LinkedUpdate(linker, id, value, old(live))
      ensures query == old(query)
      ensures linker.None? ==> Lookup(settled, id) == if Kept(value) then value else Undefined
    {
      settled := LinkedUpdate(linker, id, value, settled);
      live := LinkedUpdate(linker, id, value, live);
    }

    /** The settle window elapses: the settled record catches up with the live one. */
    method Settle()
      modifies this
      ensures settled == live && live == old(live) && query == old(query)
    {
      settled := live;
    }

    /** The write-back window elapses: the query is replaced by the encoding of the live record. */
    method FlushQuery()
      modifies this
      ensures query == Encode(live) && live == old(live) && settled == old(settled)
      ensures forall k :: RawValuesFor(query, k) == if k in KeysOf(live) then Emitted(Lookup(live, k)) else []
    {
      query := Encode(live);
      forall k
        ensures RawValuesFor(query, k) == if k in KeysOf(live) then Emitted(Lookup(live, k)) else []
      {
        EncodeKey(live, k);
      }
    }

    /** `getFilter(id)`: the settled value, `Undefined` for a key it does not hold. */
    method GetFilter(id: string) returns (v: FilterValue)
      ensures v == Lookup(settled, id)
      ensures id !in KeysOf(settled) ==> v == Undefined
    {
      v := Lookup(settled, id);
    }

    /** `getFilter(id, true)`: the settled value as an array. */
    method GetFilterAsArray(id: string) returns (xs: seq<Scalar>)
      ensures xs == EnsureArray(Lookup(settled, id))
      ensures Pruned(settled) ==> Texts(xs) == RawValuesFor(Encode(settled), id)
    {
      xs := EnsureArray(Lookup(settled, id));
      if Pruned(settled) {
        EnsureArrayEncoded(settled, id);
      }
    }

    /** `activeKeys`: the keys of the settled record, in record order. */
    method ActiveKeys() returns (ks: seq<string>)
      ensures ks == KeysOf(settled)
      ensures Pruned(settled) ==> forall k :: k in ks <==> Kept(Lookup(settled, k))
    {
      ks := KeysOf(settled);
      if Pruned(settled) {
        forall k ensures k in ks <==> Kept(Lookup(settled, k)) {
          PrunedLookup(settled, k);
        }
      }
    }
  }

  /**
   * Two writes to the same key inside one settle window: once the window
   * elapses, every read sees what the last write alone would have left.
   */
  method CoalescedWrites(store: FilterStore, id: string, first: FilterValue, last: FilterValue)
    requires store.linker.None?
    modifies store
    ensures store.settled == store.live
    ensures forall k :: Lookup(store.settled, k) == Lookup(SetValue(id, last, old(store.live)), k)
  {
    store.SetFilter(id, first);
    store.SetFilter(id, last);
    store.Settle();
    forall k ensures Lookup(store.settled, k) == Lookup(SetValue(id, last, old(store.live)), k) {
      SetValueLastWins(id, first, last, old(store.live), k);
    }
  }

  /**
   * A write, through whatever linker the store was given, followed by the
   * write-back leaves a query that decodes to the live record, whenever
   * every value the record holds survives the round trip.
   */
  method WriteBack(store: FilterStore, id: string, value: FilterValue)
    modifies store
    ensures store.query == Encode(store.live)
    ensures (forall i :: 0 <= i < |store.live| ==> RoundTrips(store.live[i].value)) ==> Decode(store.query) == store.live
  {
    store.SetFilter(id, value);
    store.FlushQuery();
    if forall i :: 0 <= i < |store.live| ==> RoundTrips(store.live[i].value) {
      DecodeEncode(store.live);
    }
  }

  /** Setting `color` to `green` in the decoded example record replaces the array in place. */
  lemma ScenarioWrite()
    ensures SetValue("color", One(Str("green")), [Entry("status", One(Bool(true))), Entry("color", Many([Str("red"), Str("blue")]))])
         == [Entry("status", One(Bool(true))), Entry("color", One(Str("green")))]
  {
    var seeded: Model := [Entry("status", One(Bool(true))), Entry("color", Many([Str("red"), Str("blue")]))];
    var written: Model := [Entry("status", One(Bool(true))), Entry("color", One(Str("green")))];
    assert Put(seeded, "color", One(Str("green"))) == written;
    PruneIdle(written);
  }

  /** The example record after the write is written back as `status=true&color=green`. */
  lemma ScenarioEncode()
    ensures Encode([Entry("status", One(Bool(true))), Entry("color", One(Str("green")))])
         == [QueryPair("status", "true"), QueryPair("color", "green")]
  {
    var written := [Entry("status", One(Bool(true))), Entry("color", One(Str("green")))];
    assert written[1..] == [Entry("color", One(Str("green")))];
    assert written[1..][1..] == [];
  }

  /**
   * The address bar reads `?status=true&color=red&color=blue`; the color
   * filter is set to `green` with no linker; once written back, the address
   * bar reads `?status=true&color=green`: the last write replaces the array.
   */
  method EndToEndScenario() returns (query: seq<QueryPair>)
    ensures query == [QueryPair("status", "true"), QueryPair("color", "green")]
  {
    var store := new FilterStore([QueryPair("status", "true"), QueryPair("color", "red"), QueryPair("color", "blue")], None);
    DecodeExample();
    ScenarioWrite();
    ScenarioEncode();
    store.SetFilter("color", One(Str("green")));
    store.FlushQuery();
    query := store.query;
  }
}
