/**
 * The transforms that filter updates apply to a record: the plain setter
 * (`getValueSetter`), which writes one key and then drops every falsy value
 * and empty array, and its composition with a caller-supplied value linker
 * (`getValueSetterWithLinker`).
 */
module ValueSetter {
  import opened Optional
  import opened FilterValues

  /** `pickBy(m, v => isArray(v) ? v.length : !!v)`: keep the entries whose value passes `Kept`, in order. */
  function Prune(m: seq<Entry>): (r: seq<Entry>)
    ensures |r| <= |m|
    ensures forall e :: e in r ==> e in m && Kept(e.value)
  {
    if m == [] then [] else (if Kept(m[0].value) then [m[0]] else []) + Prune(m[1..])
  }

  /** A record without falsy values or empty arrays. */
  predicate Pruned(m: seq<Entry>) {
    forall i :: 0 <= i < |m| ==> Kept(m[i].value)
  }

  lemma {:induction false} PruneKeys(m: seq<Entry>, k: string)
    ensures k in KeysOf(Prune(m)) ==> k in KeysOf(m)
  {
    if m != [] {
      PruneKeys(m[1..], k);
      if Kept(m[0].value) {
        assert Prune(m) == [m[0]] + Prune(m[1..]);
        assert KeysOf(Prune(m)) == [m[0].key] + KeysOf(Prune(m[1..]));
      } else {
        assert Prune(m) == Prune(m[1..]);
      }
    }
  }

  /** Dropping entries from a record leaves a record. */
  lemma {:induction false} PruneDistinct(m: Model)
    ensures DistinctKeys(Prune(m))
  {
    if m != [] {
      PruneDistinct(m[1..]);
      PruneKeys(m[1..], m[0].key);
      if Kept(m[0].value) {
        assert Prune(m)[1..] == Prune(m[1..]);
      } else {
        assert Prune(m) == Prune(m[1..]);
      }
    }
  }

  /** Pruning keeps a key's value when it passes the test and removes the key otherwise. */
  lemma {:induction false} PruneLookup(m: Model, k: string)
    ensures Lookup(Prune(m), k) == if Kept(Lookup(m, k)) then Lookup(m, k) else Undefined
  {
    if m != [] {
      PruneLookup(m[1..], k);
      if Kept(m[0].value) {
        assert Prune(m) == [m[0]] + Prune(m[1..]);
        assert Prune(m)[1..] == Prune(m[1..]);
      } else {
        assert Prune(m) == Prune(m[1..]);
        if m[0].key == k {
          PruneKeys(m[1..], k);
        }
      }
    }
  }

  /** No falsy value or empty array survives pruning. */
  lemma {:induction false} PrunePruned(m: seq<Entry>)
    ensures Pruned(Prune(m))
  {
    if m != [] {
      PrunePruned(m[1..]);
      if Kept(m[0].value) {
        var r := Prune(m);
        assert r == [m[0]] + Prune(m[1..]);
        forall i | 0 <= i < |r| ensures Kept(r[i].value) {
          if i > 0 { assert r[i] == Prune(m[1..])[i - 1]; }
        }
      } else {
        assert Prune(m) == Prune(m[1..]);
      }
    }
  }

  /** Pruning a record that is already pruned changes nothing. */
  lemma {:induction false} PruneIdle(m: seq<Entry>)
    requires Pruned(m)
    ensures Prune(m) == m
  {
    if m != [] {
      assert Kept(m[0].value);
      assert Pruned(m[1..]) by {
        forall i | 0 <= i < |m[1..]| ensures Kept(m[1..][i].value) {
          assert m[1..][i] == m[i + 1];
        }
      }
      PruneIdle(m[1..]);
      assert [m[0]] + m[1..] == m;
    }
  }

  lemma {:induction false} PruneAppend(a: seq<Entry>, b: seq<Entry>)
    ensures Prune(a + b) == Prune(a) + Prune(b)
  {
    if a == [] {
      assert a + b == b;
    } else {
      assert (a + b)[1..] == a[1..] + b;
      assert (a + b)[0] == a[0];
      PruneAppend(a[1..], b);
      var head := if Kept(a[0].value) then [a[0]] else [];
      assert Prune(a + b) == head + Prune(a[1..] + b);
      assert head + (Prune(a[1..]) + Prune(b)) == (head + Prune(a[1..])) + Prune(b);
    }
  }

  /** In a pruned record every key present holds a value that passes the test. */
  lemma {:induction false} PrunedLookup(m: seq<Entry>, k: string)
    requires Pruned(m)
    ensures k in KeysOf(m) <==> Kept(Lookup(m, k))
  {
    if m != [] {
      assert Kept(m[0].value);
      assert Pruned(m[1..]) by {
        forall i | 0 <= i < |m[1..]| ensures Kept(m[1..][i].value) {
          assert m[1..][i] == m[i + 1];
        }
      }
      PrunedLookup(m[1..], k);
    }
  }

  /**
   * The plain setter `getValueSetter(id, value)` applied to `current`:
   * `pickBy({...current, [id]: value}, …)`. The written key holds `value`
   * when it passes the test and is absent otherwise; every other key keeps
   * its value when that value passes the test and is absent otherwise; no
   * falsy value or empty array is left.
   */
  function SetValue(id: string, value: FilterValue, current: Model): (r: Model)
    ensures Lookup(r, id) == if Kept(value) then value else Undefined
    ensures forall k :: k != id ==> Lookup(r, k) == if Kept(Lookup(current, k)) then Lookup(current, k) else Undefined
    ensures Pruned(r)
  {
    var written: Model := (PutKeepsDistinct(current, id, value); Put(current, id, value));
    PruneDistinct(written);
    PrunePruned(written);
    SetValueLookup(id, value, current);
    Prune(written)
  }

  lemma SetValueLookup(id: string, value: FilterValue, current: Model)
    ensures forall k :: Lookup(Prune(Put(current, id, value)), k)
                   == if k == id then (if Kept(value) then value else Undefined)
                      else if Kept(Lookup(current, k)) then Lookup(current, k) else Undefined
  {
    PutKeepsDistinct(current, id, value);
    var written: Model := Put(current, id, value);
    forall k
      ensures Lookup(Prune(written), k)
           == if k == id then (if Kept(value) then value else Undefined)
              else if Kept(Lookup(current, k)) then Lookup(current, k) else Undefined
    {
      PruneLookup(written, k);
      PutLookup(current, id, value, k);
    }
  }

  /** Setting the same key to the same value twice is the same as setting it once. */
  lemma SetValueIdempotent(id: string, value: FilterValue, current: Model)
    ensures SetValue(id, value, SetValue(id, value, current)) == SetValue(id, value, current)
  {
    var once := SetValue(id, value, current);
    PrunedLookup(once, id);
    if Kept(value) {
      PutSame(once, id);
      PruneIdle(once);
    } else {
      PruneAppend(once, [Entry(id, value)]);
      PruneIdle(once);
      assert Prune([Entry(id, value)]) == [];
      assert once + [] == once;
    }
  }

  /**
   * Of two writes to the same key only the last one shows: the record reads
   * the same under every key as after the last write alone.
   */
  lemma SetValueLastWins(id: string, first: FilterValue, last: FilterValue, current: Model, k: string)
    ensures Lookup(SetValue(id, last, SetValue(id, first, current)), k) == Lookup(SetValue(id, last, current), k)
  {
    var once := SetValue(id, first, current);
    if k != id && Kept(Lookup(once, k)) {
      assert Kept(Lookup(current, k));
    }
  }

  /** Writing a kept value into a pruned record leaves it pruned. */
  lemma {:induction false} PutPruned(m: seq<Entry>, id: string, value: FilterValue)
    requires Pruned(m) && Kept(value)
    ensures Pruned(Put(m, id, value))
  {
    if m != [] && m[0].key != id {
      assert Pruned(m[1..]) by {
        forall i | 0 <= i < |m[1..]| ensures Kept(m[1..][i].value) {
          assert m[1..][i] == m[i + 1];
        }
      }
      PutPruned(m[1..], id, value);
      var r := Put(m, id, value);
      assert r == [m[0]] + Put(m[1..], id, value);
      forall i | 0 <= i < |r| ensures Kept(r[i].value) {
        if i > 0 { assert r[i] == Put(m[1..], id, value)[i - 1]; }
      }
    } else if m != [] {
      var r := Put(m, id, value);
      assert r == [Entry(id, value)] + m[1..];
      forall i | 0 <= i < |r| ensures Kept(r[i].value) {
        if i > 0 { assert r[i] == m[i]; }
      }
    }
  }

  /**
   * On a pruned record, writing a kept value leaves the key order as it
   * was when the key is present, and appends the key when it is new.
   */
  lemma SetValueKeyOrder(id: string, value: FilterValue, current: Model)
    requires Pruned(current) && Kept(value)
    ensures KeysOf(SetValue(id, value, current))
         == if id in KeysOf(current) then KeysOf(current) else KeysOf(current) + [id]
  {
    PutPruned(current, id, value);
    PruneIdle(Put(current, id, value));
  }

  // ---------------------------------------------------------------------
  // Value linker
  // ---------------------------------------------------------------------

  /** A pending update: a function from the current record to the next one. */
  type Transform = Model -> Model

  /** A setter: given a key and a value, the update that writes them. */
  type Setter = (string, FilterValue) -> Transform

  /**
   * A value linker: handed the plain setter, it gives for each key and value
   * either a further update to run after the plain one, or none (`undefined`).
   */
  type Linker = Setter -> ((string, FilterValue) -> Option<Transform>)

  /** `getValueSetter` as a function value, as the linker receives it. */
  function PlainSetter(): (setter: Setter)
    ensures forall id, value, current :: Pruned(setter(id, value)(current))
  {
    (id: string, value: FilterValue) => (current: Model) => SetValue(id, value, current)
  }

  /**
   * `getValueSetterWithLinker(id, value)` applied to `current`: with no
   * linker, or a linker that gives no update for this key and value, it is
   * the plain setter; otherwise the linked update runs on the plain
   * setter's result.
   */
  function LinkedUpdate(linker: Option<Linker>, id: string, value: FilterValue, current: Model): (r: Model)
    ensures linker.None? ==> r == SetValue(id, value, current)
    ensures linker.Some? ==>
      r == match linker.value(PlainSetter())(id, value)
           case None => SetValue(id, value, current)
           case Some(w) => w(SetValue(id, value, current))
  {
    var withLinked := if linker.Some? then linker.value(PlainSetter())(id, value) else None;
    match withLinked
    case Some(w) => w(SetValue(id, value, current))
    case None => SetValue(id, value, current)
  }

  /** Without a linker every update leaves a pruned record, whatever it started from. */
  lemma UnlinkedUpdatePrunes(id: string, value: FilterValue, current: Model)
    ensures Pruned(LinkedUpdate(None, id, value, current))
  {
  }

  /** A linker that clears `child` whenever `parent` is set. */
  function ClearWhenSet(parent: string, child: string): Linker {
    (setter: Setter) => (id: string, value: FilterValue) =>
      if id == parent then Some(setter(child, Undefined)) else None
  }

  /**
   * With a linker that clears `child` when `parent` is set, setting `parent`
   * leaves `child` absent whatever it held, and `parent` as the plain setter
   * leaves it.
   */
  lemma LinkerClearsDependent(parent: string, child: string, value: FilterValue, current: Model)
    requires parent != child
    ensures Lookup(LinkedUpdate(Some(ClearWhenSet(parent, child)), parent, value, current), child) == Undefined
    ensures Lookup(LinkedUpdate(Some(ClearWhenSet(parent, child)), parent, value, current), parent)
         == if Kept(value) then value else Undefined
  {
    var plain := SetValue(parent, value, current);
    var r := LinkedUpdate(Some(ClearWhenSet(parent, child)), parent, value, current);
    assert r == SetValue(child, Undefined, plain);
  }
}
