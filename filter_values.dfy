/** A value that may be missing, standing for JavaScript's `undefined`. */
module Optional {
  datatype Option<+T> = None | Some(value: T)
}

/**
 * The values a filter record holds, and the record itself.
 *
 * A filter model is a JavaScript object. Its entries keep insertion order
 * (which decides the order of the query pairs written back to the address
 * bar and of `activeKeys`), so the model is an ordered list of entries with
 * pairwise distinct keys rather than a `map`.
 */
module FilterValues {

  /** One filter value as it appears in a record: a string or a boolean. */
  datatype Scalar = Bool(b: bool) | Str(s: string)

  /** What a record field holds: nothing (`undefined`), one scalar, or an array of scalars. */
  datatype FilterValue = Undefined | One(x: Scalar) | Many(items: seq<Scalar>)

  datatype Entry = Entry(key: string, value: FilterValue)

  /** JavaScript truthiness of a scalar: `false` and `""` are falsy. */
  predicate TruthyScalar(x: Scalar) {
    match x
    case Bool(b) => b
    case Str(s) => s != ""
  }

  /** JavaScript truthiness of a field value: every array is truthy, even an empty one. */
  predicate Truthy(v: FilterValue) {
    match v
    case Undefined => false
    case One(x) => TruthyScalar(x)
    case Many(_) => true
  }

  /** The test the setter's `pickBy` applies: an array survives when it is non-empty, anything else when it is truthy. */
  predicate Kept(v: FilterValue) {
    if v.Many? then |v.items| > 0 else Truthy(v)
  }

  /** The keys of a record, in record order (`Object.keys`). */
  function KeysOf(m: seq<Entry>): (ks: seq<string>)
    ensures |ks| == |m|
  {
    if m == [] then [] else [m[0].key] + KeysOf(m[1..])
  }

  /** Moving the head of `m` onto the end of `a` leaves the concatenation unchanged. */
  lemma SeqSplit<T>(a: seq<T>, m: seq<T>)
    requires m != []
    ensures (a + [m[0]]) + m[1..] == a + m
  {
    assert m == [m[0]] + m[1..];
  }

  /** Cutting a list in two and joining the halves gives it back. */
  lemma TakeDrop<T>(s: seq<T>, n: nat)
    requires n <= |s|
    ensures s[..n] + s[n..] == s
  {
  }

  /** No key occurs twice. */
  predicate DistinctKeys(m: seq<Entry>) {
    m == [] || (m[0].key !in KeysOf(m[1..]) && DistinctKeys(m[1..]))
  }

  /** A filter record: an object cannot hold the same key twice. */
  type Model = m: seq<Entry> | DistinctKeys(m) witness []

  lemma {:induction false} KeysOfAppend(a: seq<Entry>, b: seq<Entry>)
    ensures KeysOf(a + b) == KeysOf(a) + KeysOf(b)
  {
    if a == [] {
      assert a + b == b;
    } else {
      assert (a + b)[1..] == a[1..] + b;
      assert (a + b)[0] == a[0];
      KeysOfAppend(a[1..], b);
    }
  }

  lemma {:induction false} KeyAt(m: seq<Entry>, i: nat)
    requires i < |m|
    ensures m[i].key in KeysOf(m)
  {
    if i > 0 {
      KeyAt(m[1..], i - 1);
    }
  }

  /** Two lists of entries joined have distinct keys exactly when each has and no key is in both. */
  lemma {:induction false} DistinctKeysAppend(a: seq<Entry>, b: seq<Entry>)
    ensures DistinctKeys(a + b) <==>
      DistinctKeys(a) && DistinctKeys(b) && forall k :: k in KeysOf(a) ==> k !in KeysOf(b)
  {
    if a == [] {
      assert a + b == b;
    } else {
      assert (a + b)[1..] == a[1..] + b;
      assert (a + b)[0] == a[0];
      KeysOfAppend(a[1..], b);
      DistinctKeysAppend(a[1..], b);
      assert KeysOf(a) == [a[0].key] + KeysOf(a[1..]);
    }
  }

  /** Appending an entry under a new key keeps the keys distinct. */
  lemma AppendNewKey(m: Model, k: string, v: FilterValue)
    requires k !in KeysOf(m)
    ensures DistinctKeys(m + [Entry(k, v)])
  {
    DistinctKeysAppend(m, [Entry(k, v)]);
  }

  /** Property access `m[k]`: the value stored under `k`, or `Undefined` when there is none. */
  function Lookup(m: seq<Entry>, k: string): (v: FilterValue)
    ensures k !in KeysOf(m) ==> v == Undefined
  {
    if m == [] then Undefined
    else if m[0].key == k then m[0].value
    else
      assert KeysOf(m) == [m[0].key] + KeysOf(m[1..]);
      Lookup(m[1..], k)
  }

  /** In a record, the value looked up under a key is the one its entry holds. */
  lemma {:induction false} LookupAt(m: Model, i: nat)
    requires i < |m|
    ensures Lookup(m, m[i].key) == m[i].value
  {
    if i > 0 {
      KeyAt(m[1..], i - 1);
      LookupAt(m[1..], i - 1);
    }
  }

  /** The value under the last key of a record is the one its last entry holds. */
  lemma {:induction false} LookupLast(a: seq<Entry>, k: string, v: FilterValue)
    requires k !in KeysOf(a)
    ensures Lookup(a + [Entry(k, v)], k) == v
  {
    if a != [] {
      assert (a + [Entry(k, v)])[1..] == a[1..] + [Entry(k, v)];
      assert KeysOf(a) == [a[0].key] + KeysOf(a[1..]);
      LookupLast(a[1..], k, v);
    }
  }

  /**
   * Property write `{...m, [k]: v}`: an existing key keeps its position and
   * takes the new value; a new key is appended at the end.
   */
  function Put(m: seq<Entry>, k: string, v: FilterValue): (r: seq<Entry>)
    ensures KeysOf(r) == if k in KeysOf(m) then KeysOf(m) else KeysOf(m) + [k]
    ensures k !in KeysOf(m) ==> r == m + [Entry(k, v)]
  {
    if m == [] then [Entry(k, v)]
    else if m[0].key == k then [Entry(k, v)] + m[1..]
    else
      var rest := Put(m[1..], k, v);
      assert KeysOf(m) == [m[0].key] + KeysOf(m[1..]);
      assert KeysOf([m[0]] + rest) == [m[0].key] + KeysOf(rest);
      [m[0]] + rest
  }

  /** After a write the written key holds the new value and every other key is untouched. */
  lemma {:induction false} PutLookup(m: seq<Entry>, k: string, v: FilterValue, j: string)
    ensures Lookup(Put(m, k, v), j) == if j == k then v else Lookup(m, j)
  {
    if m != [] && m[0].key != k {
      PutLookup(m[1..], k, v, j);
    }
  }

  /** Writing a key of a record yields a record. */
  lemma {:induction false} PutKeepsDistinct(m: Model, k: string, v: FilterValue)
    ensures DistinctKeys(Put(m, k, v))
  {
    if m != [] {
      if m[0].key == k {
        assert ([Entry(k, v)] + m[1..])[1..] == m[1..];
      } else {
        PutKeepsDistinct(m[1..], k, v);
        assert ([m[0]] + Put(m[1..], k, v))[1..] == Put(m[1..], k, v);
      }
    }
  }

  /** Writing back the value a record already holds under a present key changes nothing. */
  lemma {:induction false} PutSame(m: seq<Entry>, k: string)
    requires k in KeysOf(m)
    ensures Put(m, k, Lookup(m, k)) == m
  {
    if m[0].key != k {
      assert KeysOf(m) == [m[0].key] + KeysOf(m[1..]);
      PutSame(m[1..], k);
    }
  }

  /** Writing the last key of a record replaces its value in place. */
  lemma {:induction false} PutLast(a: seq<Entry>, k: string, old_v: FilterValue, v: FilterValue)
    requires k !in KeysOf(a)
    ensures Put(a + [Entry(k, old_v)], k, v) == a + [Entry(k, v)]
  {
    if a != [] {
      assert (a + [Entry(k, old_v)])[1..] == a[1..] + [Entry(k, old_v)];
      assert KeysOf(a) == [a[0].key] + KeysOf(a[1..]);
      PutLast(a[1..], k, old_v, v);
    }
  }
}
