/**
 * Process counts: the action that hands node counts to the display, and
 * the reconciliation that fills in zero counts for graph nodes the counts
 * response seems to miss, found by lining up the sorted count keys with the
 * sorted node ids.
 */
module ProcessCounts {
  import opened Optional
  import opened StringOrder

  /** The counts of one node: `all` may be missing, and a fragment node holds counts per inner node. */
  datatype NodeCounts = NodeCounts(all: Option<int>, errors: int, fragmentCounts: map<string, NodeCounts>)

  /** Counts per node id. */
  type Counts = map<string, NodeCounts>

  /** `{all: undefined, errors: 0, fragmentCounts: {}}`. */
  const ZeroCounts: NodeCounts := NodeCounts(None, 0, map[])

  /** A graph node; only its id takes part in reconciliation. */
  datatype Node = Node(id: string, kind: string)

  datatype DisplayProcessCountsAction = DisplayProcessCountsAction(actionType: string, processCounts: Counts)

  /** The action constructor: tagged `DISPLAY_PROCESS_COUNTS`, carrying the counts unchanged. */
  function DisplayProcessCounts(processCounts: Counts): (a: DisplayProcessCountsAction)
    ensures a.actionType == "DISPLAY_PROCESS_COUNTS"
    ensures a.processCounts == processCounts
  {
    DisplayProcessCountsAction("DISPLAY_PROCESS_COUNTS", processCounts)
  }

  // ---------------------------------------------------------------------
  // Sorting
  // ---------------------------------------------------------------------

  /** Ascending without repeats. */
  predicate StrictlySorted(s: seq<string>) {
    forall i, j :: 0 <= i < j < |s| ==> Le(s[i], s[j]) && s[i] != s[j]
  }

  /** `m` is a least element of `keys`. */
  predicate IsLeast(m: string, keys: set<string>) {
    m in keys && forall y :: y in keys ==> Le(m, y)
  }

  /** A non-empty finite set of strings has a least element. */
  lemma {:induction false} LeastExists(keys: set<string>)
    requires keys != {}
    ensures exists m :: IsLeast(m, keys)
    decreases |keys|
  {
    var x :| x in keys;
    if keys == {x} {
      LeReflexive(x);
      assert IsLeast(x, keys);
    } else {
      var rest := keys - {x};
      LeastExists(rest);
      var m :| IsLeast(m, rest);
      LeTotal(m, x);
      if Le(m, x) {
        assert IsLeast(m, keys);
      } else {
        forall y | y in keys
          ensures Le(x, y)
        {
          if y == x {
            LeReflexive(x);
          } else {
            LeTransitive(x, m, y);
          }
        }
        assert IsLeast(x, keys);
      }
    }
  }

  /** There is only one least element. */
  lemma LeastUnique(keys: set<string>)
    ensures forall a, b :: IsLeast(a, keys) && IsLeast(b, keys) ==> a == b
  {
    forall a, b | IsLeast(a, keys) && IsLeast(b, keys)
      ensures a == b
    {
      LeAntisymmetric(a, b);
    }
  }

  /** `Object.keys(counts).sort(…)`: the keys in ascending order. */
  function SortedKeys(keys: set<string>): (names: seq<string>)
    ensures StrictlySorted(names)
    ensures forall k :: k in names <==> k in keys
    ensures |names| == |keys|
    decreases |keys|
  {
    if keys == {} then []
    else
      LeastExists(keys);
      LeastUnique(keys);
      var m :| IsLeast(m, keys);
      var rest := SortedKeys(keys - {m});
      assert forall j :: 0 <= j < |rest| ==> rest[j] in keys - {m};
      [m] + rest
  }

  /** A list with no members is empty. */
  lemma NoMembers(b: seq<string>)
    ensures (forall k :: k !in b) ==> b == []
  {
    if b != [] {
      assert b[0] in b;
    }
  }

  /** Whatever order the keys come in, there is one ascending listing of them. */
  lemma {:induction false} SortedListingUnique(a: seq<string>, b: seq<string>)
    requires StrictlySorted(a) && StrictlySorted(b)
    requires forall k :: k in a <==> k in b
    ensures a == b
  {
    if a == [] {
      assert forall k :: k !in b;
      NoMembers(b);
    } else {
      assert a[0] in b;
      assert b != [];
      var j :| 0 <= j < |b| && b[j] == a[0];
      assert b[0] in a;
      var i :| 0 <= i < |a| && a[i] == b[0];
      if i > 0 {
        assert Le(a[0], a[i]);
      } else {
        LeReflexive(a[0]);
      }
      if j > 0 {
        assert Le(b[0], b[j]);
      } else {
        LeReflexive(b[0]);
      }
      LeAntisymmetric(a[0], b[0]);
      forall k
        ensures k in a[1..] <==> k in b[1..]
      {
        assert k in a[1..] <==> k in a && k != a[0];
        assert k in b[1..] <==> k in b && k != b[0];
      }
      SortedListingUnique(a[1..], b[1..]);
      assert a == [a[0]] + a[1..];
      assert b == [b[0]] + b[1..];
    }
  }

  /** Ascending by id. */
  predicate SortedById(s: seq<Node>) {
    forall i, j :: 0 <= i < j < |s| ==> Le(s[i].id, s[j].id)
  }

  /** The first `n` nodes are ascending by id. */
  predicate SortedBelow(s: seq<Node>, n: nat)
    requires n <= |s|
  {
    forall p, q :: 0 <= p < q < n ==> Le(s[p].id, s[q].id)
  }

  /** The first `n` nodes are ascending by id once the one at `j` is set aside. */
  predicate SortedAround(s: seq<Node>, n: nat, j: nat)
    requires n <= |s|
  {
    forall p, q :: 0 <= p < q < n && p != j && q != j ==> Le(s[p].id, s[q].id)
  }

  /** The node at `j` sorts no later than any node after it, up to `n`. */
  predicate LeastAt(s: seq<Node>, n: nat, j: nat)
    requires j < n <= |s|
  {
    forall q :: j < q < n ==> Le(s[j].id, s[q].id)
  }

  /** The nodes at `j - 1` and `j` exchanged. */
  function Swap(s: seq<Node>, j: nat): (t: seq<Node>)
    requires 0 < j < |s|
    ensures |t| == |s| && multiset(t) == multiset(s)
  {
    s[j - 1 := s[j]][j := s[j - 1]]
  }

  /** Moving the node at `j` one place down past a node that sorts after it keeps the insertion invariant. */
  lemma SwapStep(s: seq<Node>, n: nat, j: nat)
    requires 0 < j < n <= |s|
    requires SortedAround(s, n, j) && LeastAt(s, n, j)
    requires Le(s[j].id, s[j - 1].id)
    ensures SortedAround(Swap(s, j), n, j - 1) && LeastAt(Swap(s, j), n, j - 1)
  {
    var t := Swap(s, j);
    assert forall q :: 0 <= q < |s| && q != j - 1 && q != j ==> t[q] == s[q];
  }

  /** The node at `j` sorts no earlier than the one before it: the first `n` nodes are ascending. */
  lemma {:induction false} FinishInsert(s: seq<Node>, n: nat, j: nat)
    requires j < n <= |s|
    requires SortedAround(s, n, j) && LeastAt(s, n, j)
    requires j == 0 || Le(s[j - 1].id, s[j].id)
    ensures SortedBelow(s, n)
  {
    forall p, q | 0 <= p < q < n
      ensures Le(s[p].id, s[q].id)
    {
      if q == j && p < j - 1 {
        LeTransitive(s[p].id, s[j - 1].id, s[j].id);
      }
    }
  }

  /** `nodes.sort((a, b) => a.id.localeCompare(b.id))`, in place. */
  method SortById(a: array<Node>)
    modifies a
    ensures SortedById(a[..])
    ensures multiset(a[..]) == multiset(old(a[..]))
  {
    for i := 0 to a.Length
      invariant SortedBelow(a[..], i)
      invariant multiset(a[..]) == multiset(old(a[..]))
    {
      var j := i;
      while j > 0 && !Le(a[j - 1].id, a[j].id)
        invariant 0 <= j <= i
        invariant multiset(a[..]) == multiset(old(a[..]))
        invariant SortedAround(a[..], i + 1, j) && LeastAt(a[..], i + 1, j)
      {
        NotLe(a[j - 1].id, a[j].id);
        ghost var before := a[..];
        SwapStep(before, i + 1, j);
        a[j - 1], a[j] := a[j], a[j - 1];
        assert a[..] == Swap(before, j);
        j := j - 1;
      }
      FinishInsert(a[..], i + 1, j);
    }
  }

  // ---------------------------------------------------------------------
  // Reconciliation
  // ---------------------------------------------------------------------

  /**
   * The filter test at sorted position `i`: the node's id differs from the
   * count key at the same position; past the last key the key is
   * `undefined` and the test always holds.
   */
  predicate MisplacedAt(names: seq<string>, nodes: seq<Node>, i: nat)
    requires i < |nodes|
  {
    i >= |names| || nodes[i].id != names[i]
  }

  /** The nodes from position `i` on that fail to line up with their key, in order. */
  function MisplacedFrom(names: seq<string>, nodes: seq<Node>, i: nat): (r: seq<Node>)
    requires i <= |nodes|
    ensures |r| <= |nodes| - i
    ensures forall n :: n in r ==> n in nodes[i..]
    decreases |nodes| - i
  {
    if i == |nodes| then []
    else (if MisplacedAt(names, nodes, i) then [nodes[i]] else []) + MisplacedFrom(names, nodes, i + 1)
  }

  /** The ids of a list of nodes. */
  function IdsOf(ns: seq<Node>): (ids: set<string>)
    ensures ids == {} <==> ns == []
  {
    if ns == [] then {} else {ns[0].id} + IdsOf(ns[1..])
  }

  /** An id belongs to a misplaced node exactly when some misplaced position holds it. */
  lemma {:induction false} MisplacedIds(names: seq<string>, nodes: seq<Node>, i: nat, k: string)
    requires i <= |nodes|
    ensures k in IdsOf(MisplacedFrom(names, nodes, i)) <==>
      exists p :: i <= p < |nodes| && MisplacedAt(names, nodes, p) && nodes[p].id == k
    decreases |nodes| - i
  {
    if i < |nodes| {
      MisplacedIds(names, nodes, i + 1, k);
      var rest := MisplacedFrom(names, nodes, i + 1);
      if MisplacedAt(names, nodes, i) {
        assert ([nodes[i]] + rest)[1..] == rest;
      } else {
        assert MisplacedFrom(names, nodes, i) == rest;
      }
    }
  }

  /** When every node from position `i` on lines up with its key, none is misplaced. */
  lemma {:induction false} NoneMisplaced(names: seq<string>, nodes: seq<Node>, i: nat)
    requires i <= |nodes|
    requires forall p :: i <= p < |nodes| ==> !MisplacedAt(names, nodes, p)
    ensures MisplacedFrom(names, nodes, i) == []
    decreases |nodes| - i
  {
    if i < |nodes| {
      NoneMisplaced(names, nodes, i + 1);
    }
  }

  /** Each listed node's counts replaced by zero counts, one after the other. */
  function Zeroed(counts: Counts, ns: seq<Node>): (r: Counts)
    ensures r.Keys == counts.Keys + IdsOf(ns)
    decreases ns
  {
    if ns == [] then counts else Zeroed(counts[ns[0].id := ZeroCounts], ns[1..])
  }

  /** After zeroing, the listed ids hold zero counts and every other key keeps its counts. */
  lemma {:induction false} ZeroedLookup(counts: Counts, ns: seq<Node>, k: string)
    decreases ns
    ensures k in Zeroed(counts, ns) <==> k in counts || k in IdsOf(ns)
    ensures k in Zeroed(counts, ns) ==> Zeroed(counts, ns)[k] == if k in IdsOf(ns) then ZeroCounts else counts[k]
  {
    if ns != [] {
      ZeroedLookup(counts[ns[0].id := ZeroCounts], ns[1..], k);
    }
  }

  /**
   * The counts `checkActualCounts` returns for the ascending key listing
   * `names` and the nodes sorted by id: when some node is misplaced and
   * there is at least one key, every misplaced node's id gets zero counts;
   * otherwise the counts come back as they are.
   */
  function Reconciled(counts: Counts, names: seq<string>, nodes: seq<Node>): (r: Counts)
    ensures counts.Keys <= r.Keys
    ensures names == [] ==> r == counts
  {
    var misplaced := MisplacedFrom(names, nodes, 0);
    if |misplaced| != 0 && |names| != 0 then Zeroed(counts, misplaced) else counts
  }

  /**
   * `checkActualCounts`: sorts the nodes by id in place, lists the count
   * keys in ascending order, and in a copy of the counts gives every node
   * that does not line up with its key zero counts.
   */
  method CheckActualCounts(counts: Counts, nodes: array<Node>) returns (result: Counts)
    modifies nodes
    ensures SortedById(nodes[..])
    ensures multiset(nodes[..]) == multiset(old(nodes[..]))
    ensures result == Reconciled(counts, SortedKeys(counts.Keys), nodes[..])
  {
    var names := SortedKeys(counts.Keys);
    SortById(nodes);
    var misplaced := MisplacedFrom(names, nodes[..], 0);
    result := counts;
    if |misplaced| != 0 && |names| != 0 {
      for i := 0 to |misplaced|
        invariant Zeroed(result, misplaced[i..]) == Zeroed(counts, misplaced)
      {
        assert misplaced[i..][1..] == misplaced[i + 1..];
        result := result[misplaced[i].id := ZeroCounts];
      }
    }
  }

  /** Reconciliation never drops a key, and adds no key but a node id. */
  lemma ReconciledKeys(counts: Counts, names: seq<string>, nodes: seq<Node>, k: string)
    ensures k in counts ==> k in Reconciled(counts, names, nodes)
    ensures k in Reconciled(counts, names, nodes) ==> k in counts || exists p :: 0 <= p < |nodes| && nodes[p].id == k
  {
    ZeroedLookup(counts, MisplacedFrom(names, nodes, 0), k);
    MisplacedIds(names, nodes, 0, k);
  }

  /** With no keys, or every sorted node id equal to the key at its position, the counts come back unchanged. */
  lemma ReconciledAligned(counts: Counts, names: seq<string>, nodes: seq<Node>)
    requires names == [] || forall i :: 0 <= i < |nodes| ==> !MisplacedAt(names, nodes, i)
    ensures Reconciled(counts, names, nodes) == counts
  {
    if names != [] {
      NoneMisplaced(names, nodes, 0);
    }
  }

  /** Every misplaced node's id holds zero counts, provided there is a key at all. */
  lemma ReconciledZeroes(counts: Counts, names: seq<string>, nodes: seq<Node>, i: nat)
    requires names != [] && i < |nodes| && MisplacedAt(names, nodes, i)
    ensures nodes[i].id in Reconciled(counts, names, nodes)
    ensures Reconciled(counts, names, nodes)[nodes[i].id] == ZeroCounts
  {
    var k := nodes[i].id;
    MisplacedIds(names, nodes, 0, k);
    ZeroedLookup(counts, MisplacedFrom(names, nodes, 0), k);
  }

  /** A key that is not the id of any misplaced node keeps its counts. */
  lemma ReconciledKeepsOthers(counts: Counts, names: seq<string>, nodes: seq<Node>, k: string)
    requires k in counts
    requires forall i :: 0 <= i < |nodes| && MisplacedAt(names, nodes, i) ==> nodes[i].id != k
    ensures k in Reconciled(counts, names, nodes)
    ensures Reconciled(counts, names, nodes)[k] == counts[k]
  {
    MisplacedIds(names, nodes, 0, k);
    ZeroedLookup(counts, MisplacedFrom(names, nodes, 0), k);
  }

  /**
   * The lining up by position goes wrong as soon as one node has no count:
   * with counts for `a` and `c` and nodes `a`, `b`, `c`, node `c` lines up
   * with no key and its counted counts are replaced by zero counts.
   */
  lemma ShiftedKeyLosesCount()
    ensures var counted := NodeCounts(Some(5), 1, map[]);
      var counts := map["a" := counted, "c" := counted];
      var nodes := [Node("a", "Filter"), Node("b", "Filter"), Node("c", "Sink")];
      SortedById(nodes) && "c" in Reconciled(counts, SortedKeys(counts.Keys), nodes) &&
      Reconciled(counts, SortedKeys(counts.Keys), nodes)["c"] == ZeroCounts != counts["c"]
  {
    var counted := NodeCounts(Some(5), 1, map[]);
    var counts := map["a" := counted, "c" := counted];
    var nodes := [Node("a", "Filter"), Node("b", "Filter"), Node("c", "Sink")];
    assert Le("a", "b") && Le("b", "c") && Le("a", "c");
    assert StrictlySorted(["a", "c"]);
    assert counts.Keys == {"a", "c"};
    SortedListingUnique(["a", "c"], SortedKeys(counts.Keys));
    ReconciledZeroes(counts, ["a", "c"], nodes, 2);
  }

  /**
   * The reconciliation as evidently intended: every node without counts
   * gets zero counts, and counts that exist are kept; with no counts at all
   * nothing is filled in, as before.
   */
  function FillMissingCounts(counts: Counts, nodes: seq<Node>): (r: Counts)
    ensures forall k :: k in counts ==> k in r && r[k] == counts[k]
    ensures forall k :: k in r && k !in counts ==> r[k] == ZeroCounts && exists i :: 0 <= i < |nodes| && nodes[i].id == k
    ensures |counts| != 0 ==> forall i :: 0 <= i < |nodes| ==> nodes[i].id in r
  {
    if |counts| == 0 then counts
    else counts + map i | 0 <= i < |nodes| && nodes[i].id !in counts :: nodes[i].id := ZeroCounts
  }

  /** When the sorted node ids and the sorted keys line up, both reconciliations agree with the counts. */
  lemma FillMissingAgreesWhenAligned(counts: Counts, nodes: seq<Node>)
    requires SortedKeys(counts.Keys) == [] || forall i :: 0 <= i < |nodes| ==> !MisplacedAt(SortedKeys(counts.Keys), nodes, i)
    ensures FillMissingCounts(counts, nodes) == Reconciled(counts, SortedKeys(counts.Keys), nodes) == counts
  {
    var names := SortedKeys(counts.Keys);
    ReconciledAligned(counts, names, nodes);
    if names != [] {
      forall i | 0 <= i < |nodes| ensures nodes[i].id in counts {
        assert !MisplacedAt(names, nodes, i);
        assert names[i] in names;
      }
    }
  }
}
