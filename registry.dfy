/**
 * The registry of proxy nodes (pool/pool.go:207-302).
 *
 * The embedded sync.Map is a Dafny map from key to node.  Beside it the
 * registry keeps its own uint64 `length` counter, which Store and Delete
 * move by one whatever the map did, a key counter `idx` for Add, a `flags`
 * word that makes GetSortList single-flight, and the `lists` buffer that
 * GetSortList fills and sorts in place through Swap.  Range visits the keys
 * in an unspecified order; here each visit picks any key not yet visited.
 */
module Registry {
  import opened Probing
  import opened Metrics
  import opened Node

  /** A sync.Map key: Add uses uint64 indices, callers may use strings. */
  datatype Key = Index(n: nat) | Text(s: string)

  const U64: int := 0x1_0000_0000_0000_0000
  const I64: int := 0x8000_0000_0000_0000

  /** The failure threshold CloseBad uses: `t`, raised to at least 3. */
  function Threshold(t: int): (limit: int)
    ensures limit >= 3 && limit >= t
    ensures limit == t || limit == 3
  {
    if 3 > t then 3 else t
  }

  /** The keys of `m` whose node has more than `limit` consecutive failures. */
  ghost function Bad(m: map<Key, ProxyNode>, limit: int): set<Key>
    reads m.Values`failcnt
  {
    set k | k in m && m[k].failcnt > limit
  }

  /** `ks` lists every key of `keys` exactly once. */
  ghost predicate IsEnumeration(ks: seq<Key>, keys: set<Key>)
  {
    && |ks| == |keys|
    && (forall i :: 0 <= i < |ks| ==> ks[i] in keys)
    && (forall k :: k in keys ==> k in ks)
    && (forall i, j :: 0 <= i < j < |ks| ==> ks[i] != ks[j])
  }

  /** The nodes stored under the keys `ks`, in that order. */
  function Project(m: map<Key, ProxyNode>, ks: seq<Key>): (ns: seq<ProxyNode>)
    requires forall i :: 0 <= i < |ks| ==> ks[i] in m
    ensures |ns| == |ks|
    ensures forall i :: 0 <= i < |ks| ==> ns[i] == m[ks[i]]
  {
    seq(|ks|, i requires 0 <= i < |ks| => m[ks[i]])
  }

  /** How a call of GetSortList as written ends. */
  datatype Ranking =
    | Busy                                 // a ranking is already in progress: nil
    | CapacityPanic(cap: int)              // `make` was given a negative capacity
    | IndexPanic(index: int, length: int)  // `Less` read the buffer at `index`
    | Ranked(list: seq<ProxyNode>)         // the sorted buffer

  /** uint64 decrement: one less, with 0 wrapping to 2^64 - 1. */
  function Dec(x: nat): (r: nat)
    ensures x < U64 ==> r < U64
  {
    if x == 0 then U64 - 1 else x - 1
  }

  /** `n` uint64 decrements in a row. */
  function DecBy(x: nat, n: nat): (r: nat)
    ensures x < U64 ==> r < U64
  {
    if n == 0 then x else Dec(DecBy(x, n - 1))
  }

  /** A decrement adds 2^64 - 1 modulo 2^64, that is, subtracts one modulo 2^64. */
  lemma DecIsWrapped(x: nat)
    requires x < U64
    ensures Dec(x) == (x + (U64 - 1)) % U64 == (x - 1) % U64
  {
  }

  /** `n` decrements subtract `n` modulo 2^64. */
  lemma {:induction false} DecByIsWrapped(x: nat, n: nat)
    requires x < U64
    ensures DecBy(x, n) == (x - n) % U64
  {
    if n > 0 {
      DecByIsWrapped(x, n - 1);
      DecIsWrapped(DecBy(x, n - 1));
      assert ((x - (n - 1)) % U64 - 1) % U64 == (x - n) % U64;
    }
  }

  /** Without underflow, `n` decrements subtract `n`. */
  lemma {:induction false} DecByInRange(x: nat, n: nat)
    requires n <= x
    ensures DecBy(x, n) == x - n
  {
    if n > 0 {
      DecByInRange(x, n - 1);
    }
  }

  /** Removing keys that are all present shrinks a map by their number. */
  lemma RemoveAll<K, V>(m: map<K, V>, ks: set<K>)
    requires ks <= m.Keys
    ensures |m - ks| == |m| - |ks|
  {
    assert (m - ks).Keys == m.Keys - ks;
    assert m.Keys * ks == ks;
  }

  /**
   * The bookkeeping of CloseBad's sweep once the keys `rest` are left to
   * visit: the bad keys already visited are exactly the ones removed, and
   * the counter went down once for each of them.
   */
  ghost predicate Swept(n0: map<Key, ProxyNode>, l0: nat, bad: set<Key>, rest: set<Key>,
                        gone: set<Key>, m: map<Key, ProxyNode>, len: nat)
  {
    && rest <= n0.Keys
    && gone == bad - rest
    && m == n0 - gone
    && len == DecBy(l0, |gone|)
  }

  /** Visiting a bad key removes it and decrements the counter once more. */
  lemma SweepBad(n0: map<Key, ProxyNode>, l0: nat, bad: set<Key>, rest: set<Key>,
                 gone: set<Key>, m: map<Key, ProxyNode>, len: nat, k: Key)
    requires Swept(n0, l0, bad, rest, gone, m, len) && k in rest && k in bad
    ensures Swept(n0, l0, bad, rest - {k}, gone + {k}, m - {k}, Dec(len))
  {
    assert |gone + {k}| == |gone| + 1;
    assert (n0 - gone) - {k} == n0 - (gone + {k});
  }

  /** Visiting a key at or under the limit changes nothing. */
  lemma SweepGood(n0: map<Key, ProxyNode>, l0: nat, bad: set<Key>, rest: set<Key>,
                  gone: set<Key>, m: map<Key, ProxyNode>, len: nat, k: Key)
    requires Swept(n0, l0, bad, rest, gone, m, len) && k !in bad
    ensures Swept(n0, l0, bad, rest - {k}, gone, m, len)
  {
  }

  /**
   * Once every key is visited, exactly the bad keys are gone, the counter
   * went down once per bad key, and a counter that matched the map still
   * does.
   */
  lemma SweepDone(n0: map<Key, ProxyNode>, l0: nat, bad: set<Key>,
                  gone: set<Key>, m: map<Key, ProxyNode>, len: nat)
    requires Swept(n0, l0, bad, {}, gone, m, len) && bad <= n0.Keys
    ensures m == n0 - bad && len == DecBy(l0, |bad|)
    ensures l0 == |n0| ==> len == |m|
  {
    RemoveAll(n0, bad);
    if l0 == |n0| {
      DecByInRange(l0, |bad|);
    }
  }

  /**
   * The node side of CloseBad's sweep: `bad` are the keys whose node is
   * over the limit, the nodes of the bad keys in `gone` are closed, and the
   * node of every other key keeps its `exit` flag from `e0`.
   */
  ghost predicate Marked(n0: map<Key, ProxyNode>, e0: map<Key, int>, limit: int, bad: set<Key>, gone: set<Key>)
    reads n0.Values`exit, n0.Values`failcnt
  {
    && n0.Keys == e0.Keys
    && (forall j :: j in n0 ==> (j in bad <==> limit < n0[j].failcnt))
    && (forall j :: j in gone && j in n0 ==> n0[j].exit == 1)
    && (forall j :: j in n0 && j !in bad ==> n0[j].exit == e0[j])
  }

  /** Closes the node of the bad key `k`. */
  method CloseNode(node: ProxyNode, k: Key, ghost n0: map<Key, ProxyNode>, ghost e0: map<Key, int>,
                   ghost limit: int, ghost bad: set<Key>, ghost gone: set<Key>)
    requires k in bad && k in n0 && n0[k] == node && Marked(n0, e0, limit, bad, gone)
    modifies node`exit
    ensures Marked(n0, e0, limit, bad, gone + {k})
  {
    node.Close();
  }

  class ProxyManager {
    var nodes: map<Key, ProxyNode>
    var idx: nat
    var length: nat
    var flags: nat
    var lists: seq<ProxyNode>

    ghost predicate Valid()
      reads this
    {
      idx < U64 && length < U64 && flags <= 1
    }

    /** The length counter agrees with the number of entries. */
    ghost predicate Consistent()
      reads this
    {
      length == |nodes|
    }

    /** Every index key in the map was handed out by Add already. */
    ghost predicate KeysBelowIdx()
      reads this
    {
      forall k :: k in nodes && k.Index? ==> k.n < idx
    }

    /** `&proxyManager{}`: empty, every counter zero. */
    constructor ()
      ensures Valid() && Consistent() && KeysBelowIdx()
      ensures nodes == map[] && idx == 0 && length == 0 && flags == 0 && lists == []
    {
      nodes, idx, length, flags, lists := map[], 0, 0, 0, [];
    }

    /** `Load(key)`: the node stored under `key`, if any. */
    function Load(key: Key): (r: Option<ProxyNode>)
      reads this
      ensures r != None <==> key in nodes
      ensures r != None ==> r.value == nodes[key]
    {
      if key in nodes then Some(nodes[key]) else None
    }

    /** Whether some node is stored under `key`. */
    function IsExist(key: Key): (r: bool)
      reads this
      ensures r <==> key in nodes
    {
      Load(key) != None
    }

    /**
     * Stores `node` under `key`, replacing any node there, and adds one to
     * `length` (modulo 2^64) even when the key was already present.
     */
    method Store(key: Key, node: ProxyNode)
      requires Valid()
      modifies this
      ensures Valid()
      ensures nodes == old(nodes)[key := node] && IsExist(key)
      ensures length == (old(length) + 1) % U64
      ensures idx == old(idx) && flags == old(flags) && lists == old(lists)
      ensures old(Consistent()) && key !in old(nodes) && |old(nodes)| + 1 < U64 ==> Consistent()
    {
      nodes := nodes[key := node];
      length := (length + 1) % U64;
    }

    /**
     * Removes `key` and adds 2^64 - 1 to `length`, that is, subtracts one
     * modulo 2^64, even when the key was absent.
     */
    method Delete(key: Key)
      requires Valid()
      modifies this
      ensures Valid()
      ensures nodes == old(nodes) - {key} && !IsExist(key)
      ensures length == Dec(old(length))
      ensures idx == old(idx) && flags == old(flags) && lists == old(lists)
      ensures old(Consistent()) && key in old(nodes) ==> Consistent()
    {
      nodes := nodes - {key};
      length := Dec(length);
      if old(Consistent()) && key in old(nodes) {
        assert nodes.Keys == old(nodes).Keys - {key};
      }
    }

    /**
     * `LoadOrStore`, inherited from sync.Map: returns the node under `key`
     * if there is one, otherwise stores `node`; `length` is left alone.
     */
    method LoadOrStore(key: Key, node: ProxyNode) returns (actual: ProxyNode, loaded: bool)
      modifies this
      ensures loaded == (key in old(nodes))
      ensures actual == if loaded then old(nodes)[key] else node
      ensures nodes == old(nodes)[key := actual]
      ensures length == old(length) && idx == old(idx) && flags == old(flags) && lists == old(lists)
    {
      loaded := key in nodes;
      if loaded {
        actual := nodes[key];
      } else {
        actual := node;
        nodes := nodes[key := node];
      }
    }

    /**
     * Registers `node` under the next index key and returns that key.  When
     * every index key in the map came from Add and `idx` has not wrapped,
     * the key is new, so the length counter stays consistent.
     */
    method Add(node: ProxyNode) returns (key: Key)
      requires Valid()
      modifies this
      ensures Valid()
      ensures key == Index(old(idx)) && idx == (old(idx) + 1) % U64
      ensures nodes == old(nodes)[key := node] && length == (old(length) + 1) % U64
      ensures flags == old(flags) && lists == old(lists)
      ensures old(KeysBelowIdx()) && old(idx) + 1 < U64 ==> key !in old(nodes) && KeysBelowIdx()
      ensures old(KeysBelowIdx() && Consistent()) && old(idx) + 1 < U64 && |old(nodes)| + 1 < U64
        ==> Consistent()
    {
      key := Index(idx);
      idx := (idx + 1) % U64;
      Store(key, node);
    }

    /**
     * `Len()`: the length counter read as a Go int, so a counter past
     * 2^63 - 1 reads as negative.  It is the number of entries only while
     * the counter is consistent.
     */
    function Len(): (n: int)
      requires Valid()
      reads this
      ensures -I64 <= n < I64
      ensures Consistent() && |nodes| < I64 ==> n == |nodes|
    {
      if length < I64 then length else length - U64
    }

    /**
     * Closes and removes every node with more than Threshold(t) consecutive
     * failures; `length` drops by one per removal.  Nodes at or below the
     * threshold stay registered and untouched, and no node changes except
     * for the `exit` flag of the removed ones.
     */
    method CloseBad(t: int)
      requires Valid()
      modifies this, nodes.Values`exit
      ensures Valid()
      ensures nodes == old(nodes) - old(Bad(nodes, Threshold(t)))
      ensures forall k :: k in old(Bad(nodes, Threshold(t))) ==> old(nodes)[k].exit == 1
      ensures forall k :: k in old(nodes) && k !in old(Bad(nodes, Threshold(t))) ==>
        old(nodes)[k].exit == old(nodes[k].exit)
      ensures length == DecBy(old(length), |old(Bad(nodes, Threshold(t)))|)
      ensures idx == old(idx) && flags == old(flags) && lists == old(lists)
      ensures old(Consistent()) ==> Consistent()
    {
      var limit := Threshold(t);
      ghost var N0: map<Key, ProxyNode> := nodes;
      ghost var L0: nat := length;
      ghost var E0: map<Key, int> := map k | k in N0 :: N0[k].exit;
      ghost var bad: set<Key> := Bad(N0, limit);
      var rest := nodes.Keys;
      ghost var gone: set<Key> := {};
      while rest != {}
        invariant Valid() && idx == old(idx) && flags == old(flags) && lists == old(lists)
        invariant Swept(N0, L0, bad, rest, gone, nodes, length)
        invariant Marked(N0, E0, limit, bad, gone)
        decreases rest
      {
        var k :| k in rest;
        gone := Visit(k, limit, N0, L0, E0, bad, rest, gone);
        rest := rest - {k};
      }
      SweepDone(N0, L0, bad, gone, nodes, length);
    }

    /** CloseBad's visit to key `k`: if its node is over the limit, close it and delete `k`. */
    method Visit(k: Key, limit: int, ghost n0: map<Key, ProxyNode>, ghost l0: nat, ghost e0: map<Key, int>,
                 ghost bad: set<Key>, ghost rest: set<Key>, ghost gone: set<Key>) returns (ghost gone': set<Key>)
      requires Valid() && k in rest
      requires Swept(n0, l0, bad, rest, gone, nodes, length) && Marked(n0, e0, limit, bad, gone)
      modifies this, {n0[k]}`exit
      ensures Valid() && idx == old(idx) && flags == old(flags) && lists == old(lists)
      ensures Swept(n0, l0, bad, rest - {k}, gone', nodes, length) && Marked(n0, e0, limit, bad, gone')
    {
      if limit < nodes[k].failcnt {
        Evict(k, limit, n0, l0, e0, bad, rest, gone);
        gone' := gone + {k};
      } else {
        SweepGood(n0, l0, bad, rest, gone, nodes, length, k);
        gone' := gone;
      }
    }

    /** Closes the node under the bad key `k` and deletes `k`. */
    method Evict(k: Key, limit: int, ghost n0: map<Key, ProxyNode>, ghost l0: nat, ghost e0: map<Key, int>,
                 ghost bad: set<Key>, ghost rest: set<Key>, ghost gone: set<Key>)
      requires Valid() && k in rest && k in bad
      requires Swept(n0, l0, bad, rest, gone, nodes, length) && Marked(n0, e0, limit, bad, gone)
      modifies this, {n0[k]}`exit
      ensures Valid() && idx == old(idx) && flags == old(flags) && lists == old(lists)
      ensures Swept(n0, l0, bad, rest - {k}, gone + {k}, nodes, length) && Marked(n0, e0, limit, bad, gone + {k})
    {
      SweepBad(n0, l0, bad, rest, gone, nodes, length, k);
      CloseNode(nodes[k], k, n0, e0, limit, bad, gone);
      Delete(k);
    }

    /** Exchanges two entries of the ranking buffer. */
    method Swap(i: nat, j: nat)
      requires i < |lists| && j < |lists|
      modifies this`lists
      ensures lists == old(lists)[i := old(lists)[j]][j := old(lists)[i]]
      ensures multiset(lists) == multiset(old(lists))
    {
      lists := lists[i := lists[j]][j := lists[i]];
    }

    /**
     * Whether the node at `i` ranks ahead of the node at `j` in the
     * buffer: exactly `before` on their statistics, so never a node ahead
     * of itself.
     */
    predicate Less(i: nat, j: nat)
      requires i < |lists| && j < |lists|
      reads this, lists[i], lists[j]
      ensures Less(i, j) <==> Before(lists[i].Snapshot(), lists[j].Snapshot())
      ensures Less(i, j) ==> lists[i] != lists[j] && !Before(lists[j].Snapshot(), lists[i].Snapshot())
    {
      Before(lists[i].Snapshot(), lists[j].Snapshot())
    }

    /**
     * The Range pass of GetSortList: appends every registered node to the
     * buffer, visiting the keys in the order `order`, which lists each key
     * exactly once.
     */
    method Collect() returns (ghost order: seq<Key>)
      modifies this`lists
      ensures IsEnumeration(order, nodes.Keys)
      ensures lists == old(lists) + Project(nodes, order)
    {
      order := [];
      var rest := nodes.Keys;
      while rest != {}
        invariant rest <= nodes.Keys
        invariant |order| + |rest| == |nodes.Keys|
        invariant forall i :: 0 <= i < |order| ==> order[i] in nodes && order[i] !in rest
        invariant forall k :: k in nodes.Keys - rest ==> k in order
        invariant forall i, j :: 0 <= i < j < |order| ==> order[i] != order[j]
        invariant lists == old(lists) + Project(nodes, order)
        decreases rest
      {
        var k :| k in rest;
        lists := lists + [nodes[k]];
        order := order + [k];
        rest := rest - {k};
      }
    }

    /**
     * The ranked snapshot.  If a ranking is already in progress it returns
     * nothing and changes nothing.  Otherwise it collects every registered
     * node into the buffer, lets the sort permute the buffer through the
     * swaps `swaps` over the buffer's own length, and returns the buffer,
     * which it then clears.  The result holds each registered entry's node
     * exactly once.
     */
    method GetSortList(swaps: seq<(nat, nat)>) returns (r: seq<ProxyNode>, ghost order: seq<Key>)
      requires Valid()
      requires forall s :: s in swaps ==> s.0 < |nodes| && s.1 < |nodes|
      modifies this
      ensures Valid()
      ensures nodes == old(nodes) && length == old(length) && idx == old(idx)
      ensures old(flags) != 0 ==> r == [] && flags == old(flags) && lists == old(lists)
      ensures old(flags) == 0 ==> flags == 0 && lists == []
      ensures old(flags) == 0 ==> IsEnumeration(order, nodes.Keys)
      ensures old(flags) == 0 ==> multiset(r) == multiset(Project(nodes, order))
      ensures old(flags) == 0 ==> |r| == |nodes|
    {
      order := [];
      if flags != 0 {
        return [], order;
      }
      flags := 1;
      lists := [];
      order := Collect();
      assert |lists| == |nodes|;
      ghost var collected := lists;
      for s := 0 to |swaps|
        invariant nodes == old(nodes) && length == old(length) && idx == old(idx) && flags == 1
        invariant |lists| == |nodes|
        invariant multiset(lists) == multiset(collected)
      {
        assert swaps[s] in swaps;
        Swap(swaps[s].0, swaps[s].1);
      }
      flags := 0;
      r := lists;
      lists := [];
    }

    /**
     * `sort.Sort` over [0, n) as Go's insertion sort runs it: each position
     * i from 1 is compared with i - 1 (reading `lists[i]` first) and moved
     * down while Less holds.  The result is the first position past the
     * buffer that Less reads, if any; the buffer stays a permutation of
     * itself.
     */
    method InsertionSort(n: int) returns (past: Option<int>)
      modifies this`lists
      ensures |lists| == |old(lists)| && multiset(lists) == multiset(old(lists))
      ensures 2 <= n && |lists| < n <==> past.Some?
      ensures past.Some? ==> past.value == if |lists| == 0 then 1 else |lists|
    {
      var i := 1;
      while i < n
        invariant |lists| == |old(lists)| && multiset(lists) == multiset(old(lists))
        invariant 1 <= i && (i == 1 || i <= |lists|)
      {
        if |lists| <= i {
          return Some(i);
        }
        var j := i;
        while 0 < j && Less(j, j - 1)
          invariant |lists| == |old(lists)| && multiset(lists) == multiset(old(lists))
          invariant 0 <= j <= i < |lists|
          decreases j
        {
          Swap(j, j - 1);
          j := j - 1;
        }
        i := i + 1;
      }
      return None;
    }

    /**
     * GetSortList as written: the capacity hint of the buffer and the range
     * the sort works on are both Len(), the length counter, rather than the
     * number of nodes collected.  The sort over [0, Len()) is Go's
     * insertion sort, which first compares each position i >= 1 with
     * i - 1, `lists[i]` being read first.  A negative Len() makes `make`
     * panic; a Len() of at least 2 above the buffer's length makes `Less`
     * index past the buffer.  After a panic the deferred reset has emptied
     * the buffer and the busy flag stays set.
     */
    method GetSortListAsWritten() returns (out: Ranking, ghost order: seq<Key>)
      requires Valid()
      modifies this
      ensures Valid()
      ensures nodes == old(nodes) && length == old(length) && idx == old(idx)
      ensures old(flags) != 0 ==> out == Busy && flags == old(flags) && lists == old(lists)
      ensures old(flags) == 0 && old(Len()) < 0 ==>
        out == CapacityPanic(old(Len())) && flags == 1 && lists == []
      ensures old(flags) == 0 && 0 <= old(Len()) ==> IsEnumeration(order, nodes.Keys)
      ensures old(flags) == 0 && 2 <= old(Len()) && |nodes| < old(Len()) ==>
        out == IndexPanic(if |nodes| == 0 then 1 else |nodes|, |nodes|) && flags == 1 && lists == []
      ensures old(flags) == 0 && 0 <= old(Len()) && (old(Len()) < 2 || old(Len()) <= |nodes|) ==>
        out.Ranked? && multiset(out.list) == multiset(Project(nodes, order)) && flags == 0 && lists == []
    {
      order := [];
      if flags != 0 {
        return Busy, order;
      }
      flags := 1;
      var n := Len();
      if n < 0 {
        lists := [];
        return CapacityPanic(n), order;
      }
      lists := [];
      order := Collect();
      assert |lists| == |nodes|;
      var past := InsertionSort(n);
      if past.Some? {
        lists := [];
        return IndexPanic(past.value, |nodes|), order;
      }
      flags := 0;
      out := Ranked(lists);
      lists := [];
    }
  }

  /**
   * Storing twice under one key leaves one entry but a length counter of
   * two, so the ranking as written reads `lists[1]` of a one-entry buffer.
   */
  method StoreTwiceDriftsLen(a: ProxyNode, b: ProxyNode) returns (m: ProxyManager, out: Ranking)
    ensures m.Valid() && |m.nodes| == 1 && m.Len() == 2
    ensures out == IndexPanic(1, 1) && m.flags == 1 && m.lists == []
  {
    m := new ProxyManager();
    m.Store(Text("x"), a);
    m.Store(Text("x"), b);
    assert m.nodes.Keys == {Text("x")};
    ghost var order;
    out, order := m.GetSortListAsWritten();
  }

  /**
   * Deleting an absent key from an empty registry wraps the length counter
   * to 2^64 - 1, which Len() reads as -1, so the ranking as written asks
   * `make` for capacity -1.
   */
  method DeleteAbsentMakesLenNegative() returns (m: ProxyManager, out: Ranking)
    ensures m.Valid() && m.nodes == map[] && m.Len() == -1
    ensures out == CapacityPanic(-1) && m.flags == 1 && m.lists == []
  {
    m := new ProxyManager();
    m.Delete(Text("x"));
    ghost var order;
    out, order := m.GetSortListAsWritten();
  }

  /**
   * Pruning with threshold 5 a node with 10 consecutive failures and one
   * with 2: the first is closed and removed, the second stays registered
   * and open.
   */
  method PruneExample() returns (m: ProxyManager, x: ProxyNode, y: ProxyNode)
    ensures m.nodes == map[Text("y") := y] && m.length == 1
    ensures x.exit == 1 && y.exit == 0
  {
    x := FailingNode(10);
    y := FailingNode(2);
    m := Pair(x, y);
    assert Bad(m.nodes, Threshold(5)) == {Text("x")};
    m.CloseBad(5);
  }

  /** A fresh registry holding `x` under "x" and `y` under "y". */
  method Pair(x: ProxyNode, y: ProxyNode) returns (m: ProxyManager)
    ensures fresh(m) && m.Valid() && m.nodes == map[Text("x") := x, Text("y") := y] && m.length == 2
  {
    m := new ProxyManager();
    m.Store(Text("x"), x);
    m.Store(Text("y"), y);
  }

  /** A fresh open node whose first `n` probes all failed. */
  method FailingNode(n: nat) returns (p: ProxyNode)
    ensures fresh(p) && p.failcnt == n && p.exit == 0
  {
    p := new ProxyNode();
    p.total, p.failcnt := n, n;
  }
}
