/**
 * The dependency graph net_process of c++/rpcclient.cpp builds from the
 * getrawmempool response (rpcclient.cpp:104-109 and 218-237): one
 * CTxMemPoolEntry per transaction object, each entry listing the entries
 * that depend on it (setDeps) and counting the dependencies it still waits
 * for (reqCount), the entries whose dependencies have not been read yet
 * (txnWaitingOnDeps) and the entries without dependencies (vectorToSort).
 *
 * The source keeps the entries in a std::list and links them by pointer; the
 * model keeps them in a sequence, in the order they were read, and names an
 * entry by its index there.  The unordered multimap txnWaitingOnDeps is a map
 * from a hash to the set of entries waiting for it.
 */
module MempoolGraph {
  import opened Common
  import opened Disconnects

  /** CTxMemPoolEntry (rpcclient.cpp:16-25). */
  datatype Entry = Entry(feePerKb: nat, size: nat, reqCount: nat, hexHash: string, setDeps: set<nat>)

  /** The locals txn, hashToEntry, txnWaitingOnDeps and vectorToSort of net_process. */
  datatype Graph = Graph(txn: seq<Entry>, hashToEntry: map<string, nat>, waiting: map<string, set<nat>>, vectorToSort: seq<nat>)

  const EmptyGraph: Graph := Graph([], map[], map[], [])

  /**
   * feeIn * 1000 / sizeIn with a uint64 fee and a uint32 size
   * (rpcclient.cpp:22): the product wraps modulo 2^64 before the division.
   * None for a zero size, where the source divides by zero.
   */
  function FeePerKb(fee: nat, size: nat): (r: Option<nat>)
    requires fee < TwoTo64 && size < TwoTo32
    ensures r.None? <==> size == 0
    ensures r.Some? ==> r.value < TwoTo64
  {
    if size == 0 then None else Some(fee * 1000 % TwoTo64 / size)
  }

  /** Without wrap-around, feePerKb is the fee per 1000 bytes, rounded down. */
  lemma FeePerKbRate(fee: nat, size: nat)
    requires fee < TwoTo64 && 0 < size < TwoTo32 && fee * 1000 < TwoTo64
    ensures FeePerKb(fee, size).value * size <= fee * 1000 < (FeePerKb(fee, size).value + 1) * size
  {
    var q := fee * 1000 / size;
    assert fee * 1000 == q * size + fee * 1000 % size;
  }

  /**
   * A transaction object without a "fee" field keeps tx_fee at its initial
   * value, uint64_t(-1): the check `tx_fee < 0` (rpcclient.cpp:215) can never
   * hold, and the entry gets the feePerKb of the largest fee after the wrap.
   */
  lemma MissingFeeRate(size: nat)
    requires 0 < size < TwoTo32
    ensures FeePerKb(TwoTo64 - 1, size) == Some((TwoTo64 - 1000) / size)
  {
    assert (TwoTo64 - 1) * 1000 == (TwoTo64 - 1000) + 999 * TwoTo64;
  }

  /** Every entry the structures name is one of the entries read so far. */
  ghost predicate Pointers(g: Graph) {
    (forall h :: h in g.hashToEntry ==> g.hashToEntry[h] < |g.txn|)
  }

  /** The set a multimap holds under a key. */
  function Lookup(m: map<string, set<nat>>, d: string): set<nat> {
    if d in m then m[d] else {}
  }

  /** The entries named by those hashes in ds that are already indexed. */
  function Targets(h2e: map<string, nat>, ds: set<string>): set<nat> {
    set d | d in ds && d in h2e :: h2e[d]
  }

  /** The entries after entry k has been added to the setDeps of the entries ds resolve to. */
  function Linked(base: seq<Entry>, k: nat, h2e: map<string, nat>, ds: set<string>): (r: seq<Entry>)
    ensures |r| == |base|
  {
    seq(|base|, i requires 0 <= i < |base| =>
      if i in Targets(h2e, ds) then base[i].(setDeps := base[i].setDeps + {k}) else base[i])
  }

  /** The waiting multimap after entry k has been filed under each hash of ds not yet indexed. */
  function Waited(w: map<string, set<nat>>, k: nat, h2e: map<string, nat>, ds: set<string>): map<string, set<nat>> {
    map d | d in w.Keys + (set d' | d' in ds && d' !in h2e) :: Lookup(w, d) + (if d in ds && d !in h2e then {k} else {})
  }

  /**
   * The graph after a transaction object closes (rpcclient.cpp:218-237): the
   * new entry e, at index k, is indexed by its hash; each dependency already
   * read gets k among its setDeps and each other one files k as waiting for
   * it; k becomes a root when it has no dependency; and the entries that
   * waited for e's hash become e's dependents.
   */
  function Added(g: Graph, e: Entry, deps: set<string>): Graph {
    var k := |g.txn|;
    var h2e := g.hashToEntry[e.hexHash := k];
    var linked := Linked(g.txn + [e], k, h2e, deps);
    var waited := Waited(g.waiting, k, h2e, deps);
    var txn := linked[k := linked[k].(setDeps := linked[k].setDeps + Lookup(waited, e.hexHash))];
    Graph(txn, h2e, waited - {e.hexHash}, g.vectorToSort + (if deps == {} then [k] else []))
  }

  /** One more dependency handled: Linked grows at the entry it resolves to. */
  lemma LinkedStep(base: seq<Entry>, k: nat, h2e: map<string, nat>, ds: set<string>, d: string)
    requires d in h2e && h2e[d] < |base|
    ensures Linked(base, k, h2e, ds + {d})
      == Linked(base, k, h2e, ds)[h2e[d] := Linked(base, k, h2e, ds)[h2e[d]].(setDeps := Linked(base, k, h2e, ds)[h2e[d]].setDeps + {k})]
  {
    assert Targets(h2e, ds + {d}) == Targets(h2e, ds) + {h2e[d]};
  }

  /** One more dependency handled: Linked does not change for a hash not yet indexed. */
  lemma LinkedSkip(base: seq<Entry>, k: nat, h2e: map<string, nat>, ds: set<string>, d: string)
    requires d !in h2e
    ensures Linked(base, k, h2e, ds + {d}) == Linked(base, k, h2e, ds)
  {
    assert Targets(h2e, ds + {d}) == Targets(h2e, ds);
  }

  /** One more dependency handled: Waited files k under a hash not yet indexed. */
  lemma WaitedStep(w: map<string, set<nat>>, k: nat, h2e: map<string, nat>, ds: set<string>, d: string)
    requires d !in h2e
    ensures Waited(w, k, h2e, ds + {d}) == Waited(w, k, h2e, ds)[d := Lookup(Waited(w, k, h2e, ds), d) + {k}]
  {
    var a, c := Waited(w, k, h2e, ds + {d}), Waited(w, k, h2e, ds);
    var b := c[d := Lookup(c, d) + {k}];
    assert a.Keys == b.Keys;
    forall x | x in a.Keys
      ensures a[x] == b[x]
    {
      if x == d {
        assert Lookup(c, d) == Lookup(w, d) + (if d in ds then {k} else {});
      } else {
        assert x in c;
      }
    }
  }

  /** One more dependency handled: Waited does not change for an indexed hash. */
  lemma WaitedSkip(w: map<string, set<nat>>, k: nat, h2e: map<string, nat>, ds: set<string>, d: string)
    requires d in h2e
    ensures Waited(w, k, h2e, ds + {d}) == Waited(w, k, h2e, ds)
  {
  }

  /** Linked and Waited before any dependency has been handled. */
  lemma NothingLinked(base: seq<Entry>, w: map<string, set<nat>>, k: nat, h2e: map<string, nat>)
    ensures Linked(base, k, h2e, {}) == base
    ensures Waited(w, k, h2e, {}) == w
  {
    var a := Waited(w, k, h2e, {});
    assert a.Keys == w.Keys;
    forall x | x in a.Keys
      ensures a[x] == w[x]
    {
    }
  }

  /** One iteration of the loop over txDeps: dependency dep is handled. */
  method LinkOne(txn0: seq<Entry>, waiting0: map<string, set<nat>>, k: nat, hashToEntry: map<string, nat>,
                 done: set<string>, dep: string, txn: seq<Entry>, waiting: map<string, set<nat>>)
    returns (txn': seq<Entry>, waiting': map<string, set<nat>>)
    requires forall h :: h in hashToEntry ==> hashToEntry[h] < |txn0|
    requires txn == Linked(txn0, k, hashToEntry, done)
    requires waiting == Waited(waiting0, k, hashToEntry, done)
    ensures txn' == Linked(txn0, k, hashToEntry, done + {dep})
    ensures waiting' == Waited(waiting0, k, hashToEntry, done + {dep})
  {
    if dep in hashToEntry {
      LinkedStep(txn0, k, hashToEntry, done, dep);
      WaitedSkip(waiting0, k, hashToEntry, done, dep);
      var i := hashToEntry[dep];
      txn' := txn[i := txn[i].(setDeps := txn[i].setDeps + {k})];
      waiting' := waiting;
    } else {
      LinkedSkip(txn0, k, hashToEntry, done, dep);
      WaitedStep(waiting0, k, hashToEntry, done, dep);
      txn' := txn;
      waiting' := waiting[dep := Lookup(waiting, dep) + {k}];
    }
  }

  /**
   * The loop over txDeps (rpcclient.cpp:225-231): a dependency already indexed
   * gets entry k among its setDeps, any other one files k as waiting for it.
   */
  method LinkDependencies(txn0: seq<Entry>, waiting0: map<string, set<nat>>, k: nat, hashToEntry: map<string, nat>, deps: set<string>)
    returns (txn: seq<Entry>, waiting: map<string, set<nat>>)
    requires forall h :: h in hashToEntry ==> hashToEntry[h] < |txn0|
    ensures txn == Linked(txn0, k, hashToEntry, deps)
    ensures waiting == Waited(waiting0, k, hashToEntry, deps)
  {
    txn, waiting := txn0, waiting0;
    NothingLinked(txn0, waiting0, k, hashToEntry);
    var done: set<string> := {};
    var rest := deps;
    while rest != {}
      invariant rest <= deps && done == deps - rest
      invariant txn == Linked(txn0, k, hashToEntry, done)
      invariant waiting == Waited(waiting0, k, hashToEntry, done)
      decreases |rest|
    {
      var dep :| dep in rest;
      txn, waiting := LinkOne(txn0, waiting0, k, hashToEntry, done, dep, txn, waiting);
      assert deps - (rest - {dep}) == done + {dep};
      done := done + {dep};
      rest := rest - {dep};
    }
    assert done == deps;
  }

  /**
   * The loop over txnWaitingOnDeps.equal_range(txHash) (rpcclient.cpp:234-236):
   * the entries that waited for entry k's hash become its dependents.
   */
  method AdoptWaiting(txn0: seq<Entry>, k: nat, waitingIts: set<nat>) returns (txn: seq<Entry>)
    requires k < |txn0|
    ensures txn == txn0[k := txn0[k].(setDeps := txn0[k].setDeps + waitingIts)]
  {
    txn := txn0;
    var pending := waitingIts;
    while pending != {}
      invariant pending <= waitingIts
      invariant |txn| == |txn0| && forall i :: 0 <= i < |txn| && i != k ==> txn[i] == txn0[i]
      invariant txn[k] == txn0[k].(setDeps := txn0[k].setDeps + (waitingIts - pending))
      decreases |pending|
    {
      var w :| w in pending;
      txn := txn[k := txn[k].(setDeps := txn[k].setDeps + {w})];
      pending := pending - {w};
    }
    assert waitingIts - pending == waitingIts;
  }

  /**
   * The close of a transaction object (rpcclient.cpp:218-237): the entry is
   * created from the fee, the size (already truncated to 32 bits), the hash
   * and the number of dependencies; a hash already indexed is a duplicate.
   */
  method AddEntry(g: Graph, fee: nat, size: nat, hash: string, deps: set<string>) returns (r: Result<Graph, Reason>)
    requires fee < TwoTo64 && size < TwoTo32
    requires Pointers(g)
    ensures size == 0 ==> r == Err(ZeroSize)
    ensures size != 0 && hash in g.hashToEntry ==> r == Err(DuplicateTransaction)
    ensures size != 0 && hash !in g.hashToEntry ==>
      r == Ok(Added(g, Entry(FeePerKb(fee, size).value, size, |deps|, hash, {}), deps))
  {
    var k := |g.txn|;
    if size == 0 {
      return Err(ZeroSize);
    }
    var e := Entry(FeePerKb(fee, size).value, size, |deps|, hash, {});
    var txn := g.txn + [e];
    if hash in g.hashToEntry {
      return Err(DuplicateTransaction);
    }
    var hashToEntry := g.hashToEntry[hash := k];
    var waiting := g.waiting;
    var vectorToSort := g.vectorToSort;
    if deps == {} {
      NothingLinked(txn, waiting, k, hashToEntry);
      vectorToSort := vectorToSort + [k];
    } else {
      txn, waiting := LinkDependencies(txn, waiting, k, hashToEntry, deps);
    }
    txn := AdoptWaiting(txn, k, Lookup(waiting, hash));
    waiting := waiting - {hash};
    ghost var spec := Added(g, e, deps);
    assert hashToEntry == spec.hashToEntry;
    assert vectorToSort == spec.vectorToSort;
    assert waiting == spec.waiting;
    assert txn == spec.txn;
    return Ok(Graph(txn, hashToEntry, waiting, vectorToSort));
  }

  /**
   * The invariant the structures keep while the response is read, given the
   * hashes each entry read so far listed as dependencies (depsOf): every
   * entry is indexed by its own hash, an entry lists as dependents exactly
   * the entries that named its hash, the multimap holds exactly the
   * dependencies not read yet, the roots are the entries without
   * dependencies, and reqCount is the number of distinct dependencies.
   */
  ghost predicate GraphInv(g: Graph, depsOf: seq<set<string>>) {
    |depsOf| == |g.txn| && HashIndex(g) && Edges(g.txn, depsOf) && Pending(g, depsOf)
    && Roots(g, depsOf) && Counts(g.txn, depsOf)
  }

  ghost predicate HashIndex(g: Graph) {
    (forall h :: h in g.hashToEntry ==> g.hashToEntry[h] < |g.txn| && g.txn[g.hashToEntry[h]].hexHash == h)
    && (forall i :: 0 <= i < |g.txn| ==> g.txn[i].hexHash in g.hashToEntry && g.hashToEntry[g.txn[i].hexHash] == i)
  }

  /** Entry j listed hash h among its dependencies. */
  ghost predicate Named(depsOf: seq<set<string>>, j: int, h: string) {
    0 <= j < |depsOf| && h in depsOf[j]
  }

  ghost predicate Edges(txn: seq<Entry>, depsOf: seq<set<string>>) {
    (forall i, j :: 0 <= i < |txn| && j in txn[i].setDeps ==> Named(depsOf, j, txn[i].hexHash))
    && (forall i, j :: 0 <= i < |txn| && Named(depsOf, j, txn[i].hexHash) ==> j in txn[i].setDeps)
  }

  ghost predicate Pending(g: Graph, depsOf: seq<set<string>>) {
    (forall d :: d in g.waiting ==> d !in g.hashToEntry && g.waiting[d] != {})
    && (forall d, j :: j in Lookup(g.waiting, d) ==> Named(depsOf, j, d) && d !in g.hashToEntry)
    && (forall d, j :: Named(depsOf, j, d) && d !in g.hashToEntry ==> j in Lookup(g.waiting, d))
  }

  /** The names listed once one more entry's dependencies are appended. */
  lemma NamedAfter(depsOf: seq<set<string>>, deps: set<string>)
    ensures forall j, h :: Named(depsOf + [deps], j, h) <==> Named(depsOf, j, h) || (j == |depsOf| && h in deps)
  {
    forall j, h
      ensures Named(depsOf + [deps], j, h) <==> Named(depsOf, j, h) || (j == |depsOf| && h in deps)
    {
      if 0 <= j < |depsOf| {
        assert (depsOf + [deps])[j] == depsOf[j];
      }
    }
  }

  ghost predicate Roots(g: Graph, depsOf: seq<set<string>>)
    requires |depsOf| == |g.txn|
  {
    (forall x :: x in g.vectorToSort ==> 0 <= x < |g.txn| && depsOf[x] == {})
    && (forall x :: 0 <= x < |g.txn| && depsOf[x] == {} ==> x in g.vectorToSort)
    && (forall p, q :: 0 <= p < q < |g.vectorToSort| ==> g.vectorToSort[p] != g.vectorToSort[q])
  }

  ghost predicate Counts(txn: seq<Entry>, depsOf: seq<set<string>>)
    requires |depsOf| == |txn|
  {
    forall j :: 0 <= j < |txn| ==> txn[j].reqCount == |depsOf[j]|
  }

  /** Before the first transaction object. */
  lemma EmptyGraphInv()
    ensures GraphInv(EmptyGraph, [])
  {
  }

  /** The waiting multimap after Waited, key by key. */
  lemma WaitedAt(w: map<string, set<nat>>, k: nat, h2e: map<string, nat>, ds: set<string>, d: string)
    ensures Lookup(Waited(w, k, h2e, ds), d) == Lookup(w, d) + (if d in ds && d !in h2e then {k} else {})
  {
  }

  /** What Added does, stated without its comprehensions. */
  lemma AddedFacts(g: Graph, e: Entry, deps: set<string>)
    requires e.setDeps == {}
    ensures var k, h2e, g' := |g.txn|, g.hashToEntry[e.hexHash := |g.txn|], Added(g, e, deps);
      var targets, adopted := Targets(h2e, deps), Lookup(g.waiting, e.hexHash);
      |g'.txn| == k + 1 && g'.hashToEntry == h2e
      && g'.vectorToSort == g.vectorToSort + (if deps == {} then [k] else [])
      && (forall i :: 0 <= i < k ==> g'.txn[i] == g.txn[i].(setDeps := g.txn[i].setDeps + (if i in targets then {k} else {})))
      && g'.txn[k] == e.(setDeps := (if k in targets then {k} else {}) + adopted)
      && (forall d :: Lookup(g'.waiting, d) == if d == e.hexHash then {} else Lookup(g.waiting, d) + (if d in deps && d !in h2e then {k} else {}))
      && (forall d :: d in g'.waiting ==> d != e.hexHash && (d in g.waiting || (d in deps && d !in h2e)))
  {
    var k, h2e := |g.txn|, g.hashToEntry[e.hexHash := |g.txn|];
    WaitedAt(g.waiting, k, h2e, deps, e.hexHash);
    forall d
      ensures Lookup(Added(g, e, deps).waiting, d)
        == if d == e.hexHash then {} else Lookup(g.waiting, d) + (if d in deps && d !in h2e then {k} else {})
    {
      WaitedAt(g.waiting, k, h2e, deps, d);
    }
  }

  /** With every entry indexed by its hash, an entry is a target of ds exactly when its hash is in ds. */
  lemma TargetsByHash(txn: seq<Entry>, h2e: map<string, nat>, ds: set<string>)
    requires forall h :: h in h2e ==> h2e[h] < |txn| && txn[h2e[h]].hexHash == h
    requires forall i :: 0 <= i < |txn| ==> txn[i].hexHash in h2e && h2e[txn[i].hexHash] == i
    ensures forall i :: 0 <= i < |txn| ==> (i in Targets(h2e, ds) <==> txn[i].hexHash in ds)
  {
    forall i | 0 <= i < |txn|
      ensures i in Targets(h2e, ds) <==> txn[i].hexHash in ds
    {
      if txn[i].hexHash in ds {
        assert h2e[txn[i].hexHash] == i;
      }
    }
  }

  /** Edges after one entry, at index |txn|, has been added. */
  lemma EdgesAfter(txn: seq<Entry>, depsOf: seq<set<string>>, txn': seq<Entry>, deps: set<string>, targets: set<nat>, adopted: set<nat>)
    requires |depsOf| == |txn| && |txn'| == |txn| + 1
    requires Edges(txn, depsOf)
    requires forall i :: 0 <= i < |txn| ==>
      txn'[i].hexHash == txn[i].hexHash && txn'[i].setDeps == txn[i].setDeps + (if i in targets then {|txn|} else {})
    requires txn'[|txn|].setDeps == (if |txn| in targets then {|txn|} else {}) + adopted
    requires forall i :: 0 <= i < |txn'| ==> (i in targets <==> txn'[i].hexHash in deps)
    requires forall j :: j in adopted <==> Named(depsOf, j, txn'[|txn|].hexHash)
    ensures Edges(txn', depsOf + [deps])
  {
    var k, depsOf' := |txn|, depsOf + [deps];
    NamedAfter(depsOf, deps);
    forall i, j | 0 <= i < |txn'| && j in txn'[i].setDeps
      ensures Named(depsOf', j, txn'[i].hexHash)
    {
      if j == k {
        if i < k {
          assert k !in txn[i].setDeps;
        }
        assert i in targets;
      } else if i < k {
        assert j in txn[i].setDeps;
      } else {
        assert j in adopted;
      }
    }
    forall i, j | 0 <= i < |txn'| && Named(depsOf', j, txn'[i].hexHash)
      ensures j in txn'[i].setDeps
    {
      if i < k && j < k {
        assert Named(depsOf, j, txn[i].hexHash);
      }
    }
  }

  /** Pending after one entry, at index |g.txn|, has been added. */
  lemma PendingAfter(g: Graph, depsOf: seq<set<string>>, g': Graph, deps: set<string>, hash: string)
    requires |depsOf| == |g.txn| && |g'.txn| == |g.txn| + 1
    requires Pending(g, depsOf)
    requires g'.hashToEntry == g.hashToEntry[hash := |g.txn|]
    requires forall d :: Lookup(g'.waiting, d) == if d == hash then {} else Lookup(g.waiting, d) + (if d in deps && d !in g'.hashToEntry then {|g.txn|} else {})
    requires forall d :: d in g'.waiting ==> d != hash && (d in g.waiting || (d in deps && d !in g'.hashToEntry))
    ensures Pending(g', depsOf + [deps])
  {
    var k, depsOf' := |g.txn|, depsOf + [deps];
    forall d | d in g'.waiting
      ensures d !in g'.hashToEntry && g'.waiting[d] != {}
    {
      assert g'.waiting[d] == Lookup(g'.waiting, d);
      if d in g.waiting {
        assert g.waiting[d] == Lookup(g.waiting, d);
      }
    }
    NamedAfter(depsOf, deps);
    forall d, j | j in Lookup(g'.waiting, d)
      ensures Named(depsOf', j, d) && d !in g'.hashToEntry
    {
      assert d != hash;
    }
    forall d, j | Named(depsOf', j, d) && d !in g'.hashToEntry
      ensures j in Lookup(g'.waiting, d)
    {
      if j < k {
        assert Named(depsOf, j, d);
      }
    }
  }

  /** Roots after one entry, at index |g.txn|, has been added. */
  lemma RootsAfter(g: Graph, depsOf: seq<set<string>>, g': Graph, deps: set<string>)
    requires |depsOf| == |g.txn| && |g'.txn| == |g.txn| + 1
    requires Roots(g, depsOf)
    requires g'.vectorToSort == g.vectorToSort + (if deps == {} then [|g.txn|] else [])
    ensures Roots(g', depsOf + [deps])
  {
    var depsOf' := depsOf + [deps];
    forall x | x in g'.vectorToSort
      ensures 0 <= x < |g'.txn| && depsOf'[x] == {}
    {
      if x in g.vectorToSort {
        assert depsOf'[x] == depsOf[x];
      }
    }
    forall p, q | 0 <= p < q < |g'.vectorToSort|
      ensures g'.vectorToSort[p] != g'.vectorToSort[q]
    {
      if q == |g.vectorToSort| {
        assert g'.vectorToSort[p] in g.vectorToSort;
      }
    }
    forall x | 0 <= x < |g'.txn| && depsOf'[x] == {}
      ensures x in g'.vectorToSort
    {
      if x < |g.txn| {
        assert depsOf[x] == {};
      }
    }
  }

  /** HashIndex and Counts after one entry, at index |g.txn|, has been added. */
  lemma IndexAfter(g: Graph, depsOf: seq<set<string>>, g': Graph, e: Entry, deps: set<string>)
    requires |depsOf| == |g.txn| && |g'.txn| == |g.txn| + 1
    requires HashIndex(g) && Counts(g.txn, depsOf) && e.hexHash !in g.hashToEntry
    requires g'.hashToEntry == g.hashToEntry[e.hexHash := |g.txn|]
    requires forall i :: 0 <= i < |g.txn| ==> g'.txn[i].hexHash == g.txn[i].hexHash && g'.txn[i].reqCount == g.txn[i].reqCount
    requires g'.txn[|g.txn|].hexHash == e.hexHash && g'.txn[|g.txn|].reqCount == |deps|
    ensures HashIndex(g') && Counts(g'.txn, depsOf + [deps])
  {
    var depsOf' := depsOf + [deps];
    forall j | 0 <= j < |g'.txn|
      ensures g'.txn[j].reqCount == |depsOf'[j]|
    {
      if j < |g.txn| {
        assert depsOf'[j] == depsOf[j];
      }
    }
  }

  /** Adding a transaction object keeps the invariant, with its dependencies appended to depsOf. */
  lemma AddedKeepsInv(g: Graph, depsOf: seq<set<string>>, e: Entry, deps: set<string>)
    requires GraphInv(g, depsOf)
    requires e.hexHash !in g.hashToEntry && e.setDeps == {} && e.reqCount == |deps|
    ensures GraphInv(Added(g, e, deps), depsOf + [deps])
  {
    var k, h2e := |g.txn|, g.hashToEntry[e.hexHash := |g.txn|];
    var g' := Added(g, e, deps);
    AddedFacts(g, e, deps);
    IndexAfter(g, depsOf, g', e, deps);
    TargetsByHash(g'.txn, h2e, deps);
    EdgesAfter(g.txn, depsOf, g'.txn, deps, Targets(h2e, deps), Lookup(g.waiting, e.hexHash));
    PendingAfter(g, depsOf, g', deps, e.hexHash);
    RootsAfter(g, depsOf, g', deps);
  }

  /** Every dependent an entry lists is one of the entries. */
  ghost predicate DependentsIn(txn: seq<Entry>) {
    forall i, j :: 0 <= i < |txn| && j in txn[i].setDeps ==> j < |txn|
  }

  /** The entries that list entry j as a dependent. */
  ghost function Parents(txn: seq<Entry>, j: nat): set<nat> {
    set i | 0 <= i < |txn| && j in txn[i].setDeps
  }

  /**
   * What the selection loop (rpcclient.cpp:255-284) relies on: dependents are
   * entries, reqCount counts an entry's parents, and the roots are exactly
   * the entries with nothing to wait for, each once.
   */
  ghost predicate Ready(txn: seq<Entry>, roots: seq<nat>) {
    DependentsIn(txn)
    && (forall j :: 0 <= j < |txn| ==> txn[j].reqCount == |Parents(txn, j)|)
    && (forall x :: x in roots ==> x < |txn| && txn[x].reqCount == 0)
    && (forall x :: 0 <= x < |txn| && txn[x].reqCount == 0 ==> x in roots)
    && (forall p, q :: 0 <= p < q < |roots| ==> roots[p] != roots[q])
  }

  /** An injective map does not change the size of a set. */
  lemma {:induction false} ImageCard(s: set<string>, m: map<string, nat>)
    requires s <= m.Keys
    requires forall a, b :: a in s && b in s && m[a] == m[b] ==> a == b
    ensures |set d | d in s :: m[d]| == |s|
    decreases |s|
  {
    if s != {} {
      var x :| x in s;
      var s' := s - {x};
      ImageCard(s', m);
      assert (set d | d in s :: m[d]) == (set d | d in s' :: m[d]) + {m[x]};
      assert m[x] !in (set d | d in s' :: m[d]);
    }
  }

  /**
   * Once no entry waits for a missing dependency (rpcclient.cpp:252-253), the
   * structures are what the selection needs: each entry's reqCount is the
   * number of entries that will unlock it.
   */
  lemma ResolvedIsReady(g: Graph, depsOf: seq<set<string>>)
    requires GraphInv(g, depsOf) && g.waiting == map[]
    ensures Ready(g.txn, g.vectorToSort)
  {
    forall j | 0 <= j < |g.txn|
      ensures g.txn[j].reqCount == |Parents(g.txn, j)|
    {
      var h2e := g.hashToEntry;
      assert depsOf[j] <= h2e.Keys by {
        forall d | d in depsOf[j]
          ensures d in h2e
        {
          assert Named(depsOf, j, d);
          assert Lookup(g.waiting, d) == {};
        }
      }
      assert Parents(g.txn, j) == set d | d in depsOf[j] :: h2e[d] by {
        forall i | i in Parents(g.txn, j)
          ensures i in set d | d in depsOf[j] :: h2e[d]
        {
          assert Named(depsOf, j, g.txn[i].hexHash);
          assert h2e[g.txn[i].hexHash] == i;
        }
        forall d | d in depsOf[j]
          ensures h2e[d] in Parents(g.txn, j)
        {
          assert g.txn[h2e[d]].hexHash == d;
          assert Named(depsOf, j, g.txn[h2e[d]].hexHash);
        }
      }
      ImageCard(depsOf[j], h2e);
    }
    forall i, j | 0 <= i < |g.txn| && j in g.txn[i].setDeps
      ensures j < |g.txn|
    {
      assert Named(depsOf, j, g.txn[i].hexHash);
    }
  }
}
