/**
 * The selection at the end of RPCClient::net_process (c++/rpcclient.cpp:
 * 255-284): the entries without pending dependencies sit in a max-heap
 * ordered by feePerKb and then by hexHash; each round pops the greatest,
 * and an entry that is not oversized unlocks its dependents, whose reqCount
 * drops by one, and is appended with its 32-byte hash and its size to the
 * transactions handed to txn_for_block_func, up to 90% of the room left
 * for ordinary transactions.
 *
 * The heap is a sequence of entry indices: std::pop_heap yields an element
 * the comparator ranks above no other, and with distinct hashes the
 * comparator is a strict total order, so the element popped does not depend
 * on the heap's layout.
 */
module TxSelector {
  import opened Common
  import opened Disconnects
  import opened MempoolGraph

  /** std::string's operator<: lexicographic order of the characters. */
  predicate LexLess(a: string, b: string)
    decreases |a|
  {
    if |b| == 0 then false
    else if |a| == 0 then true
    else if a[0] != b[0] then a[0] < b[0]
    else LexLess(a[1..], b[1..])
  }

  /**
   * The order LexLess decides, by its usual description: a is a proper
   * prefix of b, or the first character where they differ is smaller in a.
   */
  lemma {:induction false} LexLessMeaning(a: string, b: string)
    ensures LexLess(a, b) <==>
      (|a| < |b| && a == b[..|a|])
      || (exists i :: 0 <= i < |a| && i < |b| && a[..i] == b[..i] && a[i] < b[i])
    decreases |a|
  {
    if |a| > 0 && |b| > 0 && a[0] == b[0] {
      LexLessMeaning(a[1..], b[1..]);
      if exists i :: 0 <= i < |a[1..]| && i < |b[1..]| && a[1..][..i] == b[1..][..i] && a[1..][i] < b[1..][i] {
        var i :| 0 <= i < |a[1..]| && i < |b[1..]| && a[1..][..i] == b[1..][..i] && a[1..][i] < b[1..][i];
        assert a[..i + 1] == [a[0]] + a[1..][..i];
        assert b[..i + 1] == [b[0]] + b[1..][..i];
      }
      if exists i :: 0 <= i < |a| && i < |b| && a[..i] == b[..i] && a[i] < b[i] {
        var i :| 0 <= i < |a| && i < |b| && a[..i] == b[..i] && a[i] < b[i];
        assert i > 0;
        assert a[1..][..i - 1] == a[..i][1..];
        assert b[1..][..i - 1] == b[..i][1..];
      }
      if |a| < |b| && a == b[..|a|] {
        assert a[1..] == b[1..][..|a| - 1];
      }
      if |a[1..]| < |b[1..]| && a[1..] == b[1..][..|a[1..]|] {
        assert a == [a[0]] + a[1..];
        assert b[..|a|] == [b[0]] + b[1..][..|a[1..]|];
      }
    } else if |a| > 0 && |b| > 0 {
      if a[0] < b[0] {
        assert a[..0] == b[..0];
      }
    }
  }

  lemma {:induction false} LexLessIrreflexive(a: string)
    ensures !LexLess(a, a)
    decreases |a|
  {
    if |a| > 0 {
      LexLessIrreflexive(a[1..]);
    }
  }

  lemma {:induction false} LexLessTransitive(a: string, b: string, c: string)
    requires LexLess(a, b) && LexLess(b, c)
    ensures LexLess(a, c)
    decreases |a|
  {
    if |a| > 0 && a[0] == b[0] && b[0] == c[0] {
      LexLessTransitive(a[1..], b[1..], c[1..]);
    }
  }

  /** Two different strings are ordered one way or the other, never both. */
  lemma {:induction false} LexLessTotal(a: string, b: string)
    ensures a != b ==> LexLess(a, b) || LexLess(b, a)
    ensures !(LexLess(a, b) && LexLess(b, a))
    decreases |a|
  {
    if |a| > 0 && |b| > 0 && a[0] == b[0] {
      LexLessTotal(a[1..], b[1..]);
      if a != b {
        assert a == [a[0]] + a[1..] && b == [b[0]] + b[1..];
      }
    }
  }

  /** The heap comparator `comp` (rpcclient.cpp:256-258). */
  predicate Less(a: Entry, b: Entry) {
    a.feePerKb < b.feePerKb || (a.feePerKb == b.feePerKb && LexLess(a.hexHash, b.hexHash))
  }

  lemma LessTransitive(a: Entry, b: Entry, c: Entry)
    requires Less(a, b) && Less(b, c)
    ensures Less(a, c)
  {
    if a.feePerKb == b.feePerKb && b.feePerKb == c.feePerKb {
      LexLessTransitive(a.hexHash, b.hexHash, c.hexHash);
    }
  }

  /**
   * The comparator is a strict total order on entries with distinct hashes:
   * the higher feePerKb ranks higher, and on equal feePerKb the larger hash.
   */
  lemma LessStrictTotal(a: Entry, b: Entry)
    ensures !Less(a, a)
    ensures !(Less(a, b) && Less(b, a))
    ensures a.hexHash != b.hexHash ==> Less(a, b) || Less(b, a)
  {
    LexLessIrreflexive(a.hexHash);
    LexLessTotal(a.hexHash, b.hexHash);
  }

  /** Every element of s indexes a sequence of length n. */
  predicate Indices(s: seq<nat>, n: nat) {
    forall p :: 0 <= p < |s| ==> s[p] < n
  }

  /** The position of the element std::pop_heap takes off the heap. */
  function MaxAt(txn: seq<Entry>, heap: seq<nat>): (m: nat)
    requires |heap| > 0 && Indices(heap, |txn|)
    ensures m < |heap|
    decreases |heap|
  {
    if |heap| == 1 then 0
    else
      assert Indices(heap[..|heap| - 1], |txn|);
      var m := MaxAt(txn, heap[..|heap| - 1]);
      if Less(txn[heap[m]], txn[heap[|heap| - 1]]) then |heap| - 1 else m
  }

  /** The element popped ranks below no element of the heap. */
  lemma {:induction false} MaxAtIsMax(txn: seq<Entry>, heap: seq<nat>)
    requires |heap| > 0 && Indices(heap, |txn|)
    ensures forall j :: 0 <= j < |heap| ==> !Less(txn[heap[MaxAt(txn, heap)]], txn[heap[j]])
    decreases |heap|
  {
    if |heap| > 1 {
      var front := heap[..|heap| - 1];
      assert Indices(front, |txn|);
      var m := MaxAt(txn, front);
      MaxAtIsMax(txn, front);
      var last := txn[heap[|heap| - 1]];
      assert MaxAt(txn, heap) == if Less(txn[heap[m]], last) then |heap| - 1 else m;
      if Less(txn[heap[m]], last) {
        forall j | 0 <= j < |heap|
          ensures !Less(last, txn[heap[j]])
        {
          if j < |heap| - 1 {
            assert heap[j] == front[j];
            if Less(last, txn[heap[j]]) {
              LessTransitive(txn[heap[m]], last, txn[heap[j]]);
            }
          } else {
            LessStrictTotal(last, last);
          }
        }
      } else {
        forall j | 0 <= j < |heap|
          ensures !Less(txn[heap[m]], txn[heap[j]])
        {
          if j < |heap| - 1 {
            assert heap[j] == front[j];
          }
        }
      }
    } else {
      LessStrictTotal(txn[heap[0]], txn[heap[0]]);
    }
  }

  /** The elements of a sequence. */
  function Elems(s: seq<nat>): set<nat> {
    set x | x in s
  }

  /** count[j] is the number of entry j's parents not selected yet. */
  ghost predicate Counted(txn: seq<Entry>, count: seq<int>, sel: set<nat>) {
    |count| == |txn| && forall j :: 0 <= j < |txn| ==> count[j] == |Parents(txn, j) - sel|
  }

  /**
   * The heap holds, once each, exactly the entries not popped yet whose
   * count has reached zero; the popped entries have reached zero.
   */
  ghost predicate Queued(txn: seq<Entry>, count: seq<int>, heap: seq<nat>, popped: set<nat>) {
    |count| == |txn| && Indices(heap, |txn|)
    && Distinct(heap)
    && (forall y :: y in heap ==> y !in popped && count[y] == 0)
    && (forall y :: 0 <= y < |txn| && y !in popped && count[y] == 0 ==> y in heap)
    && (forall y :: y in popped ==> y < |txn| && count[y] == 0)
  }

  /** Selecting one more entry x takes one off the count of x's dependents. */
  lemma SelectOne(a: set<nat>, sel: set<nat>, x: nat)
    ensures |a - (sel + {x})| == |a - sel| - (if x in a && x !in sel then 1 else 0)
  {
    if x in a && x !in sel {
      assert a - (sel + {x}) == (a - sel) - {x};
    } else {
      assert a - (sel + {x}) == a - sel;
    }
  }

  /** The counts after those of the entries in done have dropped by one. */
  function Decremented(count: seq<int>, done: set<nat>): (r: seq<int>)
    ensures |r| == |count|
  {
    seq(|count|, j requires 0 <= j < |count| => if j in done then count[j] - 1 else count[j])
  }

  lemma DecrementedStep(count: seq<int>, done: set<nat>, dep: nat)
    requires dep < |count| && dep !in done
    ensures Decremented(count, done + {dep}) == Decremented(count, done)[dep := count[dep] - 1]
  {
  }

  /** A count that drops to zero puts its entry on the heap; the heap invariant is kept. */
  lemma QueuedDecrement(txn: seq<Entry>, count0: seq<int>, heap0: seq<nat>, popped: set<nat>, dep: nat)
    requires Queued(txn, count0, heap0, popped) && dep < |txn| && count0[dep] >= 1
    ensures var count := count0[dep := count0[dep] - 1];
      Queued(txn, count, if count[dep] == 0 then heap0 + [dep] else heap0, popped)
  {
    var count := count0[dep := count0[dep] - 1];
    var heap := if count[dep] == 0 then heap0 + [dep] else heap0;
    assert dep !in popped;
    assert forall p :: 0 <= p < |heap0| ==> heap0[p] != dep;
    forall y | 0 <= y < |txn| && y !in popped && count[y] == 0
      ensures y in heap
    {
      if y != dep {
        assert count0[y] == 0;
      }
    }
  }

  /** One dependent of x handled: its count drops by one and it joins the heap at zero. */
  method UnlockOne(txn: seq<Entry>, x: nat, count0: seq<int>, count: seq<int>, heap: seq<nat>, dep: nat,
                   ghost sel: set<nat>, ghost popped: set<nat>, ghost done: set<nat>)
    returns (count': seq<int>, heap': seq<nat>)
    requires DependentsIn(txn) && x < |txn| && x !in sel
    requires dep in txn[x].setDeps && dep !in done
    requires Counted(txn, count0, sel) && count == Decremented(count0, done) && Queued(txn, count, heap, popped)
    ensures count' == Decremented(count0, done + {dep}) && Queued(txn, count', heap', popped)
  {
    assert dep < |txn|;
    assert count[dep] >= 1 by {
      assert x in Parents(txn, dep) - sel;
    }
    QueuedDecrement(txn, count, heap, popped, dep);
    DecrementedStep(count0, done, dep);
    count' := count[dep := count[dep] - 1];
    heap' := heap;
    if count'[dep] == 0 {
      heap' := heap' + [dep];
    }
  }

  /** After all of x's dependents: the counts are those for x selected. */
  lemma Unlocked(txn: seq<Entry>, x: nat, count0: seq<int>, sel: set<nat>)
    requires x < |txn| && x !in sel && Counted(txn, count0, sel)
    ensures Counted(txn, Decremented(count0, txn[x].setDeps), sel + {x})
  {
    var count := Decremented(count0, txn[x].setDeps);
    forall j | 0 <= j < |txn|
      ensures count[j] == |Parents(txn, j) - (sel + {x})|
    {
      assert x in Parents(txn, j) <==> j in txn[x].setDeps;
      SelectOne(Parents(txn, j), sel, x);
    }
  }

  /**
   * The loop over e->setDeps (rpcclient.cpp:268-272) once entry x has been
   * popped and kept: each dependent's reqCount drops by one, and a dependent
   * whose count reaches zero is pushed on the heap.  The count of a
   * dependent is at least one before the decrement, so the uint32 never
   * wraps.
   */
  method Unlock(txn: seq<Entry>, x: nat, count0: seq<int>, heap0: seq<nat>, ghost sel: set<nat>, ghost popped: set<nat>)
    returns (count: seq<int>, heap: seq<nat>)
    requires DependentsIn(txn) && x < |txn| && x !in sel
    requires Counted(txn, count0, sel) && Queued(txn, count0, heap0, popped)
    ensures Counted(txn, count, sel + {x}) && Queued(txn, count, heap, popped)
  {
    count, heap := count0, heap0;
    ghost var done: set<nat> := {};
    assert Decremented(count0, {}) == count0;
    var rest := txn[x].setDeps;
    while rest != {}
      invariant done !! rest && done + rest == txn[x].setDeps
      invariant count == Decremented(count0, done) && Queued(txn, count, heap, popped)
      decreases |rest|
    {
      var dep :| dep in rest;
      count, heap := UnlockOne(txn, x, count0, count, heap, dep, sel, popped, done);
      done := done + {dep};
      rest := rest - {dep};
    }
    Unlocked(txn, x, count0, sel);
  }

  /** Every parent of a selected entry was selected before it. */
  ghost predicate ParentsFirst(txn: seq<Entry>, order: seq<nat>) {
    forall k, i {:trigger order[k] in txn[i].setDeps} ::
      0 <= k < |order| && 0 <= i < |txn| && order[k] in txn[i].setDeps ==> i in order[..k]
  }

  /**
   * No entry was selected ahead of one the comparator ranks higher that was
   * already unlocked at the time: when all parents of order[l] had been
   * selected before order[k] was, order[k] does not rank below order[l].
   */
  ghost predicate Greedy(txn: seq<Entry>, order: seq<nat>)
    requires Indices(order, |txn|)
  {
    forall k, l {:trigger Less(txn[order[k]], txn[order[l]])} ::
      0 <= k < l < |order| && Parents(txn, order[l]) <= Elems(order[..k]) ==> !Less(txn[order[k]], txn[order[l]])
  }

  /**
   * No entry that fits and was never kept was passed over: whenever an entry
   * was kept, every fitting entry left out of the selection whose parents
   * had all been kept by then ranks below it.
   */
  ghost predicate NonePassedOver(txn: seq<Entry>, maxOversize: nat, order: seq<nat>)
    requires Indices(order, |txn|)
  {
    forall k, y {:trigger Less(txn[order[k]], txn[y])} ::
      0 <= k < |order| && 0 <= y < |txn| && y !in order && txn[y].size <= maxOversize
      && Parents(txn, y) <= Elems(order[..k])
      ==> !Less(txn[order[k]], txn[y])
  }

  /** Each selected entry ranks below no entry that was unlocked when it was picked and has not been popped yet. */
  ghost predicate Dominates(txn: seq<Entry>, order: seq<nat>, popped: set<nat>)
    requires Indices(order, |txn|)
  {
    forall k, y {:trigger Less(txn[order[k]], txn[y])} ::
      0 <= k < |order| && 0 <= y < |txn| && y !in popped && Parents(txn, y) <= Elems(order[..k])
      ==> !Less(txn[order[k]], txn[y])
  }

  /** The selection loop's state: counts, heap, popped entries and the entries kept so far, in order. */
  ghost predicate SelState(txn: seq<Entry>, maxOversize: nat, count: seq<int>, heap: seq<nat>, popped: set<nat>, order: seq<nat>) {
    Basics(txn, maxOversize, count, heap, popped, order) && Ordered(txn, order, popped)
  }

  /**
   * The counts are those of the entries kept, the heap holds the unlocked
   * entries not popped yet, every popped entry not kept was too large, and
   * the kept entries are distinct and fit.
   */
  ghost predicate Basics(txn: seq<Entry>, maxOversize: nat, count: seq<int>, heap: seq<nat>, popped: set<nat>, order: seq<nat>) {
    Counted(txn, count, Elems(order)) && Queued(txn, count, heap, popped)
    && Elems(order) <= popped
    && (forall y {:trigger y in popped} :: y in popped ==> y in order || txn[y].size > maxOversize)
    && Fits(txn, order, maxOversize) && Distinct(order)
  }

  /** The order the entries were kept in respects dependencies and the comparator. */
  ghost predicate Ordered(txn: seq<Entry>, order: seq<nat>, popped: set<nat>) {
    Indices(order, |txn|) && ParentsFirst(txn, order) && Greedy(txn, order) && Dominates(txn, order, popped)
  }

  /** A count of zero means every parent has been selected. */
  lemma NoneLeft(a: set<nat>, sel: set<nat>)
    requires |a - sel| == 0
    ensures a <= sel
  {
    assert a - sel == {};
    forall y | y in a
      ensures y in sel
    {
      assert y !in a - sel;
    }
  }

  /** No element occurs twice. */
  predicate Distinct(s: seq<nat>) {
    forall p, q :: 0 <= p < q < |s| ==> s[p] != s[q]
  }

  lemma DistinctAppend(s: seq<nat>, x: nat)
    requires Distinct(s) && x !in s
    ensures Distinct(s + [x])
  {
  }

  /** Every entry of order fits within maxOversize. */
  ghost predicate Fits(txn: seq<Entry>, order: seq<nat>, maxOversize: nat) {
    Indices(order, |txn|) && forall k :: 0 <= k < |order| ==> txn[order[k]].size <= maxOversize
  }

  lemma SizesAppend(txn: seq<Entry>, order: seq<nat>, x: nat, maxOversize: nat)
    requires Fits(txn, order, maxOversize) && x < |txn| && txn[x].size <= maxOversize
    ensures Fits(txn, order + [x], maxOversize)
  {
    var order' := order + [x];
    forall k | 0 <= k < |order'|
      ensures order'[k] < |txn| && txn[order'[k]].size <= maxOversize
    {
      if k < |order| {
        assert order'[k] == order[k];
      }
    }
  }

  /** Removing the element at m from a sequence of distinct elements removes just that value. */
  lemma RemoveAt(s: seq<nat>, m: nat)
    requires Distinct(s) && m < |s|
    ensures Distinct(s[..m] + s[m + 1..])
    ensures forall y :: y in s[..m] + s[m + 1..] <==> y in s && y != s[m]
  {
    var s' := s[..m] + s[m + 1..];
    assert forall p :: 0 <= p < |s'| ==> s'[p] == s[if p < m then p else p + 1];
    forall y | y in s && y != s[m]
      ensures y in s'
    {
      var p :| 0 <= p < |s| && s[p] == y;
      assert s'[if p < m then p else p - 1] == y;
    }
  }

  /** Taking the element at m off a heap of distinct elements. */
  lemma QueuedPop(txn: seq<Entry>, count: seq<int>, heap: seq<nat>, popped: set<nat>, m: nat)
    requires Queued(txn, count, heap, popped) && m < |heap|
    ensures Queued(txn, count, heap[..m] + heap[m + 1..], popped + {heap[m]})
  {
    var x, heap' := heap[m], heap[..m] + heap[m + 1..];
    RemoveAt(heap, m);
    assert forall p :: 0 <= p < |heap'| ==> heap'[p] in heap && heap'[p] != x;
  }

  /** An entry appended after all its parents keeps ParentsFirst. */
  lemma ParentsFirstAppend(txn: seq<Entry>, order: seq<nat>, x: nat)
    requires ParentsFirst(txn, order) && Parents(txn, x) <= Elems(order)
    ensures ParentsFirst(txn, order + [x])
  {
    var order' := order + [x];
    forall k, i | 0 <= k < |order'| && 0 <= i < |txn| && order'[k] in txn[i].setDeps
      ensures i in order'[..k]
    {
      assert order'[..k] == if k < |order| then order[..k] else order;
      if k < |order| {
        assert order'[k] == order[k];
      } else {
        assert i in Parents(txn, x);
      }
    }
  }

  /** An entry not popped before, appended, keeps Greedy. */
  lemma GreedyAppend(txn: seq<Entry>, order: seq<nat>, popped: set<nat>, x: nat)
    requires Indices(order, |txn|) && x < |txn| && x !in popped
    requires Greedy(txn, order) && Dominates(txn, order, popped)
    ensures Indices(order + [x], |txn|) && Greedy(txn, order + [x])
  {
    var order' := order + [x];
    forall k, l | 0 <= k < l < |order'| && Parents(txn, order'[l]) <= Elems(order'[..k])
      ensures !Less(txn[order'[k]], txn[order'[l]])
    {
      assert order'[..k] == order[..k];
      assert order'[k] == order[k];
      if l < |order| {
        assert order'[l] == order[l];
      }
    }
  }

  /** The entry popped ranks below none still waiting that was unlocked when it was picked. */
  lemma DominatesAppend(txn: seq<Entry>, count: seq<int>, heap: seq<nat>, popped: set<nat>, order: seq<nat>, m: nat)
    requires Indices(order, |txn|) && m < |heap|
    requires Counted(txn, count, Elems(order)) && Queued(txn, count, heap, popped)
    requires forall j :: 0 <= j < |heap| ==> !Less(txn[heap[m]], txn[heap[j]])
    requires Dominates(txn, order, popped)
    ensures Indices(order + [heap[m]], |txn|) && Dominates(txn, order + [heap[m]], popped + {heap[m]})
  {
    var x, order' := heap[m], order + [heap[m]];
    forall k, y | 0 <= k < |order'| && 0 <= y < |txn| && y !in popped + {x} && Parents(txn, y) <= Elems(order'[..k])
      ensures !Less(txn[order'[k]], txn[y])
    {
      if k < |order| {
        assert order'[..k] == order[..k];
        assert order'[k] == order[k];
      } else {
        assert order'[..k] == order;
        assert count[y] == 0 by {
          assert Parents(txn, y) - Elems(order) == {};
        }
        var p :| 0 <= p < |heap| && heap[p] == y;
      }
    }
  }

  /** The state after the popped entry at m was too large and dropped. */
  lemma DroppedState(txn: seq<Entry>, maxOversize: nat, count: seq<int>, heap: seq<nat>, popped: set<nat>, order: seq<nat>, m: nat)
    requires SelState(txn, maxOversize, count, heap, popped, order) && m < |heap|
    requires txn[heap[m]].size > maxOversize
    ensures SelState(txn, maxOversize, count, heap[..m] + heap[m + 1..], popped + {heap[m]}, order)
  {
    var x, heap' := heap[m], heap[..m] + heap[m + 1..];
    assert x in heap;
    QueuedPop(txn, count, heap, popped, m);
    assert Basics(txn, maxOversize, count, heap', popped + {x}, order) by {
      forall y | y in popped + {x}
        ensures y in order || txn[y].size > maxOversize
      {
        if y != x {
          assert y in popped;
        }
      }
    }
    DominatesShrink(txn, order, popped, x);
  }

  /** Popping one more entry keeps Dominates: it speaks only of entries not popped. */
  lemma DominatesShrink(txn: seq<Entry>, order: seq<nat>, popped: set<nat>, x: nat)
    requires Ordered(txn, order, popped)
    ensures Ordered(txn, order, popped + {x})
  {
  }

  /** Basics after the popped entry x was kept and its dependents unlocked. */
  lemma KeptBasics(txn: seq<Entry>, maxOversize: nat, count': seq<int>, heap': seq<nat>, popped: set<nat>, order: seq<nat>, x: nat)
    requires Elems(order) <= popped && Fits(txn, order, maxOversize) && Distinct(order)
    requires forall y {:trigger y in popped} :: y in popped ==> y < |txn|
    requires forall y {:trigger y in popped} :: y in popped ==> y in order || txn[y].size > maxOversize
    requires x < |txn| && x !in popped && txn[x].size <= maxOversize
    requires Counted(txn, count', Elems(order) + {x}) && Queued(txn, count', heap', popped + {x})
    ensures Basics(txn, maxOversize, count', heap', popped + {x}, order + [x])
  {
    var order', popped' := order + [x], popped + {x};
    assert Elems(order') == Elems(order) + {x};
    forall y | y in popped'
      ensures y in order' || txn[y].size > maxOversize
    {
      if y in popped {
        assert y in order ==> y in order';
      }
    }
    DistinctAppend(order, x);
    SizesAppend(txn, order, x, maxOversize);
  }

  /** Ordered after the entry at m, the greatest on the heap, was kept. */
  lemma KeptOrdered(txn: seq<Entry>, count: seq<int>, heap: seq<nat>, popped: set<nat>, order: seq<nat>, m: nat)
    requires Ordered(txn, order, popped) && m < |heap|
    requires Counted(txn, count, Elems(order)) && Queued(txn, count, heap, popped)
    requires forall j :: 0 <= j < |heap| ==> !Less(txn[heap[m]], txn[heap[j]])
    ensures Ordered(txn, order + [heap[m]], popped + {heap[m]})
  {
    var x := heap[m];
    assert x in heap && x !in popped && x < |txn|;
    assert Parents(txn, x) <= Elems(order) by {
      NoneLeft(Parents(txn, x), Elems(order));
    }
    ParentsFirstAppend(txn, order, x);
    GreedyAppend(txn, order, popped, x);
    DominatesAppend(txn, count, heap, popped, order, m);
  }

  /** The state after the popped entry at m was kept and its dependents unlocked. */
  lemma KeptState(txn: seq<Entry>, maxOversize: nat, count: seq<int>, heap: seq<nat>, popped: set<nat>, order: seq<nat>, m: nat,
                  count': seq<int>, heap': seq<nat>)
    requires SelState(txn, maxOversize, count, heap, popped, order) && m < |heap|
    requires forall j :: 0 <= j < |heap| ==> !Less(txn[heap[m]], txn[heap[j]])
    requires txn[heap[m]].size <= maxOversize
    requires Counted(txn, count', Elems(order) + {heap[m]}) && Queued(txn, count', heap', popped + {heap[m]})
    ensures SelState(txn, maxOversize, count', heap', popped + {heap[m]}, order + [heap[m]])
  {
    assert heap[m] in heap;
    KeptBasics(txn, maxOversize, count', heap', popped, order, heap[m]);
    KeptOrdered(txn, count, heap, popped, order, m);
  }

  /**
   * One round of the selection loop (rpcclient.cpp:263-283): the greatest
   * entry x is popped; if its size is within maxOversize it is kept and
   * unlocks its dependents, otherwise it is dropped and they stay locked.
   */
  method Round(txn: seq<Entry>, maxOversize: nat, count: seq<int>, heap: seq<nat>, ghost popped: set<nat>, ghost order: seq<nat>)
    returns (count': seq<int>, heap': seq<nat>, ghost popped': set<nat>, x: nat, kept: bool)
    requires DependentsIn(txn) && |heap| > 0
    requires SelState(txn, maxOversize, count, heap, popped, order)
    ensures x < |txn| && x !in popped && popped' == popped + {x}
    ensures kept <==> txn[x].size <= maxOversize
    ensures SelState(txn, maxOversize, count', heap', popped', if kept then order + [x] else order)
  {
    var m := MaxAt(txn, heap);
    MaxAtIsMax(txn, heap);
    x := heap[m];
    var rest := heap[..m] + heap[m + 1..];
    popped' := popped + {x};
    assert x in heap;
    kept := txn[x].size <= maxOversize;
    if !kept {
      DroppedState(txn, maxOversize, count, heap, popped, order, m);
      count', heap' := count, rest;
      return;
    }
    QueuedPop(txn, count, heap, popped, m);
    assert x !in Elems(order);
    count', heap' := Unlock(txn, x, count, rest, Elems(order), popped');
    KeptState(txn, maxOversize, count, heap, popped, order, m, count', heap');
  }

  /** hex_str_to_reverse_vector succeeds on the hash and yields 32 bytes. */
  predicate GoodHash(decodeHex: string -> Option<seq<byte>>, h: string) {
    decodeHex(h).Some? && |decodeHex(h).value| == 32
  }

  /** How many transactions the selection takes at most: 90% of the room left beside the oversized ones. */
  function SelectionBound(maxTxnInFas: nat, maxExtra: nat): nat
    requires maxExtra <= maxTxnInFas
  {
    9 * (maxTxnInFas - maxExtra) / 10
  }

  /** The (hash, size) pairs handed on for the entries kept, in order. */
  ghost predicate PairsOf(txn: seq<Entry>, decodeHex: string -> Option<seq<byte>>, order: seq<nat>, pairs: seq<(seq<byte>, nat)>)
    requires Indices(order, |txn|)
  {
    |pairs| == |order|
    && forall k :: 0 <= k < |order| ==>
         GoodHash(decodeHex, txn[order[k]].hexHash)
         && pairs[k].0 == decodeHex(txn[order[k]].hexHash).value && pairs[k].1 == txn[order[k]].size
  }

  /** The selection ended on a kept entry whose hash is bad, all earlier hashes being good. */
  predicate BadHashLast(txn: seq<Entry>, decodeHex: string -> Option<seq<byte>>, order: seq<nat>)
    requires Indices(order, |txn|)
  {
    |order| > 0 && !GoodHash(decodeHex, txn[order[|order| - 1]].hexHash)
    && forall k :: 0 <= k < |order| - 1 ==> GoodHash(decodeHex, txn[order[k]].hexHash)
  }

  /**
   * Nothing more can be selected: every entry not kept is oversized or
   * still waits for a parent that was not kept.
   */
  ghost predicate Exhausted(txn: seq<Entry>, maxOversize: nat, order: seq<nat>) {
    forall y :: 0 <= y < |txn| && y !in order ==> txn[y].size > maxOversize || Parents(txn, y) - Elems(order) != {}
  }

  /**
   * A selection the loop may make from txn: the entries kept in order and
   * the pairs handed on for them, with everything SelectTransactions
   * promises when it succeeds.
   */
  ghost predicate Selection(txn: seq<Entry>, maxTxnInFas: nat, maxExtra: nat, maxOversize: nat,
                            decodeHex: string -> Option<seq<byte>>, order: seq<nat>, pairs: seq<(seq<byte>, nat)>)
    requires maxExtra <= maxTxnInFas
  {
    |order| <= SelectionBound(maxTxnInFas, maxExtra)
    && Indices(order, |txn|) && Distinct(order) && Fits(txn, order, maxOversize)
    && ParentsFirst(txn, order) && Greedy(txn, order) && NonePassedOver(txn, maxOversize, order)
    && PairsOf(txn, decodeHex, order, pairs)
    && (|order| < SelectionBound(maxTxnInFas, maxExtra) ==> Exhausted(txn, maxOversize, order))
  }

  /**
   * The selection loop (rpcclient.cpp:255-284) over the entries resolved by
   * the scan, with roots the entries without dependencies.  order is the
   * sequence of entries kept, in the order they were popped: it is no
   * longer than the bound, has no repeats and no oversized entry, puts
   * every entry after its parents, and never keeps an entry ahead of a
   * higher-ranked one that was already unlocked.  The pairs are the entries'
   * decoded hashes and sizes; a hash that does not decode to 32 bytes ends
   * the connection.  Stopping short of the bound means nothing else could
   * be selected.
   */
  method SelectTransactions(txn: seq<Entry>, roots: seq<nat>, maxTxnInFas: nat, maxExtra: nat, maxOversize: nat,
                            decodeHex: string -> Option<seq<byte>>)
    returns (r: Result<seq<(seq<byte>, nat)>, Reason>, ghost order: seq<nat>)
    requires Ready(txn, roots) && maxExtra <= maxTxnInFas
    ensures |order| <= SelectionBound(maxTxnInFas, maxExtra)
    ensures Indices(order, |txn|) && Distinct(order) && Fits(txn, order, maxOversize)
    ensures ParentsFirst(txn, order) && Greedy(txn, order) && NonePassedOver(txn, maxOversize, order)
    ensures r.Ok? ==> PairsOf(txn, decodeHex, order, r.value)
    ensures r.Ok? && |order| < SelectionBound(maxTxnInFas, maxExtra) ==> Exhausted(txn, maxOversize, order)
    ensures r.Err? ==> r.error == BadHash && BadHashLast(txn, decodeHex, order)
  {
    var bound := SelectionBound(maxTxnInFas, maxExtra);
    var count := seq(|txn|, j requires 0 <= j < |txn| => txn[j].reqCount as int);
    var heap := roots;
    var selected: seq<(seq<byte>, nat)> := [];
    ghost var popped: set<nat> := {};
    order := [];
    InitialState(txn, roots, maxOversize, count);
    while |selected| < bound && |heap| > 0
      invariant SelState(txn, maxOversize, count, heap, popped, order)
      invariant |order| <= bound && PairsOf(txn, decodeHex, order, selected)
      decreases |txn| - |popped|
    {
      var bad;
      count, heap, popped, order, selected, bad := Step(txn, maxOversize, decodeHex, count, heap, popped, order, selected);
      if bad {
        SelectionFacts(txn, maxOversize, count, heap, popped, order);
        return Err(BadHash), order;
      }
    }
    SelectionFacts(txn, maxOversize, count, heap, popped, order);
    r := Ok(selected);
  }

  /**
   * One pass of the selection loop's body: Round, then the kept entry's
   * hash is decoded and its pair appended (rpcclient.cpp:273-276); bad is
   * set when the hash does not decode to 32 bytes.
   */
  method Step(txn: seq<Entry>, maxOversize: nat, decodeHex: string -> Option<seq<byte>>,
              count: seq<int>, heap: seq<nat>, ghost popped: set<nat>, ghost order: seq<nat>, selected: seq<(seq<byte>, nat)>)
    returns (count': seq<int>, heap': seq<nat>, ghost popped': set<nat>, ghost order': seq<nat>, selected': seq<(seq<byte>, nat)>,
             bad: bool)
    requires DependentsIn(txn) && |heap| > 0
    requires SelState(txn, maxOversize, count, heap, popped, order) && PairsOf(txn, decodeHex, order, selected)
    ensures SelState(txn, maxOversize, count', heap', popped', order')
    ensures |popped| < |popped'| <= |txn| && |order'| <= |order| + 1
    ensures !bad ==> PairsOf(txn, decodeHex, order', selected')
    ensures bad ==> Indices(order', |txn|) && BadHashLast(txn, decodeHex, order')
  {
    var x, kept;
    count', heap', popped', x, kept := Round(txn, maxOversize, count, heap, popped, order);
    order' := if kept then order + [x] else order;
    selected', bad := selected, false;
    if kept {
      if !GoodHash(decodeHex, txn[x].hexHash) {
        BadLast(txn, decodeHex, order, selected, x);
        bad := true;
      } else {
        var pair := (decodeHex(txn[x].hexHash).value, txn[x].size);
        PairsAppend(txn, decodeHex, order, selected, x, pair);
        selected' := selected + [pair];
      }
    }
    assert |popped'| == |popped| + 1 by {
      CardAddOne(popped, x);
    }
    PoppedBound(txn, maxOversize, count', heap', popped', order');
  }

  /** A kept entry whose hash is bad ends a selection whose earlier hashes were good. */
  lemma BadLast(txn: seq<Entry>, decodeHex: string -> Option<seq<byte>>, order: seq<nat>, pairs: seq<(seq<byte>, nat)>, x: nat)
    requires Indices(order, |txn|) && PairsOf(txn, decodeHex, order, pairs)
    requires x < |txn| && !GoodHash(decodeHex, txn[x].hexHash)
    ensures Indices(order + [x], |txn|) && BadHashLast(txn, decodeHex, order + [x])
  {
    var order' := order + [x];
    forall k | 0 <= k < |order'| - 1
      ensures GoodHash(decodeHex, txn[order'[k]].hexHash)
    {
      assert order'[k] == order[k];
    }
  }

  lemma CardAddOne(s: set<nat>, x: nat)
    requires x !in s
    ensures |s + {x}| == |s| + 1
  {
  }

  /** Appending a kept entry with a good hash and its pair keeps PairsOf. */
  lemma PairsAppend(txn: seq<Entry>, decodeHex: string -> Option<seq<byte>>, order: seq<nat>, pairs: seq<(seq<byte>, nat)>,
                    x: nat, pair: (seq<byte>, nat))
    requires Indices(order, |txn|) && PairsOf(txn, decodeHex, order, pairs)
    requires x < |txn| && GoodHash(decodeHex, txn[x].hexHash)
    requires pair.0 == decodeHex(txn[x].hexHash).value && pair.1 == txn[x].size
    ensures Indices(order + [x], |txn|) && PairsOf(txn, decodeHex, order + [x], pairs + [pair])
  {
    var order', pairs' := order + [x], pairs + [pair];
    forall k | 0 <= k < |order'|
      ensures order'[k] < |txn|
    {
    }
    forall k | 0 <= k < |order'|
      ensures GoodHash(decodeHex, txn[order'[k]].hexHash)
      ensures pairs'[k].0 == decodeHex(txn[order'[k]].hexHash).value && pairs'[k].1 == txn[order'[k]].size
    {
      if k < |order| {
        assert order'[k] == order[k] && pairs'[k] == pairs[k];
      }
    }
  }

  /** No more entries are popped than there are. */
  lemma PoppedBound(txn: seq<Entry>, maxOversize: nat, count: seq<int>, heap: seq<nat>, popped: set<nat>, order: seq<nat>)
    requires SelState(txn, maxOversize, count, heap, popped, order)
    ensures |popped| <= |txn|
  {
    BoundedCard(popped, |txn|);
  }

  /** A set of naturals below n has at most n elements. */
  lemma {:induction false} BoundedCard(s: set<nat>, n: nat)
    requires forall y :: y in s ==> y < n
    ensures |s| <= n
    decreases n
  {
    if n > 0 {
      BoundedCard(s - {n - 1}, n - 1);
    }
  }

  /** The loop starts from the reqCounts, the roots on the heap and nothing popped. */
  lemma InitialState(txn: seq<Entry>, roots: seq<nat>, maxOversize: nat, count: seq<int>)
    requires Ready(txn, roots)
    requires |count| == |txn| && forall j :: 0 <= j < |txn| ==> count[j] == txn[j].reqCount
    ensures SelState(txn, maxOversize, count, roots, {}, [])
  {
    var none: seq<nat> := [];
    assert Elems(none) == {};
    assert Counted(txn, count, Elems(none)) by {
      forall j | 0 <= j < |txn|
        ensures count[j] == |Parents(txn, j) - {}|
      {
        assert Parents(txn, j) - {} == Parents(txn, j);
      }
    }
    assert Queued(txn, count, roots, {}) by {
      forall p | 0 <= p < |roots|
        ensures roots[p] < |txn|
      {
        assert roots[p] in roots;
      }
    }
  }

  /** What the loop's state says about the entries kept. */
  lemma SelectionFacts(txn: seq<Entry>, maxOversize: nat, count: seq<int>, heap: seq<nat>, popped: set<nat>, order: seq<nat>)
    requires SelState(txn, maxOversize, count, heap, popped, order)
    ensures Indices(order, |txn|) && Distinct(order) && Fits(txn, order, maxOversize)
    ensures ParentsFirst(txn, order) && Greedy(txn, order) && NonePassedOver(txn, maxOversize, order)
    ensures |heap| == 0 ==> Exhausted(txn, maxOversize, order)
  {
    forall k, y | 0 <= k < |order| && 0 <= y < |txn| && y !in order && txn[y].size <= maxOversize
                  && Parents(txn, y) <= Elems(order[..k])
      ensures !Less(txn[order[k]], txn[y])
    {
      assert y !in popped;
    }
    if |heap| == 0 {
      Exhaust(txn, maxOversize, count, popped, order);
    }
  }

  /** An empty heap means every entry not kept was dropped or still waits for a parent. */
  lemma Exhaust(txn: seq<Entry>, maxOversize: nat, count: seq<int>, popped: set<nat>, order: seq<nat>)
    requires SelState(txn, maxOversize, count, [], popped, order)
    ensures Exhausted(txn, maxOversize, order)
  {
    forall y | 0 <= y < |txn| && y !in order
      ensures txn[y].size > maxOversize || Parents(txn, y) - Elems(order) != {}
    {
      if y !in popped {
        assert count[y] != 0 by {
          assert y !in [];
        }
      }
    }
  }

  /**
   * An oversized entry is never kept, so none of its dependents is either:
   * dropping it does not unlock them (rpcclient.cpp:267-272).
   */
  lemma DroppedBlocksDependents(txn: seq<Entry>, maxOversize: nat, order: seq<nat>, i: nat, y: nat)
    requires Indices(order, |txn|) && ParentsFirst(txn, order) && Fits(txn, order, maxOversize)
    requires i < |txn| && txn[i].size > maxOversize && y in txn[i].setDeps
    ensures y !in order
  {
    forall k | 0 <= k < |order|
      ensures order[k] != y
    {
      assert i !in order[..k] by {
        forall p | 0 <= p < k
          ensures order[..k][p] != i
        {
          assert txn[order[p]].size <= maxOversize;
        }
      }
    }
  }
}
