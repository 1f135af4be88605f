/** FlaggedArraySet (RelayNetworkClient.py): a bounded, insertion-ordered set of
    transactions, each carrying a flag, whose members are addressed by a dense
    relative index 0..len-1 that survives eviction of the oldest member and removal
    from the middle. */
module FlaggedArraySets {
  import opened Common

  type Tx = seq<byte>

  /** A key of the backing OrderedDict: the element and its flag. */
  type Key = (Tx, bool)

  // ---------------------------------------------------------------------------
  // The abstract view: the keys in insertion order; a key's relative index is its
  // position.

  /** No element occurs twice, whatever its flag. */
  ghost predicate Distinct(c: seq<Key>)
  {
    forall i, j :: 0 <= i < j < |c| ==> c[i].0 != c[j].0
  }

  /** Number of flagged keys. */
  function FlaggedCount(c: seq<Key>): (n: nat)
    ensures n <= |c|
  {
    if c == [] then 0 else FlaggedCount(c[..|c| - 1]) + (if c[|c| - 1].1 then 1 else 0)
  }

  /** Relative index of element e under either flag (get_index), or None. */
  function IndexOf(c: seq<Key>, e: Tx): (r: Option<nat>)
    ensures r.Some? ==> r.value < |c| && c[r.value].0 == e
    ensures r.Some? ==> forall k :: 0 <= k < r.value ==> c[k].0 != e
    ensures r.None? <==> forall k :: 0 <= k < |c| ==> c[k].0 != e
  {
    if c == [] then None
    else if c[0].0 == e then Some(0)
    else match IndexOf(c[1..], e)
      case None => None
      case Some(k) => Some(k + 1)
  }

  /** The contents after remove(e): e's key is deleted, if present. */
  function Without(c: seq<Key>, e: Tx): (r: seq<Key>)
    ensures IndexOf(c, e).None? ==> r == c
    ensures IndexOf(c, e).Some? ==> |r| == |c| - 1
    ensures forall k :: 0 <= k < |r| ==> r[k] in c
  {
    match IndexOf(c, e)
    case None => c
    case Some(p) => c[..p] + c[p + 1..]
  }

  /** The contents after add(e, flag): nothing if e is present under either flag;
      otherwise the oldest keys are evicted until fewer than maxSize remain, and
      (e, flag) is appended. */
  function AfterAdd(c: seq<Key>, maxSize: nat, e: Tx, flag: bool): (r: seq<Key>)
    requires maxSize >= 1
    ensures IndexOf(r, e).Some?
    ensures IndexOf(c, e).Some? ==> r == c
    ensures IndexOf(c, e).None? ==> |r| <= maxSize && r[|r| - 1] == (e, flag)
  {
    if IndexOf(c, e).Some? then c
    else
      var kept := if |c| >= maxSize then c[|c| - (maxSize - 1)..] else c;
      assert (kept + [(e, flag)])[|kept|].0 == e;
      kept + [(e, flag)]
  }

  lemma {:induction false} FlaggedCountConcat(a: seq<Key>, b: seq<Key>)
    ensures FlaggedCount(a + b) == FlaggedCount(a) + FlaggedCount(b)
    decreases |b|
  {
    if b == [] {
      assert a + b == a;
    } else {
      assert (a + b)[..|a + b| - 1] == a + b[..|b| - 1];
      FlaggedCountConcat(a, b[..|b| - 1]);
    }
  }

  lemma FlaggedCountSingle(k: Key)
    ensures FlaggedCount([k]) == if k.1 then 1 else 0
  {
    assert [k][..0] == [];
  }

  /** Dense indexes: in a set without repeated elements the element at position i
      has relative index i, so get_by_index(get_index(e)) == e and
      get_index(get_by_index(i)) == i. */
  lemma IndexOfPosition(c: seq<Key>, i: nat)
    requires Distinct(c) && i < |c|
    ensures IndexOf(c, c[i].0) == Some(i)
  {
    var e := c[i].0;
    var r := IndexOf(c, e);
    assert r.Some? by {
      assert c[i].0 == e;
    }
    var q := r.value;
    assert c[q].0 == e;
    assert q <= i;
    assert q >= i;
  }

  /** add leaves the set unchanged when the element is present under either flag. */
  lemma AddPresentIsNoOp(c: seq<Key>, maxSize: nat, e: Tx, flag: bool)
    requires maxSize >= 1
    requires exists k :: 0 <= k < |c| && c[k].0 == e
    ensures AfterAdd(c, maxSize, e, flag) == c
  {
  }

  /** Appending an absent element to a set without repeated elements keeps it so. */
  lemma AppendDistinct(c: seq<Key>, key: Key)
    requires Distinct(c) && IndexOf(c, key.0).None?
    ensures Distinct(c + [key])
  {
    var d := c + [key];
    forall i, j | 0 <= i < j < |d| ensures d[i].0 != d[j].0 {
      assert d[i] == c[i];
    }
  }

  /** Dropping the oldest keys keeps the rest distinct and adds no element. */
  lemma SuffixDistinct(c: seq<Key>, from: nat, e: Tx)
    requires Distinct(c) && from <= |c| && IndexOf(c, e).None?
    ensures Distinct(c[from..]) && IndexOf(c[from..], e).None?
  {
    var kept := c[from..];
    forall k | 0 <= k < |kept| ensures kept[k].0 != e {
      assert kept[k] == c[k + from];
    }
    forall i, j | 0 <= i < j < |kept| ensures kept[i].0 != kept[j].0 {
      assert kept[i] == c[i + from] && kept[j] == c[j + from];
    }
  }

  /** add keeps the set within its bound, keeps elements distinct, puts the new
      element last and counts its flag. */
  lemma {:induction false} AddProperties(c: seq<Key>, maxSize: nat, e: Tx, flag: bool)
    requires maxSize >= 1 && |c| <= maxSize && Distinct(c)
    requires IndexOf(c, e).None?
    ensures var d := AfterAdd(c, maxSize, e, flag);
      && |d| <= maxSize
      && Distinct(d)
      && d[|d| - 1] == (e, flag)
      && IndexOf(d, e) == Some(|d| - 1)
      && (|c| < maxSize ==> FlaggedCount(d) == FlaggedCount(c) + (if flag then 1 else 0))
  {
    var from := if |c| >= maxSize then |c| - (maxSize - 1) else 0;
    var kept := c[from..];
    var d := AfterAdd(c, maxSize, e, flag);
    assert d == kept + [(e, flag)] by {
      assert c[0..] == c;
    }
    assert Distinct(kept) && IndexOf(kept, e).None? by {
      SuffixDistinct(c, from, e);
    }
    assert Distinct(d) by {
      AppendDistinct(kept, (e, flag));
    }
    assert IndexOf(d, e) == Some(|d| - 1) by {
      IndexOfPosition(d, |d| - 1);
    }
    if |c| < maxSize {
      assert kept == c;
      FlaggedCountConcat(c, [(e, flag)]);
      FlaggedCountSingle((e, flag));
    }
  }

  /** add(e, flag) as written, from contents c whose flag_count is right: the
      flagged branch increments `flalg_count`, an attribute that does not exist,
      so it raises AttributeError after the key, its reverse entry and total are
      stored, and flag_count misses the new flag.  The result is the contents,
      flag_count and whether AttributeError was raised. */
  function AddAsWritten(c: seq<Key>, maxSize: nat, e: Tx, flag: bool): (r: (seq<Key>, int, bool))
    requires maxSize >= 1
  {
    if IndexOf(c, e).Some? then (c, FlaggedCount(c), false)
    else
      var d := AfterAdd(c, maxSize, e, flag);
      (d, FlaggedCount(d) - (if flag then 1 else 0), flag)
  }

  /** Adding a new flagged element as written raises after storing it, and
      flag_count no longer counts the flagged keys. */
  lemma AddAsWrittenLosesFlag(c: seq<Key>, maxSize: nat, e: Tx)
    requires maxSize >= 1 && |c| < maxSize && Distinct(c) && IndexOf(c, e).None?
    ensures AddAsWritten(c, maxSize, e, true).2
    ensures AddAsWritten(c, maxSize, e, true).0 == c + [(e, true)]
    ensures AddAsWritten(c, maxSize, e, true).1 == FlaggedCount(c)
    ensures AddAsWritten(c, maxSize, e, true).1 != FlaggedCount(AddAsWritten(c, maxSize, e, true).0)
  {
    var d := c + [(e, true)];
    assert AfterAdd(c, maxSize, e, true) == d;
    assert FlaggedCount(d) == FlaggedCount(c) + 1 by {
      FlaggedCountConcat(c, [(e, true)]);
      FlaggedCountSingle((e, true));
    }
  }

  /** remove(e) deletes e's key, leaves the other elements distinct, and after it
      e is absent. */
  lemma RemoveDeletes(c: seq<Key>, e: Tx)
    requires Distinct(c) && IndexOf(c, e).Some?
    ensures |Without(c, e)| == |c| - 1
    ensures Distinct(Without(c, e))
    ensures IndexOf(Without(c, e), e).None?
  {
    var p := IndexOf(c, e).value;
    var d := c[..p] + c[p + 1..];
    assert Without(c, e) == d;
    DeleteAt(c, p);
    forall k | 0 <= k < |d| ensures d[k].0 != e {
      var ck := if k < p then k else k + 1;
      assert d[k] == c[ck];
    }
  }

  /** remove(e) shifts only the newer elements: an element older than e keeps its
      relative index, a newer one moves down by one, an absent one stays absent. */
  lemma RemoveShiftsNewer(c: seq<Key>, e: Tx, x: Tx)
    requires Distinct(c) && IndexOf(c, e).Some? && x != e
    ensures IndexOf(Without(c, e), x) ==
      (match IndexOf(c, x)
       case None => None
       case Some(q) => Some(if q < IndexOf(c, e).value then q else q - 1))
  {
    var p := IndexOf(c, e).value;
    var d := c[..p] + c[p + 1..];
    assert Without(c, e) == d;
    DeleteAt(c, p);
    match IndexOf(c, x) {
      case None =>
        forall k | 0 <= k < |d| ensures d[k].0 != x {
          var ck := if k < p then k else k + 1;
          assert d[k] == c[ck];
        }
      case Some(q) =>
        var dq := if q < p then q else q - 1;
        assert d[dq] == c[q];
        IndexOfPosition(d, dq);
    }
  }

  /** remove adds no entry and no flag. */
  lemma RemoveKeepsBounds(c: seq<Key>, e: Tx)
    ensures |Without(c, e)| <= |c| && FlaggedCount(Without(c, e)) <= FlaggedCount(c)
  {
    if IndexOf(c, e).Some? {
      RemoveUncountsFlag(c, e);
    }
  }

  /** The flagged count drops by one exactly when the removed key was flagged. */
  lemma RemoveUncountsFlag(c: seq<Key>, e: Tx)
    requires IndexOf(c, e).Some?
    ensures FlaggedCount(Without(c, e)) == FlaggedCount(c) - (if c[IndexOf(c, e).value].1 then 1 else 0)
  {
    var p := IndexOf(c, e).value;
    var older, newer := c[..p], c[p + 1..];
    assert Without(c, e) == older + newer;
    assert c == older + [c[p]] + newer;
    FlaggedCountConcat(older + [c[p]], newer);
    FlaggedCountConcat(older, [c[p]]);
    FlaggedCountConcat(older, newer);
    FlaggedCountSingle(c[p]);
  }

  /** Position of an exact key (element and flag) in the key order of the
      OrderedDict, or None: the model of `key in backing_dict` and of the lookup
      behind `backing_dict[key]`. */
  function KeyIndex(keys: seq<Key>, key: Key): (r: Option<nat>)
    ensures r.Some? ==> r.value < |keys| && keys[r.value] == key
    ensures r.None? <==> forall k :: 0 <= k < |keys| ==> keys[k] != key
  {
    if keys == [] then None
    else if keys[0] == key then Some(0)
    else match KeyIndex(keys[1..], key)
      case None => None
      case Some(k) => Some(k + 1)
  }

  /** In a set without repeated elements a key is found at its own position, and
      the element is found there under either flag. */
  lemma KeyIndexPosition(keys: seq<Key>, k: nat)
    requires Distinct(keys) && k < |keys|
    ensures KeyIndex(keys, keys[k]) == Some(k)
    ensures IndexOf(keys, keys[k].0) == Some(k)
  {
    var r := KeyIndex(keys, keys[k]);
    assert r.Some?;
    assert keys[r.value].0 == keys[k].0;
    IndexOfPosition(keys, k);
  }

  /** An element is present under some flag exactly when one of its two keys is,
      and then both lookups agree on its position. */
  lemma KeyIndexElement(keys: seq<Key>, e: Tx)
    requires Distinct(keys)
    ensures IndexOf(keys, e).Some? <==> KeyIndex(keys, (e, false)).Some? || KeyIndex(keys, (e, true)).Some?
    ensures KeyIndex(keys, (e, false)).Some? ==> IndexOf(keys, e) == KeyIndex(keys, (e, false))
    ensures KeyIndex(keys, (e, true)).Some? ==> IndexOf(keys, e) == KeyIndex(keys, (e, true))
  {
    match IndexOf(keys, e) {
      case None =>
      case Some(k) =>
        KeyIndexPosition(keys, k);
        if keys[k].1 {
          assert keys[k] == (e, true);
        } else {
          assert keys[k] == (e, false);
        }
    }
    if KeyIndex(keys, (e, false)).Some? {
      KeyIndexPosition(keys, KeyIndex(keys, (e, false)).value);
    }
    if KeyIndex(keys, (e, true)).Some? {
      KeyIndexPosition(keys, KeyIndex(keys, (e, true)).value);
    }
  }

  /** Deleting the key at position p keeps the others distinct and uncounts its
      flag. */
  lemma {:induction false} DeleteAt(c: seq<Key>, p: nat)
    requires Distinct(c) && p < |c|
    ensures Distinct(c[..p] + c[p + 1..])
    ensures FlaggedCount(c[..p] + c[p + 1..]) + (if c[p].1 then 1 else 0) == FlaggedCount(c)
  {
    var d := c[..p] + c[p + 1..];
    forall i, j | 0 <= i < j < |d| ensures d[i].0 != d[j].0 {
      var ci := if i < p then i else i + 1;
      var cj := if j < p then j else j + 1;
      assert d[i] == c[ci] && d[j] == c[cj];
    }
    assert c == c[..p] + [c[p]] + c[p + 1..];
    FlaggedCountConcat(c[..p] + [c[p]], c[p + 1..]);
    FlaggedCountConcat(c[..p], [c[p]]);
    FlaggedCountConcat(c[..p], c[p + 1..]);
    FlaggedCountSingle(c[p]);
  }

  // ---------------------------------------------------------------------------
  // The index bookkeeping, on plain values: the values of the OrderedDict in key
  // order, the reverse dict, offset and total.

  /** The absolute indexes from, from + 1, ..., from + n - 1. */
  function Indexes(from: int, n: nat): (r: seq<int>)
    ensures |r| == n && forall k :: 0 <= k < n ==> r[k] == from + k
  {
    if n == 0 then [] else Indexes(from, n - 1) + [from + n - 1]
  }

  /** The reverse dict of keys placed at consecutive absolute indexes from `from`. */
  function Reverse(keys: seq<Key>, from: int): (r: map<int, Key>)
    ensures forall j :: j in r <==> from <= j < from + |keys|
    ensures forall j :: from <= j < from + |keys| ==> r[j] == keys[j - from]
    decreases |keys|
  {
    if keys == [] then map[]
    else Reverse(keys[..|keys| - 1], from)[from + |keys| - 1 := keys[|keys| - 1]]
  }

  /** The values with a hole after the first h keys: those keys sit at offset,
      offset + 1, ..., the rest one index further up. */
  function HoledIndexes(offset: int, n: nat, h: nat): (r: seq<int>)
    requires h <= n
    ensures |r| == n
    ensures forall k :: 0 <= k < h ==> r[k] == offset + k
    ensures forall k :: h <= k < n ==> r[k] == offset + k + 1
  {
    Indexes(offset, h) + Indexes(offset + h + 1, n - h)
  }

  /** The reverse dict with a hole at absolute index offset + h. */
  function HoledReverse(keys: seq<Key>, offset: int, h: nat): (r: map<int, Key>)
    requires h <= |keys|
    ensures forall j :: j in r <==> offset <= j <= offset + |keys| && j != offset + h
    ensures forall j :: offset <= j < offset + h ==> r[j] == keys[j - offset]
    ensures forall j :: offset + h < j <= offset + |keys| ==> r[j] == keys[j - offset - 1]
  {
    Reverse(keys[..h], offset) + Reverse(keys[h..], offset + h + 1)
  }

  /** Dense indexes: the key at position k carries absolute index offset + k, and
      the reverse dict maps exactly offset..total-1 back to the keys. */
  ghost predicate Placed(keys: seq<Key>, vals: seq<int>, rev: map<int, Key>, offset: int, total: int)
  {
    && 0 <= offset <= total
    && |keys| == total - offset
    && vals == Indexes(offset, |keys|)
    && rev == Reverse(keys, offset)
  }

  /** The bookkeeping right after `item`, at position p, was deleted from the
      OrderedDict: the keys after it still carry their old absolute indexes and the
      reverse dict still maps offset + p to `item`. */
  ghost predicate PlacedWithHole(keys: seq<Key>, vals: seq<int>, rev: map<int, Key>, offset: int, total: int,
                                 item: Key, p: nat)
  {
    && 0 <= offset
    && p <= |keys|
    && total == offset + |keys| + 1
    && vals == HoledIndexes(offset, |keys|, p)
    && rev == HoledReverse(keys, offset, p)[offset + p := item]
  }

  lemma MapsEqual(m: map<int, Key>, n: map<int, Key>)
    requires forall j :: j in m <==> j in n
    requires forall j :: j in m ==> m[j] == n[j]
    ensures m == n
  {
    assert forall j :: j in m <==> j in n;
    assert forall j :: j in m ==> m[j] == n[j];
  }

  /** Deleting the key at position p opens a hole at absolute index offset + p. */
  lemma HoleAfterDelete(keys: seq<Key>, vals: seq<int>, rev: map<int, Key>, offset: int, total: int, p: nat)
    requires Placed(keys, vals, rev, offset, total) && p < |keys|
    ensures PlacedWithHole(keys[..p] + keys[p + 1..], vals[..p] + vals[p + 1..], rev, offset, total, keys[p], p)
  {
    var ks := keys[..p] + keys[p + 1..];
    assert ks[..p] == keys[..p];
    assert ks[p..] == keys[p + 1..];
    var holed := HoledReverse(ks, offset, p)[offset + p := keys[p]];
    forall j | j in rev
      ensures j in holed && rev[j] == holed[j]
    {
      if j > offset + p {
        assert keys[p + 1..][j - (offset + p + 1)] == keys[j - offset];
      }
    }
    MapsEqual(rev, holed);
    assert vals[..p] + vals[p + 1..] == HoledIndexes(offset, |ks|, p);
  }

  /** Forgetting the reverse entry of the deleted key, at absolute index i, leaves
      just the hole. */
  lemma ForgetHole(keys: seq<Key>, vals: seq<int>, rev: map<int, Key>, offset: int, total: int,
                   item: Key, p: nat, i: int)
    requires PlacedWithHole(keys, vals, rev, offset, total, item, p) && i == offset + p
    ensures rev - {i} == HoledReverse(keys, offset, p)
  {
    MapsEqual(rev - {i}, HoledReverse(keys, offset, p));
  }

  /** Moving the key just below the hole, at absolute index i, up into it moves
      the hole down by one. */
  lemma MoveHoleDown(keys: seq<Key>, offset: int, h: nat, i: int)
    requires 0 < h <= |keys| && i == offset + h - 1
    ensures i in HoledReverse(keys, offset, h) && HoledReverse(keys, offset, h)[i] == keys[h - 1]
    ensures (HoledReverse(keys, offset, h) - {i})[i + 1 := keys[h - 1]] == HoledReverse(keys, offset, h - 1)
    ensures HoledIndexes(offset, |keys|, h)[h - 1 := i + 1] == HoledIndexes(offset, |keys|, h - 1)
  {
    assert keys[..h][h - 1] == keys[h - 1];
    MoveHoleDownReverse(keys, offset, h, i);
  }

  lemma MoveHoleDownReverse(keys: seq<Key>, offset: int, h: nat, i: int)
    requires 0 < h <= |keys| && i == offset + h - 1
    ensures (HoledReverse(keys, offset, h) - {i})[i + 1 := keys[h - 1]] == HoledReverse(keys, offset, h - 1)
  {
    MovedWithinTarget(keys, offset, h, i);
    TargetWithinMoved(keys, offset, h, i);
    MovedEqualsTarget(HoledReverse(keys, offset, h), HoledReverse(keys, offset, h - 1), i, keys[h - 1]);
  }

  /** Map equality for a move of the entry at i to i + 1, from the two inclusions. */
  lemma MovedEqualsTarget(source: map<int, Key>, target: map<int, Key>, i: int, k: Key)
    requires forall j :: j in target ==> j == i + 1 || (j in source && j != i)
    requires var moved := (source - {i})[i + 1 := k];
      forall j :: j in moved ==> j in target && moved[j] == target[j]
    ensures (source - {i})[i + 1 := k] == target
  {
    var moved := (source - {i})[i + 1 := k];
    assert forall j :: j in target ==> j in moved;
    MapsEqual(moved, target);
  }

  lemma MovedWithinTarget(keys: seq<Key>, offset: int, h: nat, i: int)
    requires 0 < h <= |keys| && i == offset + h - 1
    ensures var moved := (HoledReverse(keys, offset, h) - {i})[i + 1 := keys[h - 1]];
      forall j :: j in moved ==> j in HoledReverse(keys, offset, h - 1) && moved[j] == HoledReverse(keys, offset, h - 1)[j]
  {
  }

  lemma TargetWithinMoved(keys: seq<Key>, offset: int, h: nat, i: int)
    requires 0 < h <= |keys| && i == offset + h - 1
    ensures forall j :: j in HoledReverse(keys, offset, h - 1) ==> j == i + 1 || (j in HoledReverse(keys, offset, h) && j != i)
  {
  }

  /** With the hole at offset, the keys sit densely from offset + 1. */
  lemma HoleAtBottom(keys: seq<Key>, offset: int)
    ensures HoledReverse(keys, offset, 0) == Reverse(keys, offset + 1)
    ensures HoledIndexes(offset, |keys|, 0) == Indexes(offset + 1, |keys|)
  {
    assert keys[..0] == [] && keys[0..] == keys;
    MapsEqual(HoledReverse(keys, offset, 0), Reverse(keys, offset + 1));
  }

  /** Bumping offset once the hole has reached it makes the indexes dense again. */
  lemma HoleClosed(keys: seq<Key>, vals: seq<int>, rev: map<int, Key>, offset: int, total: int)
    requires 0 <= offset && total == offset + |keys| + 1
    requires vals == HoledIndexes(offset, |keys|, 0) && rev == HoledReverse(keys, offset, 0)
    ensures Placed(keys, vals, rev, offset + 1, total)
  {
    HoleAtBottom(keys, offset);
  }

  /** Appending a key at absolute index total keeps the indexes dense. */
  lemma PlacedAppend(keys: seq<Key>, vals: seq<int>, rev: map<int, Key>, offset: int, total: int, key: Key)
    requires Placed(keys, vals, rev, offset, total)
    ensures Placed(keys + [key], vals + [total], rev[total := key], offset, total + 1)
  {
    var ks := keys + [key];
    forall j | offset <= j < total
      ensures rev[j] == ks[j - offset]
    {
    }
    MapsEqual(rev[total := key], Reverse(ks, offset));
  }

  // ---------------------------------------------------------------------------
  // The class: the OrderedDict (key order plus values), the reverse dict, offset,
  // total and flag_count, updated in place.

  class FlaggedArraySet {
    const maxSize: nat
    /** backing_dict, an OrderedDict, as its keys in insertion order and the value
        stored under each; assigning to an existing key does not move it. */
    var dictKeys: seq<Key>
    var dictVals: seq<int>
    /** backing_reverse_dict: absolute index to key. */
    var reverse: map<int, Key>
    var offset: int
    var total: int
    var flagCount: int

    /** The relative index of the key at position k is k: its absolute index
        (the dict value) is offset + k, and the reverse dict maps it back. */
    ghost predicate Valid()
      reads this
    {
      && maxSize >= 1
      && |dictKeys| <= maxSize
      && Distinct(dictKeys)
      && Placed(dictKeys, dictVals, reverse, offset, total)
      && flagCount == FlaggedCount(dictKeys)
    }

    /** The abstract contents: keys in insertion order, relative index = position. */
    ghost function Contents(): seq<Key>
      reads this
    {
      dictKeys
    }

    constructor (maxSize: nat)
      requires maxSize >= 1
      ensures Valid() && Contents() == [] && this.maxSize == maxSize
    {
      this.maxSize := maxSize;
      dictKeys := [];
      dictVals := [];
      reverse := map[];
      offset := 0;
      total := 0;
      flagCount := 0;
    }

    method Len() returns (n: nat)
      requires Valid()
      ensures n == |Contents()|
    {
      n := |dictKeys|;
    }

    method GetFlagCount() returns (n: int)
      requires Valid()
      ensures n == FlaggedCount(Contents())
    {
      n := flagCount;
    }

    method Contains(e: Tx) returns (b: bool)
      requires Valid()
      ensures b <==> IndexOf(Contents(), e).Some?
    {
      KeyIndexElement(dictKeys, e);
      b := KeyIndex(dictKeys, (e, false)).Some? || KeyIndex(dictKeys, (e, true)).Some?;
    }

    /** get_index: the relative index of e, or None. */
    method GetIndex(e: Tx) returns (r: Option<int>)
      requires Valid()
      ensures r.Some? <==> IndexOf(Contents(), e).Some?
      ensures r.Some? ==> r.value == IndexOf(Contents(), e).value
    {
      KeyIndexElement(dictKeys, e);
      var f := KeyIndex(dictKeys, (e, false));
      var t := KeyIndex(dictKeys, (e, true));
      if f.Some? {
        r := Some(dictVals[f.value] - offset);
      } else if t.Some? {
        r := Some(dictVals[t.value] - offset);
      } else {
        r := None;
      }
    }

    /** get_by_index: the element at relative index `index`, or None out of range. */
    method GetByIndex(index: int) returns (r: Option<Tx>)
      requires Valid()
      ensures r == if 0 <= index < |Contents()| then Some(Contents()[index].0) else None
    {
      if index + offset in reverse {
        r := Some(reverse[index + offset].0);
      } else {
        r := None;
      }
    }

    /** The state between deleting `item`, which sat at position p, from
        backing_dict and calling removed_from_backing_dict: the reverse dict,
        offset and flag_count still count it. */
    ghost predicate Detached(item: Key, p: nat)
      reads this
    {
      && maxSize >= 1
      && |dictKeys| < maxSize
      && Distinct(dictKeys)
      && PlacedWithHole(dictKeys, dictVals, reverse, offset, total, item, p)
      && flagCount == FlaggedCount(dictKeys) + (if item.1 then 1 else 0)
    }

    /** Deleting the key at position p from backing_dict (`del` or
        `popitem(last=False)`), returning the key and the absolute index stored
        under it. */
    method DeleteKey(p: nat) returns (item: Key, index: int)
      requires Valid() && p < |dictKeys|
      modifies this`dictKeys, this`dictVals
      ensures Detached(item, p)
      ensures item == old(dictKeys)[p] && index == offset + p
      ensures dictKeys == old(dictKeys)[..p] + old(dictKeys)[p + 1..]
    {
      ghost var keys, vals := dictKeys[..p] + dictKeys[p + 1..], dictVals[..p] + dictVals[p + 1..];
      DeleteAt(dictKeys, p);
      HoleAfterDelete(dictKeys, dictVals, reverse, offset, total, p);
      assert PlacedWithHole(keys, vals, reverse, offset, total, dictKeys[p], p);
      assert FlaggedCount(keys) + (if dictKeys[p].1 then 1 else 0) == flagCount;
      item := dictKeys[p];
      index := dictVals[p];
      dictKeys := dictKeys[..p] + dictKeys[p + 1..];
      dictVals := dictVals[..p] + dictVals[p + 1..];
      assert dictKeys == keys && dictVals == vals;
    }

    /** removed_from_backing_dict: forget the reverse entry, uncount the flag and
        shift every older element up by one absolute index, then bump offset, so
        that relative indexes stay dense. */
    method RemovedFromBackingDict(item: Key, index: int, ghost p: nat)
      requires Detached(item, p) && index == offset + p
      modifies this`reverse, this`dictVals, this`flagCount, this`offset
      ensures Valid()
      ensures dictKeys == old(dictKeys) && offset == old(offset) + 1
    {
      ForgetHole(dictKeys, dictVals, reverse, offset, total, item, p, index);
      reverse := reverse - {index};
      if item.1 {
        flagCount := flagCount - 1;
      }
      ShiftUp(index, p);
      BumpOffset();
    }

    /** The last step of removed_from_backing_dict: with the hole moved down to
        offset, bumping offset makes the indexes dense again. */
    method BumpOffset()
      requires maxSize >= 1 && |dictKeys| < maxSize && Distinct(dictKeys) && flagCount == FlaggedCount(dictKeys)
      requires 0 <= offset && total == offset + |dictKeys| + 1
      requires dictVals == HoledIndexes(offset, |dictKeys|, 0) && reverse == HoledReverse(dictKeys, offset, 0)
      modifies this`offset
      ensures Valid() && offset == old(offset) + 1
    {
      HoleClosed(dictKeys, dictVals, reverse, offset, total);
      offset := offset + 1;
    }

    /** The guarded loop of removed_from_backing_dict: unless the hole is already
        at offset, every key below the hole at absolute index `index` moves up by
        one, in the dict and in the reverse dict, which carries the hole down to
        offset. */
    method ShiftUp(index: int, ghost hole: nat)
      requires index == offset + hole && hole <= |dictKeys| && Distinct(dictKeys)
      requires dictVals == HoledIndexes(offset, |dictKeys|, hole)
      requires reverse == HoledReverse(dictKeys, offset, hole)
      modifies this`reverse, this`dictVals
      ensures dictVals == HoledIndexes(offset, |dictKeys|, 0)
      ensures reverse == HoledReverse(dictKeys, offset, 0)
    {
      if offset != index {
        var i := index - 1;
        ghost var h: nat := hole;
        while i >= offset
          invariant i == offset + h - 1 && h <= |dictKeys|
          invariant dictVals == HoledIndexes(offset, |dictKeys|, h)
          invariant reverse == HoledReverse(dictKeys, offset, h)
          decreases h
        {
          MoveHoleDown(dictKeys, offset, h, i);
          var e := reverse[i];
          reverse := reverse - {i};
          // backing_dict[e] = i + 1, e being found at its own position
          KeyIndexPosition(dictKeys, h - 1);
          var pos := KeyIndex(dictKeys, e).value;
          dictVals := dictVals[pos := i + 1];
          reverse := reverse[i + 1 := e];
          i := i - 1;
          h := h - 1;
        }
      } else {
        assert hole == 0;
      }
    }

    /** add's eviction loop: pop the oldest key (popitem(last=False)) and close
        its gap until fewer than maxSize keys remain. */
    method MakeRoom()
      requires Valid()
      modifies this
      ensures Valid()
      ensures var c := old(Contents());
        Contents() == if |c| >= maxSize then c[|c| - (maxSize - 1)..] else c
    {
      ghost var c := dictKeys;
      ghost var dropped: nat := 0;
      while |dictKeys| >= maxSize
        invariant Valid()
        invariant dropped <= |c| && dictKeys == c[dropped..]
        invariant dropped > 0 ==> |dictKeys| == maxSize - 1
        decreases |dictKeys|
      {
        var item, index := DeleteKey(0);
        RemovedFromBackingDict(item, index, 0);
        assert dictKeys == c[dropped + 1..];
        dropped := dropped + 1;
      }
    }

    /** The tail of add: store (e, flag) under absolute index total, in both
        dicts, and count its flag. */
    method Append(e: Tx, flag: bool)
      requires Valid() && |dictKeys| < maxSize && IndexOf(dictKeys, e).None?
      modifies this
      ensures Valid() && dictKeys == old(dictKeys) + [(e, flag)]
    {
      AddProperties(dictKeys, maxSize, e, flag);
      PlacedAppend(dictKeys, dictVals, reverse, offset, total, (e, flag));
      dictKeys := dictKeys + [(e, flag)];
      dictVals := dictVals + [total];
      reverse := reverse[total := (e, flag)];
      total := total + 1;
      if flag {
        flagCount := flagCount + 1;
      }
    }

    /** add(e, flag): no-op when e is present under either flag; otherwise evict
        the oldest keys until there is room, then append (e, flag) at absolute
        index total. */
    method Add(e: Tx, flag: bool)
      requires Valid()
      modifies this
      ensures Valid()
      ensures Contents() == AfterAdd(old(Contents()), maxSize, e, flag)
    {
      var present := Contains(e);
      if present {
        return;
      }
      ghost var c := dictKeys;
      MakeRoom();
      assert IndexOf(dictKeys, e).None? by {
        forall k | 0 <= k < |dictKeys| ensures dictKeys[k].0 != e {
          assert dictKeys[k] == c[k + |c| - |dictKeys|];
        }
      }
      Append(e, flag);
    }

    /** remove(e): delete e's key, whichever its flag, and close the gap. */
    method Remove(e: Tx)
      requires Valid()
      modifies this
      ensures Valid()
      ensures Contents() == Without(old(Contents()), e)
    {
      KeyIndexElement(dictKeys, e);
      ghost var c := dictKeys;
      var f := KeyIndex(dictKeys, (e, false));
      var t := KeyIndex(dictKeys, (e, true));
      if f.Some? {
        assert Without(c, e) == c[..f.value] + c[f.value + 1..];
        var item, index := DeleteKey(f.value);
        RemovedFromBackingDict(item, index, f.value);
      } else if t.Some? {
        assert Without(c, e) == c[..t.value] + c[t.value + 1..];
        var item, index := DeleteKey(t.value);
        RemovedFromBackingDict(item, index, t.value);
      } else {
        assert Without(c, e) == c;
      }
    }
  }
}
