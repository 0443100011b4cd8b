/** The in-memory write buffer (memtable/memtable.go). The B-tree is the map it stores, visited
    in ascending key order. */
module MemoryTable {
  import opened ByteStrings
  import opened Tables

  const SIZE_LIMIT: int := 1000

  /** The bytes of all keys and values. */
  ghost function TotalSize(m: Table): nat {
    if m == map[] then 0
    else
      var k := MinKey(m.Keys);
      assert k in m.Keys;
      |k| + |m[k]| + TotalSize(m - {k})
  }

  lemma RemoveSwap(m: Table, a: Bytes, b: Bytes)
    ensures m - {a} - {b} == m - {b} - {a}
  {
  }

  /** The sum does not depend on the order of the keys. */
  lemma {:induction false} TotalSizeRemove(m: Table, k: Bytes)
    requires k in m
    ensures TotalSize(m) == |k| + |m[k]| + TotalSize(m - {k})
    decreases |m|
  {
    hide MinKey;
    var first := MinKey(m.Keys);
    assert first in m;
    if first != k {
      assert (m - {first}).Keys == m.Keys - {first} && (m - {k}).Keys == m.Keys - {k};
      assert k in m - {first} && first in m - {k};
      TotalSizeRemove(m - {first}, k);
      TotalSizeRemove(m - {k}, first);
      RemoveSwap(m, first, k);
    }
  }

  lemma TotalSizePut(m: Table, k: Bytes, v: Bytes)
    ensures TotalSize(m[k := v]) ==
      if k in m then TotalSize(m) + |v| - |m[k]| else TotalSize(m) + |k| + |v|
  {
    hide TotalSize;
    TotalSizeRemove(m[k := v], k);
    assert m[k := v] - {k} == m - {k};
    if k in m {
      TotalSizeRemove(m, k);
    } else {
      assert m - {k} == m;
    }
  }

  class Memtable {
    var tree: Table
    var size: int

    ghost predicate Valid()
      reads this
    {
      size == TotalSize(tree)
    }

    constructor ()
      ensures Valid() && tree == map[]
    {
      tree, size := map[], 0;
    }

    function Get(key: Bytes): Option<Bytes>
      reads this
    {
      if key in tree then Some(tree[key]) else None
    }

    method Put(key: Bytes, value: Bytes)
      requires Valid()
      modifies this
      ensures Valid() && tree == old(tree)[key := value]
    {
      hide TotalSize;
      TotalSizePut(tree, key, value);
      if key in tree {
        size := size + |value|;
        size := size - |tree[key]|;
      } else {
        size := size + (|key| + |value|);
      }
      tree := tree[key := value];
    }

    /** `AscendGreaterOrEqual` from the prefix, stopping at the first key without it. */
    method PrefixScan(prefix: Bytes) returns (found: Table)
      ensures found == Restrict(tree, prefix)
    {
      hide Less, HasPrefix, ToTable;
      var s := Ascend(tree);
      AscendSorted(tree);
      AscendTable(tree);
      AscendKeys(tree);
      found := map[];
      var i := 0;
      while i < |s| && Less(s[i].key, prefix)
        invariant i <= |s|
        invariant forall k :: 0 <= k < i ==> Less(s[k].key, prefix)
      {
        i := i + 1;
      }
      ghost var low := i;
      while i < |s| && HasPrefix(s[i].key, prefix)
        invariant low <= i <= |s|
        invariant forall k :: low <= k < i ==> HasPrefix(s[k].key, prefix) && s[k].key in found
        invariant forall x :: x in found ==> x in tree && HasPrefix(x, prefix) && found[x] == tree[x]
      {
        found := found[s[i].key := s[i].value];
        i := i + 1;
      }
      forall x | x in tree && HasPrefix(x, prefix)
        ensures x in found
      {
        ToTableKeys(s, x);
        var k :| 0 <= k < |s| && s[k].key == x;
        OutsideInterval(s, prefix, low, i, k);
      }
    }

    predicate ShouldFlush()
      reads this
    {
      size >= SIZE_LIMIT
    }

    method Clear()
      modifies this
      ensures Valid() && tree == map[]
    {
      tree, size := map[], 0;
    }
  }

  /** A key with the prefix is neither below the prefix nor past the first key without it. */
  lemma OutsideInterval(s: seq<Entry>, prefix: Bytes, low: nat, high: nat, k: nat)
    requires Sorted(s) && low <= high <= |s| && k < |s| && HasPrefix(s[k].key, prefix)
    requires forall i :: 0 <= i < low ==> Less(s[i].key, prefix)
    requires low < |s| ==> !Less(s[low].key, prefix)
    requires high < |s| ==> !HasPrefix(s[high].key, prefix)
    ensures low <= k < high
  {
    hide Less, HasPrefix;
    PrefixIsBelow(s[k].key, prefix);
    if k < low {
      LessAsymmetric(s[k].key, prefix);
    } else if high <= k {
      LessTotal(prefix, s[low].key);
      if low < high {
        LessEqThenLess(prefix, s[low].key, s[high].key);
      }
      PrefixConvex(prefix, s[high].key, s[k].key);
    }
  }

  lemma LessEqThenLess(a: Bytes, b: Bytes, c: Bytes)
    requires LessEq(a, b) && Less(b, c)
    ensures Less(a, c)
  {
    hide Less;
    if a != b {
      LessTransitive(a, b, c);
    }
  }
}
