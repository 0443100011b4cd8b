/** Key-value entries, sorted runs of them and the plain maps they stand for. */
module Tables {
  import opened ByteStrings

  datatype Entry = Entry(key: Bytes, value: Bytes)

  type Table = map<Bytes, Bytes>

  /** The map a stream of writes leaves behind: the last write to a key wins. */
  function ToTable(s: seq<Entry>): Table {
    if s == [] then map[] else ToTable(s[..|s| - 1])[s[|s| - 1].key := s[|s| - 1].value]
  }

  ghost predicate Sorted(s: seq<Entry>) {
    forall i, j :: 0 <= i < j < |s| ==> Less(s[i].key, s[j].key)
  }

  ghost predicate NoEmptyKey(s: seq<Entry>) {
    forall i :: 0 <= i < |s| ==> s[i].key != []
  }

  lemma {:induction false} ToTableConcat(a: seq<Entry>, b: seq<Entry>)
    ensures ToTable(a + b) == ToTable(a) + ToTable(b)
  {
    if b == [] {
      assert a + b == a;
    } else {
      assert (a + b)[..|a + b| - 1] == a + b[..|b| - 1];
      ToTableConcat(a, b[..|b| - 1]);
    }
  }

  lemma ToTableSingle(e: Entry)
    ensures ToTable([e]) == map[e.key := e.value]
  {
    assert [e][..0] == [];
  }

  lemma ToTableCons(e: Entry, s: seq<Entry>)
    ensures ToTable([e] + s) == map[e.key := e.value] + ToTable(s)
  {
    ToTableConcat([e], s);
    ToTableSingle(e);
  }

  lemma PutBack(m: Table, k: Bytes)
    requires k in m
    ensures map[k := m[k]] + (m - {k}) == m
  {
  }

  lemma TakeOut(m: Table, k: Bytes, v: Bytes)
    requires k !in m
    ensures m[k := v] - {k} == m
  {
  }

  lemma {:induction false} ToTableKeys(s: seq<Entry>, key: Bytes)
    ensures key in ToTable(s) <==> exists i :: 0 <= i < |s| && s[i].key == key
  {
    if s != [] {
      ToTableKeys(s[..|s| - 1], key);
      if key in ToTable(s) && key != s[|s| - 1].key {
        var i :| 0 <= i < |s| - 1 && s[..|s| - 1][i].key == key;
        assert s[i].key == key;
      }
      if exists i :: 0 <= i < |s| && s[i].key == key {
        var i :| 0 <= i < |s| && s[i].key == key;
        assert i < |s| - 1 ==> s[..|s| - 1][i].key == key;
      }
    }
  }

  lemma {:induction false} ToTableAt(s: seq<Entry>, i: nat)
    requires Sorted(s) && i < |s|
    ensures s[i].key in ToTable(s) && ToTable(s)[s[i].key] == s[i].value
  {
    if i < |s| - 1 {
      ToTableAt(s[..|s| - 1], i);
      LessIrreflexive(s[i].key);
      assert s[i].key != s[|s| - 1].key;
    }
  }

  // ----- ascending iteration over a map -----

  lemma LessEqAntisymmetric()
    ensures forall a, b {:trigger LessEq(a, b), LessEq(b, a)} :: LessEq(a, b) && LessEq(b, a) ==> a == b
  {
    forall a, b | Less(a, b)
      ensures !LessEq(b, a)
    {
      LessAsymmetric(a, b);
    }
  }

  /** The smaller of two keys is below all that the second is below. */
  lemma SmallerOf(a: Bytes, m: Bytes) returns (k: Bytes)
    ensures (k == a || k == m) && LessEq(k, a) && LessEq(k, m)
    ensures forall x :: LessEq(m, x) ==> LessEq(k, x)
  {
    hide Less;
    LessTotal(a, m);
    k := if Less(a, m) then a else m;
    forall x | LessEq(m, x)
      ensures LessEq(k, x)
    {
      if k == a && m != x && k != m {
        LessTransitive(a, m, x);
      }
    }
  }

  lemma {:induction false} MinExists(keys: set<Bytes>)
    requires keys != {}
    ensures exists k :: k in keys && forall x :: x in keys ==> LessEq(k, x)
  {
    hide LessEq;
    var a :| a in keys;
    var rest := keys - {a};
    var m := a;
    if rest != {} {
      MinExists(rest);
      m :| m in rest && forall x :: x in rest ==> LessEq(m, x);
    }
    var k := SmallerOf(a, m);
    forall x | x in keys
      ensures LessEq(k, x)
    {
      assert x == a || x in rest;
    }
  }

  function MinKey(keys: set<Bytes>): (k: Bytes)
    requires keys != {}
    ensures k in keys && forall x :: x in keys ==> LessEq(k, x)
  {
    MinExists(keys);
    LessEqAntisymmetric();
    var k :| k in keys && forall x :: x in keys ==> LessEq(k, x);
    k
  }

  /** The entries of a map in ascending key order: what `Ascend` of a B-tree yields, and what
      visiting a map through its sorted keys yields. */
  function Ascend(m: Table): (s: seq<Entry>)
    ensures |s| == |m|
  {
    if m == map[] then []
    else
      var k := MinKey(m.Keys);
      assert (m - {k}).Keys == m.Keys - {k};
      [Entry(k, m[k])] + Ascend(m - {k})
  }

  lemma {:induction false} AscendTable(m: Table)
    ensures ToTable(Ascend(m)) == m
  {
    if m != map[] {
      var k := MinKey(m.Keys);
      assert (m - {k}).Keys == m.Keys - {k};
      AscendTable(m - {k});
      ToTableCons(Entry(k, m[k]), Ascend(m - {k}));
      PutBack(m, k);
    }
  }

  lemma {:induction false} AscendSorted(m: Table)
    ensures Sorted(Ascend(m))
  {
    if m != map[] {
      var k := MinKey(m.Keys);
      var rest := Ascend(m - {k});
      assert (m - {k}).Keys == m.Keys - {k};
      AscendSorted(m - {k});
      AscendTable(m - {k});
      forall j | 0 <= j < |rest|
        ensures Less(k, rest[j].key)
      {
        ToTableKeys(rest, rest[j].key);
        assert rest[j].key in m.Keys - {k};
      }
    }
  }

  lemma AscendKeys(m: Table)
    ensures forall i :: 0 <= i < |Ascend(m)| ==>
      Ascend(m)[i].key in m && Ascend(m)[i].value == m[Ascend(m)[i].key]
  {
    AscendTable(m);
    AscendSorted(m);
    forall i | 0 <= i < |Ascend(m)|
      ensures Ascend(m)[i].key in m && Ascend(m)[i].value == m[Ascend(m)[i].key]
    {
      ToTableAt(Ascend(m), i);
    }
  }

  lemma NoEntries()
    ensures ToTable([]) == map[]
  {
  }

  /** A sorted run is determined by the map it stands for. */
  lemma {:induction false} SortedUnique(a: seq<Entry>, b: seq<Entry>)
    requires Sorted(a) && Sorted(b) && ToTable(a) == ToTable(b)
    ensures a == b
  {
    hide ToTable, Less;
    NoEntries();
    if a == [] || b == [] {
      if a != [] { ToTableAt(a, 0); }
      if b != [] { ToTableAt(b, 0); }
    } else {
      var x, y := a[|a| - 1], b[|b| - 1];
      ToTableAt(a, |a| - 1);
      ToTableAt(b, |b| - 1);
      ToTableKeys(a, y.key);
      ToTableKeys(b, x.key);
      LastIsMax(a, y.key);
      LastIsMax(b, x.key);
      LessEqAntisymmetric();
      assert LessEq(x.key, y.key) && LessEq(y.key, x.key);
      ToTableInit(a);
      ToTableInit(b);
      SortedUnique(a[..|a| - 1], b[..|b| - 1]);
      assert a == a[..|a| - 1] + [x] && b == b[..|b| - 1] + [y];
    }
  }

  lemma LastIsMax(a: seq<Entry>, key: Bytes)
    requires a != [] && Sorted(a) && key in ToTable(a)
    ensures LessEq(key, a[|a| - 1].key)
  {
    ToTableKeys(a, key);
  }

  lemma ToTableInit(a: seq<Entry>)
    requires a != [] && Sorted(a)
    ensures ToTable(a[..|a| - 1]) == ToTable(a) - {a[|a| - 1].key}
  {
    var init, k := a[..|a| - 1], a[|a| - 1].key;
    ToTableKeys(init, k);
    if k in ToTable(init) {
      var i :| 0 <= i < |init| && init[i].key == k;
      LessIrreflexive(k);
    }
    TakeOut(ToTable(init), k, a[|a| - 1].value);
  }

  // ----- layers of tables, oldest first -----

  /** The newest-wins merge of a list of tables, oldest first. */
  function Merge(tables: seq<Table>): Table {
    if tables == [] then map[] else Merge(tables[..|tables| - 1]) + tables[|tables| - 1]
  }

  lemma PlusAssociates(a: Table, b: Table, c: Table)
    ensures (a + b) + c == a + (b + c)
  {
  }

  lemma {:induction false} MergeConcat(a: seq<Table>, b: seq<Table>)
    ensures Merge(a + b) == Merge(a) + Merge(b)
  {
    if b == [] {
      assert a + b == a;
    } else {
      assert (a + b)[..|a + b| - 1] == a + b[..|b| - 1];
      assert Merge(b) == Merge(b[..|b| - 1]) + b[|b| - 1];
      assert Merge(a + b) == Merge(a + b[..|b| - 1]) + b[|b| - 1];
      hide Merge;
      MergeConcat(a, b[..|b| - 1]);
      PlusAssociates(Merge(a), Merge(b[..|b| - 1]), b[|b| - 1]);
    }
  }

  lemma MergeSingle(t: Table)
    ensures Merge([t]) == t
  {
    assert [t][..0] == [];
  }

  lemma MergeInit(tables: seq<Table>, n: nat)
    requires 0 < n <= |tables|
    ensures Merge(tables[..n]) == Merge(tables[..n - 1]) + tables[n - 1]
  {
    assert tables[..n][..n - 1] == tables[..n - 1];
  }

  lemma MergeNone(tables: seq<Table>)
    requires tables == []
    ensures Merge(tables) == map[]
  {
  }

  /** The part of a table whose keys carry a prefix. */
  function Restrict(m: Table, prefix: Bytes): Table {
    map k | k in m && HasPrefix(k, prefix) :: m[k]
  }

  /** Reading a key of a plain map the way the engine reports it: absent reads as empty. */
  function Lookup(m: Table, key: Bytes): Bytes {
    if key in m then m[key] else []
  }
}
