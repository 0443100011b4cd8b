/** Exactly which snapshots the atomic swap is safe for, and what two overlapping compactions
    do (sstable/compaction.go). The swap decides by file name alone, so safety is a question
    about the list and the snapshot, for all contents of the files. */
module SwapSafety {
  import opened ByteStrings
  import opened Tables
  import opened TableFormat
  import opened TableReaders
  import opened TableLookup
  import opened TableScans
  import opened Store
  import opened Compaction

  type Held = FileId -> Table

  ghost function TablesIn(files: seq<FileId>, held: Held): (r: seq<Table>)
    ensures |r| == |files|
  {
    seq(|files|, i requires 0 <= i < |files| => held(files[i]))
  }

  ghost function ViewBefore(files: seq<FileId>, held: Held): Table {
    Merge(TablesIn(files, held))
  }

  /** The list after the swap: the merge of the snapshot below whatever was not in it. */
  ghost function ViewAfter(files: seq<FileId>, snapshot: seq<FileId>, held: Held): Table {
    Merge([Merge(TablesIn(snapshot, held))] + TablesIn(Keep(files, files, IdSet(snapshot)), held))
  }

  // ----- a prefix snapshot is safe -----

  lemma TablesInConcat(a: seq<FileId>, b: seq<FileId>, held: Held)
    ensures TablesIn(a + b, held) == TablesIn(a, held) + TablesIn(b, held)
  {
  }

  lemma PrefixIsSafe(files: seq<FileId>, snapshot: seq<FileId>, held: Held)
    requires Distinct(files) && IsPrefix(snapshot, files)
    ensures ViewAfter(files, snapshot, held) == ViewBefore(files, held)
  {
    hide Merge, Keep, TablesIn;
    var n := |snapshot|;
    KeepAfterPrefix(files, files, n);
    assert files[n..|files|] == files[n..];
    TablesInConcat(snapshot, files[n..], held);
    assert files == snapshot + files[n..];
    var below := Merge(TablesIn(snapshot, held));
    MergeConcat([below], TablesIn(files[n..], held));
    MergeSingle(below);
    MergeConcat(TablesIn(snapshot, held), TablesIn(files[n..], held));
  }

  // ----- any other snapshot is not -----

  /** The newest layer that holds a key decides it. */
  lemma {:induction false} MergeAt(tables: seq<Table>, p: nat, key: Bytes)
    requires p < |tables| && key in tables[p]
    requires forall q :: p < q < |tables| ==> key !in tables[q]
    ensures key in Merge(tables) && Merge(tables)[key] == tables[p][key]
  {
    if p < |tables| - 1 {
      MergeAt(tables[..|tables| - 1], p, key);
    }
  }

  lemma {:induction false} MergeMisses(tables: seq<Table>, key: Bytes)
    requires forall q :: 0 <= q < |tables| ==> key !in tables[q]
    ensures key !in Merge(tables)
  {
    if tables != [] {
      MergeMisses(tables[..|tables| - 1], key);
    }
  }

  const OLD: Bytes := [1]
  const NEW: Bytes := [2]

  /** Two files that write one key, everything else empty. */
  ghost function Clash(f: FileId, g: FileId): Held {
    (x: FileId) => if x == f then map[OLD := OLD] else if x == g then map[OLD := NEW] else map[]
  }

  lemma {:induction false} KeepHolds(files: seq<FileId>, gone: set<FileId>, i: nat)
    requires i < |files| && files[i] !in gone
    ensures files[i] in Keep(files, files, gone)
  {
    var n := |files| - 1;
    KeepPrefix(files[..n], files, gone);
    if i < n {
      KeepHolds(files[..n], gone, i);
    }
  }

  lemma {:induction false} KeepOnlyKept(files: seq<FileId>, gone: set<FileId>)
    ensures forall f :: f in Keep(files, files, gone) ==> f in files && f !in gone
  {
    if files != [] {
      var n := |files| - 1;
      KeepOnlyKept(files[..n], gone);
    }
  }

  lemma {:induction false} KeepDistinct(files: seq<FileId>, gone: set<FileId>)
    requires Distinct(files)
    ensures Distinct(Keep(files, files, gone))
  {
    if files != [] {
      var n := |files| - 1;
      KeepDistinct(files[..n], gone);
      KeepOnlyKept(files[..n], gone);
    }
  }

  /** A list whose file at p is f, none of the later ones being f or g, shows f's value. */
  lemma ShowsOld(files: seq<FileId>, f: FileId, g: FileId, p: nat)
    requires p < |files| && files[p] == f
    requires forall q :: p < q < |files| ==> files[q] != f && files[q] != g
    ensures OLD in ViewBefore(files, Clash(f, g)) && ViewBefore(files, Clash(f, g))[OLD] == OLD
  {
    hide Merge;
    MergeAt(TablesIn(files, Clash(f, g)), p, OLD);
  }

  lemma ShowsNew(files: seq<FileId>, f: FileId, g: FileId, p: nat)
    requires p < |files| && files[p] == g && f != g
    requires forall q :: p < q < |files| ==> files[q] != f && files[q] != g
    ensures OLD in ViewBefore(files, Clash(f, g)) && ViewBefore(files, Clash(f, g))[OLD] == NEW
  {
    hide Merge;
    MergeAt(TablesIn(files, Clash(f, g)), p, OLD);
  }

  lemma ShowsNothing(files: seq<FileId>, f: FileId, g: FileId)
    requires f !in files && g !in files
    ensures OLD !in ViewBefore(files, Clash(f, g))
  {
    hide Merge;
    MergeMisses(TablesIn(files, Clash(f, g)), OLD);
  }

  lemma AfterIsLayered(files: seq<FileId>, snapshot: seq<FileId>, held: Held)
    ensures ViewAfter(files, snapshot, held) ==
      ViewBefore(snapshot, held) + ViewBefore(Keep(files, files, IdSet(snapshot)), held)
  {
    hide Merge, Keep, TablesIn;
    MergeConcat([Merge(TablesIn(snapshot, held))], TablesIn(Keep(files, files, IdSet(snapshot)), held));
    MergeSingle(Merge(TablesIn(snapshot, held)));
  }

  /** The snapshot holds a file the list no longer has. */
  lemma ReturnsFromTheDead(files: seq<FileId>, snapshot: seq<FileId>, i: nat)
    requires Distinct(snapshot) && i < |snapshot| && snapshot[i] !in files
    ensures ViewAfter(files, snapshot, Clash(snapshot[i], snapshot[i])) != ViewBefore(files, Clash(snapshot[i], snapshot[i]))
  {
    hide Merge, Keep;
    var f := snapshot[i];
    ShowsNothing(files, f, f);
    ShowsOld(snapshot, f, f, i);
    AfterIsLayered(files, snapshot, Clash(f, f));
  }

  /** The snapshot skips a file f that is older in the list than one it holds. */
  lemma OldOverNew(files: seq<FileId>, snapshot: seq<FileId>, i: nat, j: nat)
    requires Distinct(files) && Distinct(snapshot)
    requires i < |snapshot| && i < j < |files| && files[j] == snapshot[i]
    requires files[i] !in snapshot[..i]
    ensures ViewAfter(files, snapshot, Clash(files[i], files[j])) != ViewBefore(files, Clash(files[i], files[j]))
  {
    hide Merge, TablesIn, ViewBefore, ViewAfter, Clash;
    var f, g := files[i], files[j];
    ShowsNew(files, f, g, j);
    AfterIsLayered(files, snapshot, Clash(f, g));
    var kept := Keep(files, files, IdSet(snapshot));
    KeepOnlyKept(files, IdSet(snapshot));
    if f in snapshot {
      MemberAfter(snapshot, i, f);
      var p :| i <= p < |snapshot| && snapshot[p] == f;
      ShowsOld(snapshot, f, g, p);
      ShowsNothing(kept, f, g);
    } else {
      KeepHolds(files, IdSet(snapshot), i);
      KeepDistinct(files, IdSet(snapshot));
      var p :| 0 <= p < |kept| && kept[p] == f;
      assert g in IdSet(snapshot);
      assert forall q :: p < q < |kept| ==> kept[q] in kept && kept[q] != f && kept[q] != g;
      ShowsOld(kept, f, g, p);
    }
  }

  /** The swap leaves the merged view of every possible contents unchanged if and only if the
      snapshot is a prefix of the list at the time of the swap. */
  lemma SwapSafeIff(files: seq<FileId>, snapshot: seq<FileId>)
    requires Distinct(files) && Distinct(snapshot)
    ensures (forall held: Held :: ViewAfter(files, snapshot, held) == ViewBefore(files, held))
      <==> IsPrefix(snapshot, files)
  {
    hide ViewAfter, ViewBefore, Clash;
    if IsPrefix(snapshot, files) {
      forall held: Held
        ensures ViewAfter(files, snapshot, held) == ViewBefore(files, held)
      {
        PrefixIsSafe(files, snapshot, held);
      }
    } else {
      var i := FirstDifference(snapshot, files);
      if snapshot[i] !in files {
        ReturnsFromTheDead(files, snapshot, i);
      } else {
        MemberAfter(files, i, snapshot[i]);
        var j :| i <= j < |files| && files[j] == snapshot[i];
        OldOverNew(files, snapshot, i, j);
      }
    }
  }

  lemma MemberAfter(files: seq<FileId>, i: nat, f: FileId)
    requires i <= |files| && f in files && f !in files[..i]
    ensures exists j :: i <= j < |files| && files[j] == f
  {
    assert files == files[..i] + files[i..];
    var k :| 0 <= k < |files[i..]| && files[i..][k] == f;
    assert files[i + k] == f;
  }

  lemma FirstDifference(snapshot: seq<FileId>, files: seq<FileId>) returns (i: nat)
    requires !IsPrefix(snapshot, files) && Distinct(files) && Distinct(snapshot)
    ensures i < |snapshot| && i <= |files| && snapshot[..i] == files[..i]
    ensures snapshot[i] !in files[..i]
    ensures i < |files| ==> snapshot[i] != files[i] && files[i] !in snapshot[..i]
  {
    i := 0;
    while i < |files| && i < |snapshot| && snapshot[i] == files[i]
      invariant i <= |files| && i <= |snapshot| && snapshot[..i] == files[..i]
    {
      i := i + 1;
    }
  }

  // ----- two compactions at once -----

  /** The flag is tested after a flush and set by the new goroutine, so two flushes can start
      two compactions. When both have their snapshots (the first n and the first m > n files)
      before either swaps, the second swap puts its merge below the first's. If the second
      merge is whole, the view is what it was if and only if no file after the first n changed
      a key they hold. */
  lemma OverlapIff(files: seq<FileId>, n: nat, m: nat, first: FileId, second: FileId, held: Held)
    requires Distinct(files) && first !in files && n < m <= |files|
    requires held(first) == Merge(TablesIn(files[..n], held))
    requires held(second) == Merge(TablesIn(files[..m], held))
    ensures var list1 := [first] + Keep(files, files, IdSet(files[..n]));
      var list2 := [second] + Keep(list1, list1, IdSet(files[..m]));
      ViewBefore(list2, held) == ViewBefore(files, held) <==>
      forall k :: k in held(first) && k !in ViewBefore(files[m..], held) ==>
        k in held(second) && held(second)[k] == held(first)[k]
  {
    hide Merge, Keep, TablesIn, ViewBefore, Distinct;
    OverlapList(files, n, m, first, second);
    OverlapView(files, m, first, second, held);
    assert files == files[..m] + files[m..];
    ViewConcat(files[..m], files[m..], held);
    ViewIsMerge(files[..m], held);
    FirstBelowSecond(files, n, m, first, second, held);
    LayersAgree(held(second), held(first), ViewBefore(files[m..], held));
  }

  /** If the second merge failed with an error it is carried on with an empty map. The files
      from n to m are then dropped for nothing, and the view is what it was if and only if each
      of their keys is in the first merge with the same value or is covered by a later file. */
  lemma OverlapEmptyIff(files: seq<FileId>, n: nat, m: nat, first: FileId, second: FileId, held: Held)
    requires Distinct(files) && first !in files && n < m <= |files|
    requires held(first) == Merge(TablesIn(files[..n], held)) && held(second) == map[]
    ensures var list1 := [first] + Keep(files, files, IdSet(files[..n]));
      var list2 := [second] + Keep(list1, list1, IdSet(files[..m]));
      ViewBefore(list2, held) == ViewBefore(files, held) <==>
      forall k :: k in ViewBefore(files[n..m], held) && k !in ViewBefore(files[m..], held) ==>
        k in held(first) && held(first)[k] == ViewBefore(files[n..m], held)[k]
  {
    hide Merge, Keep, TablesIn, ViewBefore, Distinct;
    OverlapList(files, n, m, first, second);
    OverlapView(files, m, first, second, held);
    assert files == files[..n] + (files[n..m] + files[m..]);
    ViewConcat(files[..n], files[n..m] + files[m..], held);
    ViewConcat(files[n..m], files[m..], held);
    ViewIsMerge(files[..n], held);
    MiddleLost(held(first), ViewBefore(files[n..m], held), ViewBefore(files[m..], held));
  }

  lemma MiddleLost(low: Table, middle: Table, top: Table)
    ensures (map[] + low) + top == low + (middle + top) <==>
      forall k :: k in middle && k !in top ==> k in low && low[k] == middle[k]
  {
    var without, with := (map[] + low) + top, low + (middle + top);
    if without == with {
      forall k | k in middle && k !in top
        ensures k in low && low[k] == middle[k]
      {
        assert k in with && with[k] == middle[k];
        assert k in without;
      }
    }
  }

  lemma LayersAgree(low: Table, mid: Table, top: Table)
    requires mid.Keys <= low.Keys
    ensures (low + mid) + top == low + top <==> forall k :: k in mid && k !in top ==> low[k] == mid[k]
  {
    if (low + mid) + top == low + top {
      forall k | k in mid && k !in top
        ensures low[k] == mid[k]
      {
        assert ((low + mid) + top)[k] == mid[k] && (low + top)[k] == low[k];
      }
    }
  }

  lemma ViewIsMerge(files: seq<FileId>, held: Held)
    ensures ViewBefore(files, held) == Merge(TablesIn(files, held))
  {
  }

  lemma ViewConcat(a: seq<FileId>, b: seq<FileId>, held: Held)
    ensures ViewBefore(a + b, held) == ViewBefore(a, held) + ViewBefore(b, held)
  {
    hide Merge, TablesIn;
    TablesInConcat(a, b, held);
    MergeConcat(TablesIn(a, held), TablesIn(b, held));
  }

  lemma ViewOne(f: FileId, held: Held)
    ensures ViewBefore([f], held) == held(f)
  {
    assert TablesIn([f], held) == [held(f)];
    MergeSingle(held(f));
  }

  lemma OverlapList(files: seq<FileId>, n: nat, m: nat, first: FileId, second: FileId)
    requires Distinct(files) && first !in files && n < m <= |files|
    ensures var list1 := [first] + Keep(files, files, IdSet(files[..n]));
      [second] + Keep(list1, list1, IdSet(files[..m])) == [second] + ([first] + files[m..])
  {
    hide Keep, IdSet;
    KeepAfterPrefix(files, files, n);
    assert files[n..|files|] == files[n..];
    SecondSwap(files, n, m, first);
  }

  /** The second swap drops the files the first left over from its snapshot, not the first's
      own file. */
  lemma SecondSwap(files: seq<FileId>, n: nat, m: nat, first: FileId)
    requires Distinct(files) && first !in files && n < m <= |files|
    ensures Keep([first] + files[n..], [first] + files[n..], IdSet(files[..m])) == [first] + files[m..]
  {
    hide Keep;
    var list1, gone := [first] + files[n..], IdSet(files[..m]);
    var a := [first] + files[n..m];
    assert list1 == a + files[m..];
    KeepSplit(list1, list1, gone, |a|);
    KeepAll(files[m..], files[m..], gone);
    KeepSplit(a, a, gone, 1);
    assert a[..1] == [first] && a[1..] == files[n..m];
    KeepAll([first], [first], gone);
    KeepNone(files[n..m], files[n..m], gone);
  }

  lemma OverlapView(files: seq<FileId>, m: nat, first: FileId, second: FileId, held: Held)
    requires m <= |files|
    ensures ViewBefore([second] + ([first] + files[m..]), held) == (held(second) + held(first)) + ViewBefore(files[m..], held)
  {
    hide ViewBefore;
    ViewConcat([second], [first] + files[m..], held);
    ViewConcat([first], files[m..], held);
    ViewOne(second, held);
    ViewOne(first, held);
    PlusAssociates(held(second), held(first), ViewBefore(files[m..], held));
  }

  lemma FirstBelowSecond(files: seq<FileId>, n: nat, m: nat, first: FileId, second: FileId, held: Held)
    requires n < m <= |files|
    requires held(first) == Merge(TablesIn(files[..n], held))
    requires held(second) == Merge(TablesIn(files[..m], held))
    ensures held(first).Keys <= held(second).Keys
  {
    hide Merge, TablesIn;
    assert files[..m] == files[..n] + files[n..m];
    ViewConcat(files[..n], files[n..m], held);
    ViewIsMerge(files[..n], held);
    ViewIsMerge(files[..m], held);
  }

  // ----- reading beside the deletions -----

  /** How far the first compaction's deletions have come when the second one asks for the size
      of a file, and when it last reads from it. The i-th file takes two of their steps: step
      2i + 1 closes it, step 2i + 2 removes it. */
  datatype Look = Look(atStat: nat, atRead: nat)

  /** The file was still open and in place. */
  predicate Undisturbed(n: nat, looks: seq<Look>, i: nat)
    requires i < |looks|
  {
    i < n ==> looks[i].atRead <= 2 * i
  }

  /** The second merge after k files, while the first compaction deletes the first n: a file
      that is removed panics, for `os.Stat` gives no size; one that is closed, or gets closed
      meanwhile, is an error of `ReadAt`. */
  function MergeBeside(n: nat, looks: seq<Look>, tables: seq<Table>, k: nat): Outcome<Table>
    requires k <= |looks| == |tables|
  {
    if k == 0 then Ok(map[])
    else match MergeBeside(n, looks, tables, k - 1)
      case Ok(found) =>
        if Undisturbed(n, looks, k - 1) then Ok(found + tables[k - 1])
        else if looks[k - 1].atStat >= 2 * k then Panic
        else Error
      case other => other
  }

  /** The first file disturbed decides. */
  ghost predicate FirstDisturbed(n: nat, looks: seq<Look>, i: nat) {
    && i < |looks| && !Undisturbed(n, looks, i)
    && forall j :: 0 <= j < i ==> Undisturbed(n, looks, j)
  }

  lemma {:induction false} MergeBesideSpec(n: nat, looks: seq<Look>, tables: seq<Table>, k: nat)
    requires k <= |looks| == |tables|
    ensures (forall i :: 0 <= i < k ==> Undisturbed(n, looks, i)) ==> MergeBeside(n, looks, tables, k) == Ok(Merge(tables[..k]))
    ensures forall i :: 0 <= i < k && FirstDisturbed(n, looks, i) ==>
      MergeBeside(n, looks, tables, k) == if looks[i].atStat >= 2 * i + 2 then Panic else Error
  {
    hide Merge;
    if k == 0 {
      MergeNone(tables[..0]);
    } else {
      MergeBesideSpec(n, looks, tables, k - 1);
      MergeInit(tables, k);
    }
  }

  /** When nothing is deleted meanwhile this is the merge of the files themselves. */
  lemma BesideNothing(disk: Disk, files: seq<FileId>, streams: seq<seq<Entry>>, maxLength: int, n: nat, looks: seq<Look>)
    requires |files| == |streams| == |looks| && forall i :: 0 <= i < |looks| ==> Undisturbed(n, looks, i)
    requires forall i :: 0 <= i < |files| ==>
      Storable(streams[i]) && files[i] in disk && disk[files[i]] == FileBytes(streams[i], maxLength)
    ensures MergeBeside(n, looks, TablesOf(streams), |files|) == CompactedUpTo(disk, files, |files|)
  {
    hide Merge, FileBytes, Storable, CompactedUpTo, MergeBeside, Undisturbed;
    CompactedSpec(disk, files, streams, maxLength, |files|);
    MergeBesideSpec(n, looks, TablesOf(streams), |files|);
    assert streams[..|streams|] == streams && TablesOf(streams)[..|files|] == TablesOf(streams);
  }

  /** A merge that comes to a file that is gone panics. */
  lemma MissingFilePanics(disk: Disk, files: seq<FileId>, streams: seq<seq<Entry>>, maxLength: int, i: nat)
    requires i < |files| && |files| == |streams| && files[i] !in disk
    requires forall j :: 0 <= j < i ==>
      Storable(streams[j]) && files[j] in disk && disk[files[j]] == FileBytes(streams[j], maxLength)
    ensures MergePanics(disk, files)
  {
    hide FileBytes, Storable, FileInto, MergedView;
    CompactedSpec(disk, files, streams, maxLength, i);
    PanicStays(disk, files, i + 1);
  }

  lemma {:induction false} PanicStays(disk: Disk, files: seq<FileId>, n: nat)
    requires n <= |files| && CompactedUpTo(disk, files, n).Panic?
    ensures CompactedUpTo(disk, files, |files|).Panic?
    decreases |files| - n
  {
    if n < |files| {
      PanicStays(disk, files, n + 1);
    }
  }

  /** What the readers, or the readers after a restart, see in the end: the list of the first
      swap if the second compaction panics, as the saved manifest is that of the first swap, and
      the list of the second swap otherwise. */
  ghost function SeenAfter(files: seq<FileId>, n: nat, m: nat, first: FileId, second: FileId, held: Held, merged: Outcome<Table>): Table
    requires n < m <= |files|
  {
    var list1 := [first] + Keep(files, files, IdSet(files[..n]));
    var list2 := [second] + Keep(list1, list1, IdSet(files[..m]));
    if merged.Panic? then ViewBefore(list1, held) else ViewBefore(list2, held)
  }

  /** Two overlapping compactions, the second reading its files while the first deletes its own,
      in any interleaving: nothing changes for the readers if and only if the second panics, or
      it reads all its files undisturbed and none after the first n changed a key they hold, or
      it finds a file closed and every key of the files from n to m is in the first merge with
      the same value or covered by a later file. */
  lemma OverlapBesideIff(files: seq<FileId>, n: nat, m: nat, first: FileId, second: FileId, held: Held, looks: seq<Look>, i: nat)
    requires Distinct(files) && first !in files && n < m <= |files|
    requires |looks| == m && (FirstDisturbed(n, looks, i) || (i == m && forall j :: 0 <= j < m ==> Undisturbed(n, looks, j)))
    requires held(first) == Merge(TablesIn(files[..n], held))
    requires var merged := MergeBeside(n, looks, TablesIn(files[..m], held), m);
      held(second) == if merged.Ok? then merged.value else map[]
    ensures SeenAfter(files, n, m, first, second, held, MergeBeside(n, looks, TablesIn(files[..m], held), m)) == ViewBefore(files, held) <==>
      if i == m then
        (forall k :: k in held(first) && k !in ViewBefore(files[m..], held) ==>
          k in held(second) && held(second)[k] == held(first)[k])
      else (looks[i].atStat >= 2 * i + 2 ||
        forall k :: k in ViewBefore(files[n..m], held) && k !in ViewBefore(files[m..], held) ==>
          k in held(first) && held(first)[k] == ViewBefore(files[n..m], held)[k])
  {
    hide Merge, Keep, TablesIn, ViewBefore, Distinct, MergeBeside, Undisturbed;
    var tables := TablesIn(files[..m], held);
    MergeBesideSpec(n, looks, tables, m);
    assert tables[..m] == tables;
    if i == m {
      OverlapIff(files, n, m, first, second, held);
    } else {
      OverlapEmptyIff(files, n, m, first, second, held);
      FirstSwapKeeps(files, n, first, held);
    }
  }

  lemma FirstSwapKeeps(files: seq<FileId>, n: nat, first: FileId, held: Held)
    requires Distinct(files) && n <= |files| && held(first) == Merge(TablesIn(files[..n], held))
    ensures ViewBefore([first] + Keep(files, files, IdSet(files[..n])), held) == ViewBefore(files, held)
  {
    hide Merge, Keep, TablesIn;
    KeepAfterPrefix(files, files, n);
    assert files[n..|files|] == files[n..];
    ViewConcat([first], files[n..], held);
    ViewOne(first, held);
    assert files == files[..n] + files[n..];
    ViewConcat(files[..n], files[n..], held);
    ViewIsMerge(files[..n], held);
  }
}
