/** What reading gives back of what writing laid out: the child ranges
    JKRArchive::write records in the folder records, walked by the link
    pass of JKRArchive::read over the entries it reads back in order,
    hand each folder exactly the child list the layout pass gave it, and
    make each entry a child of the one folder whose list holds it. */
module RoundTrip {
  import opened Util
  import opened Names
  import opened Tree
  import opened Records
  import opened Reader
  import opened SortPass

  /** The entries read enters mDirectories: record k becomes entry k. */
  function Iota(n: nat): (r: seq<nat>)
    ensures |r| == n && forall k :: 0 <= k < n ==> r[k] == k
  {
    if n == 0 then [] else Iota(n - 1) + [n - 1]
  }

  /** Read entry positions taken back to the written entries they stand
      for: read entry k is the record write emitted for mDirectories[k]. */
  function Through(ks: seq<nat>, dirs: seq<nat>): (r: seq<nat>)
    requires forall j :: 0 <= j < |ks| ==> ks[j] < |dirs|
    ensures |r| == |ks| && forall j :: 0 <= j < |ks| ==> r[j] == dirs[ks[j]]
  {
    seq(|ks|, j requires 0 <= j < |ks| => dirs[ks[j]])
  }

  /** Positions a .. b - 1 of the read entries are the numbers a .. b - 1. */
  lemma {:induction false} IotaSlots(n: nat, a: nat, b: nat)
    requires a <= b <= n
    ensures |Slots(Iota(n), a, b)| == b - a
    ensures forall j :: 0 <= j < b - a ==> Slots(Iota(n), a, b)[j] == a + j
    decreases b - a
  {
    if a < b {
      IotaSlots(n, a, b - 1);
    }
  }

  lemma {:induction false} IotaInSlots(n: nat, a: nat, b: nat, k: nat)
    requires a <= b <= n
    ensures InSlots(Iota(n), a, b, k) <==> a <= k < b
    decreases b - a
  {
    if a < b {
      IotaInSlots(n, a, b - 1, k);
    }
  }

  // ---------------------------------------------------------------------
  // Where a laid-out folder's slice lies
  // ---------------------------------------------------------------------

  /** In a region laid out from `base`, each listed folder's slice lies
      inside the region. */
  lemma {:induction false} LaidBounds(fs: seq<Folder>, v: seq<nat>, base: nat, d: seq<nat>)
    requires Laid(fs, v, base, d) && base + |d| < U32
    ensures forall i :: 0 <= i < |v| ==>
      v[i] < |fs| && base <= fs[v[i]].firstFileOffs
      && fs[v[i]].firstFileOffs + |fs[v[i]].children| <= base + |d|
    decreases |v|
  {
    if |v| > 0 {
      var c := fs[v[0]].children;
      LaidBounds(fs, v[1..], base + |c|, d[|c|..]);
      forall i | 0 < i < |v|
        ensures v[i] < |fs| && base <= fs[v[i]].firstFileOffs
          && fs[v[i]].firstFileOffs + |fs[v[i]].children| <= base + |d|
      {
        assert v[i] == v[1..][i - 1];
      }
    }
  }

  /** In a region laid out from `base`, the slice a listed folder's
      first-child position points to is its child list. */
  lemma {:induction false} LaidRun(fs: seq<Folder>, v: seq<nat>, base: nat, d: seq<nat>, i: nat)
    requires Laid(fs, v, base, d) && base + |d| < U32 && i < |v|
    ensures v[i] < |fs| && base <= fs[v[i]].firstFileOffs
    ensures fs[v[i]].firstFileOffs - base + |fs[v[i]].children| <= |d|
    ensures d[fs[v[i]].firstFileOffs - base .. fs[v[i]].firstFileOffs - base + |fs[v[i]].children|]
      == fs[v[i]].children
    decreases |v|, 1
  {
    if i == 0 {
      assert base % U32 == base;
      assert d[0 .. |fs[v[0]].children|] == d[..|fs[v[0]].children|];
    } else {
      LaidRunBehind(fs, v, base, d, i);
    }
  }

  /** LaidRun for a folder after the first: its slice lies in the rest of
      the region. */
  lemma {:induction false} LaidRunBehind(fs: seq<Folder>, v: seq<nat>, base: nat, d: seq<nat>, i: nat)
    requires Laid(fs, v, base, d) && base + |d| < U32 && 0 < i < |v|
    ensures v[i] < |fs| && base <= fs[v[i]].firstFileOffs
    ensures fs[v[i]].firstFileOffs - base + |fs[v[i]].children| <= |d|
    ensures d[fs[v[i]].firstFileOffs - base .. fs[v[i]].firstFileOffs - base + |fs[v[i]].children|]
      == fs[v[i]].children
    decreases |v|, 0
  {
    var c0 := fs[v[0]].children;
    var rest := d[|c0|..];
    LaidRun(fs, v[1..], base + |c0|, rest, i - 1);
    assert v[1..][i - 1] == v[i];
    var x, n := fs[v[i]].firstFileOffs - (base + |c0|), |fs[v[i]].children|;
    assert rest[x .. x + n] == d[|c0| + x .. |c0| + x + n];
  }

  /** A position inside a folder's slice holds one of its children. */
  lemma LaidHolds(fs: seq<Folder>, v: seq<nat>, d: seq<nat>, i: nat, p: nat)
    requires Laid(fs, v, 0, d) && |d| < U32 && i < |v| && v[i] < |fs|
    requires fs[v[i]].firstFileOffs <= p < fs[v[i]].firstFileOffs + |fs[v[i]].children|
    ensures p < |d| && d[p] in fs[v[i]].children
  {
    LaidRun(fs, v, 0, d, i);
    var a := fs[v[i]].firstFileOffs;
    assert d[p] == d[a .. a + |fs[v[i]].children|][p - a];
  }

  /** Slices are laid out in visit order: an earlier folder's slice ends
      before a later one's begins. */
  lemma {:induction false} LaidOrdered(fs: seq<Folder>, v: seq<nat>, base: nat, d: seq<nat>)
    requires Laid(fs, v, base, d) && base + |d| < U32
    ensures forall i, j :: 0 <= i < j < |v| ==>
      v[i] < |fs| && v[j] < |fs|
      && fs[v[i]].firstFileOffs + |fs[v[i]].children| <= fs[v[j]].firstFileOffs
    decreases |v|
  {
    if |v| > 0 {
      var c := fs[v[0]].children;
      LaidBounds(fs, v[1..], base + |c|, d[|c|..]);
      LaidOrdered(fs, v[1..], base + |c|, d[|c|..]);
      forall i, j | 0 <= i < j < |v|
        ensures v[i] < |fs| && v[j] < |fs|
          && fs[v[i]].firstFileOffs + |fs[v[i]].children| <= fs[v[j]].firstFileOffs
      {
        assert v[j] == v[1..][j - 1];
        if i > 0 {
          assert v[i] == v[1..][i - 1];
        }
      }
    }
  }

  /** Every position of a laid-out region lies in the slice of one of the
      listed folders. */
  lemma {:induction false} LaidCovers(fs: seq<Folder>, v: seq<nat>, base: nat, d: seq<nat>, p: nat) returns (i: nat)
    requires Laid(fs, v, base, d) && base + |d| < U32 && base <= p < base + |d|
    ensures i < |v| && v[i] < |fs|
      && fs[v[i]].firstFileOffs <= p < fs[v[i]].firstFileOffs + |fs[v[i]].children|
    decreases |v|
  {
    var c := fs[v[0]].children;
    if p < base + |c| {
      i := 0;
    } else {
      var i' := LaidCovers(fs, v[1..], base + |c|, d[|c|..], p);
      assert v[i' + 1] == v[1..][i'];
      i := i' + 1;
    }
  }

  // ---------------------------------------------------------------------
  // The link pass over a written layout
  // ---------------------------------------------------------------------

  /** A folder record written for a folder whose slice lies inside n
      entries (n below 2^32, the list shorter than 2^16): the folder read
      from it ranges over exactly the positions of that slice. */
  lemma ReadRange(f: Folder, rf: Folder, n: nat)
    requires rf == FolderOfRecord(FolderRecordOf(f), rf.name, rf.isRoot)
    requires f.firstFileOffs + |f.children| <= n < U32 && |f.children| < U16
    ensures RangeFits(rf, n)
    ensures Range(rf, Iota(n)) == Slots(Iota(n), f.firstFileOffs, f.firstFileOffs + |f.children|)
    ensures forall k: nat :: Covers(rf, Iota(n), k) <==> f.firstFileOffs <= k < f.firstFileOffs + |f.children|
  {
    var a, b := f.firstFileOffs as nat, f.firstFileOffs + |f.children|;
    assert RangeEnd(rf) == b;
    forall k: nat ensures Covers(rf, Iota(n), k) <==> a <= k < b {
      IotaInSlots(n, a, b, k);
    }
  }

  /** rs are the folders read back from the folder records of a layout
      q that visited every folder, laid out its child lists from position
      0 on, stays below 2^32 entries and keeps every list below 2^16. */
  ghost predicate ReadBackOf(q: Pass, rs: seq<Folder>)
  {
    Laid(q.folders, q.order, 0, q.dirs) && |q.dirs| < U32
    && (forall g :: 0 <= g < |q.folders| ==> g in q.order && |q.folders[g].children| < U16)
    && |rs| == |q.folders|
    && forall g :: 0 <= g < |rs| ==> rs[g] == FolderOfRecord(FolderRecordOf(q.folders[g]), rs[g].name, g == 0)
  }

  /** The range of read folder g covers exactly its written slice. */
  lemma ReadFolderCovers(q: Pass, rs: seq<Folder>, g: nat)
    requires ReadBackOf(q, rs) && g < |rs|
    ensures RangeFits(rs[g], |q.dirs|)
    ensures forall k: nat :: Covers(rs[g], Iota(|q.dirs|), k) <==>
      q.folders[g].firstFileOffs <= k < q.folders[g].firstFileOffs + |q.folders[g].children|
    ensures q.folders[g].firstFileOffs + |q.folders[g].children| <= |q.dirs|
    ensures Range(rs[g], Iota(|q.dirs|))
      == Slots(Iota(|q.dirs|), q.folders[g].firstFileOffs, q.folders[g].firstFileOffs + |q.folders[g].children|)
  {
    LaidBounds(q.folders, q.order, 0, q.dirs);
    assert g < |q.folders| && g in q.order;
    var i :| 0 <= i < |q.order| && q.order[i] == g;
    ReadRange(q.folders[g], rs[g], |q.dirs|);
  }

  /** The range of read folder g is its written slice, and it stands for
      g's child list. */
  lemma ReadFolderRange(q: Pass, rs: seq<Folder>, g: nat)
    requires ReadBackOf(q, rs) && g < |rs|
    ensures RangeFits(rs[g], |q.dirs|)
    ensures var r := Range(rs[g], Iota(|q.dirs|));
      (forall j :: 0 <= j < |r| ==> r[j] < |q.dirs|) && Through(r, q.dirs) == q.folders[g].children
  {
    var fs, n := q.folders, |q.dirs|;
    ReadFolderCovers(q, rs, g);
    assert g < |q.folders| && g in q.order;
    var i :| 0 <= i < |q.order| && q.order[i] == g;
    var a, c := fs[g].firstFileOffs, fs[g].children;
    IotaSlots(n, a, a + |c|);
    LaidRun(fs, q.order, 0, q.dirs, i);
    ThroughRun(q.dirs, Range(rs[g], Iota(n)), c, a);
  }

  /** The positions a, a + 1, ... of a run of d holding c, taken through
      d, give c. */
  lemma ThroughRun(d: seq<nat>, r: seq<nat>, c: seq<nat>, a: nat)
    requires |r| == |c| && a + |c| <= |d| && d[a .. a + |c|] == c
    requires forall j :: 0 <= j < |r| ==> r[j] == a + j
    ensures (forall j :: 0 <= j < |r| ==> r[j] < |d|) && Through(r, d) == c
  {
    forall j | 0 <= j < |r|
      ensures r[j] < |d| && d[r[j]] == c[j]
    {
      assert d[a + j] == d[a .. a + |c|][j];
    }
    assert Through(r, d) == c;
  }

  /** Every read folder's range fits the read entries. */
  lemma ReadAllFit(q: Pass, rs: seq<Folder>)
    requires ReadBackOf(q, rs)
    ensures AllFit(rs, |q.dirs|)
  {
    forall g | 0 <= g < |rs|
      ensures RangeFits(rs[g], |q.dirs|)
    {
      ReadFolderCovers(q, rs, g);
    }
  }

  /** No read folder but the one whose slice holds position k covers k. */
  lemma OnlyOwnerCovers(q: Pass, rs: seq<Folder>, k: nat, i: nat)
    requires ReadBackOf(q, rs) && i < |q.order| && q.order[i] < |q.folders|
    requires q.folders[q.order[i]].firstFileOffs <= k < q.folders[q.order[i]].firstFileOffs + |q.folders[q.order[i]].children|
    ensures AllFit(rs, |q.dirs|)
    ensures forall g :: 0 <= g < |rs| && g != q.order[i] ==> !Covers(rs[g], Iota(|q.dirs|), k)
  {
    ReadAllFit(q, rs);
    forall g | 0 <= g < |rs| && g != q.order[i]
      ensures !Covers(rs[g], Iota(|q.dirs|), k)
    {
      ReadFolderCovers(q, rs, g);
      assert g < |q.folders| && g in q.order;
      var j :| 0 <= j < |q.order| && q.order[j] == g;
      SlicesApart(q.folders, q.order, q.dirs, i, j, k);
    }
  }

  /** Two different folders of a laid-out region have disjoint slices. */
  lemma SlicesApart(fs: seq<Folder>, v: seq<nat>, d: seq<nat>, i: nat, j: nat, k: nat)
    requires Laid(fs, v, 0, d) && |d| < U32 && i < |v| && j < |v| && v[i] != v[j] && v[i] < |fs|
    requires fs[v[i]].firstFileOffs <= k < fs[v[i]].firstFileOffs + |fs[v[i]].children|
    ensures v[j] < |fs|
    ensures !(fs[v[j]].firstFileOffs <= k < fs[v[j]].firstFileOffs + |fs[v[j]].children|)
  {
    LaidOrdered(fs, v, 0, d);
    assert i != j;
  }

  /** Read entry k is reached by exactly one folder's link loop: the one
      whose written slice holds position k. */
  lemma ReadEntryOwner(q: Pass, rs: seq<Folder>, k: nat)
    requires ReadBackOf(q, rs) && k < |q.dirs|
    ensures AllFit(rs, |q.dirs|)
    ensures var o := Owner(rs, Iota(|q.dirs|), |rs|, k);
      o.Some? && o.value < |rs| && Covers(rs[o.value], Iota(|q.dirs|), k)
      && q.dirs[k] in q.folders[o.value].children
      && forall g :: 0 <= g < |rs| && g != o.value ==> !Covers(rs[g], Iota(|q.dirs|), k)
  {
    var fs, n := q.folders, |q.dirs|;
    var i := LaidCovers(fs, q.order, 0, q.dirs, k);
    var h := q.order[i];
    OnlyOwnerCovers(q, rs, k, i);
    ReadFolderCovers(q, rs, h);
    assert Covers(rs[h], Iota(n), k);
    OwnerIsOnly(rs, Iota(n), h, k);
    LaidHolds(fs, q.order, q.dirs, i, k);
  }

  /** Reading back a written layout in which every folder was visited:
      the link pass hands each folder the entries that stand for its
      child list, in order, and makes every entry the child of the one
      folder whose list holds it. */
  lemma LinkInvertsLayout(q: Pass, rs: seq<Folder>)
    requires Laid(q.folders, q.order, 0, q.dirs) && |q.dirs| < U32
    requires forall g :: 0 <= g < |q.folders| ==> g in q.order && |q.folders[g].children| < U16
    requires |rs| == |q.folders|
    requires forall g :: 0 <= g < |rs| ==> rs[g] == FolderOfRecord(FolderRecordOf(q.folders[g]), rs[g].name, g == 0)
    ensures AllFit(rs, |q.dirs|)
    ensures forall g :: 0 <= g < |rs| ==>
      var r := Range(rs[g], Iota(|q.dirs|));
      (forall j :: 0 <= j < |r| ==> r[j] < |q.dirs|) && Through(r, q.dirs) == q.folders[g].children
    ensures forall k :: 0 <= k < |q.dirs| ==>
      var o := Owner(rs, Iota(|q.dirs|), |rs|, k);
      o.Some? && o.value < |rs| && Covers(rs[o.value], Iota(|q.dirs|), k)
      && q.dirs[k] in q.folders[o.value].children
      && forall g :: 0 <= g < |rs| && g != o.value ==> !Covers(rs[g], Iota(|q.dirs|), k)
  {
    forall g | 0 <= g < |rs|
      ensures RangeFits(rs[g], |q.dirs|)
      && var r := Range(rs[g], Iota(|q.dirs|));
      (forall j :: 0 <= j < |r| ==> r[j] < |q.dirs|) && Through(r, q.dirs) == q.folders[g].children
    {
      ReadFolderRange(q, rs, g);
    }
    forall k | 0 <= k < |q.dirs|
      ensures var o := Owner(rs, Iota(|q.dirs|), |rs|, k);
        o.Some? && o.value < |rs| && Covers(rs[o.value], Iota(|q.dirs|), k)
        && q.dirs[k] in q.folders[o.value].children
        && forall g :: 0 <= g < |rs| && g != o.value ==> !Covers(rs[g], Iota(|q.dirs|), k)
    {
      ReadEntryOwner(q, rs, k);
    }
  }

  /** Writing an archive whose folders are all reached once from the
      root, and reading it back: each folder read back is handed the
      entries standing for its original children with the shortcuts
      moved last, and every entry read back gets as parent the folder
      whose list holds it. */
  lemma LayoutReadsBack(es: seq<Entry>, fs: seq<Folder>, root: nat, rank: seq<nat>, rs: seq<Folder>)
    requires Ranked(es, fs, rank) && root < |fs|
    requires NoDup(SortFromRoot(es, fs, root, rank).order) && |SortFromRoot(es, fs, root, rank).dirs| < U32
    requires forall g :: 0 <= g < |fs| ==> g in SortFromRoot(es, fs, root, rank).order && |fs[g].children| < U16
    requires |rs| == |fs|
    requires forall g :: 0 <= g < |rs| ==>
      rs[g] == FolderOfRecord(FolderRecordOf(SortFromRoot(es, fs, root, rank).folders[g]), rs[g].name, g == 0)
    ensures var q := SortFromRoot(es, fs, root, rank);
      AllFit(rs, |q.dirs|)
      && (forall g :: 0 <= g < |rs| ==>
            var r := Range(rs[g], Iota(|q.dirs|));
            (forall j :: 0 <= j < |r| ==> r[j] < |q.dirs|) && Through(r, q.dirs) == Partition(es, fs[g].children))
      && forall k :: 0 <= k < |q.dirs| ==>
           var o := Owner(rs, Iota(|q.dirs|), |rs|, k);
           o.Some? && o.value < |rs| && q.dirs[k] in Partition(es, fs[o.value].children)
  {
    var q := SortFromRoot(es, fs, root, rank);
    LayoutFromRoot(es, fs, root, rank);
    assert Laid(q.folders, q.order, 0, q.dirs) && |q.folders| == |fs|;
    forall g | 0 <= g < |fs|
      ensures q.folders[g].children == Partition(es, fs[g].children)
      && |q.folders[g].children| < U16
    {
      assert g in q.order;
      PartitionPermutes(es, fs[g].children);
    }
    LinkInvertsLayout(q, rs);
    forall k | 0 <= k < |q.dirs|
      ensures var o := Owner(rs, Iota(|q.dirs|), |rs|, k);
        o.Some? && o.value < |rs| && q.dirs[k] in Partition(es, fs[o.value].children)
    {
      var o := Owner(rs, Iota(|q.dirs|), |rs|, k);
      assert q.dirs[k] in q.folders[o.value].children;
    }
  }
}
