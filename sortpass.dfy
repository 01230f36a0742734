/** The layout pass of JKRArchive::write (sortNodeAndDirs and the first
    half of sortNodesAndDirs) as a function over the arenas, and what it
    establishes about mDirectories and the folder records. */
module SortPass {
  import opened Util
  import opened Names
  import opened Attributes
  import opened Tree

  // ---------------------------------------------------------------------
  // The recursion of the layout pass
  // ---------------------------------------------------------------------

  /** Every child in `kids` is an entry, and every child that the pass
      descends into has a folder node of rank below `r`. */
  ghost predicate EdgesBelow(es: seq<Entry>, nf: nat, rank: seq<nat>, kids: seq<nat>, r: nat)
  {
    forall d :: d in kids ==> d < |es| && (Descends(es[d]) ==>
      es[d].folder.Some? && es[d].folder.value < nf && es[d].folder.value < |rank|
      && rank[es[d].folder.value] < r)
  }

  /** A ranking of the folders that strictly decreases from a folder to the
      folder of each child the pass descends into.  One exists exactly when
      no folder can reach itself through non-shortcut entries and no such
      entry lacks a folder; otherwise sortNodeAndDirs never returns or
      dereferences null. */
  ghost predicate Ranked(es: seq<Entry>, fs: seq<Folder>, rank: seq<nat>)
  {
    RankedShapes(es, Shapes(fs), rank)
  }

  /** A folder node up to the order of its child list and the child range
      the pass records in it. */
  datatype Shape = Shape(kids: multiset<nat>, rest: Folder)

  /** Every folder node's shape. */
  ghost function Shapes(fs: seq<Folder>): (r: seq<Shape>)
    ensures |r| == |fs|
  {
    seq(|fs|, h requires 0 <= h < |fs| =>
      Shape(multiset(fs[h].children), fs[h].(children := [], firstFileOffs := 0, fileCount := 0)))
  }

  /** The ranking condition on the shapes: it does not depend on the
      order of any child list. */
  ghost predicate RankedShapes(es: seq<Entry>, shapes: seq<Shape>, rank: seq<nat>)
  {
    |rank| == |shapes|
    && forall g, d :: 0 <= g < |shapes| && d in shapes[g].kids ==> d < |es| && (Descends(es[d]) ==>
         es[d].folder.Some? && es[d].folder.value < |shapes| && es[d].folder.value < |rank|
         && rank[es[d].folder.value] < rank[g])
  }

  /** In a ranked arena the children of folder g lead below g's rank. */
  lemma RankedEdges(es: seq<Entry>, fs: seq<Folder>, rank: seq<nat>, g: nat)
    requires Ranked(es, fs, rank) && g < |fs|
    ensures EdgesBelow(es, |fs|, rank, fs[g].children, rank[g])
  {
    forall d | d in fs[g].children
      ensures d in Shapes(fs)[g].kids
    {
    }
  }

  /** The state the pass threads: the folder arena, mDirectories as it is
      rebuilt, and (as a record for the proofs) the folders in visit order. */
  datatype Pass = Pass(folders: seq<Folder>, dirs: seq<nat>, order: seq<nat>)

  ghost predicate Extends(p: Pass, q: Pass)
  {
    |p.dirs| <= |q.dirs| && q.dirs[..|p.dirs|] == p.dirs
    && |p.order| <= |q.order| && q.order[..|p.order|] == p.order
  }

  /** The folders visited between p and q. */
  ghost function Visited(p: Pass, q: Pass): seq<nat>
    requires |p.order| <= |q.order|
  {
    q.order[|p.order|..]
  }

  /** The folders visited between p and q all have rank below r. */
  ghost predicate VisitsBelow(p: Pass, q: Pass, rank: seq<nat>, r: int)
    requires |p.order| <= |q.order|
  {
    forall h :: h in Visited(p, q) ==> h < |rank| && rank[h] < r
  }

  /** Folders not visited between p and q are left as they were. */
  ghost predicate OthersUnchanged(p: Pass, q: Pass)
    requires |p.order| <= |q.order| && |q.folders| == |p.folders|
  {
    forall h :: 0 <= h < |p.folders| && h !in Visited(p, q) ==> q.folders[h] == p.folders[h]
  }

  /** Revisiting folder g with a reordering of its child list keeps the
      shapes. */
  lemma VisitKeeps(fs: seq<Folder>, g: nat, kids: seq<nat>, pos: nat)
    requires g < |fs| && multiset(kids) == multiset(fs[g].children)
    ensures Shapes(fs[g := Visit(fs[g], kids, pos)]) == Shapes(fs)
  {
    var gs := fs[g := Visit(fs[g], kids, pos)];
    assert forall h | 0 <= h < |fs| :: Shapes(gs)[h] == Shapes(fs)[h];
  }

  ghost predicate DirsAreEntries(es: seq<Entry>, dirs: seq<nat>)
  {
    forall x :: x in dirs ==> x < |es|
  }

  /** What a stretch of the pass from p to q keeps, when every folder it
      visits has rank below r. */
  ghost predicate Step(es: seq<Entry>, p: Pass, q: Pass, rank: seq<nat>, r: int)
  {
    |q.folders| == |p.folders|
    && Extends(p, q) && VisitsBelow(p, q, rank, r)
    && OthersUnchanged(p, q) && Shapes(q.folders) == Shapes(p.folders)
    && (DirsAreEntries(es, p.dirs) ==> DirsAreEntries(es, q.dirs))
  }

  /** The visits of two consecutive stretches are the visits of the whole. */
  lemma VisitedSplit(p: Pass, m: Pass, q: Pass)
    requires Extends(p, m) && Extends(m, q)
    ensures Extends(p, q)
    ensures Visited(p, q) == Visited(p, m) + Visited(m, q)
  {
    assert q.dirs[..|p.dirs|] == q.dirs[..|m.dirs|][..|p.dirs|];
    assert q.order[..|p.order|] == q.order[..|m.order|][..|p.order|];
    assert q.order[|p.order|..] == q.order[|p.order|..|m.order|] + q.order[|m.order|..];
  }

  lemma StepTrans(es: seq<Entry>, p: Pass, m: Pass, q: Pass, rank: seq<nat>, r1: int, r2: int, r: int)
    requires Step(es, p, m, rank, r1) && Step(es, m, q, rank, r2)
    requires r1 <= r && r2 <= r
    ensures Step(es, p, q, rank, r)
  {
    VisitedSplit(p, m, q);
  }

  /** The folder record a visit leaves behind: the child list with its
      shortcuts last, mFirstFileOffs = mDirectories.size() and mFileCount
      = mChildDirs.size(), each narrowed to its field's width. */
  function Visit(f: Folder, kids: seq<nat>, pos: nat): Folder
  {
    f.(children := kids, firstFileOffs := pos % U32, fileCount := |kids| % U16)
  }

  /** The first part of sortNodeAndDirs(g): reorder g's children, record
      g's slice and append the children to mDirectories. */
  ghost function Enter(es: seq<Entry>, p: Pass, g: nat): Pass
    requires g < |p.folders|
  {
    var kids := Partition(es, p.folders[g].children);
    Pass(p.folders[g := Visit(p.folders[g], kids, |p.dirs|)], p.dirs + kids, p.order + [g])
  }

  /** Enter only reorders g's children. */
  lemma EnterKids(es: seq<Entry>, p: Pass, g: nat)
    requires g < |p.folders|
    ensures var f, kids := p.folders[g], Enter(es, p, g).folders[g].children;
      multiset(kids) == multiset(f.children) && forall d :: d in kids ==> d in f.children
  {
    var old_kids := p.folders[g].children;
    var kids := Partition(es, old_kids);
    PartitionPermutes(es, old_kids);
    forall d | d in kids ensures d in old_kids {
      assert d in multiset(kids);
    }
  }

  lemma EnterStep(es: seq<Entry>, p: Pass, g: nat, rank: seq<nat>)
    requires Ranked(es, p.folders, rank) && g < |p.folders|
    ensures Step(es, p, Enter(es, p, g), rank, rank[g] + 1)
    ensures Shapes(Enter(es, p, g).folders) == Shapes(p.folders)
    ensures Ranked(es, Enter(es, p, g).folders, rank)
    ensures EdgesBelow(es, |p.folders|, rank, Enter(es, p, g).folders[g].children, rank[g])
  {
    var q := Enter(es, p, g);
    EnterKids(es, p, g);
    VisitKeeps(p.folders, g, Partition(es, p.folders[g].children), |p.dirs|);
    assert Visited(p, q) == [g];
    assert Extends(p, q) by {
      assert q.dirs[..|p.dirs|] == p.dirs;
      assert q.order[..|p.order|] == p.order;
    }
    RankedEdges(es, q.folders, rank, g);
  }

  /** sortNodeAndDirs(g): enter g, then visit the folder of every child
      that is a non-shortcut directory, in order. */
  ghost function SortFolder(es: seq<Entry>, p: Pass, g: nat, rank: seq<nat>): (q: Pass)
    requires Ranked(es, p.folders, rank) && g < |p.folders|
    ensures Ranked(es, q.folders, rank) && |q.folders| == |p.folders|
    ensures |p.order| <= |q.order| && |p.dirs| <= |q.dirs|
    decreases rank[g], 1
  {
    var p1 := Enter(es, p, g);
    EnterStep(es, p, g, rank);
    SortKids(es, p1, p1.folders[g].children, 0, rank, rank[g])
  }

  /** The loop of sortNodeAndDirs over the (reordered) children, from the
      i-th on, of a folder whose rank is r. */
  ghost function SortKids(es: seq<Entry>, p: Pass, kids: seq<nat>, i: nat, rank: seq<nat>, r: nat): (q: Pass)
    requires Ranked(es, p.folders, rank) && EdgesBelow(es, |p.folders|, rank, kids, r)
    requires i <= |kids|
    ensures Ranked(es, q.folders, rank) && |q.folders| == |p.folders|
    ensures |p.order| <= |q.order| && |p.dirs| <= |q.dirs|
    decreases r, 0, |kids| - i
  {
    if i == |kids| then p
    else
      assert kids[i] in kids;
      if Descends(es[kids[i]]) then
        var mid := SortFolder(es, p, es[kids[i]].folder.value, rank);
        SortKids(es, mid, kids, i + 1, rank, r)
      else
        SortKids(es, p, kids, i + 1, rank, r)
  }

  /** sortNodeAndDirs(g) only appends to mDirectories and the visit
      order, visits folders of rank at most g's, changes no folder it
      does not visit and of the ones it visits only reorders children and
      sets the child range. */
  lemma {:induction false} SortFolderStep(es: seq<Entry>, p: Pass, g: nat, rank: seq<nat>)
    requires Ranked(es, p.folders, rank) && g < |p.folders|
    ensures Step(es, p, SortFolder(es, p, g, rank), rank, rank[g] + 1)
    decreases rank[g], 1
  {
    var p1 := Enter(es, p, g);
    EnterStep(es, p, g, rank);
    SortKidsStep(es, p1, p1.folders[g].children, 0, rank, rank[g]);
    StepTrans(es, p, p1, SortFolder(es, p, g, rank), rank, rank[g] + 1, rank[g], rank[g] + 1);
  }

  lemma {:induction false} SortKidsStep(es: seq<Entry>, p: Pass, kids: seq<nat>, i: nat, rank: seq<nat>, r: nat)
    requires Ranked(es, p.folders, rank) && EdgesBelow(es, |p.folders|, rank, kids, r)
    requires i <= |kids|
    ensures Step(es, p, SortKids(es, p, kids, i, rank, r), rank, r)
    decreases r, 0, |kids| - i, 1
  {
    if i == |kids| {
      assert Visited(p, p) == [];
    } else {
      assert kids[i] in kids;
      if Descends(es[kids[i]]) {
        DescendStep(es, p, kids, i, rank, r);
      } else {
        assert SortKids(es, p, kids, i, rank, r) == SortKids(es, p, kids, i + 1, rank, r);
        SortKidsStep(es, p, kids, i + 1, rank, r);
      }
    }
  }

  /** The loop's step into the folder of the i-th child. */
  lemma {:induction false} DescendStep(es: seq<Entry>, p: Pass, kids: seq<nat>, i: nat, rank: seq<nat>, r: nat)
    requires Ranked(es, p.folders, rank) && EdgesBelow(es, |p.folders|, rank, kids, r)
    requires i < |kids| && kids[i] < |es| && Descends(es[kids[i]])
    ensures Step(es, p, SortKids(es, p, kids, i, rank, r), rank, r)
    decreases r, 0, |kids| - i, 0
  {
    assert kids[i] in kids;
    var f := es[kids[i]].folder.value;
    var mid := SortFolder(es, p, f, rank);
    var q := SortKids(es, mid, kids, i + 1, rank, r);
    assert SortKids(es, p, kids, i, rank, r) == q;
    SortFolderStep(es, p, f, rank);
    SortKidsStep(es, mid, kids, i + 1, rank, r);
    StepTrans(es, p, mid, q, rank, rank[f] + 1, r, r);
  }

  /** One iteration of the loop over the children: it descends into the
      i-th child's folder exactly when the child is a non-shortcut
      directory, and the rest of the loop starts from the state that leaves. */
  lemma SortKidsUnfold(es: seq<Entry>, p: Pass, kids: seq<nat>, i: nat, rank: seq<nat>, r: nat)
    requires Ranked(es, p.folders, rank) && EdgesBelow(es, |p.folders|, rank, kids, r)
    requires i < |kids|
    ensures kids[i] < |es|
    ensures Descends(es[kids[i]]) ==>
      var g := es[kids[i]].folder.value;
      g < |p.folders| && rank[g] < r
      && Ranked(es, SortFolder(es, p, g, rank).folders, rank)
      && |SortFolder(es, p, g, rank).folders| == |p.folders|
      && SortKids(es, p, kids, i, rank, r) == SortKids(es, SortFolder(es, p, g, rank), kids, i + 1, rank, r)
    ensures !Descends(es[kids[i]]) ==> SortKids(es, p, kids, i, rank, r) == SortKids(es, p, kids, i + 1, rank, r)
  {
    assert kids[i] in kids;
  }

  // ---------------------------------------------------------------------
  // What the pass establishes
  // ---------------------------------------------------------------------

  /** sortNodeAndDirs(g) visits g first; g is not visited again below it,
      so it keeps the record Enter gave it: its children with the
      shortcuts last and the slice starting where mDirectories ended. */
  lemma SortFolderEntry(es: seq<Entry>, p: Pass, g: nat, rank: seq<nat>)
    requires Ranked(es, p.folders, rank) && g < |p.folders|
    ensures var q := SortFolder(es, p, g, rank);
      |p.order| < |q.order| && q.order[|p.order|] == g
      && q.folders[g] == Visit(p.folders[g], Partition(es, p.folders[g].children), |p.dirs|)
  {
    var p1 := Enter(es, p, g);
    EnterStep(es, p, g, rank);
    var q := SortKids(es, p1, p1.folders[g].children, 0, rank, rank[g]);
    SortKidsStep(es, p1, p1.folders[g].children, 0, rank, rank[g]);
    assert g !in Visited(p1, q);
    assert q.order[..|p1.order|] == p1.order;
    assert q.order[|p.order|] == q.order[..|p1.order|][|p.order|];
  }

  /** Folder h has its slice: mDirectories[firstFileOffs .. firstFileOffs +
      fileCount) is its child list, and fileCount is the list's length. */
  ghost predicate HasSlice(q: Pass, h: nat)
    requires h < |q.folders|
  {
    var f := q.folders[h];
    f.firstFileOffs + |f.children| <= |q.dirs|
    && q.dirs[f.firstFileOffs .. f.firstFileOffs + |f.children|] == f.children
    && f.fileCount == |f.children| % U16
  }

  ghost predicate AllSliced(p: Pass, q: Pass)
    requires |p.order| <= |q.order|
  {
    forall h :: h in Visited(p, q) ==> h < |q.folders| && HasSlice(q, h)
  }

  lemma SlicedTrans(p: Pass, m: Pass, q: Pass)
    requires Extends(p, m) && Extends(m, q)
    requires |m.folders| == |p.folders| && |q.folders| == |m.folders|
    requires OthersUnchanged(m, q)
    requires AllSliced(p, m) && AllSliced(m, q)
    ensures Extends(p, q) && AllSliced(p, q)
  {
    VisitedSplit(p, m, q);
    forall h | h in Visited(p, q)
      ensures h < |q.folders| && HasSlice(q, h)
    {
      if h !in Visited(m, q) {
        assert h in Visited(p, m);
        var f := m.folders[h];
        assert HasSlice(m, h) && q.folders[h] == f;
        var a, b := f.firstFileOffs, f.firstFileOffs + |f.children|;
        assert q.dirs[a..b] == q.dirs[..|m.dirs|][a..b];
      }
    }
  }

  lemma EnterSliced(es: seq<Entry>, p: Pass, g: nat)
    requires g < |p.folders|
    requires |Enter(es, p, g).dirs| < U32
    ensures |p.order| <= |Enter(es, p, g).order| && AllSliced(p, Enter(es, p, g))
  {
    var q := Enter(es, p, g);
    var c := q.folders[g].children;
    assert Visited(p, q) == [g];
    assert q.folders[g].firstFileOffs == |p.dirs|;
    assert q.dirs[|p.dirs|..|p.dirs| + |c|] == c;
    assert HasSlice(q, g);
  }

  /** Every folder sortNodeAndDirs(g) visits ends up with its slice, as
      long as mDirectories stays within the 32-bit range of
      mFirstFileOffs.  No assumption about sharing is needed: a folder
      reached twice keeps the slice of its last visit. */
  lemma {:induction false} SortFolderSliced(es: seq<Entry>, p: Pass, g: nat, rank: seq<nat>)
    requires Ranked(es, p.folders, rank) && g < |p.folders|
    requires |SortFolder(es, p, g, rank).dirs| < U32
    ensures AllSliced(p, SortFolder(es, p, g, rank))
    decreases rank[g], 1
  {
    var p1 := Enter(es, p, g);
    EnterStep(es, p, g, rank);
    var q := SortKids(es, p1, p1.folders[g].children, 0, rank, rank[g]);
    SortKidsStep(es, p1, p1.folders[g].children, 0, rank, rank[g]);
    EnterSliced(es, p, g);
    SortKidsSliced(es, p1, p1.folders[g].children, 0, rank, rank[g]);
    SlicedTrans(p, p1, q);
  }

  lemma {:induction false} SortKidsSliced(es: seq<Entry>, p: Pass, kids: seq<nat>, i: nat, rank: seq<nat>, r: nat)
    requires Ranked(es, p.folders, rank) && EdgesBelow(es, |p.folders|, rank, kids, r)
    requires i <= |kids|
    requires |SortKids(es, p, kids, i, rank, r).dirs| < U32
    ensures AllSliced(p, SortKids(es, p, kids, i, rank, r))
    decreases r, 0, |kids| - i, 1
  {
    if i == |kids| {
      assert Visited(p, p) == [];
    } else {
      assert kids[i] in kids;
      if Descends(es[kids[i]]) {
        DescendSliced(es, p, kids, i, rank, r);
      } else {
        assert SortKids(es, p, kids, i, rank, r) == SortKids(es, p, kids, i + 1, rank, r);
        SortKidsSliced(es, p, kids, i + 1, rank, r);
      }
    }
  }

  /** The loop's step into the folder of the i-th child. */
  lemma {:induction false} DescendSliced(es: seq<Entry>, p: Pass, kids: seq<nat>, i: nat, rank: seq<nat>, r: nat)
    requires Ranked(es, p.folders, rank) && EdgesBelow(es, |p.folders|, rank, kids, r)
    requires i < |kids| && kids[i] < |es| && Descends(es[kids[i]])
    requires |SortKids(es, p, kids, i, rank, r).dirs| < U32
    ensures AllSliced(p, SortKids(es, p, kids, i, rank, r))
    decreases r, 0, |kids| - i, 0
  {
    assert kids[i] in kids;
    var f := es[kids[i]].folder.value;
    var mid := SortFolder(es, p, f, rank);
    var q := SortKids(es, mid, kids, i + 1, rank, r);
    assert SortKids(es, p, kids, i, rank, r) == q;
    SortFolderStep(es, p, f, rank);
    SortKidsStep(es, mid, kids, i + 1, rank, r);
    SortFolderSliced(es, p, f, rank);
    SortKidsSliced(es, mid, kids, i + 1, rank, r);
    SlicedTrans(p, mid, q);
  }

  // ---------------------------------------------------------------------
  // Tiling: mDirectories is the child lists in visit order
  // ---------------------------------------------------------------------

  /** The child lists of the folders in `order`, one after another. */
  ghost function Flat(fs: seq<Folder>, order: seq<nat>): seq<nat>
  {
    if |order| == 0 then []
    else (if order[0] < |fs| then fs[order[0]].children else []) + Flat(fs, order[1..])
  }

  lemma {:induction false} FlatAppend(fs: seq<Folder>, a: seq<nat>, b: seq<nat>)
    ensures Flat(fs, a + b) == Flat(fs, a) + Flat(fs, b)
  {
    if |a| == 0 {
      assert a + b == b;
    } else {
      assert (a + b)[1..] == a[1..] + b;
      FlatAppend(fs, a[1..], b);
    }
  }

  /** Flat reads only the folders it lists. */
  lemma {:induction false} FlatFrame(fs: seq<Folder>, gs: seq<Folder>, order: seq<nat>)
    requires forall k :: 0 <= k < |order| ==> order[k] < |fs| && order[k] < |gs| && fs[order[k]] == gs[order[k]]
    ensures Flat(fs, order) == Flat(gs, order)
  {
    if |order| > 0 {
      FlatFrame(fs, gs, order[1..]);
    }
  }

  ghost predicate NoDup(s: seq<nat>)
  {
    forall i, j :: 0 <= i < j < |s| ==> s[i] != s[j]
  }

  lemma NoDupSplit(a: seq<nat>, b: seq<nat>)
    requires NoDup(a + b)
    ensures NoDup(a) && NoDup(b)
    ensures forall h :: h in a ==> h !in b
  {
    forall i, j | 0 <= i < j < |a|
      ensures a[i] != a[j]
    {
      assert a[i] == (a + b)[i] && a[j] == (a + b)[j];
    }
    forall i, j | 0 <= i < j < |b|
      ensures b[i] != b[j]
    {
      assert b[i] == (a + b)[|a| + i] && b[j] == (a + b)[|a| + j];
    }
    forall h | h in a
      ensures h !in b
    {
      var i :| 0 <= i < |a| && a[i] == h;
      forall j | 0 <= j < |b|
        ensures b[j] != h
      {
        assert (a + b)[i] == h && (a + b)[|a| + j] == b[j];
      }
    }
  }

  /** The entries `d`, which start at position `base` of mDirectories,
      are the child lists of the folders in `v` one after another, and
      each of those folders records where its list starts: no gaps and no
      overlaps. */
  ghost predicate Laid(fs: seq<Folder>, v: seq<nat>, base: nat, d: seq<nat>)
    decreases |v|
  {
    if |v| == 0 then d == []
    else
      v[0] < |fs| && fs[v[0]].firstFileOffs == base % U32
      && |fs[v[0]].children| <= |d| && d[..|fs[v[0]].children|] == fs[v[0]].children
      && Laid(fs, v[1..], base + |fs[v[0]].children|, d[|fs[v[0]].children|..])
  }

  /** From p to q, mDirectories grew by the child lists of the visited
      folders, laid out in visit order. */
  ghost predicate Tiled(p: Pass, q: Pass)
    requires |p.order| <= |q.order| && |p.dirs| <= |q.dirs|
  {
    Laid(q.folders, Visited(p, q), |p.dirs|, q.dirs[|p.dirs|..])
  }

  /** A laid-out region is the concatenation of the child lists. */
  lemma {:induction false} LaidIsFlat(fs: seq<Folder>, v: seq<nat>, base: nat, d: seq<nat>)
    requires Laid(fs, v, base, d)
    ensures d == Flat(fs, v)
    decreases |v|
  {
    if |v| > 0 {
      var c := fs[v[0]].children;
      LaidIsFlat(fs, v[1..], base + |c|, d[|c|..]);
      assert d == c + d[|c|..];
    }
  }

  /** Laid reads only the folders it lists. */
  lemma {:induction false} LaidFrame(fs: seq<Folder>, gs: seq<Folder>, v: seq<nat>, base: nat, d: seq<nat>)
    requires Laid(fs, v, base, d)
    requires forall j :: 0 <= j < |v| ==> v[j] < |fs| && v[j] < |gs| && gs[v[j]] == fs[v[j]]
    ensures Laid(gs, v, base, d)
    decreases |v|
  {
    if |v| > 0 {
      var c := fs[v[0]].children;
      LaidFrame(fs, gs, v[1..], base + |c|, d[|c|..]);
    }
  }

  /** Two adjacent laid-out regions form one. */
  lemma {:induction false} LaidAppend(fs: seq<Folder>, a: seq<nat>, b: seq<nat>, base: nat, da: seq<nat>, db: seq<nat>)
    requires Laid(fs, a, base, da) && Laid(fs, b, base + |da|, db)
    ensures Laid(fs, a + b, base, da + db)
    decreases |a|
  {
    if |a| == 0 {
      assert a + b == b && da + db == db;
    } else {
      var c := fs[a[0]].children;
      assert (a + b)[0] == a[0] && (a + b)[1..] == a[1..] + b;
      assert (da + db)[..|c|] == da[..|c|];
      assert (da + db)[|c|..] == da[|c|..] + db;
      LaidAppend(fs, a[1..], b, base + |c|, da[|c|..], db);
    }
  }

  lemma EnterTiled(es: seq<Entry>, p: Pass, g: nat)
    requires g < |p.folders|
    ensures Extends(p, Enter(es, p, g)) && Tiled(p, Enter(es, p, g))
  {
    var q := Enter(es, p, g);
    var c := q.folders[g].children;
    assert Visited(p, q) == [g];
    assert q.dirs[..|p.dirs|] == p.dirs;
    assert q.order[..|p.order|] == p.order;
    assert q.dirs[|p.dirs|..] == c;
    assert [g][1..] == [];
    assert c[|c|..] == [];
  }

  lemma TiledTrans(p: Pass, m: Pass, q: Pass)
    requires Extends(p, m) && Extends(m, q)
    requires |q.folders| == |m.folders|
    requires OthersUnchanged(m, q)
    requires Tiled(p, m) && Tiled(m, q)
    requires NoDup(Visited(p, m) + Visited(m, q))
    ensures Extends(p, q) && Tiled(p, q)
  {
    VisitedSplit(p, m, q);
    var vm, vq := Visited(p, m), Visited(m, q);
    var dm, dq := m.dirs[|p.dirs|..], q.dirs[|m.dirs|..];
    NoDupSplit(vm, vq);
    LaidIsFlat(m.folders, vm, |p.dirs|, dm);
    LaidUntouched(m.folders, q.folders, vm, vq, |p.dirs|, dm);
    assert |p.dirs| + |dm| == |m.dirs|;
    LaidAppend(q.folders, vm, vq, |p.dirs|, dm, dq);
    assert q.dirs[|p.dirs|..] == dm + dq;
  }

  /** A region laid out before a later stretch of the pass stays laid
      out when that stretch visits none of its folders. */
  lemma LaidUntouched(fs: seq<Folder>, gs: seq<Folder>, v: seq<nat>, w: seq<nat>, base: nat, d: seq<nat>)
    requires Laid(fs, v, base, d) && |gs| == |fs|
    requires forall h :: 0 <= h < |fs| && h !in w ==> gs[h] == fs[h]
    requires forall h :: h in v ==> h !in w
    ensures Laid(gs, v, base, d)
  {
    forall j | 0 <= j < |v|
      ensures v[j] < |gs| && gs[v[j]] == fs[v[j]]
    {
      assert v[j] in v;
      LaidMembers(fs, v, base, d, j);
    }
    LaidFrame(fs, gs, v, base, d);
  }

  lemma {:induction false} LaidMembers(fs: seq<Folder>, v: seq<nat>, base: nat, d: seq<nat>, j: nat)
    requires Laid(fs, v, base, d) && j < |v|
    ensures v[j] < |fs|
    decreases |v|
  {
    if j > 0 {
      var c := fs[v[0]].children;
      LaidMembers(fs, v[1..], base + |c|, d[|c|..], j - 1);
    }
  }

  /** When sortNodeAndDirs(g) reaches no folder twice, the entries it
      appends are the child lists of the folders it visits, in visit
      order, each slice starting where the previous one ends. */
  lemma {:induction false} SortFolderTiled(es: seq<Entry>, p: Pass, g: nat, rank: seq<nat>)
    requires Ranked(es, p.folders, rank) && g < |p.folders|
    requires NoDup(Visited(p, SortFolder(es, p, g, rank)))
    ensures Tiled(p, SortFolder(es, p, g, rank))
    decreases rank[g], 1
  {
    var p1 := Enter(es, p, g);
    EnterStep(es, p, g, rank);
    var q := SortKids(es, p1, p1.folders[g].children, 0, rank, rank[g]);
    SortKidsStep(es, p1, p1.folders[g].children, 0, rank, rank[g]);
    VisitedSplit(p, p1, q);
    NoDupSplit(Visited(p, p1), Visited(p1, q));
    EnterTiled(es, p, g);
    SortKidsTiled(es, p1, p1.folders[g].children, 0, rank, rank[g]);
    VisitedSplit(p, p1, q);
    TiledTrans(p, p1, q);
  }

  lemma {:induction false} SortKidsTiled(es: seq<Entry>, p: Pass, kids: seq<nat>, i: nat, rank: seq<nat>, r: nat)
    requires Ranked(es, p.folders, rank) && EdgesBelow(es, |p.folders|, rank, kids, r)
    requires i <= |kids|
    requires NoDup(Visited(p, SortKids(es, p, kids, i, rank, r)))
    ensures Tiled(p, SortKids(es, p, kids, i, rank, r))
    decreases r, 0, |kids| - i, 1
  {
    if i == |kids| {
      assert Visited(p, p) == [];
      assert p.dirs + [] == p.dirs;
    } else {
      assert kids[i] in kids;
      if Descends(es[kids[i]]) {
        DescendTiled(es, p, kids, i, rank, r);
      } else {
        assert SortKids(es, p, kids, i, rank, r) == SortKids(es, p, kids, i + 1, rank, r);
        SortKidsTiled(es, p, kids, i + 1, rank, r);
      }
    }
  }

  /** The loop's step into the folder of the i-th child. */
  lemma {:induction false} DescendTiled(es: seq<Entry>, p: Pass, kids: seq<nat>, i: nat, rank: seq<nat>, r: nat)
    requires Ranked(es, p.folders, rank) && EdgesBelow(es, |p.folders|, rank, kids, r)
    requires i < |kids| && kids[i] < |es| && Descends(es[kids[i]])
    requires NoDup(Visited(p, SortKids(es, p, kids, i, rank, r)))
    ensures Tiled(p, SortKids(es, p, kids, i, rank, r))
    decreases r, 0, |kids| - i, 0
  {
    assert kids[i] in kids;
    var f := es[kids[i]].folder.value;
    var mid := SortFolder(es, p, f, rank);
    var q := SortKids(es, mid, kids, i + 1, rank, r);
    assert SortKids(es, p, kids, i, rank, r) == q;
    SortFolderStep(es, p, f, rank);
    SortKidsStep(es, mid, kids, i + 1, rank, r);
    VisitedSplit(p, mid, q);
    NoDupSplit(Visited(p, mid), Visited(mid, q));
    SortFolderTiled(es, p, f, rank);
    SortKidsTiled(es, mid, kids, i + 1, rank, r);
    TiledTrans(p, mid, q);
  }

  // ---------------------------------------------------------------------
  // Reach: every folder below a visited folder is visited
  // ---------------------------------------------------------------------

  /** Every non-shortcut directory among the children of a folder visited
      between p and q has its own folder visited between p and q. */
  ghost predicate Closed(es: seq<Entry>, p: Pass, q: Pass)
    requires |p.order| <= |q.order|
  {
    forall h, d :: h in Visited(p, q) && h < |q.folders| && d in q.folders[h].children
      && d < |es| && Descends(es[d]) && es[d].folder.Some?
      ==> es[d].folder.value in Visited(p, q)
  }

  /** The folders of the descending children in kids[i..] are visited
      between p and q. */
  ghost predicate Reaches(es: seq<Entry>, p: Pass, q: Pass, kids: seq<nat>, i: nat)
    requires |p.order| <= |q.order|
  {
    forall j :: i <= j < |kids| && kids[j] < |es| && Descends(es[kids[j]]) && es[kids[j]].folder.Some?
      ==> es[kids[j]].folder.value in Visited(p, q)
  }

  lemma ClosedTrans(es: seq<Entry>, p: Pass, m: Pass, q: Pass)
    requires Extends(p, m) && Extends(m, q)
    requires |q.folders| == |m.folders|
    requires OthersUnchanged(m, q)
    requires Closed(es, p, m) && Closed(es, m, q)
    ensures Extends(p, q) && Closed(es, p, q)
  {
    VisitedSplit(p, m, q);
    forall h, d | h in Visited(p, q) && h < |q.folders| && d in q.folders[h].children
      && d < |es| && Descends(es[d]) && es[d].folder.Some?
      ensures es[d].folder.value in Visited(p, q)
    {
      if h !in Visited(m, q) {
        assert q.folders[h] == m.folders[h];
      }
    }
  }

  /** Entering g and then walking g's children closes the stretch: g's
      own child list is the one the walk covered. */
  lemma EnterClosed(es: seq<Entry>, p: Pass, p1: Pass, q: Pass, g: nat)
    requires Extends(p, p1) && Extends(p1, q)
    requires g < |p1.folders| && |q.folders| == |p1.folders|
    requires Visited(p, p1) == [g] && g !in Visited(p1, q)
    requires OthersUnchanged(p1, q)
    requires Closed(es, p1, q) && Reaches(es, p1, q, p1.folders[g].children, 0)
    ensures Closed(es, p, q)
  {
    VisitedSplit(p, p1, q);
    var kids := p1.folders[g].children;
    assert q.folders[g] == p1.folders[g];
    forall h, d | h in Visited(p, q) && h < |q.folders| && d in q.folders[h].children
      && d < |es| && Descends(es[d]) && es[d].folder.Some?
      ensures es[d].folder.value in Visited(p, q)
    {
      if h == g {
        var j :| 0 <= j < |kids| && kids[j] == d;
      }
    }
  }

  /** sortNodeAndDirs(g) visits, with g, everything below g: the pass
      leaves out no folder it can reach through non-shortcut entries. */
  lemma {:induction false} SortFolderClosed(es: seq<Entry>, p: Pass, g: nat, rank: seq<nat>)
    requires Ranked(es, p.folders, rank) && g < |p.folders|
    ensures Closed(es, p, SortFolder(es, p, g, rank))
    decreases rank[g], 1
  {
    var p1 := Enter(es, p, g);
    EnterStep(es, p, g, rank);
    var kids := p1.folders[g].children;
    var q := SortKids(es, p1, kids, 0, rank, rank[g]);
    SortKidsStep(es, p1, kids, 0, rank, rank[g]);
    SortKidsClosed(es, p1, kids, 0, rank, rank[g]);
    assert Visited(p, p1) == [g];
    assert g !in Visited(p1, q);
    EnterClosed(es, p, p1, q, g);
  }

  lemma {:induction false} SortKidsClosed(es: seq<Entry>, p: Pass, kids: seq<nat>, i: nat, rank: seq<nat>, r: nat)
    requires Ranked(es, p.folders, rank) && EdgesBelow(es, |p.folders|, rank, kids, r)
    requires i <= |kids|
    ensures Closed(es, p, SortKids(es, p, kids, i, rank, r))
    ensures Reaches(es, p, SortKids(es, p, kids, i, rank, r), kids, i)
    decreases r, 0, |kids| - i, 1
  {
    if i == |kids| {
      assert Visited(p, p) == [];
    } else {
      assert kids[i] in kids;
      if Descends(es[kids[i]]) {
        DescendClosed(es, p, kids, i, rank, r);
      } else {
        var q := SortKids(es, p, kids, i + 1, rank, r);
        assert SortKids(es, p, kids, i, rank, r) == q;
        SortKidsClosed(es, p, kids, i + 1, rank, r);
        ReachesSkip(es, p, q, kids, i);
      }
    }
  }

  /** A child the pass does not descend into adds nothing to reach. */
  lemma ReachesSkip(es: seq<Entry>, p: Pass, q: Pass, kids: seq<nat>, i: nat)
    requires |p.order| <= |q.order| && i < |kids| && kids[i] < |es| && !Descends(es[kids[i]])
    requires Reaches(es, p, q, kids, i + 1)
    ensures Reaches(es, p, q, kids, i)
  {
  }

  /** The loop's step into the folder of the i-th child. */
  lemma {:induction false} DescendClosed(es: seq<Entry>, p: Pass, kids: seq<nat>, i: nat, rank: seq<nat>, r: nat)
    requires Ranked(es, p.folders, rank) && EdgesBelow(es, |p.folders|, rank, kids, r)
    requires i < |kids| && kids[i] < |es| && Descends(es[kids[i]])
    ensures Closed(es, p, SortKids(es, p, kids, i, rank, r))
    ensures Reaches(es, p, SortKids(es, p, kids, i, rank, r), kids, i)
    decreases r, 0, |kids| - i, 0
  {
    assert kids[i] in kids;
    var f := es[kids[i]].folder.value;
    var mid := SortFolder(es, p, f, rank);
    var q := SortKids(es, mid, kids, i + 1, rank, r);
    assert SortKids(es, p, kids, i, rank, r) == q;
    SortFolderStep(es, p, f, rank);
    SortKidsStep(es, mid, kids, i + 1, rank, r);
    SortFolderClosed(es, p, f, rank);
    SortFolderEntry(es, p, f, rank);
    SortKidsClosed(es, mid, kids, i + 1, rank, r);
    ClosedTrans(es, p, mid, q);
    VisitedSplit(p, mid, q);
    assert f in Visited(p, mid);
    forall j | i <= j < |kids| && kids[j] < |es| && Descends(es[kids[j]]) && es[kids[j]].folder.Some?
      ensures es[kids[j]].folder.value in Visited(p, q)
    {
      if j > i {
        assert es[kids[j]].folder.value in Visited(mid, q);
      }
    }
  }

  // ---------------------------------------------------------------------
  // Child lists after the pass
  // ---------------------------------------------------------------------

  /** Every folder visited between p and q has its p-time child list with
      the shortcuts moved last; the others keep theirs (OthersUnchanged). */
  ghost predicate KidsSorted(es: seq<Entry>, p: Pass, q: Pass)
    requires |p.order| <= |q.order|
  {
    forall h :: h in Visited(p, q) && h < |p.folders| && h < |q.folders|
      ==> q.folders[h].children == Partition(es, p.folders[h].children)
  }

  lemma KidsSortedTrans(es: seq<Entry>, p: Pass, m: Pass, q: Pass)
    requires Extends(p, m) && Extends(m, q)
    requires |m.folders| == |p.folders| && |q.folders| == |m.folders|
    requires OthersUnchanged(p, m) && OthersUnchanged(m, q)
    requires KidsSorted(es, p, m) && KidsSorted(es, m, q)
    ensures Extends(p, q) && KidsSorted(es, p, q)
  {
    VisitedSplit(p, m, q);
    PartitionIdempotent(es);
    forall h | h in Visited(p, q) && h < |p.folders| && h < |q.folders|
      ensures q.folders[h].children == Partition(es, p.folders[h].children)
    {
      if h !in Visited(m, q) {
        assert q.folders[h] == m.folders[h];
      } else if h !in Visited(p, m) {
        assert m.folders[h] == p.folders[h];
      }
    }
  }

  lemma {:induction false} SortFolderKids(es: seq<Entry>, p: Pass, g: nat, rank: seq<nat>)
    requires Ranked(es, p.folders, rank) && g < |p.folders|
    ensures KidsSorted(es, p, SortFolder(es, p, g, rank))
    decreases rank[g], 1
  {
    var p1 := Enter(es, p, g);
    EnterStep(es, p, g, rank);
    var q := SortKids(es, p1, p1.folders[g].children, 0, rank, rank[g]);
    assert Visited(p, p1) == [g];
    SortKidsStep(es, p1, p1.folders[g].children, 0, rank, rank[g]);
    SortKidsKids(es, p1, p1.folders[g].children, 0, rank, rank[g]);
    KidsSortedTrans(es, p, p1, q);
  }

  lemma {:induction false} SortKidsKids(es: seq<Entry>, p: Pass, kids: seq<nat>, i: nat, rank: seq<nat>, r: nat)
    requires Ranked(es, p.folders, rank) && EdgesBelow(es, |p.folders|, rank, kids, r)
    requires i <= |kids|
    ensures KidsSorted(es, p, SortKids(es, p, kids, i, rank, r))
    decreases r, 0, |kids| - i, 1
  {
    if i == |kids| {
      assert Visited(p, p) == [];
    } else {
      assert kids[i] in kids;
      if Descends(es[kids[i]]) {
        DescendKids(es, p, kids, i, rank, r);
      } else {
        assert SortKids(es, p, kids, i, rank, r) == SortKids(es, p, kids, i + 1, rank, r);
        SortKidsKids(es, p, kids, i + 1, rank, r);
      }
    }
  }

  /** The loop's step into the folder of the i-th child. */
  lemma {:induction false} DescendKids(es: seq<Entry>, p: Pass, kids: seq<nat>, i: nat, rank: seq<nat>, r: nat)
    requires Ranked(es, p.folders, rank) && EdgesBelow(es, |p.folders|, rank, kids, r)
    requires i < |kids| && kids[i] < |es| && Descends(es[kids[i]])
    ensures KidsSorted(es, p, SortKids(es, p, kids, i, rank, r))
    decreases r, 0, |kids| - i, 0
  {
    assert kids[i] in kids;
    var f := es[kids[i]].folder.value;
    var mid := SortFolder(es, p, f, rank);
    var q := SortKids(es, mid, kids, i + 1, rank, r);
    assert SortKids(es, p, kids, i, rank, r) == q;
    SortFolderStep(es, p, f, rank);
    SortKidsStep(es, mid, kids, i + 1, rank, r);
    SortFolderKids(es, p, f, rank);
    SortKidsKids(es, mid, kids, i + 1, rank, r);
    KidsSortedTrans(es, p, mid, q);
  }

  // ---------------------------------------------------------------------
  // sortNodesAndDirs: the walk from the root, then the finishing loop
  // ---------------------------------------------------------------------

  /** mDirectories.clear() followed by sortNodeAndDirs(mRoot). */
  ghost function SortFromRoot(es: seq<Entry>, fs: seq<Folder>, root: nat, rank: seq<nat>): Pass
    requires Ranked(es, fs, rank) && root < |fs|
  {
    SortFolder(es, Pass(fs, [], []), root, rank)
  }

  /** What the walk from the root establishes: the root comes first and
      owns the slice starting at 0; every visited folder owns its slice
      and has its shortcuts last; every folder reachable from the root is
      visited; and, when no folder is reached twice, mDirectories is the
      child lists of the visited folders laid out in visit order with no
      gaps and no overlaps. */
  lemma LayoutFromRoot(es: seq<Entry>, fs: seq<Folder>, root: nat, rank: seq<nat>)
    requires Ranked(es, fs, rank) && root < |fs|
    ensures var q := SortFromRoot(es, fs, root, rank);
      |q.folders| == |fs| && |q.order| > 0 && q.order[0] == root
      && q.folders[root].firstFileOffs == 0
      && (forall d :: d in q.dirs ==> d < |es|)
      && (forall h :: 0 <= h < |fs| ==>
            q.folders[h].children == if h in q.order then Partition(es, fs[h].children) else fs[h].children)
      && (forall h, d ::
            (h in q.order && h < |fs| && d in q.folders[h].children
             && d < |es| && Descends(es[d]) && es[d].folder.Some?) ==> es[d].folder.value in q.order)
      && (|q.dirs| < U32 ==> forall h :: h in q.order ==> h < |fs| && HasSlice(q, h))
      && (NoDup(q.order) ==> Laid(q.folders, q.order, 0, q.dirs) && q.dirs == Flat(q.folders, q.order))
  {
    var p := Pass(fs, [], []);
    var q := SortFromRoot(es, fs, root, rank);
    assert Visited(p, q) == q.order;
    assert q.dirs[0..] == q.dirs;
    SortFolderStep(es, p, root, rank);
    SortFolderEntry(es, p, root, rank);
    SortFolderKids(es, p, root, rank);
    SortFolderClosed(es, p, root, rank);
    if |q.dirs| < U32 {
      SortFolderSliced(es, p, root, rank);
    }
    if NoDup(q.order) {
      SortFolderTiled(es, p, root, rank);
      LaidIsFlat(q.folders, q.order, 0, q.dirs);
    }
  }

  /** getVectorIndex(mFolderNodes, node): mFolderNodes holds folder i at
      position i, so a folder in the arena is found at its own index. */
  function FolderIndex(nf: nat, f: nat): (r: int)
    ensures 0 <= f < nf ==> r == f
    ensures f >= nf ==> r == -1
  {
    if f < nf then f else -1
  }

  /** The finishing loop's effect on one entry: a directory records its
      folder's index (or 0xFFFFFFFF without a folder); any other entry
      records its position in mDirectories when file ids are synced. */
  function Stamp(e: Entry, nf: nat, dirs: seq<nat>, d: nat, sync: bool): (r: Entry)
    ensures r.name == e.name && r.attr == e.attr && r.folder == e.folder && r.parent == e.parent
    ensures r.dataSize == e.dataSize && r.payload == e.payload && r.hash == e.hash && r.nameOffs == e.nameOffs
    ensures IsDirectory(e.attr) ==>
      r.nodeIdx == e.nodeIdx && r.data == if e.folder.Some? then FolderIndex(nf, e.folder.value) % U32 else NoFolder
    ensures !IsDirectory(e.attr) ==>
      r.data == e.data && r.nodeIdx == if sync then GetVectorIndex(dirs, d) % U16 else e.nodeIdx
  {
    if IsDirectory(e.attr) then
      e.(data := if e.folder.Some? then FolderIndex(nf, e.folder.value) % U32 else NoFolder)
    else if sync then
      e.(nodeIdx := GetVectorIndex(dirs, d) % U16)
    else e
  }

  /** Stamping reads only fields it leaves alone, so stamping an entry
      again changes nothing (an entry listed twice is stamped twice). */
  lemma StampIdempotent(e: Entry, nf: nat, dirs: seq<nat>, d: nat, sync: bool)
    ensures Stamp(Stamp(e, nf, dirs, d, sync), nf, dirs, d, sync) == Stamp(e, nf, dirs, d, sync)
  {
  }

  /** A directory entry whose folder is in the arena records that folder's
      index, which the reader maps back to the same folder. */
  lemma StampFolderRoundTrip(e: Entry, nf: nat, dirs: seq<nat>, d: nat, sync: bool)
    requires IsDirectory(e.attr) && e.folder.Some? && e.folder.value < nf && nf < U32
    ensures Stamp(e, nf, dirs, d, sync).data == e.folder.value
    ensures Stamp(e, nf, dirs, d, sync).data != NoFolder
  {
  }

  /** With synced ids, a file listed once in mDirectories records its own
      position there. */
  lemma StampFileIndex(e: Entry, nf: nat, dirs: seq<nat>, k: nat)
    requires !IsDirectory(e.attr) && k < |dirs| && k < U16 && NoDup(dirs)
    ensures Stamp(e, nf, dirs, dirs[k], true).nodeIdx == k
  {
    GetVectorIndexOfDistinct(dirs, k);
  }

  /** The bucket the finishing loop files an entry under: none for a
      directory, otherwise the file's preload type. */
  function Target(e: Entry): PreloadType
  {
    if IsDirectory(e.attr) then NoPreload else GetPreloadType(e.attr)
  }

  /** The entries of `dirs`, in order, that the finishing loop files under
      preload target t: files (non-directories) whose getPreloadType is t. */
  function Bucket(es: seq<Entry>, dirs: seq<nat>, t: PreloadType): (r: seq<nat>)
    ensures |r| <= |dirs|
  {
    if |dirs| == 0 then []
    else
      (if dirs[0] < |es| && Target(es[dirs[0]]) == t then [dirs[0]] else [])
      + Bucket(es, dirs[1..], t)
  }

  lemma {:induction false} BucketAppend(es: seq<Entry>, a: seq<nat>, b: seq<nat>, t: PreloadType)
    ensures Bucket(es, a + b, t) == Bucket(es, a, t) + Bucket(es, b, t)
  {
    if |a| == 0 {
      assert a + b == b;
    } else {
      var h := if a[0] < |es| && Target(es[a[0]]) == t then [a[0]] else [];
      assert (a + b)[0] == a[0] && (a + b)[1..] == a[1..] + b;
      assert Bucket(es, a + b, t) == h + Bucket(es, a[1..] + b, t);
      BucketAppend(es, a[1..], b, t);
      assert h + (Bucket(es, a[1..], t) + Bucket(es, b, t)) == (h + Bucket(es, a[1..], t)) + Bucket(es, b, t);
    }
  }

  /** An entry of mDirectories is filed under t exactly when it is a file
      of preload type t; so each file lands in the one bucket its type
      names, and a file of type NONE in none of the three. */
  lemma {:induction false} BucketMembers(es: seq<Entry>, dirs: seq<nat>, t: PreloadType, d: nat)
    requires d < |es|
    ensures d in Bucket(es, dirs, t) <==>
      d in dirs && Target(es[d]) == t
  {
    if |dirs| > 0 {
      BucketMembers(es, dirs[1..], t, d);
      assert dirs == [dirs[0]] + dirs[1..];
    }
  }

  /** Only entries of the arena are filed. */
  lemma {:induction false} BucketInRange(es: seq<Entry>, dirs: seq<nat>, t: PreloadType)
    ensures forall d :: d in Bucket(es, dirs, t) ==> d < |es|
  {
    if |dirs| > 0 {
      BucketInRange(es, dirs[1..], t);
    }
  }
}
