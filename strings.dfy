/** collectStrings: the walk of JKRArchive::write that gives every entry
    (and every folder it descends into) an offset in the string table,
    against a string pool known only through its two operations: `write`,
    which takes the pool and a name and gives the next pool and an offset,
    and `find`, which gives the offset of a name already in the pool. */
module Strings {
  import opened Util
  import opened Names
  import opened Attributes
  import opened Tree
  import opened SortPass

  /** The state the walk threads: the entry arena, the folder arena and
      the pool. */
  datatype Collected<P> = Collected(es: seq<Entry>, fs: seq<Folder>, pool: P)

  /** The entries with their name offsets blanked out. */
  function PlainEntries(es: seq<Entry>): (r: seq<Entry>)
    ensures |r| == |es|
  {
    seq(|es|, d requires 0 <= d < |es| => es[d].(nameOffs := 0))
  }

  /** The folders with their name offsets blanked out. */
  function PlainFolders(fs: seq<Folder>): (r: seq<Folder>)
    ensures |r| == |fs|
  {
    seq(|fs|, g requires 0 <= g < |fs| => fs[g].(nameOffs := 0))
  }

  /** From a to b only name offsets changed: every entry and every folder
      keeps everything else. */
  predicate Renamed<P>(a: Collected<P>, b: Collected<P>)
  {
    PlainEntries(a.es) == PlainEntries(b.es) && PlainFolders(a.fs) == PlainFolders(b.fs)
  }

  lemma RenameEntry(es: seq<Entry>, d: nat, o: u16)
    requires d < |es|
    ensures PlainEntries(es[d := es[d].(nameOffs := o)]) == PlainEntries(es)
  {
    assert forall k | 0 <= k < |es| :: PlainEntries(es[d := es[d].(nameOffs := o)])[k] == PlainEntries(es)[k];
  }

  lemma RenameFolder(fs: seq<Folder>, g: nat, o: u32)
    requires g < |fs|
    ensures PlainFolders(fs[g := fs[g].(nameOffs := o)]) == PlainFolders(fs)
  {
    assert forall k | 0 <= k < |fs| :: PlainFolders(fs[g := fs[g].(nameOffs := o)])[k] == PlainFolders(fs)[k];
  }

  /** Renaming keeps the ranking: it reads names, attributes, folders and
      child lists, none of which a renaming touches. */
  lemma RenamedRanked<P>(a: Collected<P>, b: Collected<P>, rank: seq<nat>)
    requires Renamed(a, b) && Ranked(a.es, a.fs, rank)
    ensures Ranked(b.es, b.fs, rank)
  {
    forall h | 0 <= h < |a.fs|
      ensures Shapes(a.fs)[h].kids == Shapes(b.fs)[h].kids
    {
      assert PlainFolders(a.fs)[h] == PlainFolders(b.fs)[h];
    }
    forall g, d | 0 <= g < |b.fs| && d in Shapes(b.fs)[g].kids
      ensures d < |b.es| && (Descends(b.es[d]) ==>
        b.es[d].folder.Some? && b.es[d].folder.value < |b.fs| && b.es[d].folder.value < |rank|
        && rank[b.es[d].folder.value] < rank[g])
    {
      assert PlainEntries(a.es)[d] == PlainEntries(b.es)[d];
    }
  }

  lemma RenamedEdges<P>(a: Collected<P>, b: Collected<P>, rank: seq<nat>, kids: seq<nat>, r: nat)
    requires Renamed(a, b) && EdgesBelow(a.es, |a.fs|, rank, kids, r)
    ensures EdgesBelow(b.es, |b.fs|, rank, kids, r)
  {
    forall d | d in kids
      ensures d < |b.es| && (Descends(b.es[d]) ==>
        b.es[d].folder.Some? && b.es[d].folder.value < |b.fs| && b.es[d].folder.value < |rank|
        && rank[b.es[d].folder.value] < r)
    {
      assert PlainEntries(a.es)[d] == PlainEntries(b.es)[d];
    }
  }

  /** The offset a child gets: a shortcut looked up with `find` when
      names are not reduced, otherwise a fresh `write` of its name. */
  function Offset<P>(pool: P, e: Entry, reduce: bool, write: (P, Name) -> (P, nat), find: (P, Name) -> nat): (P, nat)
  {
    if reduce || !IsShortcutEntry(e) then write(pool, e.name) else (pool, find(pool, e.name))
  }

  /** collectStrings(g): the loop over g's children. */
  ghost function CollectFolder<P>(s: Collected<P>, g: nat, reduce: bool,
                                  write: (P, Name) -> (P, nat), find: (P, Name) -> nat, rank: seq<nat>): (r: Collected<P>)
    requires Ranked(s.es, s.fs, rank) && g < |s.fs|
    ensures Renamed(s, r)
    decreases rank[g], 1
  {
    RankedEdges(s.es, s.fs, rank, g);
    CollectKids(s, s.fs[g].children, 0, reduce, write, find, rank, rank[g])
  }

  /** The i-th child takes its offset, and a non-shortcut directory hands
      the same offset to its folder before the walk descends into it. */
  ghost function Label<P>(s: Collected<P>, d: nat, reduce: bool,
                          write: (P, Name) -> (P, nat), find: (P, Name) -> nat): (r: Collected<P>)
    requires d < |s.es| && (Descends(s.es[d]) ==> s.es[d].folder.Some? && s.es[d].folder.value < |s.fs|)
    ensures Renamed(s, r)
  {
    var e := s.es[d];
    var (pool, offs) := Offset(s.pool, e, reduce, write, find);
    var es := s.es[d := e.(nameOffs := offs % U16)];
    RenameEntry(s.es, d, offs % U16);
    if Descends(e) then
      var f := e.folder.value;
      RenameFolder(s.fs, f, offs % U16);
      Collected(es, s.fs[f := s.fs[f].(nameOffs := offs % U16)], pool)
    else Collected(es, s.fs, pool)
  }

  /** The i-th child of kids from state s: labelled, then, for a
      non-shortcut directory, the walk through its folder. */
  ghost function Child<P>(s: Collected<P>, kids: seq<nat>, i: nat, reduce: bool,
                          write: (P, Name) -> (P, nat), find: (P, Name) -> nat,
                          rank: seq<nat>, r: nat): (t: Collected<P>)
    requires Ranked(s.es, s.fs, rank) && EdgesBelow(s.es, |s.fs|, rank, kids, r) && i < |kids|
    ensures Renamed(s, t)
    decreases r, 0, |kids| - i, 0
  {
    var d := kids[i];
    assert d in kids;
    var s1 := Label(s, d, reduce, write, find);
    if Descends(s.es[d]) then
      RenamedRanked(s, s1, rank);
      var t := CollectFolder(s1, s.es[d].folder.value, reduce, write, find, rank);
      t
    else s1
  }

  /** The loop of collectStrings over kids, from the i-th child on, in a
      folder of rank r. */
  ghost function CollectKids<P>(s: Collected<P>, kids: seq<nat>, i: nat, reduce: bool,
                                write: (P, Name) -> (P, nat), find: (P, Name) -> nat,
                                rank: seq<nat>, r: nat): (t: Collected<P>)
    requires Ranked(s.es, s.fs, rank) && EdgesBelow(s.es, |s.fs|, rank, kids, r) && i <= |kids|
    ensures Renamed(s, t)
    decreases r, 0, |kids| - i, 1
  {
    if i == |kids| then s
    else
      var s2 := Child(s, kids, i, reduce, write, find, rank, r);
      RenamedRanked(s, s2, rank);
      RenamedEdges(s, s2, rank, kids, r);
      var t := CollectKids(s2, kids, i + 1, reduce, write, find, rank, r);
      t
  }

  /** One iteration of the loop, as the method takes it: the i-th child
      is an entry, the state after labelling it is still ranked, and a
      child the walk does not descend into ends the iteration there. */
  lemma LabelUnfold<P>(s: Collected<P>, kids: seq<nat>, i: nat, reduce: bool,
                       write: (P, Name) -> (P, nat), find: (P, Name) -> nat, rank: seq<nat>, r: nat)
    requires Ranked(s.es, s.fs, rank) && EdgesBelow(s.es, |s.fs|, rank, kids, r) && i < |kids|
    ensures kids[i] < |s.es|
    ensures Descends(s.es[kids[i]]) ==>
      s.es[kids[i]].folder.Some? && s.es[kids[i]].folder.value < |s.fs| && rank[s.es[kids[i]].folder.value] < r
    ensures var s1 := Label(s, kids[i], reduce, write, find);
      Ranked(s1.es, s1.fs, rank) && EdgesBelow(s1.es, |s1.fs|, rank, kids, r)
      && (!Descends(s.es[kids[i]]) ==>
            CollectKids(s, kids, i, reduce, write, find, rank, r)
            == CollectKids(s1, kids, i + 1, reduce, write, find, rank, r))
  {
    assert kids[i] in kids;
    var s1 := Label(s, kids[i], reduce, write, find);
    RenamedRanked(s, s1, rank);
    RenamedEdges(s, s1, rank, kids, r);
  }

  /** The rest of an iteration for a child the walk descends into: the
      walk through its folder, after which the loop goes on ranked. */
  lemma DescendUnfold<P>(s: Collected<P>, kids: seq<nat>, i: nat, reduce: bool,
                         write: (P, Name) -> (P, nat), find: (P, Name) -> nat, rank: seq<nat>, r: nat)
    requires Ranked(s.es, s.fs, rank) && EdgesBelow(s.es, |s.fs|, rank, kids, r) && i < |kids|
    requires kids[i] < |s.es| && Descends(s.es[kids[i]])
    requires var s1 := Label(s, kids[i], reduce, write, find);
      s.es[kids[i]].folder.Some? && s.es[kids[i]].folder.value < |s1.fs| && Ranked(s1.es, s1.fs, rank)
    ensures var s1 := Label(s, kids[i], reduce, write, find);
      var s2 := CollectFolder(s1, s.es[kids[i]].folder.value, reduce, write, find, rank);
      Ranked(s2.es, s2.fs, rank) && EdgesBelow(s2.es, |s2.fs|, rank, kids, r)
      && CollectKids(s, kids, i, reduce, write, find, rank, r)
         == CollectKids(s2, kids, i + 1, reduce, write, find, rank, r)
  {
    assert kids[i] in kids;
    var s1 := Label(s, kids[i], reduce, write, find);
    RenamedEdges(s, s1, rank, kids, r);
    var s2 := CollectFolder(s1, s.es[kids[i]].folder.value, reduce, write, find, rank);
    RenamedRanked(s1, s2, rank);
    RenamedEdges(s1, s2, rank, kids, r);
  }

  // ---------------------------------------------------------------------
  // Which entries the walk reaches
  // ---------------------------------------------------------------------

  /** The entries below folder g: its children and, through each child
      that is a directory and not a shortcut, the entries below that
      child's folder. */
  ghost function Below(es: seq<Entry>, fs: seq<Folder>, g: nat, rank: seq<nat>): set<nat>
    requires Ranked(es, fs, rank) && g < |fs|
    decreases rank[g], 1
  {
    RankedEdges(es, fs, rank, g);
    BelowKids(es, fs, fs[g].children, 0, rank, rank[g])
  }

  /** The i-th child of kids and what lies below it. */
  ghost function BelowChild(es: seq<Entry>, fs: seq<Folder>, kids: seq<nat>, i: nat, rank: seq<nat>, r: nat): set<nat>
    requires Ranked(es, fs, rank) && EdgesBelow(es, |fs|, rank, kids, r) && i < |kids|
    decreases r, 0, |kids| - i, 0
  {
    assert kids[i] in kids;
    var d := kids[i];
    {d} + if Descends(es[d]) then Below(es, fs, es[d].folder.value, rank) else {}
  }

  /** The children of kids from the i-th on and what lies below them. */
  ghost function BelowKids(es: seq<Entry>, fs: seq<Folder>, kids: seq<nat>, i: nat, rank: seq<nat>, r: nat): set<nat>
    requires Ranked(es, fs, rank) && EdgesBelow(es, |fs|, rank, kids, r) && i <= |kids|
    decreases r, 0, |kids| - i, 1
  {
    if i == |kids| then {} else BelowChild(es, fs, kids, i, rank, r) + BelowKids(es, fs, kids, i + 1, rank, r)
  }

  /** Every child of g is below g, and so is everything below the folder
      of each child that is a directory and not a shortcut. */
  lemma BelowChildren(es: seq<Entry>, fs: seq<Folder>, g: nat, rank: seq<nat>)
    requires Ranked(es, fs, rank) && g < |fs|
    ensures forall d :: d in fs[g].children ==> d in Below(es, fs, g, rank) && d < |es| && (Descends(es[d]) ==>
      es[d].folder.Some? && es[d].folder.value < |fs| && Below(es, fs, es[d].folder.value, rank) <= Below(es, fs, g, rank))
  {
    RankedEdges(es, fs, rank, g);
    forall i | 0 <= i < |fs[g].children|
      ensures BelowChild(es, fs, fs[g].children, i, rank, rank[g]) <= Below(es, fs, g, rank)
    {
      BelowKidsHas(es, fs, fs[g].children, 0, i, rank, rank[g]);
    }
    forall d | d in fs[g].children
      ensures d in Below(es, fs, g, rank) && d < |es| && (Descends(es[d]) ==>
        es[d].folder.Some? && es[d].folder.value < |fs| && Below(es, fs, es[d].folder.value, rank) <= Below(es, fs, g, rank))
    {
      var i :| 0 <= i < |fs[g].children| && fs[g].children[i] == d;
      assert BelowChild(es, fs, fs[g].children, i, rank, rank[g]) <= Below(es, fs, g, rank);
    }
  }

  lemma {:induction false} BelowKidsHas(es: seq<Entry>, fs: seq<Folder>, kids: seq<nat>, i: nat, j: nat, rank: seq<nat>, r: nat)
    requires Ranked(es, fs, rank) && EdgesBelow(es, |fs|, rank, kids, r) && i <= j < |kids|
    ensures BelowChild(es, fs, kids, j, rank, r) <= BelowKids(es, fs, kids, i, rank, r)
    decreases j - i
  {
    if i < j {
      BelowKidsHas(es, fs, kids, i + 1, j, rank, r);
    }
  }

  /** Renaming does not move anything below a folder. */
  lemma {:induction false} BelowRenamed<P>(a: Collected<P>, b: Collected<P>, g: nat, rank: seq<nat>)
    requires Renamed(a, b) && Ranked(a.es, a.fs, rank) && g < |a.fs|
    ensures Ranked(b.es, b.fs, rank) && Below(a.es, a.fs, g, rank) == Below(b.es, b.fs, g, rank)
    decreases rank[g], 1
  {
    RenamedRanked(a, b, rank);
    RankedEdges(a.es, a.fs, rank, g);
    RankedEdges(b.es, b.fs, rank, g);
    assert PlainFolders(a.fs)[g] == PlainFolders(b.fs)[g];
    KidsRenamed(a, b, a.fs[g].children, 0, rank, rank[g]);
  }

  lemma {:induction false} KidsRenamed<P>(a: Collected<P>, b: Collected<P>, kids: seq<nat>, i: nat, rank: seq<nat>, r: nat)
    requires Renamed(a, b) && Ranked(a.es, a.fs, rank) && EdgesBelow(a.es, |a.fs|, rank, kids, r) && i <= |kids|
    ensures Ranked(b.es, b.fs, rank) && EdgesBelow(b.es, |b.fs|, rank, kids, r)
    ensures BelowKids(a.es, a.fs, kids, i, rank, r) == BelowKids(b.es, b.fs, kids, i, rank, r)
    decreases r, 0, |kids| - i
  {
    RenamedRanked(a, b, rank);
    RenamedEdges(a, b, rank, kids, r);
    if i < |kids| {
      var d := kids[i];
      assert d in kids;
      assert PlainEntries(a.es)[d] == PlainEntries(b.es)[d];
      if Descends(a.es[d]) {
        BelowRenamed(a, b, a.es[d].folder.value, rank);
      }
      KidsRenamed(a, b, kids, i + 1, rank, r);
    }
  }

  /** The walk with two pools that give every child the same offset:
      it computes the same result. */
  lemma {:induction false} FolderAgrees<P>(s: Collected<P>, g: nat, write: (P, Name) -> (P, nat),
                                           r1: bool, f1: (P, Name) -> nat, r2: bool, f2: (P, Name) -> nat, rank: seq<nat>)
    requires Ranked(s.es, s.fs, rank) && g < |s.fs|
    requires forall p: P, e: Entry :: Offset(p, e, r1, write, f1) == Offset(p, e, r2, write, f2)
    ensures CollectFolder(s, g, r1, write, f1, rank) == CollectFolder(s, g, r2, write, f2, rank)
    decreases rank[g], 1
  {
    RankedEdges(s.es, s.fs, rank, g);
    KidsAgree(s, s.fs[g].children, 0, write, r1, f1, r2, f2, rank, rank[g]);
  }

  lemma {:induction false} KidsAgree<P>(s: Collected<P>, kids: seq<nat>, i: nat, write: (P, Name) -> (P, nat),
                                        r1: bool, f1: (P, Name) -> nat, r2: bool, f2: (P, Name) -> nat,
                                        rank: seq<nat>, r: nat)
    requires Ranked(s.es, s.fs, rank) && EdgesBelow(s.es, |s.fs|, rank, kids, r) && i <= |kids|
    requires forall p: P, e: Entry :: Offset(p, e, r1, write, f1) == Offset(p, e, r2, write, f2)
    ensures CollectKids(s, kids, i, r1, write, f1, rank, r) == CollectKids(s, kids, i, r2, write, f2, rank, r)
    decreases r, 0, |kids| - i, 1
  {
    if i < |kids| {
      ChildAgrees(s, kids, i, write, r1, f1, r2, f2, rank, r);
      var s2 := Child(s, kids, i, r1, write, f1, rank, r);
      RenamedRanked(s, s2, rank);
      RenamedEdges(s, s2, rank, kids, r);
      KidsAgree(s2, kids, i + 1, write, r1, f1, r2, f2, rank, r);
    }
  }

  lemma {:induction false} ChildAgrees<P>(s: Collected<P>, kids: seq<nat>, i: nat, write: (P, Name) -> (P, nat),
                                          r1: bool, f1: (P, Name) -> nat, r2: bool, f2: (P, Name) -> nat,
                                          rank: seq<nat>, r: nat)
    requires Ranked(s.es, s.fs, rank) && EdgesBelow(s.es, |s.fs|, rank, kids, r) && i < |kids|
    requires forall p: P, e: Entry :: Offset(p, e, r1, write, f1) == Offset(p, e, r2, write, f2)
    ensures Child(s, kids, i, r1, write, f1, rank, r) == Child(s, kids, i, r2, write, f2, rank, r)
    decreases r, 0, |kids| - i, 0
  {
    var d := kids[i];
    assert d in kids;
    var s1 := Label(s, d, r1, write, f1);
    assert Offset(s.pool, s.es[d], r1, write, f1) == Offset(s.pool, s.es[d], r2, write, f2);
    assert s1 == Label(s, d, r2, write, f2);
    if Descends(s.es[d]) {
      RenamedRanked(s, s1, rank);
      FolderAgrees(s1, s.es[d].folder.value, write, r1, f1, r2, f2, rank);
    }
  }

  /** Reducing strings, the walk never asks the pool to find a name. */
  lemma ReduceIgnoresFind<P>(s: Collected<P>, g: nat, write: (P, Name) -> (P, nat),
                             f1: (P, Name) -> nat, f2: (P, Name) -> nat, rank: seq<nat>)
    requires Ranked(s.es, s.fs, rank) && g < |s.fs|
    ensures CollectFolder(s, g, true, write, f1, rank) == CollectFolder(s, g, true, write, f2, rank)
  {
    FolderAgrees(s, g, write, true, f1, true, f2, rank);
  }

  /** Writing "." or ".." to the pool gives back the pool unchanged and
      the offset find gives. */
  ghost predicate WritesShortcutsOnce<P(!new)>(write: (P, Name) -> (P, nat), find: (P, Name) -> nat)
  {
    forall p: P :: write(p, Dot) == (p, find(p, Dot)) && write(p, DotDot) == (p, find(p, DotDot))
  }

  /** The two loops of collectStrings differ only in how shortcuts get
      their offset, so with a pool whose writes of "." and ".." are
      lookups both loops compute the same thing. */
  lemma ModesAgree<P(!new)>(s: Collected<P>, g: nat, write: (P, Name) -> (P, nat), find: (P, Name) -> nat, rank: seq<nat>)
    requires Ranked(s.es, s.fs, rank) && g < |s.fs|
    requires WritesShortcutsOnce(write, find)
    ensures CollectFolder(s, g, true, write, find, rank) == CollectFolder(s, g, false, write, find, rank)
  {
    forall p: P, e: Entry
      ensures Offset(p, e, true, write, find) == Offset(p, e, false, write, find)
    {
      if IsShortcutEntry(e) {
        assert e.name == Dot || e.name == DotDot;
      }
    }
    FolderAgrees(s, g, write, true, find, false, find, rank);
  }

  // ---------------------------------------------------------------
  // What the offsets mean, against a pool contract.  A pool has a size
  // and a name at each offset below it; `write` keeps what is there and
  // returns an offset below the new size holding the name; `find` of a
  // name held somewhere returns an offset holding it.
  // ---------------------------------------------------------------

  /** q keeps every name p holds, at the same offset. */
  ghost predicate Grows<P>(p: P, q: P, size: P -> nat, nameAt: (P, nat) -> Name)
  {
    size(p) <= size(q) && forall o: nat :: o < size(p) ==> nameAt(q, o) == nameAt(p, o)
  }

  ghost predicate Stores<P(!new)>(write: (P, Name) -> (P, nat), size: P -> nat, nameAt: (P, nat) -> Name)
  {
    forall p: P, n: Name ::
      write(p, n).1 < size(write(p, n).0) && nameAt(write(p, n).0, write(p, n).1) == n
      && Grows(p, write(p, n).0, size, nameAt)
  }

  ghost predicate Finds<P(!new)>(find: (P, Name) -> nat, size: P -> nat, nameAt: (P, nat) -> Name)
  {
    forall p: P, o: nat :: o < size(p) ==>
      find(p, nameAt(p, o)) < size(p) && nameAt(p, find(p, nameAt(p, o))) == nameAt(p, o)
  }

  /** The pool holds "." at dot and ".." at dotDot. */
  ghost predicate HoldsShortcuts<P>(p: P, dot: nat, dotDot: nat, size: P -> nat, nameAt: (P, nat) -> Name)
  {
    dot < size(p) && nameAt(p, dot) == Dot && dotDot < size(p) && nameAt(p, dotDot) == DotDot
  }

  /** The entry's name offset points at its name in the pool. */
  ghost predicate Labelled<P>(p: P, e: Entry, size: P -> nat, nameAt: (P, nat) -> Name)
  {
    e.nameOffs < size(p) && nameAt(p, e.nameOffs) == e.name
  }

  /** As long as the pool has not outgrown the 16-bit name offsets, every
      entry that changed from s to t points at its name in t's pool. */
  ghost predicate LabelledSince<P>(s: Collected<P>, t: Collected<P>, size: P -> nat, nameAt: (P, nat) -> Name)
  {
    size(t.pool) <= U16 ==>
      forall d :: 0 <= d < |t.es| && d < |s.es| && t.es[d] != s.es[d] ==> Labelled(t.pool, t.es[d], size, nameAt)
  }

  /** The folder's name offset points at its name in the pool. */
  ghost predicate FolderLabelled<P>(p: P, f: Folder, size: P -> nat, nameAt: (P, nat) -> Name)
  {
    f.nameOffs < size(p) && nameAt(p, f.nameOffs) == f.name
  }

  /** Every directory that is not a shortcut carries the name of the
      folder it leads to, as createFolder makes them. */
  ghost predicate NamesAgree(es: seq<Entry>, fs: seq<Folder>)
  {
    forall d :: 0 <= d < |es| && Descends(es[d]) && es[d].folder.Some? && es[d].folder.value < |fs| ==>
      es[d].name == fs[es[d].folder.value].name
  }

  /** As long as the pool has not outgrown the 16-bit name offsets, every
      folder that changed from s to t points at its name in t's pool. */
  ghost predicate FoldersSince<P>(s: Collected<P>, t: Collected<P>, size: P -> nat, nameAt: (P, nat) -> Name)
  {
    size(t.pool) <= U16 ==>
      forall f :: 0 <= f < |t.fs| && f < |s.fs| && t.fs[f] != s.fs[f] ==> FolderLabelled(t.pool, t.fs[f], size, nameAt)
  }

  /** As long as the pool has not outgrown the 16-bit name offsets, every
      entry in D points at its name in t's pool. */
  ghost predicate Reached<P>(t: Collected<P>, D: set<nat>, size: P -> nat, nameAt: (P, nat) -> Name)
  {
    size(t.pool) <= U16 ==> forall d :: d in D ==> d < |t.es| && Labelled(t.pool, t.es[d], size, nameAt)
  }

  /** As long as the pool has not outgrown the 16-bit name offsets, the
      folder of every directory in D that is not a shortcut points at its
      name in t's pool. */
  ghost predicate FoldersReached<P>(t: Collected<P>, D: set<nat>, size: P -> nat, nameAt: (P, nat) -> Name)
  {
    size(t.pool) <= U16 ==>
      forall d :: d in D && d < |t.es| && Descends(t.es[d]) && t.es[d].folder.Some? && t.es[d].folder.value < |t.fs| ==>
        FolderLabelled(t.pool, t.fs[t.es[d].folder.value], size, nameAt)
  }

  lemma RenamedAgree<P>(a: Collected<P>, b: Collected<P>)
    requires Renamed(a, b) && NamesAgree(a.es, a.fs)
    ensures NamesAgree(b.es, b.fs)
  {
    forall d | 0 <= d < |b.es| && Descends(b.es[d]) && b.es[d].folder.Some? && b.es[d].folder.value < |b.fs|
      ensures b.es[d].name == b.fs[b.es[d].folder.value].name
    {
      assert PlainEntries(a.es)[d] == PlainEntries(b.es)[d];
      assert PlainFolders(a.fs)[b.es[d].folder.value] == PlainFolders(b.fs)[b.es[d].folder.value];
    }
  }

  /** What is labelled stays labelled: an entry either keeps its offset,
      which the grown pool still resolves, or was labelled again. */
  lemma Persists<P>(m: Collected<P>, t: Collected<P>, D: set<nat>, size: P -> nat, nameAt: (P, nat) -> Name)
    requires Renamed(m, t) && Grows(m.pool, t.pool, size, nameAt) && LabelledSince(m, t, size, nameAt)
    requires Reached(m, D, size, nameAt)
    ensures Reached(t, D, size, nameAt)
  {
    if size(t.pool) <= U16 {
      forall d | d in D
        ensures d < |t.es| && Labelled(t.pool, t.es[d], size, nameAt)
      {
        if t.es[d] == m.es[d] {
          assert Labelled(m.pool, m.es[d], size, nameAt);
        }
      }
    }
  }

  lemma FoldersPersist<P>(m: Collected<P>, t: Collected<P>, D: set<nat>, size: P -> nat, nameAt: (P, nat) -> Name)
    requires Renamed(m, t) && Grows(m.pool, t.pool, size, nameAt) && FoldersSince(m, t, size, nameAt)
    requires FoldersReached(m, D, size, nameAt)
    ensures FoldersReached(t, D, size, nameAt)
  {
    if size(t.pool) <= U16 {
      forall d | d in D && d < |t.es| && Descends(t.es[d]) && t.es[d].folder.Some? && t.es[d].folder.value < |t.fs|
        ensures FolderLabelled(t.pool, t.fs[t.es[d].folder.value], size, nameAt)
      {
        var f := t.es[d].folder.value;
        assert PlainEntries(m.es)[d] == PlainEntries(t.es)[d];
        if t.fs[f] == m.fs[f] {
          assert FolderLabelled(m.pool, m.fs[f], size, nameAt);
        }
      }
    }
  }

  lemma ChainFolders<P>(s: Collected<P>, m: Collected<P>, t: Collected<P>, size: P -> nat, nameAt: (P, nat) -> Name)
    requires Renamed(s, m) && Renamed(m, t)
    requires Grows(s.pool, m.pool, size, nameAt) && Grows(m.pool, t.pool, size, nameAt)
    requires FoldersSince(s, m, size, nameAt) && FoldersSince(m, t, size, nameAt)
    ensures FoldersSince(s, t, size, nameAt)
  {
    if size(t.pool) <= U16 {
      forall f | 0 <= f < |t.fs| && f < |s.fs| && t.fs[f] != s.fs[f]
        ensures FolderLabelled(t.pool, t.fs[f], size, nameAt)
      {
        if t.fs[f] == m.fs[f] {
          assert FolderLabelled(m.pool, m.fs[f], size, nameAt);
        }
      }
    }
  }

  lemma Chain<P>(s: Collected<P>, m: Collected<P>, t: Collected<P>, size: P -> nat, nameAt: (P, nat) -> Name)
    requires Renamed(s, m) && Renamed(m, t)
    requires Grows(s.pool, m.pool, size, nameAt) && Grows(m.pool, t.pool, size, nameAt)
    requires LabelledSince(s, m, size, nameAt) && LabelledSince(m, t, size, nameAt)
    ensures Grows(s.pool, t.pool, size, nameAt) && LabelledSince(s, t, size, nameAt)
  {
    if size(t.pool) <= U16 {
      forall d | 0 <= d < |t.es| && d < |s.es| && t.es[d] != s.es[d]
        ensures Labelled(t.pool, t.es[d], size, nameAt)
      {
        if t.es[d] == m.es[d] {
          assert Labelled(m.pool, m.es[d], size, nameAt);
        }
      }
    }
  }

  /** From s to t the walk labelled D: the pool only grows, every entry
      that changed and every entry in D points at its name, and when
      directories carry their folders' names, so does every folder that
      changed and the folder of every directory in D. */
  ghost predicate Walked<P>(s: Collected<P>, t: Collected<P>, D: set<nat>, size: P -> nat, nameAt: (P, nat) -> Name)
  {
    Grows(s.pool, t.pool, size, nameAt) && LabelledSince(s, t, size, nameAt) && Reached(t, D, size, nameAt)
    && (NamesAgree(s.es, s.fs) ==> FoldersSince(s, t, size, nameAt) && FoldersReached(t, D, size, nameAt))
  }

  /** Two legs of the walk, the first labelling D1 and the second D2,
      make a walk that labels both. */
  lemma Join<P>(s: Collected<P>, m: Collected<P>, t: Collected<P>, D1: set<nat>, D2: set<nat>,
                size: P -> nat, nameAt: (P, nat) -> Name)
    requires Renamed(s, m) && Renamed(m, t)
    requires Walked(s, m, D1, size, nameAt) && Walked(m, t, D2, size, nameAt)
    ensures Walked(s, t, D1 + D2, size, nameAt)
  {
    Chain(s, m, t, size, nameAt);
    Persists(m, t, D1, size, nameAt);
    if NamesAgree(s.es, s.fs) {
      RenamedAgree(s, m);
      assert FoldersSince(m, t, size, nameAt) && FoldersReached(t, D2, size, nameAt);
      ChainFolders(s, m, t, size, nameAt);
      FoldersPersist(m, t, D1, size, nameAt);
    }
  }

  lemma GrowsHolds<P>(p: P, q: P, dot: nat, dotDot: nat, size: P -> nat, nameAt: (P, nat) -> Name)
    requires Grows(p, q, size, nameAt) && HoldsShortcuts(p, dot, dotDot, size, nameAt)
    ensures HoldsShortcuts(q, dot, dotDot, size, nameAt)
  {
  }

  /** One child: its offset points at its name, and the pool only grows. */
  lemma LabelStep<P(!new)>(s: Collected<P>, d: nat, reduce: bool, write: (P, Name) -> (P, nat), find: (P, Name) -> nat,
                       size: P -> nat, nameAt: (P, nat) -> Name, dot: nat, dotDot: nat)
    requires d < |s.es| && (Descends(s.es[d]) ==> s.es[d].folder.Some? && s.es[d].folder.value < |s.fs|)
    requires Stores(write, size, nameAt) && Finds(find, size, nameAt)
    requires !reduce ==> HoldsShortcuts(s.pool, dot, dotDot, size, nameAt)
    ensures var t := Label(s, d, reduce, write, find);
      Grows(s.pool, t.pool, size, nameAt) && LabelledSince(s, t, size, nameAt) && Reached(t, {d}, size, nameAt)
      && (Descends(s.es[d]) ==> t.fs[s.es[d].folder.value].nameOffs == t.es[d].nameOffs as int)
  {
    var e := s.es[d];
    var t := Label(s, d, reduce, write, find);
    var (pool, offs) := Offset(s.pool, e, reduce, write, find);
    if reduce || !IsShortcutEntry(e) {
      assert offs < size(pool) && nameAt(pool, offs) == e.name && Grows(s.pool, pool, size, nameAt);
    } else {
      var o := if e.name == Dot then dot else dotDot;
      assert nameAt(s.pool, o) == e.name;
      assert offs == find(s.pool, nameAt(s.pool, o));
    }
    if size(t.pool) <= U16 {
      assert t.es[d].nameOffs == offs;
    }
  }

  /** One child that is a directory and not a shortcut: when it carries
      its folder's name, the folder's offset points at that name too. */
  lemma LabelFolderStep<P(!new)>(s: Collected<P>, d: nat, reduce: bool, write: (P, Name) -> (P, nat), find: (P, Name) -> nat,
                                 size: P -> nat, nameAt: (P, nat) -> Name, dot: nat, dotDot: nat)
    requires d < |s.es| && (Descends(s.es[d]) ==> s.es[d].folder.Some? && s.es[d].folder.value < |s.fs|)
    requires Stores(write, size, nameAt) && Finds(find, size, nameAt)
    requires !reduce ==> HoldsShortcuts(s.pool, dot, dotDot, size, nameAt)
    requires NamesAgree(s.es, s.fs)
    ensures var t := Label(s, d, reduce, write, find);
      FoldersSince(s, t, size, nameAt) && FoldersReached(t, {d}, size, nameAt)
  {
    var t := Label(s, d, reduce, write, find);
    LabelStep(s, d, reduce, write, find, size, nameAt, dot, dotDot);
    if Descends(s.es[d]) && size(t.pool) <= U16 {
      var f := s.es[d].folder.value;
      assert Labelled(t.pool, t.es[d], size, nameAt);
      assert t.fs[f].name == s.fs[f].name == s.es[d].name == t.es[d].name;
      assert FolderLabelled(t.pool, t.fs[f], size, nameAt);
    }
  }

  /** collectStrings(g) against a pool meeting the contract: the pool
      only grows, and (below 2^16 bytes of strings) every entry it
      renamed points at its own name in the string table. */
  lemma {:induction false} FolderLabels<P(!new)>(s: Collected<P>, g: nat, reduce: bool, write: (P, Name) -> (P, nat),
                                           find: (P, Name) -> nat, rank: seq<nat>,
                                           size: P -> nat, nameAt: (P, nat) -> Name, dot: nat, dotDot: nat)
    requires Ranked(s.es, s.fs, rank) && g < |s.fs|
    requires Stores(write, size, nameAt) && Finds(find, size, nameAt)
    requires !reduce ==> HoldsShortcuts(s.pool, dot, dotDot, size, nameAt)
    ensures Walked(s, CollectFolder(s, g, reduce, write, find, rank), Below(s.es, s.fs, g, rank), size, nameAt)
    decreases rank[g], 1
  {
    RankedEdges(s.es, s.fs, rank, g);
    KidsLabels(s, s.fs[g].children, 0, reduce, write, find, rank, rank[g], size, nameAt, dot, dotDot);
  }

  lemma {:induction false} KidsLabels<P(!new)>(s: Collected<P>, kids: seq<nat>, i: nat, reduce: bool,
                                         write: (P, Name) -> (P, nat), find: (P, Name) -> nat,
                                         rank: seq<nat>, r: nat,
                                         size: P -> nat, nameAt: (P, nat) -> Name, dot: nat, dotDot: nat)
    requires Ranked(s.es, s.fs, rank) && EdgesBelow(s.es, |s.fs|, rank, kids, r) && i <= |kids|
    requires Stores(write, size, nameAt) && Finds(find, size, nameAt)
    requires !reduce ==> HoldsShortcuts(s.pool, dot, dotDot, size, nameAt)
    ensures Walked(s, CollectKids(s, kids, i, reduce, write, find, rank, r), BelowKids(s.es, s.fs, kids, i, rank, r), size, nameAt)
    decreases r, 0, |kids| - i, 4
  {
    if i < |kids| {
      KidsMore(s, kids, i, reduce, write, find, rank, r, size, nameAt, dot, dotDot);
    } else {
      WalkedNowhere(s, size, nameAt);
    }
  }

  /** The loop from a child that is there: that child, then the rest. */
  lemma {:induction false} KidsMore<P(!new)>(s: Collected<P>, kids: seq<nat>, i: nat, reduce: bool,
                                       write: (P, Name) -> (P, nat), find: (P, Name) -> nat,
                                       rank: seq<nat>, r: nat,
                                       size: P -> nat, nameAt: (P, nat) -> Name, dot: nat, dotDot: nat)
    requires Ranked(s.es, s.fs, rank) && EdgesBelow(s.es, |s.fs|, rank, kids, r) && i < |kids|
    requires Stores(write, size, nameAt) && Finds(find, size, nameAt)
    requires !reduce ==> HoldsShortcuts(s.pool, dot, dotDot, size, nameAt)
    ensures Walked(s, CollectKids(s, kids, i, reduce, write, find, rank, r), BelowKids(s.es, s.fs, kids, i, rank, r), size, nameAt)
    decreases r, 0, |kids| - i, 3
  {
    var s2 := Child(s, kids, i, reduce, write, find, rank, r);
    KidsAdvance(s, kids, i, reduce, write, find, rank, r, size, nameAt, dot, dotDot);
    KidsLabels(s2, kids, i + 1, reduce, write, find, rank, r, size, nameAt, dot, dotDot);
    KidsLink(s, kids, i, reduce, write, find, rank, r, size, nameAt, dot, dotDot);
  }

  lemma WalkedNowhere<P>(s: Collected<P>, size: P -> nat, nameAt: (P, nat) -> Name)
    ensures Walked(s, s, {}, size, nameAt)
  {
  }

  /** The i-th child labels what it reaches, and the rest of the loop
      what the rest reaches: together, what the loop from i reaches. */
  lemma {:induction false} KidsLink<P(!new)>(s: Collected<P>, kids: seq<nat>, i: nat, reduce: bool,
                                       write: (P, Name) -> (P, nat), find: (P, Name) -> nat,
                                       rank: seq<nat>, r: nat,
                                       size: P -> nat, nameAt: (P, nat) -> Name, dot: nat, dotDot: nat)
    requires Ranked(s.es, s.fs, rank) && EdgesBelow(s.es, |s.fs|, rank, kids, r) && i < |kids|
    requires Stores(write, size, nameAt) && Finds(find, size, nameAt)
    requires !reduce ==> HoldsShortcuts(s.pool, dot, dotDot, size, nameAt)
    requires var s2 := Child(s, kids, i, reduce, write, find, rank, r);
      Ranked(s2.es, s2.fs, rank) && EdgesBelow(s2.es, |s2.fs|, rank, kids, r)
      && Walked(s2, CollectKids(s2, kids, i + 1, reduce, write, find, rank, r), BelowKids(s2.es, s2.fs, kids, i + 1, rank, r), size, nameAt)
    ensures Walked(s, CollectKids(s, kids, i, reduce, write, find, rank, r), BelowKids(s.es, s.fs, kids, i, rank, r), size, nameAt)
    decreases r, 0, |kids| - i, 2
  {
    var s2 := Child(s, kids, i, reduce, write, find, rank, r);
    ChildLabels(s, kids, i, reduce, write, find, rank, r, size, nameAt, dot, dotDot);
    KidsAdvance(s, kids, i, reduce, write, find, rank, r, size, nameAt, dot, dotDot);
    KidsStep(s, s2, CollectKids(s2, kids, i + 1, reduce, write, find, rank, r), kids, i, rank, r, size, nameAt);
  }

  /** After the i-th child the loop goes on from a ranked state whose
      pool still holds "." and "..". */
  lemma KidsAdvance<P(!new)>(s: Collected<P>, kids: seq<nat>, i: nat, reduce: bool,
                             write: (P, Name) -> (P, nat), find: (P, Name) -> nat,
                             rank: seq<nat>, r: nat,
                             size: P -> nat, nameAt: (P, nat) -> Name, dot: nat, dotDot: nat)
    requires Ranked(s.es, s.fs, rank) && EdgesBelow(s.es, |s.fs|, rank, kids, r) && i < |kids|
    requires Stores(write, size, nameAt) && Finds(find, size, nameAt)
    requires !reduce ==> HoldsShortcuts(s.pool, dot, dotDot, size, nameAt)
    ensures var s2 := Child(s, kids, i, reduce, write, find, rank, r);
      Ranked(s2.es, s2.fs, rank) && EdgesBelow(s2.es, |s2.fs|, rank, kids, r)
      && (!reduce ==> HoldsShortcuts(s2.pool, dot, dotDot, size, nameAt))
      && CollectKids(s, kids, i, reduce, write, find, rank, r) == CollectKids(s2, kids, i + 1, reduce, write, find, rank, r)
    decreases r, 0, |kids| - i, 1
  {
    var s2 := Child(s, kids, i, reduce, write, find, rank, r);
    ChildLabels(s, kids, i, reduce, write, find, rank, r, size, nameAt, dot, dotDot);
    RenamedRanked(s, s2, rank);
    RenamedEdges(s, s2, rank, kids, r);
    if !reduce {
      GrowsHolds(s.pool, s2.pool, dot, dotDot, size, nameAt);
    }
  }

  /** The loop, one child further: what the child labelled and what the
      rest of the loop labelled make up what the loop labelled. */
  lemma KidsStep<P>(s: Collected<P>, s2: Collected<P>, t: Collected<P>, kids: seq<nat>, i: nat, rank: seq<nat>, r: nat,
                    size: P -> nat, nameAt: (P, nat) -> Name)
    requires Ranked(s.es, s.fs, rank) && EdgesBelow(s.es, |s.fs|, rank, kids, r) && i < |kids|
    requires Renamed(s, s2) && Renamed(s2, t)
    requires Walked(s, s2, BelowChild(s.es, s.fs, kids, i, rank, r), size, nameAt)
    requires Ranked(s2.es, s2.fs, rank) && EdgesBelow(s2.es, |s2.fs|, rank, kids, r)
    requires Walked(s2, t, BelowKids(s2.es, s2.fs, kids, i + 1, rank, r), size, nameAt)
    ensures Walked(s, t, BelowKids(s.es, s.fs, kids, i, rank, r), size, nameAt)
  {
    KidsRenamed(s, s2, kids, i + 1, rank, r);
    Join(s, s2, t, BelowChild(s.es, s.fs, kids, i, rank, r), BelowKids(s.es, s.fs, kids, i + 1, rank, r), size, nameAt);
  }

  lemma {:induction false} ChildLabels<P(!new)>(s: Collected<P>, kids: seq<nat>, i: nat, reduce: bool,
                                          write: (P, Name) -> (P, nat), find: (P, Name) -> nat,
                                          rank: seq<nat>, r: nat,
                                          size: P -> nat, nameAt: (P, nat) -> Name, dot: nat, dotDot: nat)
    requires Ranked(s.es, s.fs, rank) && EdgesBelow(s.es, |s.fs|, rank, kids, r) && i < |kids|
    requires Stores(write, size, nameAt) && Finds(find, size, nameAt)
    requires !reduce ==> HoldsShortcuts(s.pool, dot, dotDot, size, nameAt)
    ensures Walked(s, Child(s, kids, i, reduce, write, find, rank, r), BelowChild(s.es, s.fs, kids, i, rank, r), size, nameAt)
    decreases r, 0, |kids| - i, 0
  {
    var d := kids[i];
    assert d in kids;
    var s1 := Label(s, d, reduce, write, find);
    LabelStep(s, d, reduce, write, find, size, nameAt, dot, dotDot);
    if NamesAgree(s.es, s.fs) {
      LabelFolderStep(s, d, reduce, write, find, size, nameAt, dot, dotDot);
    }
    if Descends(s.es[d]) {
      var f := s.es[d].folder.value;
      RenamedRanked(s, s1, rank);
      if !reduce {
        GrowsHolds(s.pool, s1.pool, dot, dotDot, size, nameAt);
      }
      FolderLabels(s1, f, reduce, write, find, rank, size, nameAt, dot, dotDot);
      BelowRenamed(s, s1, f, rank);
      Join(s, s1, CollectFolder(s1, f, reduce, write, find, rank), {d}, Below(s.es, s.fs, f, rank), size, nameAt);
    }
  }

  /** The start of the string table in write: "." and ".." first, then
      the root's name, whose offset the root folder keeps as a u32;
      without reduced strings the pool then stops looking names up. */
  function Prologue<P>(pool: P, rootName: Name, reduce: bool, write: (P, Name) -> (P, nat), noLookUp: P -> P): (P, u32)
  {
    var p1 := write(pool, Dot).0;
    var p2 := write(p1, DotDot).0;
    var w := write(p2, rootName);
    (if reduce then w.0 else noLookUp(w.0), w.1 % U32)
  }

  /** After the prologue, against the pool contract (and a flag switch
      that keeps what the pool holds): "." and ".." are held where the
      first two writes put them, and the root's offset points at its
      name while the table is below 2^32 bytes. */
  lemma PrologueHolds<P(!new)>(pool: P, rootName: Name, reduce: bool, write: (P, Name) -> (P, nat), noLookUp: P -> P,
                               size: P -> nat, nameAt: (P, nat) -> Name)
    requires Stores(write, size, nameAt)
    requires forall p: P :: Grows(p, noLookUp(p), size, nameAt)
    ensures var r := Prologue(pool, rootName, reduce, write, noLookUp);
      var p1 := write(pool, Dot).0;
      HoldsShortcuts(r.0, write(pool, Dot).1, write(p1, DotDot).1, size, nameAt)
      && Grows(pool, r.0, size, nameAt)
      && (size(r.0) <= U32 ==> r.1 < size(r.0) && nameAt(r.0, r.1) == rootName)
  {
    var p1 := write(pool, Dot).0;
    var p2 := write(p1, DotDot).0;
    var w := write(p2, rootName);
    var p4 := if reduce then w.0 else noLookUp(w.0);
    assert Grows(w.0, p4, size, nameAt);
    assert Grows(pool, p1, size, nameAt) && Grows(p1, p2, size, nameAt) && Grows(p2, w.0, size, nameAt);
    assert nameAt(p4, w.1) == rootName;
  }

  /** What write computes from the prologue through collectStrings(root). */
  ghost function Table<P>(es: seq<Entry>, fs: seq<Folder>, root: nat, pool: P, reduce: bool,
                          write: (P, Name) -> (P, nat), find: (P, Name) -> nat, noLookUp: P -> P,
                          rank: seq<nat>): (t: Collected<P>)
    requires Ranked(es, fs, rank) && root < |fs|
    ensures |t.es| == |es| && |t.fs| == |fs|
  {
    var pr := Prologue(pool, fs[root].name, reduce, write, noLookUp);
    var s := Collected(es, fs[root := fs[root].(nameOffs := pr.1)], pr.0);
    RenamedRanked(Collected(es, fs, pool), s, rank);
    CollectFolder(s, root, reduce, write, find, rank)
  }

  /** The string table write builds, against a pool meeting the
      contract, in both modes: the pool keeps what it held and, while the
      table is below 2^16 bytes, every entry below the root and every
      entry whose offset changed points at its own name; when directories
      carry their folders' names, so do the root and the folder of every
      directory below it. */
  lemma TableLabels<P(!new)>(es: seq<Entry>, fs: seq<Folder>, root: nat, pool: P, reduce: bool,
                             write: (P, Name) -> (P, nat), find: (P, Name) -> nat, noLookUp: P -> P,
                             rank: seq<nat>, size: P -> nat, nameAt: (P, nat) -> Name)
    requires Ranked(es, fs, rank) && root < |fs|
    requires Stores(write, size, nameAt) && Finds(find, size, nameAt)
    requires forall p: P :: Grows(p, noLookUp(p), size, nameAt)
    ensures var t := Table(es, fs, root, pool, reduce, write, find, noLookUp, rank);
      Walked(Collected(es, fs, pool), t, Below(es, fs, root, rank), size, nameAt)
      && (NamesAgree(es, fs) && size(t.pool) <= U16 ==> FolderLabelled(t.pool, t.fs[root], size, nameAt))
  {
    var pr := Prologue(pool, fs[root].name, reduce, write, noLookUp);
    var s0 := Collected(es, fs, pool);
    var s := Collected(es, fs[root := fs[root].(nameOffs := pr.1)], pr.0);
    RenameFolder(fs, root, pr.1);
    RenamedRanked(s0, s, rank);
    PrologueHolds(pool, fs[root].name, reduce, write, noLookUp, size, nameAt);
    var dot := write(pool, Dot).1;
    var dotDot := write(write(pool, Dot).0, DotDot).1;
    FolderLabels(s, root, reduce, write, find, rank, size, nameAt, dot, dotDot);
    var t := CollectFolder(s, root, reduce, write, find, rank);
    BelowRenamed(s0, s, root, rank);
    assert size(s.pool) <= U32 ==> FolderLabelled(s.pool, s.fs[root], size, nameAt);
    TableWalked(s0, s, t, Below(es, fs, root, rank), root, size, nameAt);
  }

  /** The prologue then the walk: what the walk labelled stays labelled
      from before the prologue, and the root keeps the offset the
      prologue gave it unless the walk labelled it again. */
  lemma TableWalked<P>(s0: Collected<P>, s: Collected<P>, t: Collected<P>, D: set<nat>, root: nat,
                       size: P -> nat, nameAt: (P, nat) -> Name)
    requires root < |s0.fs| == |s.fs| && s.es == s0.es && s.fs == s0.fs[root := s.fs[root]]
    requires Renamed(s0, s) && Renamed(s, t) && Grows(s0.pool, s.pool, size, nameAt)
    requires size(s.pool) <= U32 ==> FolderLabelled(s.pool, s.fs[root], size, nameAt)
    requires Walked(s, t, D, size, nameAt)
    ensures Walked(s0, t, D, size, nameAt)
    ensures NamesAgree(s0.es, s0.fs) && size(t.pool) <= U16 ==> FolderLabelled(t.pool, t.fs[root], size, nameAt)
  {
    if NamesAgree(s0.es, s0.fs) {
      RenamedAgree(s0, s);
      if size(t.pool) <= U16 {
        forall f | 0 <= f < |t.fs| && f < |s0.fs| && (t.fs[f] != s0.fs[f] || f == root)
          ensures FolderLabelled(t.pool, t.fs[f], size, nameAt)
        {
          if t.fs[f] == s.fs[f] {
            assert f == root;
            assert FolderLabelled(s.pool, s.fs[root], size, nameAt);
          }
        }
      }
    }
  }


}
