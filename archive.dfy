/** JKRArchive as an object over the two arenas: tree construction
    (createDir, createFile, createFolder, the root set-up of
    importFromFolder) and the layout pass (sortNodeAndDirs,
    sortNodesAndDirs), each proved against the pure specification in
    modules Tree and SortPass. */
module Archives {
  import opened Util
  import opened Names
  import opened Attributes
  import opened Tree
  import opened SortPass
  import opened Strings

  /** The references a folder record holds point into the entry arena. */
  ghost predicate FolderOk(f: Folder, ne: nat)
  {
    (forall d :: d in f.children ==> d < ne) && (f.self.Some? ==> f.self.value < ne)
  }

  /** The references an entry holds point into the folder arena. */
  ghost predicate EntryOk(e: Entry, nf: nat)
  {
    (e.folder.Some? ==> e.folder.value < nf) && (e.parent.Some? ==> e.parent.value < nf)
  }

  /** Every reference held by the arenas, mDirectories, the preload buckets
      and the root is in range. */
  ghost predicate InRange(fs: seq<Folder>, es: seq<Entry>, dirs: seq<nat>, files: seq<nat>, root: Option<nat>)
  {
    (root.Some? ==> root.value < |fs|)
    && (forall d :: d in dirs ==> d < |es|)
    && (forall d :: d in files ==> d < |es|)
    && (forall f :: 0 <= f < |fs| ==> FolderOk(fs[f], |es|))
    && (forall d :: 0 <= d < |es| ==> EntryOk(es[d], |fs|))
  }

  /** validateName: its duplicate check is commented out, so every name is
      accepted. */
  function ValidateName(node: Folder, fileName: Name): (ok: bool)
    ensures ok
  {
    true
  }

  /** std::string::rfind for one byte: the last position holding `c`, or
      -1 (npos) when there is none. */
  function LastIndexOf(s: Name, c: u8): (r: int)
    ensures -1 <= r < |s|
    ensures r >= 0 ==> s[r] == c
    ensures forall j :: r < j < |s| ==> s[j] != c
  {
    if |s| == 0 then -1
    else if s[|s| - 1] == c then |s| - 1
    else LastIndexOf(s[..|s| - 1], c)
  }

  const Backslash: u8 := 0x5C

  /** The root's name in importFromFolder: what follows the last backslash.
      The position is kept in a u32: without a backslash rfind gives npos,
      which the variable holds as 0xFFFFFFFF, and adding 1 wraps to 0, so
      the whole path is taken. */
  function RootName(path: Name): (r: Name)
    ensures Backslash !in path ==> r == path
    ensures |r| <= |path|
    ensures |path| < U32 ==> Backslash !in r && path == path[..|path| - |r|] + r
  {
    var last := LastIndexOf(path, Backslash);
    var start := ((last % U32) + 1) % U32;
    var r := if start <= |path| then path[start..] else [];
    assert last == -1 ==> start == 0;
    assert |path| < U32 ==> start == last + 1 && path == path[..start] + r;
    r
  }

  /** The first half of sortNodeAndDirs on a child list: collect the
      shortcuts, then erase each one where getVectorIndex finds it and push
      it back, which moves the shortcuts behind the other entries. */
  method ShortcutsLast(es: seq<Entry>, kids: seq<nat>) returns (list: seq<nat>)
    ensures list == Partition(es, kids)
  {
    var shortcuts := CollectShortcuts(es, kids);
    list := MoveToEnd(es, kids, shortcuts);
  }

  /** The loop that gathers the shortcuts of a child list, in order. */
  method CollectShortcuts(es: seq<Entry>, kids: seq<nat>) returns (shortcuts: seq<nat>)
    ensures shortcuts == Keep(es, kids, true)
  {
    shortcuts := [];
    var i := 0;
    while i < |kids|
      invariant 0 <= i <= |kids|
      invariant shortcuts == Keep(es, kids[..i], true)
    {
      assert kids[..i + 1] == kids[..i] + [kids[i]];
      KeepAppend(es, kids[..i], [kids[i]], true);
      KeepCons(es, kids[i], [], true);
      if kids[i] < |es| && IsShortcutEntry(es[kids[i]]) {
        shortcuts := shortcuts + [kids[i]];
      }
      i := i + 1;
    }
    assert kids[..|kids|] == kids;
  }

  /** The loop that erases each collected shortcut where getVectorIndex
      finds it and pushes it back. */
  method MoveToEnd(es: seq<Entry>, kids: seq<nat>, shortcuts: seq<nat>) returns (list: seq<nat>)
    requires shortcuts == Keep(es, kids, true)
    ensures list == Partition(es, kids)
  {
    list := kids;
    var j := 0;
    ghost var rest := kids;
    while j < |shortcuts|
      invariant 0 <= j <= |shortcuts|
      invariant list == rest + shortcuts[..j]
      invariant Keep(es, rest, false) == Keep(es, kids, false)
      invariant Keep(es, rest, true) == shortcuts[j..]
    {
      var s := shortcuts[j];
      EraseShortcutStep(es, rest, shortcuts[..j], s);
      var at := GetVectorIndex(list, s);
      list := list[..at] + list[at + 1..];
      list := list + [s];
      rest := rest[..at] + rest[at + 1..];
      assert shortcuts[..j + 1] == shortcuts[..j] + [s];
      j := j + 1;
    }
    KeepNoShortcuts(es, rest);
    assert shortcuts[..|shortcuts|] == shortcuts;
  }

  /** The loop of sortNodeAndDirs that pushes every child onto
      mDirectories. */
  method PushAll(dirs: seq<nat>, list: seq<nat>) returns (r: seq<nat>)
    ensures r == dirs + list
  {
    r := dirs;
    var k := 0;
    while k < |list|
      invariant 0 <= k <= |list|
      invariant r == dirs + list[..k]
    {
      assert list[..k + 1] == list[..k] + [list[k]];
      r := r + [list[k]];
      k := k + 1;
    }
    assert list[..|list|] == list;
  }

  class Archive {
    var folders: seq<Folder>       // mFolderNodes
    var entries: seq<Entry>        // every JKRDirectory object created
    var directories: seq<nat>      // mDirectories
    var root: Option<nat>          // mRoot
    var syncFileIds: bool          // mSyncFileIds
    var nextFileIdx: u16           // mNextFileIdx
    var mramFiles: seq<nat>        // mMRAMFiles
    var aramFiles: seq<nat>        // mARAMFiles
    var dvdFiles: seq<nat>         // mDVDFiles
    /** The folders the layout pass has visited, in order. */
    ghost var visits: seq<nat>

    /** The arenas are closed: every reference in them is in range. */
    ghost predicate Valid()
      reads this
    {
      InRange(folders, entries, directories, mramFiles + aramFiles + dvdFiles, root)
    }

    /** JKRArchive(): no root, synced file ids, next file id 0. */
    constructor ()
      ensures Valid()
      ensures folders == [] && entries == [] && directories == [] && root == None
      ensures syncFileIds && nextFileIdx == 0
      ensures mramFiles == [] && aramFiles == [] && dvdFiles == [] && visits == []
    {
      folders, entries, directories, root := [], [], [], None;
      syncFileIds, nextFileIdx := true, 0;
      mramFiles, aramFiles, dvdFiles := [], [], [];
      visits := [];
    }

    /** createDir: one new entry, appended to the parent's children and to
        mDirectories. */
    method CreateDir(dirName: Name, attr: u8, node: Option<nat>, parent: nat) returns (d: nat)
      requires Valid() && parent < |folders| && (node.Some? ==> node.value < |folders|)
      modifies this`entries, this`folders, this`directories
      ensures Valid()
      ensures d == |old(entries)|
      ensures entries == old(entries) + [NewEntry(dirName, attr, node, Some(parent))]
      ensures folders == old(folders)[parent := old(folders)[parent].(children := old(folders)[parent].children + [d])]
      ensures directories == old(directories) + [d]
    {
      d := |entries|;
      entries := entries + [NewEntry(dirName, attr, node, Some(parent))];
      folders := folders[parent := folders[parent].(children := folders[parent].children + [d])];
      directories := directories + [d];
    }

    /** createFile: a file entry under the parent; when file ids are not
        synced it takes the next id and the counter (a u16) moves on. */
    method CreateFile(fileName: Name, parent: nat, attr: u8) returns (d: nat)
      requires Valid() && parent < |folders|
      modifies this`entries, this`folders, this`directories, this`nextFileIdx
      ensures Valid()
      ensures d == |old(entries)|
      ensures entries == old(entries) + [NewEntry(fileName, attr, None, Some(parent))
        .(nodeIdx := if old(syncFileIds) then 0 else old(nextFileIdx))]
      ensures folders == old(folders)[parent := old(folders)[parent].(children := old(folders)[parent].children + [d])]
      ensures directories == old(directories) + [d]
      ensures nextFileIdx == if old(syncFileIds) then old(nextFileIdx) else (old(nextFileIdx) + 1) % U16
    {
      var ok := ValidateName(folders[parent], fileName);
      d := CreateDir(fileName, attr, None, parent);
      if !syncFileIds {
        entries := entries[d := entries[d].(nodeIdx := nextFileIdx)];
        nextFileIdx := (nextFileIdx + 1) % U16;
      }
    }

    /** createFolder: a new folder node, its entry under the parent (which
        becomes its mDirectory), and its "." and ".." entries. */
    method CreateFolder(folderName: Name, parent: nat) returns (f: nat)
      requires Valid() && parent < |folders|
      modifies this`entries, this`folders, this`directories
      ensures Valid()
      ensures f == |old(folders)|
      ensures var e := |old(entries)|;
        folders == old(folders)[parent := old(folders)[parent].(children := old(folders)[parent].children + [e])]
          + [NewFolder(folderName, false).(self := Some(e), children := [e + 1, e + 2])]
        && entries == old(entries) + [NewEntry(folderName, FolderBit, Some(f), Some(parent)),
                                      NewEntry(Dot, FolderBit, Some(f), Some(f)),
                                      NewEntry(DotDot, FolderBit, Some(parent), Some(f))]
        && directories == old(directories) + [e, e + 1, e + 2]
    {
      var ok := ValidateName(folders[parent], folderName);
      f := |folders|;
      AddFolderInRange(folders, entries, directories, mramFiles + aramFiles + dvdFiles, root, NewFolder(folderName, false));
      folders := folders + [NewFolder(folderName, false)];
      ghost var e := |entries|;
      ghost var nf := NewFolder(folderName, false);
      ghost var up := old(folders)[parent := old(folders)[parent].(children := old(folders)[parent].children + [e])];
      var self := CreateDir(folderName, FolderBit, Some(f), parent);
      UpdateAppended(old(folders), nf, parent, up[parent]);
      SetSelfInRange(folders, entries, directories, mramFiles + aramFiles + dvdFiles, root, f, self);
      folders := folders[f := folders[f].(self := Some(self))];
      UpdateAppended(up, nf, f, nf.(self := Some(e)));
      var dot := CreateDir(Dot, FolderBit, Some(f), f);
      assert nf.children + [e + 1] == [e + 1];
      UpdateAppended(up, nf.(self := Some(e)), f, nf.(self := Some(e), children := [e + 1]));
      var dotDot := CreateDir(DotDot, FolderBit, Some(parent), f);
      assert [e + 1] + [e + 2] == [e + 1, e + 2];
      UpdateAppended(up, nf.(self := Some(e), children := [e + 1]), f, nf.(self := Some(e), children := [e + 1, e + 2]));
    }

    /** The root set-up of importFromFolder: without a root, a root folder
        named after the last path component, with "." pointing to it and
        ".." pointing nowhere.  With a root, nothing changes. */
    method ImportRoot(filePath: Name)
      requires Valid()
      modifies this`entries, this`folders, this`directories, this`root
      ensures Valid() && root.Some?
      ensures old(root).Some? ==>
        folders == old(folders) && entries == old(entries) && directories == old(directories) && root == old(root)
      ensures old(root).None? ==> var r, e := |old(folders)|, |old(entries)|;
        root == Some(r)
        && folders == old(folders) + [NewFolder(RootName(filePath), true).(children := [e, e + 1])]
        && entries == old(entries) + [NewEntry(Dot, FolderBit, Some(r), Some(r)),
                                      NewEntry(DotDot, FolderBit, None, Some(r))]
        && directories == old(directories) + [e, e + 1]
    {
      if root.None? {
        var r := |folders|;
        folders := folders + [NewFolder(RootName(filePath), true)];
        root := Some(r);
        ghost var e := |entries|;
        ghost var nf := NewFolder(RootName(filePath), true);
        var dot := CreateDir(Dot, FolderBit, Some(r), r);
        assert nf.children + [e] == [e];
        UpdateAppended(old(folders), nf, r, nf.(children := [e]));
        var dotDot := CreateDir(DotDot, FolderBit, None, r);
        assert [e] + [e + 1] == [e, e + 1];
        UpdateAppended(old(folders), nf.(children := [e]), r, nf.(children := [e, e + 1]));
      }
    }

    ghost function State(): Pass
      reads this
    {
      Pass(folders, directories, visits)
    }

    /** sortNodeAndDirs(pNode), proved to compute SortFolder: shortcuts to
        the end of the child list, the slice recorded, the children
        appended to mDirectories, then the recursion into every
        non-shortcut directory. */
    method SortNodeAndDirs(node: nat, ghost rank: seq<nat>)
      requires Ranked(entries, folders, rank) && node < |folders|
      modifies this`folders, this`directories, this`visits
      ensures State() == SortFolder(old(entries), old(State()), node, rank)
      decreases rank[node], 1
    {
      ghost var p := State();
      var list := ShortcutsLast(entries, folders[node].children);
      folders := folders[node := folders[node].(children := list)];
      folders := folders[node := folders[node].(firstFileOffs := |directories| % U32, fileCount := |list| % U16)];
      directories := PushAll(directories, list);
      visits := visits + [node];
      assert State() == Enter(entries, p, node);
      EnterStep(entries, p, node, rank);
      SortChildren(list, rank[node], rank);
    }

    /** The last loop of sortNodeAndDirs: visit the folder of every
        non-shortcut directory among the children of a folder of rank r. */
    method SortChildren(list: seq<nat>, ghost r: nat, ghost rank: seq<nat>)
      requires Ranked(entries, folders, rank) && EdgesBelow(entries, |folders|, rank, list, r)
      modifies this`folders, this`directories, this`visits
      ensures State() == SortKids(old(entries), old(State()), list, 0, rank, r)
      decreases r, 0
    {
      ghost var target := SortKids(entries, State(), list, 0, rank, r);
      var c := 0;
      while c < |list|
        invariant 0 <= c <= |list|
        invariant Ranked(entries, folders, rank) && |folders| == |old(folders)|
        invariant EdgesBelow(entries, |folders|, rank, list, r)
        invariant SortKids(entries, State(), list, c, rank, r) == target
      {
        var d := list[c];
        SortKidsUnfold(entries, State(), list, c, rank, r);
        if IsDirectory(entries[d].attr) && !IsShortcutEntry(entries[d]) {
          SortNodeAndDirs(entries[d].folder.value, rank);
        }
        c := c + 1;
      }
    }

    /** sortNodesAndDirs: clear mDirectories, lay out the tree from the
        root, set mNextFileIdx when ids are synced, then stamp every listed
        entry and file each file under its preload target.  The buckets
        are not cleared first, so a second call appends again. */
    method SortNodesAndDirs(ghost rank: seq<nat>)
      requires Valid() && root.Some? && Ranked(entries, folders, rank)
      modifies this`folders, this`directories, this`visits, this`entries,
        this`nextFileIdx, this`mramFiles, this`aramFiles, this`dvdFiles
      ensures Valid()
      ensures var q := SortFromRoot(old(entries), old(folders), old(root).value, rank);
        folders == q.folders && directories == q.dirs && visits == q.order
        && Stamped(old(entries), entries, |q.folders|, q.dirs, q.dirs, old(syncFileIds))
        && mramFiles == old(mramFiles) + Bucket(old(entries), q.dirs, Mram)
        && aramFiles == old(aramFiles) + Bucket(old(entries), q.dirs, Aram)
        && dvdFiles == old(dvdFiles) + Bucket(old(entries), q.dirs, Dvd)
        && nextFileIdx == if old(syncFileIds) then |q.dirs| % U16 else old(nextFileIdx)
    {
      Layout(rank);
      StampEntries();
    }

    /** The first half of sortNodesAndDirs: mDirectories cleared and rebuilt
        from the root, then mNextFileIdx set to its size when ids are
        synced. */
    method Layout(ghost rank: seq<nat>)
      requires Valid() && root.Some? && Ranked(entries, folders, rank)
      modifies this`folders, this`directories, this`visits, this`nextFileIdx
      ensures Valid()
      ensures State() == SortFromRoot(entries, old(folders), root.value, rank)
      ensures nextFileIdx == if syncFileIds then |directories| % U16 else old(nextFileIdx)
    {
      directories := [];
      visits := [];
      SortNodeAndDirs(root.value, rank);
      SortedStaysValid(entries, old(folders), old(directories), mramFiles + aramFiles + dvdFiles, root.value, rank);
      if syncFileIds {
        nextFileIdx := |directories| % U16;
      }
    }

    /** collectStrings(pNode, pPool, reduceStrings), proved to compute
        CollectFolder. */
    method CollectStrings<P>(node: nat, pool: P, reduce: bool, write: (P, Name) -> (P, nat),
                             find: (P, Name) -> nat, ghost rank: seq<nat>) returns (pool': P)
      requires Ranked(entries, folders, rank) && node < |folders|
      modifies this`entries, this`folders
      ensures Collected(entries, folders, pool')
        == CollectFolder(Collected(old(entries), old(folders), pool), node, reduce, write, find, rank)
      decreases rank[node], 1
    {
      RankedEdges(entries, folders, rank, node);
      pool' := CollectChildren(folders[node].children, pool, reduce, write, find, rank[node], rank);
    }

    /** The loop of collectStrings over the children of a folder of rank r:
        a shortcut looked up when strings are not reduced, any other child
        written, and a non-shortcut directory passing the offset to its
        folder before the walk descends into it. */
    method CollectChildren<P>(list: seq<nat>, pool: P, reduce: bool, write: (P, Name) -> (P, nat),
                              find: (P, Name) -> nat, ghost r: nat, ghost rank: seq<nat>) returns (pool': P)
      requires Ranked(entries, folders, rank) && EdgesBelow(entries, |folders|, rank, list, r)
      modifies this`entries, this`folders
      ensures Collected(entries, folders, pool')
        == CollectKids(Collected(old(entries), old(folders), pool), list, 0, reduce, write, find, rank, r)
      decreases r, 0
    {
      ghost var target := CollectKids(Collected(entries, folders, pool), list, 0, reduce, write, find, rank, r);
      pool' := pool;
      var c := 0;
      while c < |list|
        invariant 0 <= c <= |list|
        invariant Ranked(entries, folders, rank) && EdgesBelow(entries, |folders|, rank, list, r)
        invariant CollectKids(Collected(entries, folders, pool'), list, c, reduce, write, find, rank, r) == target
      {
        var d := list[c];
        ghost var s := Collected(entries, folders, pool');
        LabelUnfold(s, list, c, reduce, write, find, rank, r);
        pool' := LabelChild(d, pool', reduce, write, find);
        if IsDirectory(entries[d].attr) && !IsShortcutEntry(entries[d]) {
          DescendUnfold(s, list, c, reduce, write, find, rank, r);
          pool' := CollectStrings(entries[d].folder.value, pool', reduce, write, find, rank);
        }
        c := c + 1;
      }
    }

    /** The body of that loop for child d: a shortcut looked up when
        strings are not reduced, any other child written, the offset
        narrowed into the entry's u16 field and, for a non-shortcut
        directory, copied to its folder. */
    method LabelChild<P>(d: nat, pool: P, reduce: bool, write: (P, Name) -> (P, nat), find: (P, Name) -> nat)
      returns (pool': P)
      requires d < |entries|
      requires Descends(entries[d]) ==> entries[d].folder.Some? && entries[d].folder.value < |folders|
      modifies this`entries, this`folders
      ensures Collected(entries, folders, pool') == Label(Collected(old(entries), old(folders), pool), d, reduce, write, find)
    {
      var offs: nat;
      if !reduce && IsShortcutEntry(entries[d]) {
        offs := find(pool, entries[d].name);
        pool' := pool;
      } else {
        var w := write(pool, entries[d].name);
        pool', offs := w.0, w.1;
      }
      entries := entries[d := entries[d].(nameOffs := offs % U16)];
      if IsDirectory(entries[d].attr) && !IsShortcutEntry(entries[d]) {
        var f := entries[d].folder.value;
        folders := folders[f := folders[f].(nameOffs := offs % U16)];
      }
    }

    /** The string-table part of write: ".", ".." and the root's name
        into the pool, the root folder taking its offset, the look-up
        switched off when strings are not reduced, then collectStrings
        from the root. */
    method WriteStrings<P>(pool: P, reduce: bool, write: (P, Name) -> (P, nat), find: (P, Name) -> nat,
                           noLookUp: P -> P, ghost rank: seq<nat>) returns (pool': P)
      requires root.Some? && root.value < |folders| && Ranked(entries, folders, rank)
      modifies this`entries, this`folders
      ensures Collected(entries, folders, pool')
        == Table(old(entries), old(folders), root.value, pool, reduce, write, find, noLookUp, rank)
    {
      var r := root.value;
      var p := pool;
      p := write(p, Dot).0;
      p := write(p, DotDot).0;
      var w := write(p, folders[r].name);
      folders := folders[r := folders[r].(nameOffs := w.1 % U32)];
      p := w.0;
      if !reduce {
        p := noLookUp(p);
      }
      RenamedRanked(Collected(entries, old(folders), pool), Collected(entries, folders, p), rank);
      pool' := CollectStrings(r, p, reduce, write, find, rank);
    }

    /** The loop that ends sortNodesAndDirs: every listed directory records
        its folder's index (or 0xFFFFFFFF), every listed file its position
        when ids are synced, and each file is appended to the bucket of its
        preload target. */
    method StampEntries()
      requires Valid()
      modifies this`entries, this`mramFiles, this`aramFiles, this`dvdFiles
      ensures Valid()
      ensures Stamped(old(entries), entries, |folders|, directories, directories, syncFileIds)
      ensures mramFiles == old(mramFiles) + Bucket(old(entries), directories, Mram)
      ensures aramFiles == old(aramFiles) + Bucket(old(entries), directories, Aram)
      ensures dvdFiles == old(dvdFiles) + Bucket(old(entries), directories, Dvd)
    {
      ghost var orig := entries;
      entries, mramFiles, aramFiles, dvdFiles :=
        StampAll(entries, |folders|, directories, syncFileIds, mramFiles, aramFiles, dvdFiles);
      FilesInRange(old(mramFiles), old(aramFiles), old(dvdFiles), orig, directories);
      assert mramFiles + aramFiles + dvdFiles == Filed(old(mramFiles), old(aramFiles), old(dvdFiles), orig, directories);
      StampedStaysValid(orig, folders, directories, old(mramFiles + aramFiles + dvdFiles),
        mramFiles + aramFiles + dvdFiles, root, syncFileIds, entries);
    }
  }

  /** The loop of sortNodesAndDirs over mDirectories, on the entry arena and
      the three buckets. */
  method StampAll(es: seq<Entry>, nf: nat, dirs: seq<nat>, sync: bool, m0: seq<nat>, a0: seq<nat>, v0: seq<nat>)
    returns (es': seq<Entry>, mram: seq<nat>, aram: seq<nat>, dvd: seq<nat>)
    requires forall d :: d in dirs ==> d < |es|
    ensures Stamped(es, es', nf, dirs, dirs, sync)
    ensures mram == m0 + Bucket(es, dirs, Mram)
    ensures aram == a0 + Bucket(es, dirs, Aram)
    ensures dvd == v0 + Bucket(es, dirs, Dvd)
  {
    es', mram, aram, dvd := es, m0, a0, v0;
    ghost var done: seq<nat> := [];
    var k := 0;
    while k < |dirs|
      invariant 0 <= k <= |dirs| && done == dirs[..k]
      invariant Stamped(es, es', nf, dirs, done, sync)
      invariant mram == m0 + Bucket(es, done, Mram)
      invariant aram == a0 + Bucket(es, done, Aram)
      invariant dvd == v0 + Bucket(es, done, Dvd)
    {
      var d := dirs[k];
      assert d in dirs;
      StampedAt(es, es', nf, dirs, done, d, sync);
      var e, t := StampEntry(es'[d], nf, dirs, d, sync);
      StampedStep(es, es', nf, dirs, done, d, sync);
      FileStep(m0, mram, es, done, d, t, Mram);
      FileStep(a0, aram, es, done, d, t, Aram);
      FileStep(v0, dvd, es, done, d, t, Dvd);
      es' := es'[d := e];
      if t == Mram {
        mram := mram + [d];
      } else if t == Aram {
        aram := aram + [d];
      } else if t == Dvd {
        dvd := dvd + [d];
      }
      SliceSnoc(dirs, k);
      done := done + [d];
      k := k + 1;
    }
    assert done == dirs;
  }

  /** The body of the finishing loop for one listed entry: the entry as it
      is stamped, and the bucket a file goes to (NoPreload for a directory
      or a file without a preload bit). */
  method StampEntry(e: Entry, nf: nat, dirs: seq<nat>, d: nat, sync: bool) returns (r: Entry, t: PreloadType)
    ensures r == Stamp(e, nf, dirs, d, sync)
    ensures t == Target(e)
  {
    r := e;
    t := NoPreload;
    if IsDirectory(e.attr) {
      if e.folder.Some? {
        r := r.(data := FolderIndex(nf, e.folder.value) % U32);
      } else {
        r := r.(data := NoFolder);
      }
    } else {
      if sync {
        r := r.(nodeIdx := GetVectorIndex(dirs, d) % U16);
      }
      t := GetPreloadType(e.attr);
    }
  }

  /** After the iterations for the listed entries `done`: those entries are
      stamped, every other entry is as it was. */
  ghost predicate Stamped(orig: seq<Entry>, es: seq<Entry>, nf: nat, dirs: seq<nat>, done: seq<nat>, sync: bool)
  {
    |es| == |orig|
    && forall d :: 0 <= d < |es| ==>
         es[d] == if d in done then Stamp(orig[d], nf, dirs, d, sync) else orig[d]
  }

  /** A folder whose references fit keeps the arenas in range. */
  /** createFolder keeps every non-shortcut directory named after its
      folder: the new folder's entry carries the folder's name, and "."
      and ".." are shortcuts. */
  lemma CreateFolderAgrees(fs: seq<Folder>, es: seq<Entry>, folderName: Name, parent: nat)
    requires parent < |fs| && NamesAgree(es, fs)
    requires forall d :: 0 <= d < |es| ==> EntryOk(es[d], |fs|)
    ensures var f, e := |fs|, |es|;
      NamesAgree(es + [NewEntry(folderName, FolderBit, Some(f), Some(parent)),
                       NewEntry(Dot, FolderBit, Some(f), Some(f)),
                       NewEntry(DotDot, FolderBit, Some(parent), Some(f))],
                 fs[parent := fs[parent].(children := fs[parent].children + [e])]
                   + [NewFolder(folderName, false).(self := Some(e), children := [e + 1, e + 2])])
  {
    var f, e := |fs|, |es|;
    var es' := es + [NewEntry(folderName, FolderBit, Some(f), Some(parent)),
                     NewEntry(Dot, FolderBit, Some(f), Some(f)),
                     NewEntry(DotDot, FolderBit, Some(parent), Some(f))];
    var fs' := fs[parent := fs[parent].(children := fs[parent].children + [e])]
                 + [NewFolder(folderName, false).(self := Some(e), children := [e + 1, e + 2])];
    forall d | 0 <= d < |es'| && Descends(es'[d]) && es'[d].folder.Some? && es'[d].folder.value < |fs'|
      ensures es'[d].name == fs'[es'[d].folder.value].name
    {
      if d < e {
        assert es'[d] == es[d] && EntryOk(es[d], |fs|);
        assert fs'[es[d].folder.value].name == fs[es[d].folder.value].name;
      } else {
        assert d == e;
      }
    }
  }

  lemma AddFolderInRange(fs: seq<Folder>, es: seq<Entry>, dirs: seq<nat>, files: seq<nat>, root: Option<nat>, f: Folder)
    requires InRange(fs, es, dirs, files, root) && FolderOk(f, |es|)
    ensures InRange(fs + [f], es, dirs, files, root)
  {
    assert forall g :: 0 <= g < |fs| ==> (fs + [f])[g] == fs[g];
  }

  /** Pointing a folder at an existing entry keeps the arenas in range. */
  lemma SetSelfInRange(fs: seq<Folder>, es: seq<Entry>, dirs: seq<nat>, files: seq<nat>, root: Option<nat>, f: nat, d: nat)
    requires InRange(fs, es, dirs, files, root) && f < |fs| && d < |es|
    ensures InRange(fs[f := fs[f].(self := Some(d))], es, dirs, files, root)
  {
  }

  /** The entry an iteration reads has the attribute it started with, and
      stamping it gives what stamping the original gives. */
  lemma StampedAt(orig: seq<Entry>, es: seq<Entry>, nf: nat, dirs: seq<nat>, done: seq<nat>, d: nat, sync: bool)
    requires Stamped(orig, es, nf, dirs, done, sync) && d < |es|
    ensures es[d].attr == orig[d].attr && es[d].folder == orig[d].folder
    ensures Stamp(es[d], nf, dirs, d, sync) == Stamp(orig[d], nf, dirs, d, sync)
  {
    StampIdempotent(orig[d], nf, dirs, d, sync);
  }

  lemma StampedStep(orig: seq<Entry>, es: seq<Entry>, nf: nat, dirs: seq<nat>, done: seq<nat>, d: nat, sync: bool)
    requires Stamped(orig, es, nf, dirs, done, sync) && d < |es|
    ensures Stamped(orig, es[d := Stamp(orig[d], nf, dirs, d, sync)], nf, dirs, done + [d], sync)
  {
  }

  /** Filing the k-th listed entry extends bucket `b` exactly when the
      entry's target is b's. */
  lemma FileStep(start: seq<nat>, m: seq<nat>, es: seq<Entry>, done: seq<nat>, d: nat, t: PreloadType, b: PreloadType)
    requires d < |es| && t == Target(es[d])
    requires m == start + Bucket(es, done, b)
    ensures (if t == b then m + [d] else m) == start + Bucket(es, done + [d], b)
  {
    BucketAppend(es, done, [d], b);
    assert Bucket(es, [d], b) == if t == b then [d] else [];
  }

  /** The layout pass keeps the arenas closed. */
  lemma SortedStaysValid(es: seq<Entry>, fs: seq<Folder>, dirs: seq<nat>, files: seq<nat>, root: nat, rank: seq<nat>)
    requires Ranked(es, fs, rank) && root < |fs|
    requires InRange(fs, es, dirs, files, Some(root))
    ensures var q := SortFromRoot(es, fs, root, rank);
      InRange(q.folders, es, q.dirs, files, Some(root))
  {
    var q := SortFromRoot(es, fs, root, rank);
    SortFolderStep(es, Pass(fs, [], []), root, rank);
    forall f | 0 <= f < |q.folders|
      ensures FolderOk(q.folders[f], |es|)
    {
      assert Shapes(fs)[f] == Shapes(q.folders)[f];
      assert q.folders[f].self == fs[f].self;
      forall d | d in q.folders[f].children
        ensures d < |es|
      {
        assert d in multiset(q.folders[f].children);
        assert d in multiset(fs[f].children);
      }
    }
  }

  /** Filing only adds entries of the arena to the buckets. */
  lemma FilesInRange(m0: seq<nat>, a0: seq<nat>, v0: seq<nat>, es: seq<Entry>, dirs: seq<nat>)
    requires forall x :: x in m0 + a0 + v0 ==> x < |es|
    ensures forall x :: x in Filed(m0, a0, v0, es, dirs) ==> x < |es|
  {
    BucketInRange(es, dirs, Mram);
    BucketInRange(es, dirs, Aram);
    BucketInRange(es, dirs, Dvd);
    forall x | x in Filed(m0, a0, v0, es, dirs)
      ensures x < |es|
    {
      assert x in m0 || x in Bucket(es, dirs, Mram) || x in a0 || x in Bucket(es, dirs, Aram)
        || x in v0 || x in Bucket(es, dirs, Dvd);
      if x in m0 || x in a0 || x in v0 {
        assert x in m0 + a0 + v0;
      }
    }
  }

  /** The three buckets after the finishing loop, one after the other. */
  function Filed(m0: seq<nat>, a0: seq<nat>, v0: seq<nat>, es: seq<Entry>, dirs: seq<nat>): seq<nat>
  {
    (m0 + Bucket(es, dirs, Mram)) + (a0 + Bucket(es, dirs, Aram)) + (v0 + Bucket(es, dirs, Dvd))
  }

  /** Stamping changes no reference, so it keeps the arenas closed. */
  lemma StampedStaysValid(orig: seq<Entry>, fs: seq<Folder>, dirs: seq<nat>, files: seq<nat>, files': seq<nat>,
                          root: Option<nat>, sync: bool, es: seq<Entry>)
    requires InRange(fs, orig, dirs, files, root)
    requires Stamped(orig, es, |fs|, dirs, dirs, sync)
    requires forall d :: d in files' ==> d < |orig|
    ensures InRange(fs, es, dirs, files', root)
  {
  }
}
