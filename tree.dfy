/** The in-memory archive as two arenas (folder nodes and directory
    entries) and the pure specification of the layout pass that
    JKRArchive::write runs first (sortNodeAndDirs / sortNodesAndDirs). */
module Tree {
  import opened Util
  import opened Names
  import opened Attributes

  /** JKRFolderNode.  A folder's identity is its position in mFolderNodes,
      which is only ever appended to. */
  datatype Folder = Folder(
    name: Name,          // mName
    isRoot: bool,        // mIsRoot
    self: Option<nat>,   // mDirectory: the entry standing for it in its parent
    children: seq<nat>,  // mChildDirs, as positions in the entry arena
    firstFileOffs: u32,  // mNode.mFirstFileOffs
    fileCount: u16,      // mNode.mFileCount
    hash: u16,           // mNode.mHash
    nameOffs: u32)       // mNode.mNameOffs

  /** JKRDirectory.  An entry's identity is its position in the entry
      arena, which holds every entry ever created. */
  datatype Entry = Entry(
    name: Name,            // mName
    attr: u8,              // mAttr
    folder: Option<nat>,   // mFolderNode
    parent: Option<nat>,   // mParentNode
    nodeIdx: u16,          // mNode.mNodeIdx
    hash: u16,             // mNode.mHash
    data: u32,             // mNode.mData: folder index, NoFolder, or data offset
    dataSize: u32,         // mNode.mDataSize
    nameOffs: u16,         // mNameOffs
    payload: seq<u8>)      // mData

  /** mNode.mData of a directory entry without a folder node. */
  const NoFolder: u32 := 0xFFFF_FFFF

  /** A fresh folder node (its mNode is left uninitialised by the C++
      constructor; the model starts it at zero). */
  function NewFolder(name: Name, isRoot: bool): Folder
  {
    Folder(name, isRoot, None, [], 0, 0, 0, 0)
  }

  /** A fresh entry as createDir leaves it (mNode uninitialised likewise). */
  function NewEntry(name: Name, attr: u8, folder: Option<nat>, parent: Option<nat>): Entry
  {
    Entry(name, attr, folder, parent, 0, 0, 0, 0, 0, [])
  }

  predicate IsShortcutEntry(e: Entry)
  {
    IsShortcut(e.name, e.attr)
  }

  /** The entries the layout pass recurses into: directories that are not
      shortcuts. */
  predicate Descends(e: Entry)
  {
    IsDirectory(e.attr) && !IsShortcutEntry(e)
  }

  predicate IsShortcutId(es: seq<Entry>, d: nat)
  {
    d < |es| && IsShortcutEntry(es[d])
  }

  // ---------------------------------------------------------------------
  // Shortcuts last (sortNodeAndDirs, first half)
  // ---------------------------------------------------------------------

  /** The entries of `ids` that are shortcuts (sc) or are not (!sc), in
      their original order. */
  function Keep(es: seq<Entry>, ids: seq<nat>, sc: bool): (r: seq<nat>)
    ensures |r| <= |ids|
  {
    if |ids| == 0 then []
    else (if IsShortcutId(es, ids[0]) == sc then [ids[0]] else []) + Keep(es, ids[1..], sc)
  }

  /** Keep only selects: what it keeps comes from the list and passes the
      test. */
  lemma {:induction false} KeepMembers(es: seq<Entry>, ids: seq<nat>, sc: bool)
    ensures forall x :: x in Keep(es, ids, sc) ==> x in ids && IsShortcutId(es, x) == sc
  {
    if |ids| > 0 {
      KeepMembers(es, ids[1..], sc);
    }
  }

  /** A child list with its shortcuts moved to the end: the other entries
      in their original order, then the shortcuts in theirs. */
  function Partition(es: seq<Entry>, ids: seq<nat>): seq<nat>
  {
    Keep(es, ids, false) + Keep(es, ids, true)
  }

  lemma {:induction false} KeepAppend(es: seq<Entry>, a: seq<nat>, b: seq<nat>, sc: bool)
    ensures Keep(es, a + b, sc) == Keep(es, a, sc) + Keep(es, b, sc)
  {
    if |a| > 0 {
      assert (a + b)[1..] == a[1..] + b;
      KeepAppend(es, a[1..], b, sc);
    } else {
      assert a + b == b;
    }
  }

  /** Filtering twice by the same test changes nothing; by the opposite
      test leaves nothing. */
  lemma {:induction false} KeepKeep(es: seq<Entry>, ids: seq<nat>, sc: bool)
    ensures Keep(es, Keep(es, ids, sc), sc) == Keep(es, ids, sc)
    ensures Keep(es, Keep(es, ids, sc), !sc) == []
  {
    if |ids| > 0 {
      KeepKeep(es, ids[1..], sc);
      var head := if IsShortcutId(es, ids[0]) == sc then [ids[0]] else [];
      KeepAppend(es, head, Keep(es, ids[1..], sc), sc);
      KeepAppend(es, head, Keep(es, ids[1..], sc), !sc);
      if head != [] {
        assert head[1..] == [];
      }
    }
  }

  /** The non-shortcuts and the shortcuts together are the whole list. */
  lemma {:induction false} KeepMultiset(es: seq<Entry>, ids: seq<nat>)
    ensures multiset(Keep(es, ids, false)) + multiset(Keep(es, ids, true)) == multiset(ids)
  {
    if |ids| > 0 {
      var x, tail := ids[0], ids[1..];
      KeepMultiset(es, tail);
      assert ids == [x] + tail;
      KeepCons(es, x, tail, false);
      KeepCons(es, x, tail, true);
      assert multiset(ids) == multiset([x]) + multiset(tail);
    }
  }

  /** A list without shortcuts is its own non-shortcut part. */
  lemma {:induction false} KeepNoShortcuts(es: seq<Entry>, ids: seq<nat>)
    requires Keep(es, ids, true) == []
    ensures Keep(es, ids, false) == ids
  {
    if |ids| > 0 {
      KeepNoShortcuts(es, ids[1..]);
    }
  }

  /** Moving the shortcuts to the end only reorders the list. */
  lemma PartitionPermutes(es: seq<Entry>, ids: seq<nat>)
    ensures multiset(Partition(es, ids)) == multiset(ids)
    ensures |Partition(es, ids)| == |ids|
  {
    KeepMultiset(es, ids);
    assert |multiset(Partition(es, ids))| == |multiset(ids)|;
  }

  /** After the move every shortcut comes after every other entry, and each
      group keeps its original relative order. */
  lemma PartitionOrder(es: seq<Entry>, ids: seq<nat>)
    ensures forall i, j ::
      (0 <= i < j < |Partition(es, ids)| && IsShortcutId(es, Partition(es, ids)[i]))
      ==> IsShortcutId(es, Partition(es, ids)[j])
    ensures Keep(es, Partition(es, ids), false) == Keep(es, ids, false)
    ensures Keep(es, Partition(es, ids), true) == Keep(es, ids, true)
  {
    var a, b := Keep(es, ids, false), Keep(es, ids, true);
    var r := Partition(es, ids);
    KeepMembers(es, ids, false);
    KeepMembers(es, ids, true);
    forall k | 0 <= k < |a|
      ensures !IsShortcutId(es, r[k])
    {
      assert r[k] == a[k] && a[k] in a;
    }
    forall i, j | 0 <= i < j < |r| && IsShortcutId(es, r[i])
      ensures IsShortcutId(es, r[j])
    {
      assert r[j] == b[j - |a|] && r[j] in b;
    }
    KeepAppend(es, a, b, false);
    KeepAppend(es, a, b, true);
    KeepKeep(es, ids, false);
    KeepKeep(es, ids, true);
  }

  /** Moving the shortcuts of an already reordered list changes nothing. */
  lemma PartitionIdempotent(es: seq<Entry>)
    ensures forall ids :: Partition(es, Partition(es, ids)) == Partition(es, ids)
  {
    forall ids
      ensures Partition(es, Partition(es, ids)) == Partition(es, ids)
    {
      PartitionOrder(es, ids);
    }
  }

  /** The example of the documentation: [A, "..", B, "."] becomes
      [A, B, "..", "."]. */
  lemma PartitionExample(a: Entry, b: Entry)
    requires !IsShortcutEntry(a) && !IsShortcutEntry(b)
    ensures var es := [a, NewEntry(DotDot, FolderBit, None, None), b, NewEntry(Dot, FolderBit, None, None)];
      Partition(es, [0, 1, 2, 3]) == [0, 2, 1, 3]
  {
    var es := [a, NewEntry(DotDot, FolderBit, None, None), b, NewEntry(Dot, FolderBit, None, None)];
    assert [0, 1, 2, 3][1..] == [1, 2, 3];
    assert [1, 2, 3][1..] == [2, 3];
    assert [2, 3][1..] == [3];
    assert IsShortcutId(es, 1) && IsShortcutId(es, 3);
    assert !IsShortcutId(es, 0) && !IsShortcutId(es, 2);
    assert Keep(es, [3], false) == [] && Keep(es, [3], true) == [3];
    assert Keep(es, [2, 3], false) == [2] && Keep(es, [2, 3], true) == [3];
    assert Keep(es, [1, 2, 3], false) == [2] && Keep(es, [1, 2, 3], true) == [1, 3];
  }

  /** Keep on a list with a known head. */
  lemma KeepCons(es: seq<Entry>, x: nat, t: seq<nat>, sc: bool)
    ensures Keep(es, [x] + t, sc) == (if IsShortcutId(es, x) == sc then [x] else []) + Keep(es, t, sc)
  {
    assert ([x] + t)[0] == x && ([x] + t)[1..] == t;
  }

  lemma IndexBehindHead(x: nat, tail: seq<nat>, s: nat)
    requires x != s && s in tail
    ensures GetVectorIndex([x] + tail, s) == GetVectorIndex(tail, s) + 1
  {
    assert ([x] + tail)[1..] == tail;
  }

  lemma EraseBehindHead(x: nat, tail: seq<nat>, p: nat)
    requires p < |tail|
    ensures ([x] + tail)[..p + 1] + ([x] + tail)[p + 2..] == [x] + (tail[..p] + tail[p + 1..])
  {
    var l := [x] + tail;
    assert l[..p + 1] == [x] + tail[..p];
    assert l[p + 2..] == tail[p + 1..];
  }

  /** Erasing behind a non-shortcut head keeps the head in front. */
  lemma EraseBehindNonShortcut(es: seq<Entry>, x: nat, tail: seq<nat>, p: nat, sc: bool)
    requires p < |tail| && !IsShortcutId(es, x)
    ensures Keep(es, ([x] + tail)[..p + 1] + ([x] + tail)[p + 2..], sc)
      == (if sc then [] else [x]) + Keep(es, tail[..p] + tail[p + 1..], sc)
  {
    EraseBehindHead(x, tail, p);
    KeepCons(es, x, tail[..p] + tail[p + 1..], sc);
  }

  /** The step of the erase-and-append loop of sortNodeAndDirs: when the
      first shortcut still in `rest` is `s`, getVectorIndex finds that
      occurrence, and erasing it leaves the other entries as they were. */
  lemma {:induction false} EraseFirstShortcut(es: seq<Entry>, rest: seq<nat>, s: nat)
    requires Keep(es, rest, true) != [] && Keep(es, rest, true)[0] == s
    ensures 0 <= GetVectorIndex(rest, s) < |rest|
    ensures var p := GetVectorIndex(rest, s);
      Keep(es, rest[..p] + rest[p + 1..], true) == Keep(es, rest, true)[1..]
      && Keep(es, rest[..p] + rest[p + 1..], false) == Keep(es, rest, false)
    decreases |rest|, 1
  {
    if IsShortcutId(es, rest[0]) {
      EraseAtHead(es, rest, s);
      assert rest[..0] + rest[1..] == rest[1..];
    } else {
      EraseBehind(es, rest, s);
    }
  }

  /** The first shortcut is the head of the list. */
  lemma EraseAtHead(es: seq<Entry>, rest: seq<nat>, s: nat)
    requires Keep(es, rest, true) != [] && Keep(es, rest, true)[0] == s && IsShortcutId(es, rest[0])
    ensures GetVectorIndex(rest, s) == 0
    ensures Keep(es, rest[1..], true) == Keep(es, rest, true)[1..]
      && Keep(es, rest[1..], false) == Keep(es, rest, false)
  {
    var x, tail := rest[0], rest[1..];
    assert rest == [x] + tail;
    KeepCons(es, x, tail, true);
    KeepCons(es, x, tail, false);
  }

  /** The first shortcut lies behind a non-shortcut head. */
  lemma {:induction false} EraseBehind(es: seq<Entry>, rest: seq<nat>, s: nat)
    requires Keep(es, rest, true) != [] && Keep(es, rest, true)[0] == s && !IsShortcutId(es, rest[0])
    ensures 0 <= GetVectorIndex(rest, s) < |rest|
    ensures var p := GetVectorIndex(rest, s);
      Keep(es, rest[..p] + rest[p + 1..], true) == Keep(es, rest, true)[1..]
      && Keep(es, rest[..p] + rest[p + 1..], false) == Keep(es, rest, false)
    decreases |rest|, 0
  {
    var x, tail := rest[0], rest[1..];
    assert rest == [x] + tail;
    KeepCons(es, x, tail, true);
    KeepCons(es, x, tail, false);
    KeepMembers(es, rest, true);
    assert s in Keep(es, tail, true);
    EraseFirstShortcut(es, tail, s);
    IndexBehindHead(x, tail, s);
    var p := GetVectorIndex(tail, s);
    EraseBehindNonShortcut(es, x, tail, p, true);
    EraseBehindNonShortcut(es, x, tail, p, false);
  }

  /** One iteration of the erase-and-append loop on a list made of the
      entries still to be reordered followed by the shortcuts already moved:
      getVectorIndex finds the first shortcut in the first part, and erasing
      it and pushing it back grows the moved part by one. */
  lemma EraseShortcutStep(es: seq<Entry>, rest: seq<nat>, moved: seq<nat>, s: nat)
    requires Keep(es, rest, true) != [] && Keep(es, rest, true)[0] == s
    ensures var at := GetVectorIndex(rest + moved, s);
      0 <= at < |rest| && at == GetVectorIndex(rest, s)
      && (rest + moved)[..at] + (rest + moved)[at + 1..] + [s] == (rest[..at] + rest[at + 1..]) + (moved + [s])
      && Keep(es, rest[..at] + rest[at + 1..], true) == Keep(es, rest, true)[1..]
      && Keep(es, rest[..at] + rest[at + 1..], false) == Keep(es, rest, false)
  {
    EraseFirstShortcut(es, rest, s);
    var at := GetVectorIndex(rest, s);
    GetVectorIndexAppend(rest, moved, s);
    var l := rest + moved;
    assert l[..at] == rest[..at];
    assert l[at + 1..] == rest[at + 1..] + moved;
  }
}
