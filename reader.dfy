/** The index logic of JKRArchive::read: building folder nodes and
    entries from their records, pointing entries at their folders and
    folders at their own entries, and the final pass that hands each
    folder the entries in its child range. */
module Reader {
  import opened Util
  import opened Names
  import opened Attributes
  import opened Tree
  import opened Records

  /** `mStringTableOffset + mHeaderSize + offs`, an unsigned 32-bit sum. */
  function StringPos(h: Header, offs: nat): u32
  {
    (h.stringTableOffset + h.headerSize + offs) % U32
  }

  /** `mFileDataOffset + mHeaderSize + data`, an unsigned 32-bit sum. */
  function DataPos(h: Header, data: u32): u32
  {
    (h.fileDataOffset + h.headerSize + data) % U32
  }

  /** The folder loop of read: one node per record, named from the string
      table, and the first one made the root (mRoot is still empty when
      read starts). */
  method ReadFolders(h: Header, recs: seq<FolderRecord>, nameAt: u32 -> Name) returns (fs: seq<Folder>)
    ensures |fs| == |recs|
    ensures forall i :: 0 <= i < |recs| ==>
      fs[i] == FolderOfRecord(recs[i], nameAt(StringPos(h, recs[i].nameOffs)), i == 0)
  {
    fs := [];
    var hasRoot := false;
    var i := 0;
    while i < |recs|
      invariant 0 <= i <= |recs| && |fs| == i
      invariant hasRoot <==> i > 0
      invariant forall j :: 0 <= j < i ==>
        fs[j] == FolderOfRecord(recs[j], nameAt(StringPos(h, recs[j].nameOffs)), j == 0)
    {
      var node := FolderOfRecord(recs[i], nameAt(StringPos(h, recs[i].nameOffs)), false);
      if !hasRoot {
        node := node.(isRoot := true);
        hasRoot := true;
      }
      fs := fs + [node];
      i := i + 1;
    }
  }

  /** Entry record i points at folder g and carries g's hash: read then
      makes it g's own entry (mDirectory). */
  predicate SelfMatch(recs: seq<EntryRecord>, i: nat, g: nat, hash: u16)
    requires i < |recs|
  {
    PointsToFolder(recs[i]) && recs[i].data == g && recs[i].hash == hash
  }

  /** The last of the first n entry records that matches folder g. */
  function LastMatch(recs: seq<EntryRecord>, g: nat, hash: u16, n: nat): Option<nat>
    requires n <= |recs|
  {
    if n == 0 then None
    else if SelfMatch(recs, n - 1, g, hash) then Some(n - 1)
    else LastMatch(recs, g, hash, n - 1)
  }

  /** LastMatch finds a matching record with no later match, and finds
      none only when no record matches. */
  lemma {:induction false} LastMatchIsLast(recs: seq<EntryRecord>, g: nat, hash: u16, n: nat)
    requires n <= |recs|
    ensures var m := LastMatch(recs, g, hash, n);
      (m.Some? ==> m.value < n && SelfMatch(recs, m.value, g, hash)
                   && forall j :: m.value < j < n ==> !SelfMatch(recs, j, g, hash))
      && (m.None? ==> forall j :: 0 <= j < n ==> !SelfMatch(recs, j, g, hash))
  {
    if n > 0 && !SelfMatch(recs, n - 1, g, hash) {
      LastMatchIsLast(recs, g, hash, n - 1);
    }
  }

  /** A folder after the entry loop: its own entry is the last matching
      record, if any. */
  function WithSelf(f: Folder, m: Option<nat>): Folder
  {
    if m.Some? then f.(self := m) else f
  }

  /** The entry that read builds from record i. */
  function ReadEntry(h: Header, recs: seq<EntryRecord>, i: nat, nameAt: u32 -> Name, bytesAt: (u32, u32) -> seq<u8>): Entry
    requires i < |recs|
  {
    var r := recs[i];
    EntryOfRecord(r, nameAt(StringPos(h, NameOffsOf(r.attrAndNameOffs))), bytesAt(DataPos(h, r.data), r.dataSize))
  }

  /** Read from a stream that yields the mDataSize bytes asked for, every
      file carries exactly those bytes, so it holds the payload the writer
      copies out of it again; an entry that is not a file carries none. */
  lemma ReadFilesHold(h: Header, recs: seq<EntryRecord>, nameAt: u32 -> Name, bytesAt: (u32, u32) -> seq<u8>)
    requires forall p: u32, n: u32 :: |bytesAt(p, n)| == n as int
    ensures forall i :: 0 <= i < |recs| && CarriesPayload(recs[i]) ==>
      ReadEntry(h, recs, i, nameAt, bytesAt).payload == bytesAt(DataPos(h, recs[i].data), recs[i].dataSize)
      && |ReadEntry(h, recs, i, nameAt, bytesAt).payload| == ReadEntry(h, recs, i, nameAt, bytesAt).dataSize as int
    ensures forall i :: 0 <= i < |recs| && !CarriesPayload(recs[i]) ==> ReadEntry(h, recs, i, nameAt, bytesAt).payload == []
  {
  }

  /** The entry loop of read.  A directory record whose data is not
      0xFFFFFFFF indexes mFolderNodes without a bounds check, so every such
      index must name a folder. */
  method ReadEntries(h: Header, fs: seq<Folder>, recs: seq<EntryRecord>,
                     nameAt: u32 -> Name, bytesAt: (u32, u32) -> seq<u8>)
    returns (fs': seq<Folder>, es: seq<Entry>)
    requires forall i :: 0 <= i < |recs| && PointsToFolder(recs[i]) ==> recs[i].data < |fs|
    ensures |es| == |recs| && |fs'| == |fs|
    ensures forall i :: 0 <= i < |recs| ==> es[i] == ReadEntry(h, recs, i, nameAt, bytesAt)
    ensures forall g :: 0 <= g < |fs| ==> fs'[g] == WithSelf(fs[g], LastMatch(recs, g, fs[g].hash, |recs|))
  {
    fs', es := fs, [];
    var i := 0;
    while i < |recs|
      invariant 0 <= i <= |recs| && |es| == i && |fs'| == |fs|
      invariant forall j :: 0 <= j < i ==> es[j] == ReadEntry(h, recs, j, nameAt, bytesAt)
      invariant forall g :: 0 <= g < |fs| ==> fs'[g] == WithSelf(fs[g], LastMatch(recs, g, fs[g].hash, i))
    {
      var r := recs[i];
      var dir := ReadEntry(h, recs, i, nameAt, bytesAt);
      if PointsToFolder(r) {
        var g := r.data as nat;
        if fs'[g].hash == r.hash {
          fs' := fs'[g := fs'[g].(self := Some(i))];
        }
      }
      es := es + [dir];
      i := i + 1;
    }
  }

  // ---------------------------------------------------------------------
  // The link pass
  // ---------------------------------------------------------------------

  /** `mFirstFileOffs + mFileCount` in unsigned 32-bit arithmetic, the
      bound the loop counter is compared against. */
  function RangeEnd(f: Folder): u32
  {
    (f.firstFileOffs + f.fileCount) % U32
  }

  /** Every position the loop visits for f indexes mDirectories (which is
      read without a bounds check). */
  predicate RangeFits(f: Folder, n: nat)
  {
    RangeEnd(f) <= f.firstFileOffs || RangeEnd(f) <= n
  }

  /** mDirectories[a], ..., mDirectories[b - 1], one position after
      another as the link loop visits them. */
  function Slots(dirs: seq<nat>, a: nat, b: nat): seq<nat>
    requires a <= b <= |dirs|
    decreases b - a
  {
    if a == b then [] else Slots(dirs, a, b - 1) + [dirs[b - 1]]
  }

  /** The entries of mDirectories from position a to b, in order. */
  lemma {:induction false} SlotsAreSlice(dirs: seq<nat>, a: nat, b: nat)
    requires a <= b <= |dirs|
    ensures Slots(dirs, a, b) == dirs[a..b]
    decreases b - a
  {
    if a < b {
      SlotsAreSlice(dirs, a, b - 1);
      assert dirs[a..b] == dirs[a..b - 1] + [dirs[b - 1]];
    }
  }

  /** Entry d sits at one of the positions a .. b - 1 of mDirectories. */
  predicate InSlots(dirs: seq<nat>, a: nat, b: nat, d: nat)
    requires a <= b <= |dirs|
    decreases b - a
  {
    a < b && (dirs[b - 1] == d || InSlots(dirs, a, b - 1, d))
  }

  lemma {:induction false} InSlotsIsIn(dirs: seq<nat>, a: nat, b: nat, d: nat)
    requires a <= b <= |dirs|
    ensures InSlots(dirs, a, b, d) <==> d in Slots(dirs, a, b)
    decreases b - a
  {
    if a < b {
      InSlotsIsIn(dirs, a, b - 1, d);
    }
  }

  /** The entries the link pass gives folder f, in order. */
  function Range(f: Folder, dirs: seq<nat>): seq<nat>
    requires RangeFits(f, |dirs|)
  {
    if f.firstFileOffs < RangeEnd(f) then Slots(dirs, f.firstFileOffs, RangeEnd(f)) else []
  }

  /** The link loop of folder f reaches entry d. */
  predicate Covers(f: Folder, dirs: seq<nat>, d: nat)
    requires RangeFits(f, |dirs|)
  {
    f.firstFileOffs < RangeEnd(f) && InSlots(dirs, f.firstFileOffs, RangeEnd(f), d)
  }

  /** The loop reaches exactly the entries it hands the folder. */
  lemma CoversRange(f: Folder, dirs: seq<nat>, d: nat)
    requires RangeFits(f, |dirs|)
    ensures Covers(f, dirs, d) <==> d in Range(f, dirs)
  {
    if f.firstFileOffs < RangeEnd(f) {
      InSlotsIsIn(dirs, f.firstFileOffs, RangeEnd(f), d);
    }
  }

  predicate AllFit(fs: seq<Folder>, n: nat)
  {
    forall g :: 0 <= g < |fs| ==> RangeFits(fs[g], n)
  }

  /** The last of the first n folders whose range holds entry d: the
      folders are linked in order, so a later one overwrites the parent. */
  function Owner(fs: seq<Folder>, dirs: seq<nat>, n: nat, d: nat): Option<nat>
    requires n <= |fs| && AllFit(fs, |dirs|)
  {
    if n == 0 then None
    else if Covers(fs[n - 1], dirs, d) then Some(n - 1)
    else Owner(fs, dirs, n - 1, d)
  }

  /** Owner finds a folder whose range holds d and no later folder whose
      range does, and finds none only when no folder's range holds d. */
  lemma {:induction false} OwnerIsLast(fs: seq<Folder>, dirs: seq<nat>, n: nat, d: nat)
    requires n <= |fs| && AllFit(fs, |dirs|)
    ensures var o := Owner(fs, dirs, n, d);
      (o.Some? ==> o.value < n && Covers(fs[o.value], dirs, d)
                   && forall g :: o.value < g < n ==> !Covers(fs[g], dirs, d))
      && (o.None? ==> forall g :: 0 <= g < n ==> !Covers(fs[g], dirs, d))
  {
    if n > 0 && !Covers(fs[n - 1], dirs, d) {
      OwnerIsLast(fs, dirs, n - 1, d);
    }
  }

  /** When folder h alone covers d, the link pass makes h its parent. */
  lemma OwnerIsOnly(fs: seq<Folder>, dirs: seq<nat>, h: nat, d: nat)
    requires AllFit(fs, |dirs|) && h < |fs| && Covers(fs[h], dirs, d)
    requires forall g :: 0 <= g < |fs| && g != h ==> !Covers(fs[g], dirs, d)
    ensures Owner(fs, dirs, |fs|, d) == Some(h)
  {
    OwnerIsLast(fs, dirs, |fs|, d);
  }

  /** An entry after the link pass: its parent is the folder that linked
      it last, or unchanged when none did. */
  function Linked(e: Entry, o: Option<nat>): Entry
  {
    if o.Some? then e.(parent := o) else e
  }

  /** The second pass of read: each folder, in order, appends the entries
      of its range to its child list and becomes their parent. */
  method LinkChildren(fs: seq<Folder>, es: seq<Entry>, dirs: seq<nat>) returns (fs': seq<Folder>, es': seq<Entry>)
    requires forall d :: d in dirs ==> d < |es|
    requires AllFit(fs, |dirs|)
    ensures |fs'| == |fs| && |es'| == |es|
    ensures forall g :: 0 <= g < |fs| ==> fs'[g] == fs[g].(children := fs[g].children + Range(fs[g], dirs))
    ensures forall d :: 0 <= d < |es| ==> es'[d] == Linked(es[d], Owner(fs, dirs, |fs|, d))
  {
    fs', es' := fs, es;
    var g := 0;
    while g < |fs|
      invariant 0 <= g <= |fs| && |fs'| == |fs| && |es'| == |es|
      invariant forall h :: 0 <= h < g ==> fs'[h] == fs[h].(children := fs[h].children + Range(fs[h], dirs))
      invariant forall h :: g <= h < |fs| ==> fs'[h] == fs[h]
      invariant forall d :: 0 <= d < |es| ==> es'[d] == Linked(es[d], Owner(fs, dirs, g, d))
    {
      var es1 := es';
      fs', es' := LinkFolder(fs', es', g, dirs);
      OwnerStep(fs, es, es1, es', dirs, g);
      g := g + 1;
    }
  }

  /** Linking folder g on top of the first g folders' links gives the
      links of the first g + 1 folders. */
  lemma OwnerStep(fs: seq<Folder>, es: seq<Entry>, es1: seq<Entry>, es2: seq<Entry>, dirs: seq<nat>, g: nat)
    requires g < |fs| && AllFit(fs, |dirs|) && |es1| == |es| && |es2| == |es|
    requires forall d :: 0 <= d < |es| ==> es1[d] == Linked(es[d], Owner(fs, dirs, g, d))
    requires forall d :: 0 <= d < |es| ==> es2[d] == if Covers(fs[g], dirs, d) then es1[d].(parent := Some(g)) else es1[d]
    ensures forall d :: 0 <= d < |es| ==> es2[d] == Linked(es[d], Owner(fs, dirs, g + 1, d))
  {
  }

  /** One iteration of the link pass: folder g walks positions
      mFirstFileOffs up to (but not including) the 32-bit end, appending
      each entry found there and making itself its parent. */
  method LinkFolder(fs: seq<Folder>, es: seq<Entry>, g: nat, dirs: seq<nat>) returns (fs': seq<Folder>, es': seq<Entry>)
    requires forall d :: d in dirs ==> d < |es|
    requires g < |fs| && RangeFits(fs[g], |dirs|)
    ensures fs' == fs[g := fs[g].(children := fs[g].children + Range(fs[g], dirs))]
    ensures |es'| == |es|
    ensures forall d :: 0 <= d < |es| ==> es'[d] == if Covers(fs[g], dirs, d) then es[d].(parent := Some(g)) else es[d]
  {
    fs', es' := fs, es;
    var node := fs[g];
    var first: nat := node.firstFileOffs;
    var end := (node.firstFileOffs + node.fileCount) % U32;
    var y := first;
    ghost var done: seq<nat> := [];
    assert node.children + done == node.children;
    while y < end
      invariant first <= y && (first < end ==> y <= end <= |dirs| && done == Slots(dirs, first, y))
      invariant first >= end ==> done == []
      invariant |es'| == |es|
      invariant fs' == fs[g := node.(children := node.children + done)]
      invariant forall d :: 0 <= d < |es| ==>
        es'[d] == if first < end && InSlots(dirs, first, y, d) then es[d].(parent := Some(g)) else es[d]
    {
      var child := dirs[y];
      assert child in dirs;
      es' := es'[child := es'[child].(parent := Some(g))];
      fs' := fs'[g := fs'[g].(children := fs'[g].children + [child])];
      assert node.children + done + [child] == node.children + (done + [child]);
      done := done + [child];
      y := y + 1;
    }
    assert done == Range(node, dirs);
  }
}
