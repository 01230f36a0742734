/** The offset and size arithmetic of JKRArchive::write and
    JKRArchive::writeFileData: where the three tables go, what the header
    records, and how the file-data regions are laid out. */
module Writer {
  import opened Util
  import opened Names
  import opened Attributes
  import opened Tree
  import opened Records
  import opened SortPass

  /** The folder table starts right after the two headers. */
  const DirOffs: nat := 0x40
  /** The size write records for the archive header; every stored offset
      is relative to its end. */
  const HeaderSize: u32 := 0x20
  const FolderRecordSize: nat := 0x10
  const EntryRecordSize: nat := 0x14

  /** fileOffs: the entry table starts on the first 32-byte boundary at or
      after the end of the folder table. */
  function FileOffs(nf: nat): (r: nat)
    ensures r % 32 == 0
    ensures DirOffs + nf * FolderRecordSize <= r < DirOffs + nf * FolderRecordSize + 32
  {
    DirOffs + Align32(nf * FolderRecordSize)
  }

  /** stringOffs: the string table starts on the first 32-byte boundary at
      or after the end of the entry table. */
  function StringOffs(nf: nat, ne: nat): (r: nat)
    ensures r % 32 == 0
    ensures FileOffs(nf) + ne * EntryRecordSize <= r < FileOffs(nf) + ne * EntryRecordSize + 32
  {
    var a, b := FileOffs(nf), Align32(ne * EntryRecordSize);
    AlignedAdd(a, b);
    a + b
  }

  lemma AlignedAdd(a: int, b: int)
    requires a % 32 == 0 && b % 32 == 0
    ensures (a + b) % 32 == 0
  {
    assert a + b == 32 * (a / 32 + b / 32);
  }

  /** The first byte of file data: the stream is aligned to 32 after the
      string pool's bytes, which end the stream at that point. */
  function DataStart(nf: nat, ne: nat, poolLen: nat): (r: nat)
    ensures r % 32 == 0
    ensures StringOffs(nf, ne) + poolLen <= r < StringOffs(nf, ne) + poolLen + 32
  {
    Align32(StringOffs(nf, ne) + poolLen)
  }

  /** The header write stores last, from the table sizes, the string pool
      (its length in the stream and the size it reports) and the three
      region sizes. */
  function MakeHeader(nf: nat, ne: nat, poolLen: nat, poolSize: u32, mram: u32, aram: u32, dvd: u32,
                      nextFileIdx: u16, sync: bool): Header
  {
    var start := DataStart(nf, ne, poolLen);
    Header((start + mram + aram + dvd) % U32, HeaderSize, Stored(start),
           (mram + aram + dvd) % U32, mram, aram, dvd,
           nf % U32, Stored(DirOffs), ne % U32, Stored(FileOffs(nf)),
           poolSize, Stored(StringOffs(nf, ne)), nextFileIdx, sync)
  }

  /** A stream position as the header stores it: relative to the end of
      the archive header, in 32-bit arithmetic. */
  function Stored(pos: nat): u32
  {
    (pos - HeaderSize) % U32
  }

  /** A position past the archive header and below 2^32 is recovered by
      adding the header size back. */
  lemma StoredBack(pos: nat)
    requires HeaderSize <= pos < U32
    ensures Stored(pos) + HeaderSize == pos
  {
  }

  /** The reader finds every table where write put it: each stored offset
      plus the stored header size is the position the writer used, and
      the stored counts are the table sizes. */
  lemma HeaderLocations(nf: nat, ne: nat, poolLen: nat, poolSize: u32, mram: u32, aram: u32, dvd: u32,
                        nextFileIdx: u16, sync: bool)
    requires DataStart(nf, ne, poolLen) < U32 && nf < U32 && ne < U32
    ensures var h := MakeHeader(nf, ne, poolLen, poolSize, mram, aram, dvd, nextFileIdx, sync);
      h.dirNodeOffset + h.headerSize == DirOffs
      && h.fileNodeOffset + h.headerSize == FileOffs(nf)
      && h.stringTableOffset + h.headerSize == StringOffs(nf, ne)
      && h.fileDataOffset + h.headerSize == DataStart(nf, ne, poolLen)
      && h.dirNodeCount == nf && h.fileNodeCount == ne
  {
    var start := DataStart(nf, ne, poolLen);
    var fo, so := FileOffs(nf), StringOffs(nf, ne);
    assert DirOffs <= fo <= so <= start < U32;
    StoredBack(DirOffs);
    StoredBack(fo);
    StoredBack(so);
    StoredBack(start);
    SmallMod(nf);
    SmallMod(ne);
  }

  lemma SmallMod(x: int)
    requires 0 <= x < U32
    ensures x % U32 == x
  {
  }

  /** The total the header records is the sum of the three region sizes,
      and the file ends that far past the start of the file data, both in
      32-bit arithmetic. */
  lemma HeaderSizes(nf: nat, ne: nat, poolLen: nat, poolSize: u32, mram: u32, aram: u32, dvd: u32,
                    nextFileIdx: u16, sync: bool)
    ensures var h := MakeHeader(nf, ne, poolLen, poolSize, mram, aram, dvd, nextFileIdx, sync);
      h.fileDataSize == (mram + aram + dvd) % U32
      && h.fileSize == (DataStart(nf, ne, poolLen) + h.fileDataSize) % U32
      && h.mramSize == mram && h.aramSize == aram && h.dvdSize == dvd
  {
    ModAddRight(DataStart(nf, ne, poolLen), mram + aram + dvd);
  }

  lemma ModAddRight(a: int, b: int)
    ensures (a + b) % U32 == (a + b % U32) % U32
  {
    var q := b / U32;
    assert b == q * U32 + b % U32;
    assert a + b == (a + b % U32) + q * U32;
  }

  // ---------------------------------------------------------------------
  // File data (writeFileData)
  // ---------------------------------------------------------------------

  /** Padding bytes. */
  function Zeros(n: nat): (r: seq<u8>)
    ensures |r| == n
  {
    seq(n, (_: int) => 0 as u8)
  }

  /** An entry whose first mDataSize payload bytes exist. */
  predicate Holds(e: Entry)
  {
    e.dataSize <= |e.payload|
  }

  /** Every file of the list is an entry holding its bytes. */
  predicate Fits(es: seq<Entry>, files: seq<nat>)
  {
    forall i :: 0 <= i < |files| ==> files[i] < |es| && Holds(es[files[i]])
  }

  /** What writing a file does to its entry first: a file marked USE_SZS
      has its bytes replaced by the compressor's output and mDataSize by
      the output's length.  The compressor is a parameter. */
  function Compressed(e: Entry, encode: seq<u8> -> seq<u8>): (r: Entry)
    requires Holds(e)
    ensures Holds(r)
  {
    if Has(e.attr, UseSzsBit) then
      var out := encode(e.payload[..e.dataSize]);
      e.(payload := out, dataSize := |out| % U32)
    else e
  }

  /** The bytes a file occupies in its region: mDataSize bytes of its
      payload, then padding up to the next 32-byte boundary. */
  function Chunk(e: Entry): (r: seq<u8>)
    requires Holds(e)
    ensures |r| == Align32(e.dataSize) && r[..e.dataSize] == e.payload[..e.dataSize]
  {
    e.payload[..e.dataSize] + Zeros(Align32(e.dataSize) - e.dataSize)
  }

  /** The data offset write leaves in a file written `at` bytes into its
      region.  As written (no base) the entry keeps whatever it had; as
      evidently intended, with `base` the region's distance from the start
      of the file-data section, it records base + at. */
  function Mark(e: Entry, base: Option<nat>, at: nat): Entry
  {
    if base.Some? then e.(data := (base.value + at) % U32) else e
  }

  lemma MarkKeepsSizes(e: Entry, base: Option<nat>, at: nat)
    ensures Mark(e, base, at).attr == e.attr && Mark(e, base, at).dataSize == e.dataSize
      && Mark(e, base, at).payload == e.payload
  {
  }

  /** Writing one more file onto the entries and the region bytes so far:
      set its offset, compress it if marked, append its chunk. */
  function Next(m: (seq<Entry>, seq<u8>), f: nat, base: Option<nat>, encode: seq<u8> -> seq<u8>): (seq<Entry>, seq<u8>)
    requires f < |m.0| && Holds(m.0[f])
  {
    var e := Compressed(Mark(m.0[f], base, |m.1|), encode);
    (m.0[f := e], m.1 + Chunk(e))
  }

  /** The entries and the region bytes after writing `files` in order. */
  function Emit(es: seq<Entry>, files: seq<nat>, base: Option<nat>, encode: seq<u8> -> seq<u8>): (r: (seq<Entry>, seq<u8>))
    requires Fits(es, files)
    ensures |r.0| == |es| && Fits(r.0, files) && |r.1| % 32 == 0
    ensures forall d :: 0 <= d < |es| && d !in files ==> r.0[d] == es[d]
    decreases |files|
  {
    if |files| == 0 then (es, [])
    else
      var init, f := files[..|files| - 1], files[|files| - 1];
      assert Fits(es, init) by {
        assert forall i :: 0 <= i < |init| ==> init[i] == files[i];
      }
      var m := Emit(es, init, base, encode);
      assert f < |m.0| && Holds(m.0[f]) by {
        if f in init {
          var j :| 0 <= j < |init| && init[j] == f;
        }
      }
      assert init + [f] == files;
      NextKeeps(es, m, init, f, base, encode);
      Next(m, f, base, encode)
  }

  /** One Next step keeps what Emit promises, for the list one longer. */
  lemma NextKeeps(es: seq<Entry>, m: (seq<Entry>, seq<u8>), init: seq<nat>, f: nat, base: Option<nat>, encode: seq<u8> -> seq<u8>)
    requires |m.0| == |es| && Fits(m.0, init) && f < |m.0| && Holds(m.0[f]) && |m.1| % 32 == 0
    requires forall d :: 0 <= d < |es| && d !in init ==> m.0[d] == es[d]
    ensures var r := Next(m, f, base, encode);
      |r.0| == |es| && Fits(r.0, init + [f]) && |r.1| % 32 == 0
      && forall d :: 0 <= d < |es| && d !in init + [f] ==> r.0[d] == es[d]
  {
    var r := Next(m, f, base, encode);
    var e := Compressed(Mark(m.0[f], base, |m.1|), encode);
    assert Holds(e);
    forall i | 0 <= i < |init + [f]|
      ensures (init + [f])[i] < |r.0| && Holds(r.0[(init + [f])[i]])
    {
      if i < |init| {
        assert (init + [f])[i] == init[i];
      }
    }
    assert |r.1| == |m.1| + Align32(e.dataSize);
  }

  /** One more file: the state after files[..i+1] is one Next step from
      the state after files[..i]. */
  lemma EmitStep(es: seq<Entry>, files: seq<nat>, i: nat, base: Option<nat>, encode: seq<u8> -> seq<u8>)
    requires Fits(es, files) && i < |files|
    ensures Fits(es, files[..i]) && Fits(es, files[..i + 1])
    ensures var m := Emit(es, files[..i], base, encode);
      files[i] < |m.0| && Holds(m.0[files[i]])
      && Emit(es, files[..i + 1], base, encode) == Next(m, files[i], base, encode)
  {
    assert files[..i + 1][..i] == files[..i];
    var f := files[i];
    if f in files[..i] {
      var j :| 0 <= j < i && files[..i][j] == f;
    }
  }

  /** EmitStep with the step spelled out: compressing the marked entry and
      appending its chunk extends the state after files[..i] to the state
      after files[..i+1]. */
  lemma StepTo(es: seq<Entry>, files: seq<nat>, i: nat, base: Option<nat>, encode: seq<u8> -> seq<u8>,
               m: (seq<Entry>, seq<u8>), e: Entry, bytes: seq<u8>)
    requires Fits(es, files) && i < |files| && Fits(es, files[..i])
    requires m == Emit(es, files[..i], base, encode) && files[i] < |m.0| && Holds(m.0[files[i]])
    requires e == Compressed(Mark(m.0[files[i]], base, |m.1|), encode) && bytes == Chunk(e)
    ensures Fits(es, files[..i + 1])
    ensures (m.0[files[i] := e], m.1 + bytes) == Emit(es, files[..i + 1], base, encode)
  {
    EmitStep(es, files, i, base, encode);
  }

  /** writeFileData as written: for each file, compress it when it is
      marked USE_SZS, write its bytes, align the stream to 32; the size
      reported is the distance the stream moved, in 32 bits.  The region
      starts on a 32-byte boundary (write aligned the stream first).
      Nothing stores the file's position in its mData. */
  method WriteFileData(es: seq<Entry>, files: seq<nat>, start: nat, encode: seq<u8> -> seq<u8>)
    returns (es': seq<Entry>, region: seq<u8>, size: u32)
    requires start % 32 == 0 && Fits(es, files)
    ensures (es', region) == Emit(es, files, None, encode)
    ensures size == |region| % U32
  {
    es', region, size := WriteRegion(es, files, start, None, encode);
  }

  /** writeFileData as evidently intended: before a file is written, its
      mData is set to the stream position less the start of the file-data
      section, which this region begins `base` bytes into. */
  method WriteFileDataPlaced(es: seq<Entry>, files: seq<nat>, start: nat, base: nat, encode: seq<u8> -> seq<u8>)
    returns (es': seq<Entry>, region: seq<u8>, size: u32)
    requires start % 32 == 0 && Fits(es, files)
    ensures (es', region) == Emit(es, files, Some(base), encode)
    ensures size == |region| % U32
  {
    es', region, size := WriteRegion(es, files, start, Some(base), encode);
  }

  /** The loop of writeFileData, with the offset marking of each file
      switched by `base` (None: as written, no marking). */
  method WriteRegion(es: seq<Entry>, files: seq<nat>, start: nat, base: Option<nat>, encode: seq<u8> -> seq<u8>)
    returns (es': seq<Entry>, region: seq<u8>, size: u32)
    requires start % 32 == 0 && Fits(es, files)
    ensures (es', region) == Emit(es, files, base, encode)
    ensures size == |region| % U32
  {
    var m: (seq<Entry>, seq<u8>) := (es, []);
    var pos := start;
    var i := 0;
    while i < |files|
      invariant 0 <= i <= |files| && Wrote(es, files, i, base, encode, m)
      invariant pos == start + |m.1| && pos % 32 == 0
    {
      m, pos := WriteStep(es, files, i, base, encode, m, start, pos);
      i := i + 1;
    }
    WroteAll(es, files, base, encode, m);
    es', region := m.0, m.1;
    size := (pos - start) % U32;
  }

  /** The state m is the one after writing files[..i]. */
  ghost predicate Wrote(es: seq<Entry>, files: seq<nat>, i: nat, base: Option<nat>, encode: seq<u8> -> seq<u8>,
                        m: (seq<Entry>, seq<u8>))
  {
    i <= |files| && Fits(es, files[..i]) && m == Emit(es, files[..i], base, encode)
  }

  lemma WroteAll(es: seq<Entry>, files: seq<nat>, base: Option<nat>, encode: seq<u8> -> seq<u8>,
                 m: (seq<Entry>, seq<u8>))
    requires Fits(es, files) && Wrote(es, files, |files|, base, encode, m)
    ensures m == Emit(es, files, base, encode)
  {
    assert files[..|files|] == files;
  }

  /** One pass of the loop of writeFileData over files[i], the region so
      far starting at the aligned position `start`: the entries and bytes
      after files[..i] become those after files[..i+1]. */
  method WriteStep(es: seq<Entry>, files: seq<nat>, i: nat, base: Option<nat>, encode: seq<u8> -> seq<u8>,
                   m: (seq<Entry>, seq<u8>), start: nat, pos: nat)
    returns (m': (seq<Entry>, seq<u8>), pos': nat)
    requires Fits(es, files) && i < |files| && Wrote(es, files, i, base, encode, m)
    requires pos == start + |m.1| && pos % 32 == 0
    ensures Wrote(es, files, i + 1, base, encode, m')
    ensures pos' == start + |m'.1| && pos' % 32 == 0
  {
    var d := files[i];
    EmitStep(es, files, i, base, encode);
    var e, bytes;
    e, bytes, pos' := WriteOne(Mark(m.0[d], base, pos - start), pos, encode);
    StepTo(es, files, i, base, encode, m, e, bytes);
    m' := (m.0[d := e], m.1 + bytes);
  }

  /** One iteration of writeFileData: compress the file when it is marked
      USE_SZS, write mDataSize bytes of it at the (aligned) position, then
      align the stream. */
  method WriteOne(e: Entry, pos: nat, encode: seq<u8> -> seq<u8>) returns (e': Entry, bytes: seq<u8>, pos': nat)
    requires Holds(e) && pos % 32 == 0
    ensures e' == Compressed(e, encode) && bytes == Chunk(e')
    ensures pos' == pos + |bytes| && pos' % 32 == 0
  {
    e' := e;
    if Has(e'.attr, UseSzsBit) {
      var out := encode(e'.payload[..e'.dataSize]);
      e' := e'.(payload := out, dataSize := |out| % U32);
    }
    AppendChunk(e', pos);
    bytes := e'.payload[..e'.dataSize];
    pos' := pos + e'.dataSize;
    var aligned := Align32(pos');
    bytes := bytes + Zeros(aligned - pos');
    pos' := aligned;
  }

  /** Writing a file's bytes at an aligned position and aligning the
      stream again appends exactly the file's chunk. */
  lemma AppendChunk(e: Entry, pos: nat)
    requires Holds(e) && pos % 32 == 0
    ensures Align32(pos + e.dataSize) - (pos + e.dataSize) == Align32(e.dataSize) - e.dataSize
    ensures e.payload[..e.dataSize] + Zeros(Align32(pos + e.dataSize) - (pos + e.dataSize)) == Chunk(e)
  {
    Align32Shift(pos, e.dataSize);
  }

  // ---------------------------------------------------------------------
  // Region sizes
  // ---------------------------------------------------------------------

  /** The sum of the aligned sizes of the files of a list. */
  function SumAligned(es: seq<Entry>, files: seq<nat>): int
    requires forall i :: 0 <= i < |files| ==> files[i] < |es|
    decreases |files|
  {
    if |files| == 0 then 0
    else SumAligned(es, files[..|files| - 1]) + Align32(es[files[|files| - 1]].dataSize)
  }

  lemma {:induction false} SumAlignedFrame(es: seq<Entry>, files: seq<nat>, d: nat, e: Entry)
    requires forall i :: 0 <= i < |files| ==> files[i] < |es|
    requires d < |es| && d !in files
    ensures SumAligned(es[d := e], files) == SumAligned(es, files)
    decreases |files|
  {
    if |files| > 0 {
      var init := files[..|files| - 1];
      assert forall i :: 0 <= i < |init| ==> init[i] == files[i];
      assert d != files[|files| - 1];
      SumAlignedFrame(es, init, d, e);
    }
  }

  /** A region holding each of its files once is as long as the sum of
      the files' 32-aligned lengths as they were written. */
  lemma {:induction false} RegionSize(es: seq<Entry>, files: seq<nat>, base: Option<nat>, encode: seq<u8> -> seq<u8>)
    requires Fits(es, files) && NoDup(files)
    ensures |Emit(es, files, base, encode).1| == SumAligned(Emit(es, files, base, encode).0, files)
    decreases |files|
  {
    if |files| > 0 {
      var n := |files| - 1;
      var init, f := files[..n], files[n];
      assert files == init + [f];
      NoDupSplit(init, [f]);
      EmitStep(es, files, n, base, encode);
      assert files[..n + 1] == files;
      var m := Emit(es, init, base, encode);
      RegionSize(es, init, base, encode);
      SumAlignedFrame(m.0, init, f, Compressed(Mark(m.0[f], base, |m.1|), encode));
    }
  }

  /** Writing a region changes no attribute, and only the mDataSize of
      a file marked USE_SZS. */
  lemma {:induction false} EmitKeepsSizes(es: seq<Entry>, files: seq<nat>, base: Option<nat>, encode: seq<u8> -> seq<u8>, d: nat)
    requires Fits(es, files) && d < |es|
    ensures Emit(es, files, base, encode).0[d].attr == es[d].attr
    ensures !Has(es[d].attr, UseSzsBit) ==> Emit(es, files, base, encode).0[d].dataSize == es[d].dataSize
    decreases |files|
  {
    if |files| > 0 {
      var n := |files| - 1;
      EmitStep(es, files, n, base, encode);
      assert files[..n + 1] == files;
      EmitKeepsSizes(es, files[..n], base, encode, d);
      var m := Emit(es, files[..n], base, encode);
      MarkKeepsSizes(m.0[files[n]], base, |m.1|);
    }
  }

  /** The mDataSize the i-th listed file has at the moment it is
      written, after the files before it. */
  function WrittenSize(es: seq<Entry>, files: seq<nat>, i: nat, base: Option<nat>, encode: seq<u8> -> seq<u8>): nat
    requires Fits(es, files) && i < |files|
  {
    EmitStep(es, files, i, base, encode);
    var m := Emit(es, files[..i], base, encode);
    Compressed(Mark(m.0[files[i]], base, |m.1|), encode).dataSize
  }

  /** A file not marked USE_SZS is written with the size it came with,
      however often it is listed. */
  lemma WrittenPlain(es: seq<Entry>, files: seq<nat>, i: nat, base: Option<nat>, encode: seq<u8> -> seq<u8>)
    requires Fits(es, files) && i < |files| && !Has(es[files[i]].attr, UseSzsBit)
    ensures WrittenSize(es, files, i, base, encode) == es[files[i]].dataSize
  {
    EmitStep(es, files, i, base, encode);
    var f := files[i];
    var m := Emit(es, files[..i], base, encode);
    EmitKeepsSizes(es, files[..i], base, encode, f);
    MarkKeepsSizes(m.0[f], base, |m.1|);
    var e := Mark(m.0[f], base, |m.1|);
    assert e.dataSize == es[f].dataSize && !Has(e.attr, UseSzsBit);
    assert Compressed(e, encode) == e;
  }

  /** The first time a file marked USE_SZS is written, its size is the
      length of the encoding of the bytes it came with. */
  lemma WrittenEncoded(es: seq<Entry>, files: seq<nat>, i: nat, base: Option<nat>, encode: seq<u8> -> seq<u8>)
    requires Fits(es, files) && i < |files| && Has(es[files[i]].attr, UseSzsBit) && files[i] !in files[..i]
    ensures WrittenSize(es, files, i, base, encode) == |encode(es[files[i]].payload[..es[files[i]].dataSize])| % U32
  {
    EmitStep(es, files, i, base, encode);
    var f := files[i];
    var m := Emit(es, files[..i], base, encode);
    assert m.0[f] == es[f];
    MarkKeepsSizes(m.0[f], base, |m.1|);
    var e := Mark(m.0[f], base, |m.1|);
    assert e.attr == es[f].attr && e.dataSize == es[f].dataSize && e.payload == es[f].payload;
  }

  /** The sum of the 32-aligned sizes of the first k listed files as
      they are written. */
  function WrittenTotal(es: seq<Entry>, files: seq<nat>, k: nat, base: Option<nat>, encode: seq<u8> -> seq<u8>): nat
    requires Fits(es, files) && k <= |files|
    decreases k
  {
    if k == 0 then 0 else WrittenTotal(es, files, k - 1, base, encode) + Align32(WrittenSize(es, files, k - 1, base, encode))
  }

  lemma {:induction false} WrittenUpTo(es: seq<Entry>, files: seq<nat>, k: nat, base: Option<nat>, encode: seq<u8> -> seq<u8>)
    requires Fits(es, files) && k <= |files|
    ensures Fits(es, files[..k])
    ensures |Emit(es, files[..k], base, encode).1| == WrittenTotal(es, files, k, base, encode)
    decreases k
  {
    if k == 0 {
      assert files[..0] == [];
    } else {
      EmitStep(es, files, k - 1, base, encode);
      WrittenUpTo(es, files, k - 1, base, encode);
    }
  }

  /** Any region, a file listed twice included, is as long as the sum of
      the 32-aligned sizes its files have as they are written. */
  lemma RegionWritten(es: seq<Entry>, files: seq<nat>, base: Option<nat>, encode: seq<u8> -> seq<u8>)
    requires Fits(es, files)
    ensures |Emit(es, files, base, encode).1| == WrittenTotal(es, files, |files|, base, encode)
  {
    WrittenUpTo(es, files, |files|, base, encode);
    assert files[..|files|] == files;
  }

  /** A region without USE_SZS files, a file listed twice included, is
      as long as the sum of the files' 32-aligned mDataSize. */
  lemma {:induction false} PlainRegionSize(es: seq<Entry>, files: seq<nat>, base: Option<nat>, encode: seq<u8> -> seq<u8>)
    requires Fits(es, files)
    requires forall i :: 0 <= i < |files| ==> !Has(es[files[i]].attr, UseSzsBit)
    ensures |Emit(es, files, base, encode).1| == SumAligned(es, files)
    decreases |files|
  {
    if |files| > 0 {
      var n := |files| - 1;
      EmitStep(es, files, n, base, encode);
      assert files[..n + 1] == files;
      assert forall i :: 0 <= i < n ==> files[..n][i] == files[i];
      PlainRegionSize(es, files[..n], base, encode);
      var m := Emit(es, files[..n], base, encode);
      EmitKeepsSizes(es, files[..n], base, encode, files[n]);
      MarkKeepsSizes(m.0[files[n]], base, |m.1|);
    }
  }

  /** As written, a region without USE_SZS files leaves every entry as it
      was. */
  lemma {:induction false} PlainRegion(es: seq<Entry>, files: seq<nat>, encode: seq<u8> -> seq<u8>)
    requires Fits(es, files)
    requires forall i :: 0 <= i < |files| ==> !Has(es[files[i]].attr, UseSzsBit)
    ensures Emit(es, files, None, encode).0 == es
    decreases |files|
  {
    if |files| > 0 {
      var n := |files| - 1;
      EmitStep(es, files, n, None, encode);
      assert files[..n + 1] == files;
      PlainRegion(es, files[..n], encode);
    }
  }

  // ---------------------------------------------------------------------
  // Data offsets: writeFileData as written, and with offsets recorded
  // ---------------------------------------------------------------------

  /** As written, writeFileData never records where a file's bytes went:
      every entry keeps the data offset it had before. */
  lemma {:induction false} EmitKeepsData(es: seq<Entry>, files: seq<nat>, encode: seq<u8> -> seq<u8>)
    requires Fits(es, files)
    ensures forall d :: 0 <= d < |es| ==> Emit(es, files, None, encode).0[d].data == es[d].data
    decreases |files|
  {
    if |files| > 0 {
      var n := |files| - 1;
      EmitStep(es, files, n, None, encode);
      assert files[..n + 1] == files;
      EmitKeepsData(es, files[..n], encode);
    }
  }

  /** The bytes at an entry's data offset in the file-data section are
      its payload: a reader seeking to mFileDataOffset + mHeaderSize +
      mData finds this file. */
  predicate ReadsBack(section: seq<u8>, e: Entry)
  {
    e.data + e.dataSize <= |section| && Holds(e)
    && section[e.data..e.data + e.dataSize] == e.payload[..e.dataSize]
  }

  /** Two one-byte MRAM files, as createFile leaves their data offsets. */
  function TwoFiles(): seq<Entry>
  {
    [NewEntry([0x61], 0x11, None, Some(0)).(dataSize := 1, payload := [7]),
     NewEntry([0x62], 0x11, None, Some(0)).(dataSize := 1, payload := [9])]
  }

  /** The codec of an archive without compressed files never runs. */
  function Identity(x: seq<u8>): seq<u8> { x }

  /** Writing TwoFiles as written appends both chunks and changes no
      entry. */
  lemma TwoFilesRegion()
    ensures Emit(TwoFiles(), [0, 1], None, Identity) == (TwoFiles(), Chunk(TwoFiles()[0]) + Chunk(TwoFiles()[1]))
  {
    var es := TwoFiles();
    var files: seq<nat> := [0, 1];
    assert files[..0] == [] && files[..1] == [0] && files[..2] == files;
    var e0, e1 := es[0], es[1];
    assert Compressed(e0, Identity) == e0 && Compressed(e1, Identity) == e1;
    StepTo(es, files, 0, None, Identity, (es, []), e0, Chunk(e0));
    assert es[0 := e0] == es && [] + Chunk(e0) == Chunk(e0);
    StepTo(es, files, 1, None, Identity, (es, Chunk(e0)), e1, Chunk(e1));
    assert es[1 := e1] == es;
  }

  /** As written, the second file's bytes go to offset 32 of the region
      but its record keeps data offset 0, where the first file's byte is:
      the written archive does not lead a reader to the second file. */
  lemma StaleDataOffset()
    ensures var w := Emit(TwoFiles(), [0, 1], None, Identity);
      w.0[1].data == 0 && |w.1| == 64 && w.1[32] == 9 && !ReadsBack(w.1, w.0[1])
  {
    TwoFilesRegion();
    var c0, c1 := Chunk(TwoFiles()[0]), Chunk(TwoFiles()[1]);
    assert |c0| == 32 && c0[0] == 7 && c1[0] == 9;
    assert (c0 + c1)[0] == 7 && (c0 + c1)[32] == 9;
  }

  /** An entry placed at `base` in the data section: its data offset
      points into this region, at bytes that are its payload. */
  predicate Placed(region: seq<u8>, base: nat, e: Entry)
  {
    base <= e.data && e.data - base + e.dataSize <= |region| && Holds(e)
    && region[e.data - base..e.data - base + e.dataSize] == e.payload[..e.dataSize]
  }

  lemma PlacedExtend(region: seq<u8>, more: seq<u8>, base: nat, e: Entry)
    requires Placed(region, base, e)
    ensures Placed(region + more, base, e)
  {
    var a := e.data - base;
    assert (region + more)[a..a + e.dataSize] == region[a..a + e.dataSize];
  }

  /** A region that starts `|prior|` bytes into the data section: an entry
      placed in it reads back from the whole section. */
  lemma PlacedReadsBack(prior: seq<u8>, region: seq<u8>, rest: seq<u8>, e: Entry)
    requires Placed(region, |prior|, e)
    ensures ReadsBack(prior + region + rest, e)
  {
    var a := e.data - |prior|;
    assert (prior + region + rest)[e.data..e.data + e.dataSize] == region[a..a + e.dataSize];
  }

  /** Recording the offsets changes nothing else: the region's bytes are
      those of writeFileData as written and the entries differ from its
      entries only in their data offsets. */
  lemma {:induction false} PlacedSameBytes(es: seq<Entry>, files: seq<nat>, base: nat, encode: seq<u8> -> seq<u8>)
    requires Fits(es, files)
    ensures Emit(es, files, Some(base), encode).1 == Emit(es, files, None, encode).1
    ensures forall d :: 0 <= d < |es| ==>
      Emit(es, files, Some(base), encode).0[d].(data := 0) == Emit(es, files, None, encode).0[d].(data := 0)
    decreases |files|
  {
    if |files| > 0 {
      var n := |files| - 1;
      EmitStep(es, files, n, None, encode);
      EmitStep(es, files, n, Some(base), encode);
      assert files[..n + 1] == files;
      PlacedSameBytes(es, files[..n], base, encode);
      var p, q := Emit(es, files[..n], Some(base), encode), Emit(es, files[..n], None, encode);
      var f := files[n];
      SameButData(Mark(p.0[f], Some(base), |p.1|), q.0[f], encode);
    }
  }

  /** Compression ignores the data offset. */
  lemma SameButData(a: Entry, b: Entry, encode: seq<u8> -> seq<u8>)
    requires Holds(a) && a.(data := 0) == b.(data := 0)
    ensures Holds(b) && Compressed(a, encode).(data := 0) == Compressed(b, encode).(data := 0)
    ensures Chunk(Compressed(a, encode)) == Chunk(Compressed(b, encode))
  {
    assert a.payload == b.payload && a.dataSize == b.dataSize && a.attr == b.attr;
  }

  /** The placement invariant survives one more file: earlier files keep
      their bytes (the region only grows), and the new file's offset is
      where its chunk starts. */
  lemma PlaceStep(r0: seq<u8>, bytes: seq<u8>, base: nat, s0: seq<Entry>, s1: seq<Entry>,
                  files: seq<nat>, i: nat, e: Entry)
    requires i < |files| && (forall j :: 0 <= j <= i ==> files[j] < |s0|) && s1 == s0[files[i] := e]
    requires Holds(e) && e.dataSize <= |bytes| && bytes[..e.dataSize] == e.payload[..e.dataSize]
    requires e.data == (base + |r0|) % U32
    requires base + |r0| < U32 ==> forall j :: 0 <= j < i ==> Placed(r0, base, s0[files[j]])
    ensures base + |r0 + bytes| < U32 ==> forall j :: 0 <= j <= i ==> Placed(r0 + bytes, base, s1[files[j]])
  {
    if base + |r0 + bytes| < U32 {
      forall j | 0 <= j <= i
        ensures Placed(r0 + bytes, base, s1[files[j]])
      {
        if files[j] == files[i] {
          assert (r0 + bytes)[|r0|..|r0| + e.dataSize] == bytes[..e.dataSize];
        } else {
          PlacedExtend(r0, bytes, base, s0[files[j]]);
        }
      }
    }
  }

  /** One Next step with offsets recorded keeps every file written so far
      placed and places the new one. */
  lemma FindsStep(m: (seq<Entry>, seq<u8>), files: seq<nat>, n: nat, base: nat, encode: seq<u8> -> seq<u8>)
    requires n < |files| && (forall j :: 0 <= j <= n ==> files[j] < |m.0|) && Holds(m.0[files[n]])
    requires base + |m.1| < U32 ==> forall j :: 0 <= j < n ==> Placed(m.1, base, m.0[files[j]])
    ensures var w := Next(m, files[n], Some(base), encode);
      base + |w.1| < U32 ==> forall j :: 0 <= j <= n ==> Placed(w.1, base, w.0[files[j]])
  {
    var e := Compressed(Mark(m.0[files[n]], Some(base), |m.1|), encode);
    PlaceStep(m.1, Chunk(e), base, m.0, m.0[files[n] := e], files, n, e);
  }

  /** With offsets recorded, every file of the region is found at its
      data offset, as long as the section stays within the 32-bit range
      of mData; a file listed twice is found where it was written last. */
  lemma {:induction false} PlacedFindsFiles(es: seq<Entry>, files: seq<nat>, base: nat, encode: seq<u8> -> seq<u8>)
    requires Fits(es, files)
    ensures var w := Emit(es, files, Some(base), encode);
      base + |w.1| < U32 ==> forall i :: 0 <= i < |files| ==> Placed(w.1, base, w.0[files[i]])
    decreases |files|
  {
    if |files| > 0 {
      var n := |files| - 1;
      EmitStep(es, files, n, Some(base), encode);
      assert files[..n + 1] == files;
      PlacedFindsFiles(es, files[..n], base, encode);
      var m := Emit(es, files[..n], Some(base), encode);
      assert forall j :: 0 <= j < n ==> files[j] == files[..n][j];
      FindsStep(m, files, n, base, encode);
    }
  }
}
