/** The fixed-size records of a RARC archive as JKRArchive::write emits
    them and JKRArchive::read takes them apart: the 0x10-byte folder
    record, the 0x14-byte entry record with its combined attribute and
    name-offset word, and the header block. */
module Records {
  import opened Util
  import opened Names
  import opened Attributes
  import opened Tree

  /** Bits 24..31 of the combined word hold the attribute. */
  const AttrShift: nat := 0x100_0000

  /** JKRFolderNode::Node as written: short name, name offset, name hash,
      child count and first child position. */
  datatype FolderRecord = FolderRecord(
    shortName: Name,
    nameOffs: u32,
    hash: u16,
    fileCount: u16,
    firstFileOffs: u32)

  /** JKRDirectory::Node as written (the four padding bytes are left out). */
  datatype EntryRecord = EntryRecord(
    nodeIdx: u16,
    hash: u16,
    attrAndNameOffs: u32,
    data: u32,
    dataSize: u32)

  /** The archive header and the data header, one field per value write
      stores, in the order it stores them. */
  datatype Header = Header(
    fileSize: u32,
    headerSize: u32,
    fileDataOffset: u32,
    fileDataSize: u32,
    mramSize: u32,
    aramSize: u32,
    dvdSize: u32,
    dirNodeCount: u32,
    dirNodeOffset: u32,
    fileNodeCount: u32,
    fileNodeOffset: u32,
    stringTableSize: u32,
    stringTableOffset: u32,
    nextFileIdx: u16,
    syncFileIds: bool)

  /** `(attr << 24) | nameOffs`.  A 16-bit name offset shares no bit with
      the shifted attribute, so the or is a sum and each part can be read
      back from the word. */
  function AttrAndNameOffs(attr: u8, nameOffs: u16): (x: u32)
    ensures x / AttrShift == attr
    ensures x % AttrShift == nameOffs
  {
    var x := attr * AttrShift + nameOffs;
    assert x / AttrShift == attr && x % AttrShift == nameOffs by {
      DivModUnique(x, attr, nameOffs);
    }
    x
  }

  lemma DivModUnique(x: int, q: nat, r: nat)
    requires r < AttrShift && x == q * AttrShift + r
    ensures x / AttrShift == q && x % AttrShift == r
  {
  }

  /** `mAttrAndNameOffs >> 24`, the attribute read back. */
  function AttrOf(x: u32): u8
  {
    x / AttrShift
  }

  /** `mAttrAndNameOffs & 0x00FFFFFF`, stored into the 16-bit mNameOffs,
      which keeps it modulo 2^16. */
  function NameOffsOf(x: u32): u16
  {
    (x % AttrShift) % U16
  }

  /** Reading back a word that write composed gives the attribute and the
      name offset it was composed from. */
  lemma SplitCombine(attr: u8, nameOffs: u16)
    ensures AttrOf(AttrAndNameOffs(attr, nameOffs)) == attr
    ensures NameOffsOf(AttrAndNameOffs(attr, nameOffs)) == nameOffs
  {
  }

  /** Composing the parts read from a word gives the word back exactly
      when bits 16..23 of it are clear: the reader's 16-bit name offset
      loses those bits. */
  lemma CombineSplit(x: u32)
    ensures AttrAndNameOffs(AttrOf(x), NameOffsOf(x)) == x <==> x % AttrShift < U16
  {
    assert x == AttrOf(x) * AttrShift + x % AttrShift;
    if x % AttrShift < U16 {
      assert NameOffsOf(x) == x % AttrShift;
    } else {
      assert AttrAndNameOffs(AttrOf(x), NameOffsOf(x)) % AttrShift == NameOffsOf(x);
    }
  }

  /** The folder record write emits for a folder node: its short name,
      its string offset, the hash of its name, the size of its child list
      narrowed to 16 bits, and its first child position. */
  function FolderRecordOf(f: Folder): FolderRecord
  {
    FolderRecord(ShortName(f.name, f.isRoot), f.nameOffs, Hash(f.name), |f.children| % U16, f.firstFileOffs)
  }

  /** The entry record write emits for an entry. */
  function EntryRecordOf(e: Entry): EntryRecord
  {
    EntryRecord(e.nodeIdx, Hash(e.name), AttrAndNameOffs(e.attr, e.nameOffs), e.data, e.dataSize)
  }

  /** The folder node read builds from a record: the record's fields, the
      name found in the string table, no children and no entry yet. */
  function FolderOfRecord(r: FolderRecord, name: Name, isRoot: bool): Folder
  {
    Folder(name, isRoot, None, [], r.firstFileOffs, r.fileCount, r.hash, r.nameOffs)
  }

  /** The folder a read entry points to: a directory whose data field is
      not 0xFFFFFFFF names the folder at that index. */
  predicate PointsToFolder(r: EntryRecord)
  {
    IsDirectory(AttrOf(r.attrAndNameOffs)) && r.data != NoFolder
  }

  /** A read entry carries a payload when it is a file and not a
      directory pointing to a folder (the else-branch of the read). */
  predicate CarriesPayload(r: EntryRecord)
  {
    !PointsToFolder(r) && IsFile(AttrOf(r.attrAndNameOffs))
  }

  /** The entry read builds from a record, its name and its payload. */
  function EntryOfRecord(r: EntryRecord, name: Name, payload: seq<u8>): Entry
  {
    var attr := AttrOf(r.attrAndNameOffs);
    Entry(name, attr, if PointsToFolder(r) then Some(r.data as nat) else None, None,
          r.nodeIdx, r.hash, r.data, r.dataSize, NameOffsOf(r.attrAndNameOffs),
          if CarriesPayload(r) then payload else [])
  }

  /** Writing an entry and reading the record back restores every field
      the record carries: attribute, node index, data, size, and the name
      offset; a directory with a folder index gets that folder back.  The
      record keeps only the hash of the name, so the name itself comes
      from the string table. */
  lemma EntryRoundTrip(e: Entry, name: Name, payload: seq<u8>)
    ensures var r := EntryOfRecord(EntryRecordOf(e), name, payload);
      r.attr == e.attr && r.nodeIdx == e.nodeIdx && r.data == e.data
      && r.dataSize == e.dataSize && r.nameOffs == e.nameOffs && r.hash == Hash(e.name)
      && r.parent.None? && r.name == name
      && (IsDirectory(e.attr) && e.data != NoFolder ==> r.folder == Some(e.data as nat))
      && (IsDirectory(e.attr) && e.data == NoFolder ==> r.folder.None?)
      && (!IsDirectory(e.attr) ==> r.folder.None?)
      && (IsFile(e.attr) && !(IsDirectory(e.attr) && e.data != NoFolder) ==> r.payload == payload)
  {
    SplitCombine(e.attr, e.nameOffs);
  }

  /** Writing a folder and reading its record back restores its string
      offset and its child range, with the count being the child list's
      length modulo 2^16; the hash becomes the hash of its name. */
  lemma FolderRoundTrip(f: Folder, name: Name, isRoot: bool)
    ensures var r := FolderOfRecord(FolderRecordOf(f), name, isRoot);
      r.nameOffs == f.nameOffs && r.firstFileOffs == f.firstFileOffs
      && r.fileCount == |f.children| % U16 && r.hash == Hash(f.name)
      && r.children == [] && r.self.None? && r.name == name
      && (|f.children| < U16 ==> r.fileCount == |f.children|)
  {
  }
}
