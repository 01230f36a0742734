/** The attribute byte of a directory entry (enum JKRFileAttr in
    Include/JKRArchive.h) and the queries JKRDirectory derives from it. */
module Attributes {
  import opened Util
  import opened Names

  /** The single-bit flags of JKRFileAttr. */
  const FileBit: u8 := 0x01
  const FolderBit: u8 := 0x02
  const CompressedBit: u8 := 0x04
  const LoadToMramBit: u8 := 0x10
  const LoadToAramBit: u8 := 0x20
  const LoadFromDvdBit: u8 := 0x40
  const UseSzsBit: u8 := 0x80

  /** The two composite values of JKRFileAttr. */
  const FileAndCompression: u8 := 0x85
  const FileAndPreload: u8 := 0x71

  predicate IsFlag(f: u8)
  {
    f == FileBit || f == FolderBit || f == CompressedBit || f == LoadToMramBit
    || f == LoadToAramBit || f == LoadFromDvdBit || f == UseSzsBit
  }

  /** `attr & flag` is non-zero, for a single-bit flag: the bit at the
      flag's position is set. */
  predicate Has(attr: u8, flag: u8)
    requires IsFlag(flag)
  {
    (attr / flag) % 2 == 1
  }

  /** JKRDirectory::isDirectory. */
  predicate IsDirectory(attr: u8)
  {
    Has(attr, FolderBit)
  }

  /** JKRDirectory::isFile. */
  predicate IsFile(attr: u8)
  {
    Has(attr, FileBit)
  }

  /** JKRDirectory::isShortcut: the name is exactly "." or ".." and the
      folder bit is set. */
  predicate IsShortcut(name: Name, attr: u8)
  {
    (name == DotDot || name == Dot) && IsDirectory(attr)
  }

  /** JKRPreloadType (NONE = -1, MRAM = 0, ARAM = 1, DVD = 2). */
  datatype PreloadType = NoPreload | Mram | Aram | Dvd

  /** JKRCompressionType, as far as this core uses it. */
  datatype CompressionType = NoCompression | Szs | Szp

  /** The attribute bit that names a preload target. */
  function PreloadBit(t: PreloadType): (f: u8)
    requires t != NoPreload
    ensures IsFlag(f)
  {
    match t
    case Mram => LoadToMramBit
    case Aram => LoadToAramBit
    case Dvd => LoadFromDvdBit
  }

  /** The priority of a preload target: lower is tried first. */
  function Priority(t: PreloadType): nat
  {
    match t
    case Mram => 0
    case Aram => 1
    case Dvd => 2
    case NoPreload => 3
  }

  /** JKRDirectory::getPreloadType. */
  function GetPreloadType(attr: u8): (t: PreloadType)
    ensures t != NoPreload ==> IsFile(attr) && Has(attr, PreloadBit(t))
    ensures t == NoPreload <==>
      !IsFile(attr) || (!Has(attr, LoadToMramBit) && !Has(attr, LoadToAramBit) && !Has(attr, LoadFromDvdBit))
  {
    if IsFile(attr) then
      if Has(attr, LoadToMramBit) then Mram
      else if Has(attr, LoadToAramBit) then Aram
      else if Has(attr, LoadFromDvdBit) then Dvd
      else NoPreload
    else NoPreload
  }

  /** The preload target of a file is the first of MRAM, ARAM, DVD whose bit
      is set: a target is chosen exactly when its bit is set and no bit of a
      higher-priority target is. */
  lemma PreloadIsFirstSetBit(attr: u8, t: PreloadType)
    requires t != NoPreload
    ensures GetPreloadType(attr) == t <==>
      IsFile(attr) && Has(attr, PreloadBit(t))
      && forall u :: u != NoPreload && Priority(u) < Priority(t) ==> !Has(attr, PreloadBit(u))
  {
    if IsFile(attr) && Has(attr, PreloadBit(t))
      && forall u :: u != NoPreload && Priority(u) < Priority(t) ==> !Has(attr, PreloadBit(u))
    {
      match t
      case Mram =>
      case Aram => assert Priority(Mram) < Priority(t);
      case Dvd => assert Priority(Mram) < Priority(t) && Priority(Aram) < Priority(t);
    }
  }

  /** JKRDirectory::getCompressionType. */
  function GetCompressionType(attr: u8): (t: CompressionType)
    ensures t != NoCompression <==> IsFile(attr) && Has(attr, CompressedBit)
    ensures t == Szs <==> IsFile(attr) && Has(attr, CompressedBit) && Has(attr, UseSzsBit)
  {
    if IsFile(attr) && Has(attr, CompressedBit) then
      if Has(attr, UseSzsBit) then Szs else Szp
    else NoCompression
  }

  /** The composite flags are the unions of the single bits they are made
      of: 0x85 = FILE | COMPRESSED | USE_SZS and
      0x71 = FILE | LOAD_TO_MRAM | LOAD_TO_ARAM | LOAD_FROM_DVD. */
  lemma CompositeFlags(f: u8)
    requires IsFlag(f)
    ensures Has(FileAndCompression, f) <==> f == FileBit || f == CompressedBit || f == UseSzsBit
    ensures Has(FileAndPreload, f) <==>
      f == FileBit || f == LoadToMramBit || f == LoadToAramBit || f == LoadFromDvdBit
    ensures FileAndCompression == FileBit + CompressedBit + UseSzsBit
    ensures FileAndPreload == FileBit + LoadToMramBit + LoadToAramBit + LoadFromDvdBit
  {
  }

  /** isDirectory and isFile read two different bits, so one attribute can
      satisfy both; a shortcut is always a directory. */
  lemma DirectoryAndFileIndependent()
    ensures IsDirectory(FileBit + FolderBit) && IsFile(FileBit + FolderBit)
    ensures IsDirectory(FolderBit) && !IsFile(FolderBit)
    ensures !IsDirectory(FileBit) && IsFile(FileBit)
    ensures forall n: Name, a: u8 :: IsShortcut(n, a) ==> IsDirectory(a)
  {
  }
}
