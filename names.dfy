/** Entry and folder names as the archive stores them: byte strings, the
    16-bit name hash (JKRArchive::nameHash) and the 4-byte short name of a
    folder record (JKRFolderNode::getShortName). */
module Names {
  import opened Util

  /** A std::string: a sequence of bytes. */
  type Name = seq<u8>

  const Dot: Name := [0x2E]                          // "."
  const DotDot: Name := [0x2E, 0x2E]                 // ".."
  const RootShortName: Name := [0x52, 0x4F, 0x4F, 0x54]  // "ROOT"
  const Space: u8 := 0x20

  /** `(u16)str[i]`.  A std::string holds plain `char`, which is signed on
      the MSVC/x86 toolchain the repository builds with, so a byte of 0x80
      or more is sign-extended before it is narrowed to 16 bits. */
  function CharWord(c: u8): u16
  {
    if c < 0x80 then c else c + 0xFF00
  }

  /** The hash of a name, one character at a time from the left:
      `h := h * 3 + c` on a 16-bit accumulator that wraps. */
  function Hash(s: Name): u16
  {
    if |s| == 0 then 0
    else (Hash(s[..|s| - 1]) * 3 + CharWord(s[|s| - 1])) % U16
  }

  /** JKRArchive::nameHash: the loop over the characters. */
  method NameHash(str: Name) returns (ret: u16)
    ensures ret == Hash(str)
  {
    ret := 0;
    var i := 0;
    while i < |str|
      invariant 0 <= i <= |str|
      invariant ret == Hash(str[..i])
    {
      ghost var h: int := ret;
      ret := (ret * 3) % U16;
      ret := (ret + CharWord(str[i])) % U16;
      ModAdd(h * 3, CharWord(str[i]));
      assert str[..i + 1][..i] == str[..i];
      i := i + 1;
    }
    assert str[..|str|] == str;
  }

  lemma ModAdd(x: int, c: int)
    ensures ((x % U16) + c) % U16 == (x + c) % U16
  {
    var q := x / U16;
    assert x == q * U16 + x % U16;
  }

  function Pow3(n: nat): nat
  {
    if n == 0 then 1 else 3 * Pow3(n - 1)
  }

  /** The hash as a polynomial in 3 without any wrap-around: the first
      character carries the highest power. */
  function Poly(s: Name): nat
  {
    if |s| == 0 then 0 else CharWord(s[0]) * Pow3(|s| - 1) + Poly(s[1..])
  }

  lemma {:induction false} PolySnoc(s: Name, c: u8)
    ensures Poly(s + [c]) == 3 * Poly(s) + CharWord(c)
  {
    if |s| == 0 {
      assert s + [c] == [c];
    } else {
      var a, p := CharWord(s[0]), Pow3(|s| - 1);
      assert (s + [c])[1..] == s[1..] + [c];
      PolySnoc(s[1..], c);
      assert Poly(s + [c]) == a * Pow3(|s|) + 3 * Poly(s[1..]) + CharWord(c);
      assert a * (3 * p) == 3 * (a * p);
    }
  }

  lemma ModMulAdd(x: int, c: int)
    ensures ((x % U16) * 3 + c) % U16 == (3 * x + c) % U16
  {
    var q := x / U16;
    assert x == q * U16 + x % U16;
    assert 3 * x + c == ((x % U16) * 3 + c) + (3 * q) * U16;
  }

  /** The wrapping hash is the polynomial reduced modulo 2^16: the 16-bit
      overflow in the loop loses nothing but the high bits. */
  lemma {:induction false} HashIsPolynomial(s: Name)
    ensures Hash(s) == Poly(s) % U16
  {
    if |s| > 0 {
      var init, c := s[..|s| - 1], s[|s| - 1];
      assert s == init + [c];
      HashIsPolynomial(init);
      PolySnoc(init, c);
      ModMulAdd(Poly(init), CharWord(c));
    }
  }

  /** The empty name hashes to 0, "a" to 97 and the hash depends on the
      order of the characters ("ab" and "ba" differ). */
  lemma HashExamples()
    ensures Hash([]) == 0
    ensures Hash([0x61]) == 97
    ensures Hash([0x61, 0x62]) == 389 && Hash([0x62, 0x61]) == 391
  {
    assert [0x61, 0x62][..1] == [0x61];
    assert [0x62, 0x61][..1] == [0x62];
  }

  /** std::toupper in the "C" locale: only 'a'..'z' change. */
  function ToUpper(c: u8): u8
  {
    if 0x61 <= c <= 0x7A then c - 0x20 else c
  }

  /** Byte i of a name padded with spaces. */
  function PaddedAt(name: Name, i: nat): u8
  {
    if i < |name| then name[i] else Space
  }

  /** The four bytes of a folder's short name. */
  function ShortName(name: Name, isRoot: bool): Name
  {
    if isRoot then RootShortName
    else [ToUpper(PaddedAt(name, 0)), ToUpper(PaddedAt(name, 1)), ToUpper(PaddedAt(name, 2)), ToUpper(PaddedAt(name, 3))]
  }

  /** JKRFolderNode::getShortName: "ROOT" for the root; otherwise the name
      cut to its first four bytes or padded with spaces up to four, then
      upper-cased. */
  method GetShortName(name: Name, isRoot: bool) returns (ret: Name)
    ensures ret == ShortName(name, isRoot)
    ensures isRoot ==> ret == RootShortName
    ensures !isRoot ==> |ret| == 4
    ensures !isRoot ==> forall i :: 0 <= i < 4 ==>
      ret[i] == ToUpper(if i < |name| then name[i] else Space)
  {
    ret := name;
    if isRoot {
      return RootShortName;
    }
    if |ret| < 4 {
      while |ret| < 4
        invariant |name| <= |ret| <= 4
        invariant forall j :: 0 <= j < |ret| ==> ret[j] == if j < |name| then name[j] else Space
      {
        ret := ret + [Space];
      }
    } else {
      ret := name[..4];
    }
    var i := 0;
    while i < |ret|
      invariant 0 <= i <= |ret| == 4
      invariant forall j :: 0 <= j < i ==> ret[j] == ToUpper(if j < |name| then name[j] else Space)
      invariant forall j :: i <= j < 4 ==> ret[j] == if j < |name| then name[j] else Space
    {
      ret := ret[i := ToUpper(ret[i])];
      i := i + 1;
    }
  }
}
