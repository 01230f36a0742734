/** Fixed-width integers and the two generic helpers of namespace Util
    (Include/Util.h): first-index search and 32-byte alignment. */
module Util {

  /** The C++ unsigned widths, kept as bounded integers so that every
      truncation of the source has to be written out. */
  const U16: int := 0x1_0000
  const U32: int := 0x1_0000_0000

  type u8 = x: int | 0 <= x < 0x100
  type u16 = x: int | 0 <= x < 0x1_0000
  type u32 = x: int | 0 <= x < 0x1_0000_0000

  /** A possibly-null reference (std::shared_ptr) into one of the arenas. */
  datatype Option<T> = None | Some(value: T)

  /** Util::getVectorIndex: the position of the first element equal to `x`,
      or -1 when there is none.  The vector is a value, so nothing changes. */
  function GetVectorIndex<T(==)>(v: seq<T>, x: T): (r: int)
    ensures r == -1 <==> x !in v
    ensures r != -1 ==> 0 <= r < |v| && v[r] == x
    ensures r != -1 ==> forall j :: 0 <= j < r ==> v[j] != x
  {
    if |v| == 0 then -1
    else if v[0] == x then 0
    else
      var r := GetVectorIndex(v[1..], x);
      if r == -1 then -1 else r + 1
  }

  /** The first-occurrence property determines the index: any position
      holding `x` with no earlier `x` is the one getVectorIndex returns. */
  lemma GetVectorIndexUnique<T>(v: seq<T>, x: T, i: nat)
    requires i < |v| && v[i] == x
    requires forall j :: 0 <= j < i ==> v[j] != x
    ensures GetVectorIndex(v, x) == i
  {
  }

  /** Searching a concatenation finds the element in the first part when it
      is there, and otherwise in the second part, shifted by its length. */
  lemma {:induction false} GetVectorIndexAppend<T>(a: seq<T>, b: seq<T>, x: T)
    ensures x in a ==> GetVectorIndex(a + b, x) == GetVectorIndex(a, x)
    ensures x !in a && x in b ==> GetVectorIndex(a + b, x) == |a| + GetVectorIndex(b, x)
  {
    if x in a {
      var i := GetVectorIndex(a, x);
      GetVectorIndexUnique(a + b, x, i);
    } else if x in b {
      var i := GetVectorIndex(b, x);
      assert (a + b)[|a| + i] == x;
      forall j | 0 <= j < |a| + i
        ensures (a + b)[j] != x
      {
        if j < |a| {
          assert (a + b)[j] == a[j];
        } else {
          assert (a + b)[j] == b[j - |a|];
        }
      }
      GetVectorIndexUnique(a + b, x, |a| + i);
    }
  }

  /** In a sequence without repeated elements, the element at position `i`
      is found at `i`. */
  lemma GetVectorIndexOfDistinct<T>(v: seq<T>, i: nat)
    requires i < |v|
    requires forall j, k :: 0 <= j < k < |v| ==> v[j] != v[k]
    ensures GetVectorIndex(v, v[i]) == i
  {
    GetVectorIndexUnique(v, v[i], i);
  }

  /** Util::align32 and JKRArchive::align32, `(v + 0x1F) & ~0x1F`.  Clearing
      the low five bits of a two's-complement value subtracts its remainder
      modulo 32, which Dafny's `%` gives exactly (it is never negative). */
  function Align32(v: int): (r: int)
    ensures r % 32 == 0
    ensures v <= r < v + 32
  {
    (v + 0x1F) - (v + 0x1F) % 32
  }

  /** align32 is the least multiple of 32 that is not below its input. */
  lemma Align32Least(v: int, m: int)
    requires m % 32 == 0 && v <= m
    ensures Align32(v) <= m
  {
  }

  /** Aligning an aligned value changes nothing, so align32 is idempotent. */
  lemma Align32Idempotent(v: int)
    ensures Align32(Align32(v)) == Align32(v)
  {
    var r := Align32(v);
    Align32Least(r, r);
  }

  /** Past an aligned base, aligning a position is aligning the distance:
      a writer that starts on a 32-byte boundary pads each item exactly as
      much as the item's own length asks for. */
  lemma Align32Shift(base: int, len: int)
    requires base % 32 == 0
    ensures Align32(base + len) == base + Align32(len)
  {
    var y := len + 0x1F;
    assert base == 32 * (base / 32);
    assert y == 32 * (y / 32) + y % 32;
    assert base + y == 32 * (base / 32 + y / 32) + y % 32;
    assert (base + y) % 32 == y % 32;
  }

  /** Updating a sequence that was just grown by one element, at the new
      position or before it. */
  lemma UpdateAppended<T>(s: seq<T>, x: T, i: nat, y: T)
    requires i <= |s|
    ensures i == |s| ==> (s + [x])[i := y] == s + [y]
    ensures i < |s| ==> (s + [x])[i := y] == s[i := y] + [x]
  {
    if i == |s| {
      assert (s + [x])[i := y] == s + [y];
    } else {
      assert (s + [x])[i := y] == s[i := y] + [x];
    }
  }

  /** A prefix one longer is the prefix and the next element. */
  lemma SliceSnoc<T>(s: seq<T>, k: nat)
    requires k < |s|
    ensures s[..k + 1] == s[..k] + [s[k]]
  {
  }
}
