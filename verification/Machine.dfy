// Machine-level vocabulary shared by the component models.

module Machine {

  datatype Option<+T> = None | Some(value: T)

  type byte = b: int | 0 <= b < 256

  const U32: nat := 0x1_0000_0000
  const U64: nat := 0x1_0000_0000_0000_0000

  /// The largest object the 32-bit C implementation can have (PTRDIFF_MAX).
  const OBJECT_MAX: nat := 0x7FFF_FFFF

  type u32 = n: int | 0 <= n < 0x1_0000_0000

  /// `uint32_t` addition: the sum modulo 2^32.
  function Add32(a: u32, b: u32): u32 {
    (a + b) % U32
  }

  function Min(a: nat, b: nat): nat {
    if a <= b then a else b
  }

  /// `s` with the elements from index `at` on replaced by `src`.
  function Overwrite<T>(s: seq<T>, at: nat, src: seq<T>): (r: seq<T>)
    requires at + |src| <= |s|
    ensures |r| == |s|
  {
    s[..at] + src + s[at + |src|..]
  }

  lemma OverwriteAll<T>(s: seq<T>, src: seq<T>)
    requires |src| == |s|
    ensures Overwrite(s, 0, src) == src
  {
  }

  lemma SizeWith<T>(s: set<T>, t: T)
    ensures |s + {t}| == |s| + (if t in s then 0 else 1)
    ensures |s - {t}| == |s| - (if t in s then 1 else 0)
  {
    assert t in s ==> s + {t} == s && s == (s - {t}) + {t};
    assert t !in s ==> s - {t} == s;
  }

  /// memcpy: `dst[at..at+|src|] := src`.
  method Copy<T>(dst: array<T>, at: nat, src: seq<T>)
    requires at + |src| <= dst.Length
    modifies dst
    ensures dst[..] == Overwrite(old(dst[..]), at, src)
  {
    for i := 0 to |src|
      invariant dst[at..at + i] == src[..i]
      invariant forall k :: 0 <= k < dst.Length && !(at <= k < at + i) ==> dst[k] == old(dst[k])
    {
      dst[at + i] := src[i];
    }
  }
}
