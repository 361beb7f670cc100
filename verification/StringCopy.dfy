/**
  Bounded string copies: mmosal_safer_strcpy (framework/morselib/include/mmosal.h) and
  os_strlcpy (framework/src/hostap/os_mmosal.c), with a 32-bit size_t and int.
 */
module StringCopy {

  import opened Words

  ghost predicate Terminated(s: seq<byte>) {
    0 in s
  }

  /** The C string in `s`: everything before the first NUL. */
  function CString(s: seq<byte>): (r: seq<byte>) {
    if s == [] || s[0] == 0 then [] else [s[0]] + CString(s[1..])
  }

  lemma {:induction false} CStringIs(s: seq<byte>, n: nat)
    requires n < |s| && s[n] == 0 && 0 !in s[..n]
    ensures CString(s) == s[..n]
  {
    if n > 0 {
      assert s[..n][0] == s[0] && s[..n][1..] == s[1..][..n - 1];
      CStringIs(s[1..], n - 1);
    }
  }

  /** Where the C string ends. */
  lemma {:induction false} CStringEnd(s: seq<byte>)
    requires Terminated(s)
    ensures |CString(s)| < |s| && s[|CString(s)|] == 0 && s[..|CString(s)|] == CString(s)
    ensures 0 !in CString(s)
  {
    if s[0] != 0 {
      CStringEnd(s[1..]);
    }
  }

  /** strncpy: copy up to the NUL, then fill with NULs. */
  method Strncpy(dst: array<byte>, src: seq<byte>, size: nat)
    requires Terminated(src) && size <= dst.Length
    modifies dst
    ensures forall i :: 0 <= i < size ==> dst[i] == if i < |CString(src)| then CString(src)[i] else 0
    ensures forall i :: size <= i < dst.Length ==> dst[i] == old(dst[i])
  {
    CStringEnd(src);
    var i := 0;
    while i < size && src[i] != 0
      invariant 0 <= i <= size && i <= |CString(src)|
      invariant forall j :: 0 <= j < i ==> dst[j] == src[j]
      invariant forall j :: size <= j < dst.Length ==> dst[j] == old(dst[j])
    {
      assert src[i] == CString(src)[i] || i == |CString(src)|;
      dst[i] := src[i];
      i := i + 1;
    }
    if i < size { NulAtEnd(src, i); }
    while i < size
      invariant 0 <= i <= size
      invariant forall j :: 0 <= j < i ==> dst[j] == if j < |CString(src)| then CString(src)[j] else 0
      invariant forall j :: size <= j < dst.Length ==> dst[j] == old(dst[j])
    {
      dst[i] := 0;
      i := i + 1;
    }
  }

  /** What both functions leave behind when there is room for `size` bytes. */
  ghost predicate Copied(dst: seq<byte>, src: seq<byte>, size: nat)
    requires 0 < size
  {
    var s := CString(src);
    CString(dst) == if |s| < size then s else s[..size - 1]
  }

  /** mmosal_safer_strcpy: true when the string was truncated. */
  method SaferStrcpy(dst: array<byte>, src: seq<byte>, size: nat) returns (truncated: bool)
    requires Terminated(src) && size <= dst.Length
    modifies dst
    ensures truncated <==> |CString(src)| >= size
    ensures size > 0 ==> Copied(dst[..], src, size)
    ensures forall i :: size <= i < dst.Length ==> dst[i] == old(dst[i])
  {
    if size == 0 {
      return true;
    }
    CStringEnd(src);
    Strncpy(dst, src, size);
    truncated := dst[size - 1] != 0;
    assert |CString(src)| >= size ==> CString(src)[size - 1] in CString(src);
    dst[size - 1] := 0;
    ghost var n := if |CString(src)| < size then |CString(src)| else size - 1;
    assert dst[..n] == CString(src)[..n];
    CStringIs(dst[..], n);
  }

  /** (int)(siz - 1) */
  function Limit(siz: nat): int {
    var m := (siz - 1) % U32;
    if m < I32 then m else m - U32
  }

  /** os_strlcpy: the length of the source.  Sizes above 2^31 make the limit negative, and
      then nothing is written. */
  method Strlcpy(dst: array<byte>, src: seq<byte>, siz: nat) returns (n: nat)
    requires Terminated(src) && siz <= dst.Length && siz < U32
    modifies dst
    ensures n == |CString(src)|
    ensures 0 < siz <= I32 ==> Copied(dst[..], src, siz)
    ensures siz == 0 || siz > I32 ==> dst[..] == old(dst[..])
    ensures forall i :: siz <= i < dst.Length ==> dst[i] == old(dst[i])
  {
    CStringEnd(src);
    ghost var s := CString(src);
    var limit := Limit(siz);
    LimitIs(siz);
    var d := 0;
    var done := false;
    while d < limit && !done
      invariant 0 <= d <= |s| && (d <= limit || limit < 0)
      invariant done ==> d == |s| && d < limit && dst[d] == 0
      invariant limit < 0 ==> d == 0 && dst[..] == old(dst[..])
      invariant forall j :: 0 <= j < d ==> dst[j] == src[j]
      invariant forall j :: siz <= j < dst.Length ==> dst[j] == old(dst[j])
      decreases limit - d, !done
    {
      dst[d] := src[d];
      if src[d] == 0 {
        NulAtEnd(src, d);
        done := true;
      } else {
        assert d < |s|;
        d := d + 1;
      }
    }
    if siz != 0 && d == limit {
      dst[d] := 0;
    }
    if 0 < siz <= I32 {
      assert dst[..d] == s[..d];
      CStringIs(dst[..], d);
    }
    var it := d;
    while src[it] != 0
      invariant d <= it <= |s|
      decreases |s| - it
    {
      it := it + 1;
    }
    NulAtEnd(src, it);
    n := it;
  }

  lemma LimitIs(siz: nat)
    requires siz < U32
    ensures Limit(siz) == if 0 < siz <= I32 then siz - 1 else Limit(siz)
    ensures siz == 0 || siz > I32 ==> Limit(siz) < 0
  {}

  /** The only NUL at or before the end of the C string is the one that ends it. */
  lemma NulAtEnd(src: seq<byte>, i: nat)
    requires Terminated(src) && i <= |CString(src)| && i < |src| && src[i] == 0
    ensures i == |CString(src)|
  {
    CStringEnd(src);
    assert forall j :: 0 <= j < |CString(src)| ==> src[j] in CString(src);
  }

  /** The two functions agree: the same C string, and truncation reported alike. */
  method CopyBoth(a: array<byte>, b: array<byte>, src: seq<byte>, size: nat) returns (truncated: bool, n: nat)
    requires Terminated(src) && 0 < size <= I32 && size <= a.Length && size <= b.Length && a != b
    modifies a, b
    ensures CString(a[..]) == CString(b[..])
    ensures truncated <==> n >= size
  {
    truncated := SaferStrcpy(a, src, size);
    n := Strlcpy(b, src, size);
  }
}
