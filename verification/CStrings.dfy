/** Bytes, C strings and the two string routines of the C library the program uses. */
module CStrings {

  type Byte = b: int | 0 <= b < 256
  type UInt16 = n: int | 0 <= n < 0x1_0000

  /** The C string held in `s`: the bytes before its first zero (all of `s` if it has none). */
  function CStr(s: seq<Byte>): (r: seq<Byte>)
    ensures |r| <= |s| && r == s[..|r|]
    ensures forall i :: 0 <= i < |r| ==> s[i] != 0
    ensures |r| < |s| ==> s[|r|] == 0
    ensures 0 !in r
  {
    if s == [] || s[0] == 0 then [] else [s[0]] + CStr(s[1..])
  }

  /** The byte a C program reads at offset `i` of the C string `s`: its terminator at `|s|`. */
  function At(s: seq<Byte>, i: nat): Byte
    requires i <= |s|
  {
    if i < |s| then s[i] else 0
  }

  /** Value of a `char`, which is signed on the program's platform. */
  function SignedChar(b: Byte): int {
    if b < 128 then b else b - 256
  }

  lemma CStrUnique(s: seq<Byte>, n: nat)
    requires n < |s| && s[n] == 0 && forall i :: 0 <= i < n ==> s[i] != 0
    ensures CStr(s) == s[..n]
  {
    assert |CStr(s)| == n;
  }

  lemma CStrOfTerminated(s: seq<Byte>, rest: seq<Byte>)
    requires 0 !in s
    ensures CStr(s + [0] + rest) == s
  {
    CStrUnique(s + [0] + rest, |s|);
    assert (s + [0] + rest)[..|s|] == s;
  }

  /** One store, as an update of the cells. */
  method Put(cells: array<Byte>, i: nat, b: Byte)
    requires i < cells.Length
    modifies cells
    ensures cells[..] == old(cells[..])[i := b]
  {
    cells[i] := b;
  }

  /** `strcpy`. */
  method StrCpy(dst: array<Byte>, src: seq<Byte>)
    requires |CStr(src)| < dst.Length
    modifies dst
    ensures dst[..] == CStr(src) + [0] + old(dst[|CStr(src)| + 1..])
    ensures CStr(dst[..]) == CStr(src)
  {
    var c := CStr(src);
    forall i | 0 <= i < |c| {
      dst[i] := c[i];
    }
    dst[|c|] := 0;
    assert dst[..] == c + [0] + old(dst[|c| + 1..]);
    CStrOfTerminated(c, old(dst[|c| + 1..]));
  }

  ghost predicate Zeros(s: seq<Byte>) {
    forall i :: 0 <= i < |s| ==> s[i] == 0
  }

  /** `memset` with a zero byte. */
  method MemSetZero(dst: array<Byte>, n: nat)
    requires n <= dst.Length
    modifies dst
    ensures Zeros(dst[..n]) && dst[n..] == old(dst[n..])
  {
    forall i | 0 <= i < n {
      dst[i] := 0;
    }
  }

  /** `strcat`. */
  method StrCat(dst: array<Byte>, src: seq<Byte>)
    requires 0 !in src && |CStr(dst[..])| + |src| < dst.Length
    modifies dst
    ensures CStr(dst[..]) == old(CStr(dst[..])) + src
  {
    hide CStr;
    ghost var before := dst[..];
    var n := |CStr(dst[..])|;
    forall i | 0 <= i < |src| {
      dst[n + i] := src[i];
    }
    dst[n + |src|] := 0;
    assert dst[..] == before[..n] + src + [0] + before[n + |src| + 1..];
    CStrOfTerminated(before[..n] + src, before[n + |src| + 1..]);
  }

  /** `strncpy` into a field of `n` bytes: the string, then zeros. */
  function Padded(name: seq<Byte>, n: nat): (r: seq<Byte>)
    requires n <= |name|
    ensures |r| == n
  {
    var s := CStr(name[..n]);
    s + seq(n - |s|, i => 0)
  }

  lemma PaddedCStr(name: seq<Byte>, n: nat, tail: seq<Byte>)
    requires n <= |name|
    ensures 0 in name[..n] ==> CStr(Padded(name, n) + tail) == CStr(name[..n]) == CStr(name)
    ensures 0 !in name[..n] ==> Padded(name, n) == name[..n]
  {
    var s := CStr(name[..n]);
    if 0 in name[..n] {
      assert |s| < n by {
        var i :| 0 <= i < n && name[..n][i] == 0;
      }
      CStrUnique(Padded(name, n) + tail, |s|);
      CStrUnique(name, |s|);
    } else {
      assert forall i :: 0 <= i < n ==> name[..n][i] in name[..n];
      assert |s| == n;
    }
  }

  /** `strncpy`. */
  method StrNCpy(dst: array<Byte>, src: seq<Byte>, n: nat)
    requires n <= |src| && n <= dst.Length
    modifies dst
    ensures dst[..n] == Padded(src, n) && dst[n..] == old(dst[n..])
  {
    hide CStr;
    var s := CStr(src[..n]);
    forall i | 0 <= i < n {
      dst[i] := if i < |s| then s[i] else 0;
    }
  }

  lemma Associative<T>(a: seq<T>, b: seq<T>, c: seq<T>)
    ensures a + (b + c) == a + b + c
  {
  }

  /** A delimiter that occurs in neither prefix marks the same cut in equal strings. */
  lemma CutAt(a: seq<Byte>, b: seq<Byte>, d: Byte, x: seq<Byte>, y: seq<Byte>)
    requires a + [d] + x == b + [d] + y && d !in a && d !in b
    ensures a == b && x == y
  {
    var s := a + [d] + x;
    var t := b + [d] + y;
    assert s[|a|] == d && t[|b|] == d;
    assert forall i :: 0 <= i < |a| ==> s[i] == a[i] && a[i] in a;
    assert forall i :: 0 <= i < |b| ==> t[i] == b[i] && b[i] in b;
    assert |a| == |b|;
    assert a == s[..|a|] && b == t[..|b|];
    assert x == s[|a| + 1..] && y == t[|b| + 1..];
  }
}
