/**
 Bytes, C strings and the C integers that the file system stores in its byte array.

 A pointer into memory is modelled by the bytes from that pointer on.  The string
 functions follow sections 7.24.2.4 (strncpy), 7.24.4.2 (strcmp) and 7.24.4.4 (strncmp)
 of C17; a C string is a NUL-free sequence, and `s + [0]` is what its pointer shows.
 */
module CMemory {

  const SIZE_MODULUS: int := 0x1_0000_0000_0000_0000
  const SIZE_MAX: int := 0xFFFF_FFFF_FFFF_FFFF
  const SSIZE_MAX: int := 0x7FFF_FFFF_FFFF_FFFF
  const INT_MAX: int := 0x7FFF_FFFF

  type byte = x: int | 0 <= x < 256

  predicate NulFree(s: seq<byte>) {
    forall i :: 0 <= i < |s| ==> s[i] != 0
  }

  type cstring = s: seq<byte> | NulFree(s)

  datatype Option<+T> = None | Some(value: T)

  /** What memset with zero leaves behind. */
  function Zeros(n: nat): (z: seq<byte>)
    ensures |z| == n
    ensures forall i :: 0 <= i < n ==> z[i] == 0
  {
    seq(n, _ => 0)
  }

  /** Memory m after memcpy of the bytes b to address p. */
  function Splice(m: seq<byte>, p: nat, b: seq<byte>): (r: seq<byte>)
    requires p + |b| <= |m|
    ensures |r| == |m|
    ensures forall k :: 0 <= k < |m| ==> r[k] == if p <= k < p + |b| then b[k - p] else m[k]
  {
    m[..p] + b + m[p + |b|..]
  }

  /** A range that contains the whole memcpy reads as that range with the bytes copied in. */
  lemma SpliceInside(m: seq<byte>, p: nat, b: seq<byte>, lo: nat, hi: nat)
    requires lo <= p && p + |b| <= hi <= |m|
    ensures Splice(m, p, b)[lo..hi] == Splice(m[lo..hi], p - lo, b)
  {
  }

  lemma SliceOfSlice(m: seq<byte>, lo: nat, hi: nat, a: nat, b: nat)
    requires lo <= hi <= |m| && a <= b <= hi - lo
    ensures m[lo..hi][a..b] == m[lo + a..lo + b]
  {
    var x, y := m[lo..hi][a..b], m[lo + a..lo + b];
    assert forall k :: 0 <= k < b - a ==> x[k] == m[lo..hi][a + k] == m[lo + a + k] == y[k];
  }

  /** Offset of item n in an array of items of the given size: the product n * size, by
      repeated addition so that the proofs about addresses stay linear. */
  function Times(n: nat, size: nat): nat {
    if n == 0 then 0 else Times(n - 1, size) + size
  }

  lemma TimesIsProduct(n: nat, size: nat)
    ensures Times(n, size) == n * size
  {
  }

  /** Distinct items do not overlap. */
  lemma {:induction false} TimesMonotone(b: nat, c: nat, size: nat)
    requires b < c
    ensures Times(b, size) + size <= Times(c, size)
  {
    if b + 1 < c { TimesMonotone(b, c - 1, size); }
  }

  // ---------- 32-bit two's complement integers, little endian ----------

  predicate IsInt(n: int) {
    -0x8000_0000 <= n <= INT_MAX
  }

  function EncodeInt(n: int): (b: seq<byte>)
    requires IsInt(n)
    ensures |b| == 4
  {
    var u := if n < 0 then n + 0x1_0000_0000 else n;
    [u % 0x100, u / 0x100 % 0x100, u / 0x1_0000 % 0x100, u / 0x100_0000]
  }

  function DecodeInt(b: seq<byte>): (n: int)
    requires |b| == 4
    ensures IsInt(n)
  {
    var b0: int, b1: int, b2: int, b3: int := b[0], b[1], b[2], b[3];
    var u := b0 + 0x100 * b1 + 0x1_0000 * b2 + 0x100_0000 * b3;
    if u > INT_MAX then u - 0x1_0000_0000 else u
  }

  lemma DecodeEncodeInt(n: int)
    requires IsInt(n)
    ensures DecodeInt(EncodeInt(n)) == n
  {
    var u := if n < 0 then n + 0x1_0000_0000 else n;
    assert u / 0x1_0000 == u / 0x100 / 0x100;
    assert u / 0x100_0000 == u / 0x1_0000 / 0x100;
  }

  // ---------- Strings ----------

  /** Index of the first NUL, or the length when there is none. */
  function Strlen(x: seq<byte>): (n: nat)
    ensures n <= |x|
    ensures n < |x| ==> x[n] == 0
    ensures NulFree(x[..n])
  {
    if x == [] || x[0] == 0 then 0
    else
      var n := Strlen(x[1..]);
      assert forall i :: 1 <= i < n + 1 ==> x[i] == x[1..][..n][i - 1];
      1 + n
  }

  /** The string that a NUL-terminated character array holds. */
  function StringOf(x: seq<byte>): cstring {
    x[..Strlen(x)]
  }

  /** strncmp(x, y, n): the first difference decides, a common NUL ends the comparison.
      Running off the memory before either (undefined in C) counts as a difference. */
  function StrnCmp(x: seq<byte>, y: seq<byte>, n: nat): int
    decreases n
  {
    if n == 0 then 0
    else if x == [] || y == [] then 1
    else if x[0] != y[0] then x[0] - y[0]
    else if x[0] == 0 then 0
    else StrnCmp(x[1..], y[1..], n - 1)
  }

  function StrCmp(x: seq<byte>, y: seq<byte>): int {
    StrnCmp(x, y, |x| + 1)
  }

  /** strncpy(dst, s, n): the n bytes that it stores. */
  function StrnCpy(s: cstring, n: nat): (b: seq<byte>)
    ensures |b| == n
  {
    if |s| >= n then s[..n] else s + Zeros(n - |s|)
  }

  lemma {:induction false} StrlenIs(x: seq<byte>, n: nat)
    requires n < |x| && x[n] == 0 && NulFree(x[..n])
    ensures Strlen(x) == n
  {
  }

  /** Comparing a terminated string in memory with a C string, by strncmp with a bound past
      its end or by strcmp: zero exactly when the memory holds that string. */
  lemma {:induction false} CompareIsEquality(x: seq<byte>, s: cstring, n: nat)
    requires Strlen(x) < |x| && Strlen(x) < n
    ensures StrnCmp(x, s + [0], n) == 0 <==> StringOf(x) == s
    decreases n
  {
    var y := s + [0];
    if x[0] != 0 && s != [] && x[0] == s[0] {
      assert y[1..] == s[1..] + [0];
      assert NulFree(s[1..]) by {
        assert forall i :: 0 <= i < |s[1..]| ==> s[1..][i] == s[i + 1];
      }
      CompareIsEquality(x[1..], s[1..], n - 1);
      assert StringOf(x) == [x[0]] + StringOf(x[1..]);
      assert s == [s[0]] + s[1..];
    } else if x[0] != 0 {
      assert StringOf(x)[0] == x[0];
    }
  }

  /** Memory starts with the given string and its NUL. */
  predicate Holds(x: seq<byte>, s: cstring) {
    |s| < |x| && x[..|s|] == s && x[|s|] == 0
  }

  /** strcmp of any memory, terminated or not, with a string: zero exactly when it holds it. */
  lemma {:induction false} CompareIsHolding(x: seq<byte>, s: cstring, n: nat)
    requires |x| < n
    ensures StrnCmp(x, s + [0], n) == 0 <==> Holds(x, s)
    decreases n
  {
    var y := s + [0];
    if x != [] && s != [] && x[0] == s[0] {
      assert y[1..] == s[1..] + [0];
      assert NulFree(s[1..]) by {
        assert forall i :: 0 <= i < |s[1..]| ==> s[1..][i] == s[i + 1];
      }
      CompareIsHolding(x[1..], s[1..], n - 1);
      assert s == [s[0]] + s[1..];
      if |s| < |x| {
        assert x[..|s|] == [x[0]] + x[1..][..|s| - 1];
      }
    }
  }

  /** The 40-byte field that strncpy and the final NUL leave holds exactly the name. */
  lemma StoredNameReadsBack(s: cstring, field: seq<byte>)
    requires |s| < |field|
    requires field == StrnCpy(s, |field| - 1) + [0]
    ensures Strlen(field) == |s| && StringOf(field) == s
  {
    assert field[..|s|] == s;
    StrlenIs(field, |s|);
  }
}
