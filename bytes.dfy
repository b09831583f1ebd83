/** Byte strings and the pieces of Python's `struct` module and slicing that the core relies on. */
module Bytes {

  type byte = x: int | 0 <= x < 256

  /** 256^n: the number of values an n-byte unsigned field holds. */
  function Pow256(n: nat): (r: nat)
    ensures r > 0
  {
    if n == 0 then 1 else 256 * Pow256(n - 1)
  }

  const U16_LIMIT: nat := 0x1_0000
  const U32_LIMIT: nat := 0x1_0000_0000
  const U64_LIMIT: nat := 0x1_0000_0000_0000_0000

  /** Big-endian ("!" in struct formats) n-byte encoding of v. */
  function BeEncode(v: nat, n: nat): (r: seq<byte>)
    requires v < Pow256(n)
    ensures |r| == n
  {
    if n == 0 then [] else BeEncode(v / 256, n - 1) + [v % 256]
  }

  /** The unsigned number a big-endian byte string denotes. */
  function BeDecode(s: seq<byte>): (r: nat)
    ensures r < Pow256(|s|)
  {
    if s == [] then 0 else BeDecode(s[..|s| - 1]) * 256 + s[|s| - 1]
  }

  lemma {:induction false} BeRoundTrip(v: nat, n: nat)
    requires v < Pow256(n)
    ensures BeDecode(BeEncode(v, n)) == v
  {
    if n > 0 {
      var e := BeEncode(v, n);
      assert e[..|e| - 1] == BeEncode(v / 256, n - 1);
      BeRoundTrip(v / 256, n - 1);
    }
  }

  lemma Pow256Values()
    ensures Pow256(2) == U16_LIMIT && Pow256(4) == U32_LIMIT && Pow256(8) == U64_LIMIT
  {
    assert Pow256(2) == 0x1_0000;
    assert Pow256(4) == 0x1_0000_0000;
  }

  /** struct's "!q": an 8-byte two's-complement signed integer. */
  predicate InI64(v: int) { -0x8000_0000_0000_0000 <= v < 0x8000_0000_0000_0000 }

  function I64ToU64(v: int): (r: nat)
    requires InI64(v)
    ensures r < U64_LIMIT
  {
    if v < 0 then v + U64_LIMIT else v
  }

  function U64ToI64(u: nat): (r: int)
    requires u < U64_LIMIT
    ensures InI64(r) && I64ToU64(r) == u
  {
    if u >= 0x8000_0000_0000_0000 then u - U64_LIMIT else u
  }

  /**
   * Python's `s[lo:hi]`: negative bounds count from the end, bounds are clamped
   * to the string, and an empty slice results when lo >= hi.
   */
  function PySlice<T>(s: seq<T>, lo: int, hi: int): (r: seq<T>)
    ensures |r| <= |s|
    ensures 0 <= lo <= hi <= |s| ==> r == s[lo..hi]
  {
    var a := Clamp(if lo < 0 then lo + |s| else lo, |s|);
    var b := Clamp(if hi < 0 then hi + |s| else hi, |s|);
    if a < b then s[a..b] else []
  }

  function Clamp(i: int, n: nat): (r: nat)
    ensures r <= n
  {
    if i < 0 then 0 else if i > n then n else i
  }

  /** `s[lo:]` */
  function PySuffix<T>(s: seq<T>, lo: nat): (r: seq<T>)
    ensures lo <= |s| ==> r == s[lo..]
    ensures lo > |s| ==> r == []
  {
    if lo <= |s| then s[lo..] else []
  }

  /** What `f.read(n)` returns from a file whose unread part is s: at most n bytes. */
  function Read<T>(s: seq<T>, n: nat): (r: (seq<T>, seq<T>))
    ensures r.0 + r.1 == s
    ensures |r.0| == if n <= |s| then n else |s|
  {
    if n <= |s| then (s[..n], s[n..]) else (s, [])
  }

  /** Reading exactly the length of a prefix returns that prefix and leaves the rest. */
  lemma ReadSplit<T>(a: seq<T>, b: seq<T>)
    ensures Read(a + b, |a|) == (a, b)
  {
    assert (a + b)[..|a|] == a && (a + b)[|a|..] == b;
  }

  /** A prefix one longer is the shorter prefix and the next element. */
  lemma TakeSnoc<T>(s: seq<T>, n: nat)
    requires 0 < n <= |s|
    ensures s[..n] == s[..n - 1] + [s[n - 1]]
  {
  }

  /** Appending one element keeps the elements before it. */
  lemma Snoc<T>(s: seq<T>, x: T)
    ensures (s + [x])[..|s|] == s && (s + [x])[|s|] == x
    ensures forall k :: 0 <= k < |s| ==> (s + [x])[k] == s[k]
  {
  }

  /** Element k of s + [x], given what it is on either side of the join. */
  lemma SnocAt<T>(s: seq<T>, x: T, k: nat, y: T)
    requires k <= |s|
    requires k < |s| ==> s[k] == y
    requires k == |s| ==> x == y
    ensures (s + [x])[k] == y
  {
  }

  /** struct's "%ds" field: the string padded with NUL bytes, or cut, to exactly n bytes. */
  function PadOrCut(s: seq<byte>, n: nat): (r: seq<byte>)
    ensures |r| == n
    ensures |s| >= n ==> r == s[..n]
    ensures |s| < n ==> r[..|s|] == s && forall i :: |s| <= i < n ==> r[i] == 0
  {
    if |s| >= n then s[..n] else s + seq(n - |s|, _ => 0)
  }

  /** n zero bytes. */
  function Zeros(n: nat): (r: seq<byte>)
    ensures |r| == n && forall i :: 0 <= i < n ==> r[i] == 0
  {
    seq(n, _ => 0)
  }

  /** Python's `a / b` on integers (Python 2) and `a // b`: the quotient rounded towards minus infinity. */
  function FloorDiv(a: int, b: int): (r: int)
    requires b != 0
    ensures b > 0 ==> b * r <= a < b * r + b
    ensures b < 0 ==> b * r + b < a <= b * r
  {
    if b > 0 then a / b else (-a) / (-b)
  }
}
