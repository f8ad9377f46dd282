/** Byte-level helpers: big-endian integers as `struct` reads them, Python slicing, concatenation. */
module Bytes {

  function Pow256(n: nat): (p: nat)
    ensures p >= 1
  {
    if n == 0 then 1 else 256 * Pow256(n - 1)
  }

  /** The unsigned integer that the big-endian bytes `s` denote. */
  function BeUint(s: seq<bv8>): (v: nat)
    ensures v < Pow256(|s|)
  {
    if s == [] then 0 else BeUint(s[..|s| - 1]) * 256 + s[|s| - 1] as nat
  }

  /** Splitting off the low byte of n: the quotient keeps the rest, the byte keeps the remainder. */
  lemma DivMod256(n: nat, bound: nat)
    requires n < 256 * bound
    ensures n / 256 < bound && n == (n / 256) * 256 + ((n % 256) as bv8) as nat
  {
  }

  /** The `width` big-endian bytes of `n`; the inverse of BeUint. */
  function BeBytes(n: nat, width: nat): (s: seq<bv8>)
    requires n < Pow256(width)
    ensures |s| == width && BeUint(s) == n
  {
    if width == 0 then []
    else
      DivMod256(n, Pow256(width - 1));
      var high := BeBytes(n / 256, width - 1);
      AppendLowByte(high, (n % 256) as bv8);
      high + [(n % 256) as bv8]
  }

  /** Appending a byte shifts the value one byte to the left. */
  lemma AppendLowByte(high: seq<bv8>, low: bv8)
    ensures BeUint(high + [low]) == BeUint(high) * 256 + low as nat
  {
    var s := high + [low];
    assert s[..|s| - 1] == high;
  }

  lemma {:induction false} BeBytesOfBeUint(s: seq<bv8>)
    ensures BeBytes(BeUint(s), |s|) == s
  {
    if s != [] {
      var init := s[..|s| - 1];
      BeBytesOfBeUint(init);
      var v := BeUint(s);
      assert v / 256 == BeUint(init) && v % 256 == s[|s| - 1] as nat;
      assert s == init + [s[|s| - 1]];
    }
  }

  function Zeros(n: nat): (z: seq<bv8>)
    ensures |z| == n && forall i :: 0 <= i < n ==> z[i] == 0
  {
    seq(n, _ => 0)
  }

  predicate AllZero(s: seq<bv8>)
  {
    forall i :: 0 <= i < |s| ==> s[i] == 0
  }

  lemma ZerosIffAllZero(s: seq<bv8>, n: nat)
    ensures s == Zeros(n) <==> |s| == n && AllZero(s)
  {
    if |s| == n && AllZero(s) {
      assert forall i :: 0 <= i < n ==> s[i] == Zeros(n)[i];
    }
  }

  function Min(a: nat, b: nat): nat { if a < b then a else b }

  /** `s[lo:hi]` in Python for non-negative bounds: both bounds are clamped to the length. */
  function Slice<T>(s: seq<T>, lo: nat, hi: nat): (r: seq<T>)
    ensures |r| == if lo < hi && lo < |s| then Min(hi, |s|) - lo else 0
    ensures forall i :: 0 <= i < |r| ==> lo + i < |s| && r[i] == s[lo + i]
  {
    if lo >= |s| || hi <= lo then [] else s[lo..Min(hi, |s|)]
  }

  /** A slice that ends inside a prefix reads the same bytes from the prefix as from the whole. */
  lemma SliceOfPrefix<T>(p: seq<T>, s: seq<T>, lo: nat, hi: nat)
    requires p <= s
    requires hi <= |p| || p == s
    ensures Slice(p, lo, hi) == Slice(s, lo, hi)
  {
    if p != s && lo < hi && lo < |p| {
      assert Slice(p, lo, hi) == p[lo..hi] == s[lo..hi];
    }
  }

  /** The in-order concatenation of `chunks`, growing at the end as a buffer does. */
  function Concat<T>(chunks: seq<seq<T>>): seq<T>
  {
    if chunks == [] then [] else Concat(chunks[..|chunks| - 1]) + chunks[|chunks| - 1]
  }

  lemma ConcatSnoc<T>(chunks: seq<seq<T>>, i: nat)
    requires i < |chunks|
    ensures Concat(chunks[..i + 1]) == Concat(chunks[..i]) + chunks[i]
  {
    assert chunks[..i + 1][..i] == chunks[..i];
  }

  /** The concatenation of the first k chunks is a prefix of the whole stream. */
  lemma {:induction false} ConcatPrefix<T>(chunks: seq<seq<T>>, k: nat)
    requires k <= |chunks|
    ensures Concat(chunks[..k]) <= Concat(chunks)
    decreases |chunks| - k
  {
    if k < |chunks| {
      var init := chunks[..|chunks| - 1];
      assert init[..k] == chunks[..k];
      ConcatPrefix(init, k);
      assert chunks[..|chunks|] == chunks;
    } else {
      assert chunks[..k] == chunks;
    }
  }
}
