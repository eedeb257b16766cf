/** Bytes and the fixed-width integer codecs the core uses:
    `u64::to_be_bytes`/`write_u64` (big-endian), `u64::from_le_bytes`
    (little-endian) and `i64::to_be_bytes` (big-endian two's complement). */
module Bytes {

  type byte = x: int | 0 <= x < 256

  const U64_LIMIT: nat := 0x1_0000_0000_0000_0000
  const I64_MIN: int := -0x8000_0000_0000_0000
  const I64_LIMIT: int := 0x8000_0000_0000_0000

  predicate IsU64(v: int) { 0 <= v < U64_LIMIT }
  predicate IsI64(v: int) { I64_MIN <= v < I64_LIMIT }

  function Pow256(n: nat): (p: nat)
    ensures p >= 1
  {
    if n == 0 then 1 else 256 * Pow256(n - 1)
  }

  function Zeros(n: nat): (z: seq<byte>)
    ensures |z| == n && forall i | 0 <= i < n :: z[i] == 0
  {
    seq(n, _ => 0)
  }

  function Reverse<T>(s: seq<T>): (r: seq<T>)
    ensures |r| == |s|
  {
    if s == [] then [] else Reverse(s[1..]) + [s[0]]
  }

  /** The `n` low-order bytes of `v`, most significant first. */
  function BeBytes(v: nat, n: nat): (r: seq<byte>)
    ensures |r| == n
  {
    if n == 0 then [] else BeBytes(v / 256, n - 1) + [v % 256]
  }

  /** The value of `s` read most significant byte first. */
  function FromBe(s: seq<byte>): nat
  {
    if s == [] then 0 else FromBe(s[..|s| - 1]) * 256 + s[|s| - 1]
  }

  /** The value of `s` read least significant byte first. */
  function FromLe(s: seq<byte>): nat
  {
    if s == [] then 0 else s[0] + 256 * FromLe(s[1..])
  }

  /** `u64::swap_bytes`: the value whose big-endian bytes are those of `v` reversed. */
  function ByteSwap64(v: nat): nat
  {
    FromBe(Reverse(BeBytes(v, 8)))
  }

  /** `i64::to_be_bytes`: two's complement, most significant byte first. */
  function I64Be(t: int): (r: seq<byte>)
    requires IsI64(t)
    ensures |r| == 8
  {
    BeBytes(if t < 0 then t + U64_LIMIT else t, 8)
  }

  /** `i64::from_be_bytes`. */
  function I64FromBe(s: seq<byte>): int
  {
    var u := FromBe(s);
    if u >= I64_LIMIT then u - U64_LIMIT else u
  }

  lemma {:induction false} FromBeBound(s: seq<byte>)
    ensures FromBe(s) < Pow256(|s|)
  {
    if s != [] {
      var init := s[..|s| - 1];
      FromBeBound(init);
      assert FromBe(init) + 1 <= Pow256(|s| - 1);
      assert (FromBe(init) + 1) * 256 <= Pow256(|s| - 1) * 256;
    }
  }

  /** Decoding the big-endian bytes of a value that fits gives it back. */
  lemma {:induction false} FromBeBeBytes(v: nat, n: nat)
    requires v < Pow256(n)
    ensures FromBe(BeBytes(v, n)) == v
  {
    if n > 0 {
      var q := v / 256;
      assert q < Pow256(n - 1) by {
        assert v == 256 * q + v % 256;
      }
      FromBeBeBytes(q, n - 1);
      var b := BeBytes(v, n);
      assert b[..n - 1] == BeBytes(q, n - 1);
      assert FromBe(b) == q * 256 + v % 256;
    }
  }

  /** Encoding is the inverse of decoding on byte strings of the given width. */
  lemma {:induction false} BeBytesFromBe(s: seq<byte>)
    ensures BeBytes(FromBe(s), |s|) == s
  {
    if s != [] {
      var init := s[..|s| - 1];
      var v := FromBe(s);
      assert v == FromBe(init) * 256 + s[|s| - 1];
      assert v / 256 == FromBe(init) && v % 256 == s[|s| - 1];
      BeBytesFromBe(init);
      assert s == init + [s[|s| - 1]];
    }
  }

  lemma ReverseReverse<T>(s: seq<T>)
    ensures Reverse(Reverse(s)) == s
  {
    if s != [] {
      ReverseAppend(Reverse(s[1..]), [s[0]]);
      assert s == [s[0]] + s[1..];
    }
  }

  lemma {:induction false} ReverseAppend<T>(a: seq<T>, b: seq<T>)
    ensures Reverse(a + b) == Reverse(b) + Reverse(a)
  {
    if a == [] {
      assert a + b == b;
    } else {
      assert (a + b)[1..] == a[1..] + b;
      ReverseAppend(a[1..], b);
    }
  }

  /** Little-endian decoding is big-endian decoding of the reversed bytes. */
  lemma {:induction false} FromLeIsReversedFromBe(s: seq<byte>)
    ensures FromLe(s) == FromBe(Reverse(s))
  {
    if s != [] {
      FromLeIsReversedFromBe(s[1..]);
      var r := Reverse(s);
      assert r == Reverse(s[1..]) + [s[0]];
      assert r[..|r| - 1] == Reverse(s[1..]);
    }
  }

  /** `u64::from_le_bytes` applied to the bytes `write_u64` produced swaps the byte order. */
  lemma LeReadOfBeWrite(v: nat)
    ensures FromLe(BeBytes(v, 8)) == ByteSwap64(v)
  {
    FromLeIsReversedFromBe(BeBytes(v, 8));
  }

  lemma ByteSwapBounded(v: nat)
    ensures IsU64(ByteSwap64(v))
  {
    FromBeBound(Reverse(BeBytes(v, 8)));
    assert Pow256(8) == U64_LIMIT;
  }

  /** Swapping the bytes of a u64 twice gives it back. */
  lemma ByteSwapInvolution(v: nat)
    requires IsU64(v)
    ensures ByteSwap64(ByteSwap64(v)) == v
  {
    assert Pow256(8) == U64_LIMIT;
    var r := Reverse(BeBytes(v, 8));
    BeBytesFromBe(r);
    ReverseReverse(BeBytes(v, 8));
    FromBeBeBytes(v, 8);
  }

  /** A u64 is unchanged by a byte swap exactly when its 8 bytes read the same both ways. */
  lemma ByteSwapFixedIffPalindrome(v: nat)
    requires IsU64(v)
    ensures ByteSwap64(v) == v <==> Reverse(BeBytes(v, 8)) == BeBytes(v, 8)
  {
    assert Pow256(8) == U64_LIMIT;
    FromBeBeBytes(v, 8);
    var r := Reverse(BeBytes(v, 8));
    if ByteSwap64(v) == v {
      BeBytesFromBe(r);
    }
  }

  /** i64 big-endian encoding round-trips. */
  lemma I64RoundTrip(t: int)
    requires IsI64(t)
    ensures I64FromBe(I64Be(t)) == t
  {
    assert Pow256(8) == U64_LIMIT;
    FromBeBeBytes(if t < 0 then t + U64_LIMIT else t, 8);
  }
}
