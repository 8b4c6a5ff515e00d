/**
 * Byte-level encodings of fixed-width integers, as Rust's integer types
 * provide them (`to_le_bytes`, `from_le_bytes`, `to_be_bytes`,
 * `from_be_bytes`): an unsigned value as base-256 digits, a signed value
 * through two's complement, big-endian as the reverse of little-endian.
 */
module Bytes {

  type byte = x: int | 0 <= x < 256

  /** 2^128, the modulus of one 128-bit word. */
  const W128: int := 0x1_0000_0000_0000_0000_0000_0000_0000_0000

  function Pow256(n: nat): (r: nat)
    ensures r >= 1
  {
    if n == 0 then 1 else 256 * Pow256(n - 1)
  }

  /** 2^256, the modulus of a 256-bit integer. */
  const W256: int := 0x1_0000_0000_0000_0000_0000_0000_0000_0000_0000_0000_0000_0000_0000_0000_0000_0000

  lemma Pow256Of4()
    ensures Pow256(4) == 0x1_0000_0000
  {
  }

  lemma Pow256Of8()
    ensures Pow256(8) == 0x1_0000_0000_0000_0000
  {
  }

  lemma Pow256Of16()
    ensures Pow256(16) == W128
  {
    Pow256Of8();
    Pow256Add(8, 8);
  }

  lemma Pow256Of32()
    ensures Pow256(32) == W256
  {
    Pow256Of16();
    Pow256Add(16, 16);
    assert W128 * W128 == W256;
  }

  lemma {:induction false} Pow256Add(n: nat, m: nat)
    ensures Pow256(n + m) == Pow256(n) * Pow256(m)
  {
    if n > 0 {
      Pow256Add(n - 1, m);
      assert Pow256(n + m) == 256 * Pow256(n - 1 + m);
    }
  }

  /** The low `n` bytes of `v`, least significant byte first. */
  function UnsignedLe(v: nat, n: nat): (r: seq<byte>)
    ensures |r| == n
  {
    if n == 0 then [] else [v % 256] + UnsignedLe(v / 256, n - 1)
  }

  /** The value of a little-endian byte string. */
  function UnsignedFromLe(s: seq<byte>): (v: nat)
    ensures v < Pow256(|s|)
  {
    if s == [] then 0 else s[0] + 256 * UnsignedFromLe(s[1..])
  }

  lemma {:induction false} UnsignedLeRoundTrip(v: nat, n: nat)
    requires v < Pow256(n)
    ensures UnsignedFromLe(UnsignedLe(v, n)) == v
  {
    if n > 0 {
      UnsignedLeRoundTrip(v / 256, n - 1);
      assert UnsignedLe(v, n)[1..] == UnsignedLe(v / 256, n - 1);
    }
  }

  lemma {:induction false} UnsignedFromLeRoundTrip(s: seq<byte>)
    ensures UnsignedLe(UnsignedFromLe(s), |s|) == s
  {
    if s != [] {
      UnsignedFromLeRoundTrip(s[1..]);
      var v := UnsignedFromLe(s);
      assert v % 256 == s[0] && v / 256 == UnsignedFromLe(s[1..]);
    }
  }

  /** Encoding the low part and the high part separately and concatenating
      is the encoding of the combined value. */
  lemma {:induction false} UnsignedLeConcat(lo: nat, hi: nat, n: nat, m: nat)
    requires lo < Pow256(n) && hi < Pow256(m)
    ensures lo + Pow256(n) * hi < Pow256(n + m)
    ensures UnsignedLe(lo + Pow256(n) * hi, n + m) == UnsignedLe(lo, n) + UnsignedLe(hi, m)
  {
    ConcatBound(lo, hi, n, m);
    if n > 0 {
      var k := Pow256(n - 1) * hi;
      var v := lo + Pow256(n) * hi;
      Shift256(0, Pow256(n - 1), hi);
      assert v == lo + 256 * k;
      DivStep(lo, k);
      assert lo / 256 < Pow256(n - 1);
      UnsignedLeConcat(lo / 256, hi, n - 1, m);
      assert UnsignedLe(v, n + m) == [v % 256] + UnsignedLe(v / 256, (n - 1) + m);
      assert UnsignedLe(lo, n) == [lo % 256] + UnsignedLe(lo / 256, n - 1);
    }
  }

  lemma ConcatBound(lo: nat, hi: nat, n: nat, m: nat)
    requires lo < Pow256(n) && hi < Pow256(m)
    ensures lo + Pow256(n) * hi < Pow256(n + m)
  {
    Pow256Add(n, m);
    MulLeft(Pow256(n), hi, Pow256(m) - 1);
  }

  lemma DivStep(lo: nat, k: nat)
    ensures (lo + 256 * k) / 256 == lo / 256 + k
    ensures (lo + 256 * k) % 256 == lo % 256
  {
  }

  lemma MulLeft(a: nat, b: nat, c: nat)
    requires b <= c
    ensures a * b <= a * c
  {
  }

  lemma Shift256(a: int, b: int, c: int)
    ensures 256 * (a + b * c) == 256 * a + (256 * b) * c
  {
  }

  function Reverse<T>(s: seq<T>): (r: seq<T>)
    ensures |r| == |s|
    ensures forall i :: 0 <= i < |s| ==> r[i] == s[|s| - 1 - i]
  {
    if s == [] then [] else Reverse(s[1..]) + [s[0]]
  }

  lemma ReverseReverse<T>(s: seq<T>)
    ensures Reverse(Reverse(s)) == s
  {
  }

  lemma ReverseConcat<T>(a: seq<T>, b: seq<T>)
    ensures Reverse(a + b) == Reverse(b) + Reverse(a)
  {
  }

  /** `x` fits in `n` bytes of two's complement. */
  predicate InSigned(x: int, n: nat)
  {
    -(Pow256(n) as int) <= 2 * x < Pow256(n)
  }

  /** Two's complement reinterpretation of a signed as an unsigned value. */
  function ToUnsigned(x: int, n: nat): (u: nat)
    requires InSigned(x, n)
    ensures u < Pow256(n)
    ensures u == x || u == x + Pow256(n)
  {
    if x < 0 then x + Pow256(n) else x
  }

  function FromUnsigned(u: nat, n: nat): (x: int)
    requires u < Pow256(n)
    ensures InSigned(x, n)
    ensures x == u || x == u - Pow256(n)
  {
    if 2 * u >= Pow256(n) then u - Pow256(n) else u
  }

  /** Rust's `iN::to_le_bytes` for `n`-byte integers. */
  function SignedLe(x: int, n: nat): (r: seq<byte>)
    requires InSigned(x, n)
    ensures |r| == n
  {
    UnsignedLe(ToUnsigned(x, n), n)
  }

  /** Rust's `iN::from_le_bytes`. */
  function SignedFromLe(s: seq<byte>): (x: int)
    ensures InSigned(x, |s|)
  {
    FromUnsigned(UnsignedFromLe(s), |s|)
  }

  /** Rust's `iN::to_be_bytes`. */
  function SignedBe(x: int, n: nat): (r: seq<byte>)
    requires InSigned(x, n)
    ensures |r| == n
  {
    Reverse(SignedLe(x, n))
  }

  /** Rust's `iN::from_be_bytes`. */
  function SignedFromBe(s: seq<byte>): (x: int)
    ensures InSigned(x, |s|)
  {
    SignedFromLe(Reverse(s))
  }

  lemma SignedLeRoundTrip(x: int, n: nat)
    requires InSigned(x, n)
    ensures SignedFromLe(SignedLe(x, n)) == x
  {
    UnsignedLeRoundTrip(ToUnsigned(x, n), n);
  }

  lemma SignedFromLeRoundTrip(s: seq<byte>)
    ensures SignedLe(SignedFromLe(s), |s|) == s
  {
    UnsignedFromLeRoundTrip(s);
  }

  lemma SignedBeRoundTrip(x: int, n: nat)
    requires InSigned(x, n)
    ensures SignedFromBe(SignedBe(x, n)) == x
  {
    ReverseReverse(SignedLe(x, n));
    SignedLeRoundTrip(x, n);
  }

  lemma SignedFromBeRoundTrip(s: seq<byte>)
    ensures SignedBe(SignedFromBe(s), |s|) == s
  {
    SignedFromLeRoundTrip(Reverse(s));
    ReverseReverse(s);
  }

  /** Rust's `u32::to_le_bytes` applied after an `as u32` cast, which keeps
      the low 32 bits of its operand. */
  function U32Le(n: nat): (r: seq<byte>)
    ensures |r| == 4
  {
    Pow256Of4();
    UnsignedLe(n % 0x1_0000_0000, 4)
  }

  /** A length below 2^32 survives the cast and is read back. */
  lemma U32LeRoundTrip(n: nat)
    requires n < 0x1_0000_0000
    ensures UnsignedFromLe(U32Le(n)) == n
  {
    Pow256Of4();
    UnsignedLeRoundTrip(n, 4);
  }
}
