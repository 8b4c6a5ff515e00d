/**
 * The hand-written physical types of `src/types/native.rs`: the two interval
 * layouts `days_ms` and `months_days_ns`, and the 256-bit decimal word
 * `i256`, with their byte conversions and negation.
 */
module Native {
  import opened Bytes

  type i32 = x: int | -0x8000_0000 <= x < 0x8000_0000
  type i64 = x: int | -0x8000_0000_0000_0000 <= x < 0x8000_0000_0000_0000
  type i128 = x: int | -0x8000_0000_0000_0000_0000_0000_0000_0000 <= x < 0x8000_0000_0000_0000_0000_0000_0000_0000
  type int256 = x: int | -0x8000_0000_0000_0000_0000_0000_0000_0000_0000_0000_0000_0000_0000_0000_0000_0000 <= x
                       < 0x8000_0000_0000_0000_0000_0000_0000_0000_0000_0000_0000_0000_0000_0000_0000_0000

  const I32_MIN: i32 := -0x8000_0000
  const I64_MIN: i64 := -0x8000_0000_0000_0000
  const I128_MIN: i128 := -0x8000_0000_0000_0000_0000_0000_0000_0000
  const I256_MIN: int256 := -0x8000_0000_0000_0000_0000_0000_0000_0000_0000_0000_0000_0000_0000_0000_0000_0000

  /** Unary minus on a two's-complement integer as a release build computes
      it: the minimum of the type is its own negation. */
  function WrappingNeg32(x: i32): (r: i32) { if x == I32_MIN then x else -x }
  function WrappingNeg64(x: i64): (r: i64) { if x == I64_MIN then x else -x }
  function WrappingNeg128(x: i128): (r: i128) { if x == I128_MIN then x else -x }

  lemma SignedWidths(x: int)
    ensures InSigned(x, 4) <==> -0x8000_0000 <= x < 0x8000_0000
    ensures InSigned(x, 8) <==> -0x8000_0000_0000_0000 <= x < 0x8000_0000_0000_0000
    ensures InSigned(x, 16) <==> I128_MIN as int <= x < -(I128_MIN as int)
  {
    Pow256Of4();
    Pow256Of8();
    I128Width(x);
  }

  lemma I128Width(x: int)
    ensures Pow256(16) == W128
    ensures InSigned(x, 16) <==> I128_MIN as int <= x < -(I128_MIN as int)
  {
    Pow256Of16();
  }

  // ---------------------------------------------------------------------
  // days_ms

  /** The DayMillisecond variant of the Interval type. `days_ms::new` is the
      constructor and `days()`/`milliseconds()` are its destructors. */
  datatype DaysMs = DaysMs(days: i32, milliseconds: i32)

  /** `Neg for days_ms`: each component negated, the minimum of `i32`
      being its own negation. */
  function DaysMsNeg(x: DaysMs): (r: DaysMs)
    ensures x.days != I32_MIN ==> r.days == -x.days
    ensures x.days == I32_MIN ==> r.days == x.days
    ensures x.milliseconds != I32_MIN ==> r.milliseconds == -x.milliseconds
    ensures x.milliseconds == I32_MIN ==> r.milliseconds == x.milliseconds
  {
    DaysMs(WrappingNeg32(x.days), WrappingNeg32(x.milliseconds))
  }

  lemma DaysMsNegInvolutive(x: DaysMs)
    ensures DaysMsNeg(DaysMsNeg(x)) == x
  {
  }

  /** `days` little-endian in bytes 0..4, `milliseconds` in bytes 4..8. */
  function DaysMsLe(x: DaysMs): (r: seq<byte>)
    ensures |r| == 8
  {
    SignedWidths(x.days);
    SignedWidths(x.milliseconds);
    SignedLe(x.days, 4) + SignedLe(x.milliseconds, 4)
  }

  /** The same field layout with each field big-endian. */
  function DaysMsBe(x: DaysMs): (r: seq<byte>)
    ensures |r| == 8
  {
    SignedWidths(x.days);
    SignedWidths(x.milliseconds);
    SignedBe(x.days, 4) + SignedBe(x.milliseconds, 4)
  }

  function DaysMsFromLe(bytes: seq<byte>): (r: DaysMs)
    requires |bytes| == 8
  {
    SignedWidths(SignedFromLe(bytes[..4]));
    SignedWidths(SignedFromLe(bytes[4..]));
    DaysMs(SignedFromLe(bytes[..4]), SignedFromLe(bytes[4..]))
  }

  function DaysMsFromBe(bytes: seq<byte>): (r: DaysMs)
    requires |bytes| == 8
  {
    SignedWidths(SignedFromBe(bytes[..4]));
    SignedWidths(SignedFromBe(bytes[4..]));
    DaysMs(SignedFromBe(bytes[..4]), SignedFromBe(bytes[4..]))
  }

  /** The body shared by `to_le_bytes` and `to_be_bytes`: the two 4-byte
      fields copied one byte at a time into an 8-byte buffer. */
  method WriteDaysMs(days: seq<byte>, ms: seq<byte>) returns (result: seq<byte>)
    requires |days| == 4 && |ms| == 4
    ensures result == days + ms
  {
    var r := new byte[8];
    r[0] := days[0];
    r[1] := days[1];
    r[2] := days[2];
    r[3] := days[3];
    r[4] := ms[0];
    r[5] := ms[1];
    r[6] := ms[2];
    r[7] := ms[3];
    result := r[..];
    assert result == days + ms;
  }

  /** The body shared by `from_le_bytes` and `from_be_bytes`: bytes 0..4
      and 4..8 copied into two 4-byte buffers. */
  method ReadDaysMs(bytes: seq<byte>) returns (days: seq<byte>, ms: seq<byte>)
    requires |bytes| == 8
    ensures days == bytes[..4] && ms == bytes[4..]
  {
    var d := new byte[4];
    d[0] := bytes[0];
    d[1] := bytes[1];
    d[2] := bytes[2];
    d[3] := bytes[3];
    var m := new byte[4];
    m[0] := bytes[4];
    m[1] := bytes[5];
    m[2] := bytes[6];
    m[3] := bytes[7];
    days, ms := d[..], m[..];
    assert days == bytes[..4] && ms == bytes[4..];
  }

  method DaysMsToLeBytes(x: DaysMs) returns (result: seq<byte>)
    ensures result == DaysMsLe(x)
  {
    SignedWidths(x.days);
    SignedWidths(x.milliseconds);
    result := WriteDaysMs(SignedLe(x.days, 4), SignedLe(x.milliseconds, 4));
  }

  method DaysMsToBeBytes(x: DaysMs) returns (result: seq<byte>)
    ensures result == DaysMsBe(x)
  {
    SignedWidths(x.days);
    SignedWidths(x.milliseconds);
    result := WriteDaysMs(SignedBe(x.days, 4), SignedBe(x.milliseconds, 4));
  }

  method DaysMsFromLeBytes(bytes: seq<byte>) returns (x: DaysMs)
    requires |bytes| == 8
    ensures x == DaysMsFromLe(bytes)
  {
    var days, ms := ReadDaysMs(bytes);
    SignedWidths(SignedFromLe(days));
    SignedWidths(SignedFromLe(ms));
    x := DaysMs(SignedFromLe(days), SignedFromLe(ms));
  }

  method DaysMsFromBeBytes(bytes: seq<byte>) returns (x: DaysMs)
    requires |bytes| == 8
    ensures x == DaysMsFromBe(bytes)
  {
    var days, ms := ReadDaysMs(bytes);
    SignedWidths(SignedFromBe(days));
    SignedWidths(SignedFromBe(ms));
    x := DaysMs(SignedFromBe(days), SignedFromBe(ms));
  }

  lemma DaysMsLeRoundTrip(x: DaysMs)
    ensures DaysMsFromLe(DaysMsLe(x)) == x
  {
    SignedWidths(x.days);
    SignedWidths(x.milliseconds);
    var b := DaysMsLe(x);
    assert b[..4] == SignedLe(x.days, 4) && b[4..] == SignedLe(x.milliseconds, 4);
    SignedLeRoundTrip(x.days, 4);
    SignedLeRoundTrip(x.milliseconds, 4);
  }

  lemma DaysMsBeRoundTrip(x: DaysMs)
    ensures DaysMsFromBe(DaysMsBe(x)) == x
  {
    SignedWidths(x.days);
    SignedWidths(x.milliseconds);
    var b := DaysMsBe(x);
    assert b[..4] == SignedBe(x.days, 4) && b[4..] == SignedBe(x.milliseconds, 4);
    SignedBeRoundTrip(x.days, 4);
    SignedBeRoundTrip(x.milliseconds, 4);
  }

  /** Every 8-byte string is the encoding of the value it decodes to. */
  lemma DaysMsFromLeRoundTrip(bytes: seq<byte>)
    requires |bytes| == 8
    ensures DaysMsLe(DaysMsFromLe(bytes)) == bytes
  {
    SignedFromLeRoundTrip(bytes[..4]);
    SignedFromLeRoundTrip(bytes[4..]);
    assert bytes == bytes[..4] + bytes[4..];
  }

  lemma DaysMsFromBeRoundTrip(bytes: seq<byte>)
    requires |bytes| == 8
    ensures DaysMsBe(DaysMsFromBe(bytes)) == bytes
  {
    SignedFromBeRoundTrip(bytes[..4]);
    SignedFromBeRoundTrip(bytes[4..]);
    assert bytes == bytes[..4] + bytes[4..];
  }

  // ---------------------------------------------------------------------
  // months_days_ns

  /** The MonthDayNano variant of the Interval type. `months_days_ns::new`
      is the constructor and `months()`, `days()`, `ns()` its destructors. */
  datatype MonthsDaysNs = MonthsDaysNs(months: i32, days: i32, ns: i64)

  /** `Neg for months_days_ns`: each component negated, the minimum of
      its type being its own negation. */
  function MonthsDaysNsNeg(x: MonthsDaysNs): (r: MonthsDaysNs)
    ensures x.months != I32_MIN ==> r.months == -x.months
    ensures x.months == I32_MIN ==> r.months == x.months
    ensures x.days != I32_MIN ==> r.days == -x.days
    ensures x.days == I32_MIN ==> r.days == x.days
    ensures x.ns != I64_MIN ==> r.ns == -x.ns
    ensures x.ns == I64_MIN ==> r.ns == x.ns
  {
    MonthsDaysNs(WrappingNeg32(x.months), WrappingNeg32(x.days), WrappingNeg64(x.ns))
  }


  lemma MonthsDaysNsNegInvolutive(x: MonthsDaysNs)
    ensures MonthsDaysNsNeg(MonthsDaysNsNeg(x)) == x
  {
  }

  /** `months` in bytes 0..4, `days` in 4..8, `ns` in 8..16, little-endian. */
  function MonthsDaysNsLe(x: MonthsDaysNs): (r: seq<byte>)
    ensures |r| == 16
  {
    SignedWidths(x.months);
    SignedWidths(x.days);
    SignedWidths(x.ns);
    SignedLe(x.months, 4) + SignedLe(x.days, 4) + SignedLe(x.ns, 8)
  }

  function MonthsDaysNsBe(x: MonthsDaysNs): (r: seq<byte>)
    ensures |r| == 16
  {
    SignedWidths(x.months);
    SignedWidths(x.days);
    SignedWidths(x.ns);
    SignedBe(x.months, 4) + SignedBe(x.days, 4) + SignedBe(x.ns, 8)
  }

  function MonthsDaysNsFromLe(bytes: seq<byte>): (r: MonthsDaysNs)
    requires |bytes| == 16
  {
    SignedWidths(SignedFromLe(bytes[..4]));
    SignedWidths(SignedFromLe(bytes[4..8]));
    SignedWidths(SignedFromLe(bytes[8..]));
    MonthsDaysNs(SignedFromLe(bytes[..4]), SignedFromLe(bytes[4..8]), SignedFromLe(bytes[8..]))
  }

  function MonthsDaysNsFromBe(bytes: seq<byte>): (r: MonthsDaysNs)
    requires |bytes| == 16
  {
    SignedWidths(SignedFromBe(bytes[..4]));
    SignedWidths(SignedFromBe(bytes[4..8]));
    SignedWidths(SignedFromBe(bytes[8..]));
    MonthsDaysNs(SignedFromBe(bytes[..4]), SignedFromBe(bytes[4..8]), SignedFromBe(bytes[8..]))
  }

  /** The body shared by `to_le_bytes` and `to_be_bytes`: `months` and
      `days` copied byte by byte into bytes 0..8 of a 16-byte buffer, then
      `ns` into bytes 8..16 by a loop. */
  method WriteMonthsDaysNs(months: seq<byte>, days: seq<byte>, ns: seq<byte>) returns (result: seq<byte>)
    requires |months| == 4 && |days| == 4 && |ns| == 8
    ensures result == months + days + ns
  {
    var r := new byte[16];
    r[0] := months[0];
    r[1] := months[1];
    r[2] := months[2];
    r[3] := months[3];
    r[4] := days[0];
    r[5] := days[1];
    r[6] := days[2];
    r[7] := days[3];
    for i := 0 to 8
      invariant r[..8] == months + days
      invariant forall k :: 0 <= k < i ==> r[8 + k] == ns[k]
    {
      r[8 + i] := ns[i];
    }
    result := r[..];
    assert result == months + days + ns;
  }

  /** The body shared by `from_le_bytes` and `from_be_bytes`: bytes 0..4,
      4..8 and 8..16 copied into a 4-, a 4- and an 8-byte buffer. */
  method ReadMonthsDaysNs(bytes: seq<byte>) returns (months: seq<byte>, days: seq<byte>, ns: seq<byte>)
    requires |bytes| == 16
    ensures months == bytes[..4] && days == bytes[4..8] && ns == bytes[8..]
  {
    var m := new byte[4];
    m[0] := bytes[0];
    m[1] := bytes[1];
    m[2] := bytes[2];
    m[3] := bytes[3];
    var d := new byte[4];
    d[0] := bytes[4];
    d[1] := bytes[5];
    d[2] := bytes[6];
    d[3] := bytes[7];
    var n := new byte[8];
    for i := 0 to 8
      invariant m[..] == bytes[..4] && d[..] == bytes[4..8]
      invariant forall k :: 0 <= k < i ==> n[k] == bytes[8 + k]
    {
      n[i] := bytes[8 + i];
    }
    months, days, ns := m[..], d[..], n[..];
    assert ns == bytes[8..];
  }

  method MonthsDaysNsToLeBytes(x: MonthsDaysNs) returns (result: seq<byte>)
    ensures result == MonthsDaysNsLe(x)
  {
    SignedWidths(x.months);
    SignedWidths(x.days);
    SignedWidths(x.ns);
    result := WriteMonthsDaysNs(SignedLe(x.months, 4), SignedLe(x.days, 4), SignedLe(x.ns, 8));
  }

  method MonthsDaysNsToBeBytes(x: MonthsDaysNs) returns (result: seq<byte>)
    ensures result == MonthsDaysNsBe(x)
  {
    SignedWidths(x.months);
    SignedWidths(x.days);
    SignedWidths(x.ns);
    result := WriteMonthsDaysNs(SignedBe(x.months, 4), SignedBe(x.days, 4), SignedBe(x.ns, 8));
  }

  method MonthsDaysNsFromLeBytes(bytes: seq<byte>) returns (x: MonthsDaysNs)
    requires |bytes| == 16
    ensures x == MonthsDaysNsFromLe(bytes)
  {
    var months, days, ns := ReadMonthsDaysNs(bytes);
    SignedWidths(SignedFromLe(months));
    SignedWidths(SignedFromLe(days));
    SignedWidths(SignedFromLe(ns));
    x := MonthsDaysNs(SignedFromLe(months), SignedFromLe(days), SignedFromLe(ns));
  }

  method MonthsDaysNsFromBeBytes(bytes: seq<byte>) returns (x: MonthsDaysNs)
    requires |bytes| == 16
    ensures x == MonthsDaysNsFromBe(bytes)
  {
    var months, days, ns := ReadMonthsDaysNs(bytes);
    SignedWidths(SignedFromBe(months));
    SignedWidths(SignedFromBe(days));
    SignedWidths(SignedFromBe(ns));
    x := MonthsDaysNs(SignedFromBe(months), SignedFromBe(days), SignedFromBe(ns));
  }

  lemma MonthsDaysNsLeRoundTrip(x: MonthsDaysNs)
    ensures MonthsDaysNsFromLe(MonthsDaysNsLe(x)) == x
  {
    SignedWidths(x.months);
    SignedWidths(x.days);
    SignedWidths(x.ns);
    var b := MonthsDaysNsLe(x);
    assert b[..4] == SignedLe(x.months, 4);
    assert b[4..8] == SignedLe(x.days, 4);
    assert b[8..] == SignedLe(x.ns, 8);
    SignedLeRoundTrip(x.months, 4);
    SignedLeRoundTrip(x.days, 4);
    SignedLeRoundTrip(x.ns, 8);
  }

  lemma MonthsDaysNsBeRoundTrip(x: MonthsDaysNs)
    ensures MonthsDaysNsFromBe(MonthsDaysNsBe(x)) == x
  {
    SignedWidths(x.months);
    SignedWidths(x.days);
    SignedWidths(x.ns);
    var b := MonthsDaysNsBe(x);
    assert b[..4] == SignedBe(x.months, 4);
    assert b[4..8] == SignedBe(x.days, 4);
    assert b[8..] == SignedBe(x.ns, 8);
    SignedBeRoundTrip(x.months, 4);
    SignedBeRoundTrip(x.days, 4);
    SignedBeRoundTrip(x.ns, 8);
  }

  lemma MonthsDaysNsFromLeRoundTrip(bytes: seq<byte>)
    requires |bytes| == 16
    ensures MonthsDaysNsLe(MonthsDaysNsFromLe(bytes)) == bytes
  {
    SignedFromLeRoundTrip(bytes[..4]);
    SignedFromLeRoundTrip(bytes[4..8]);
    SignedFromLeRoundTrip(bytes[8..]);
    assert bytes == bytes[..4] + bytes[4..8] + bytes[8..];
  }

  lemma MonthsDaysNsFromBeRoundTrip(bytes: seq<byte>)
    requires |bytes| == 16
    ensures MonthsDaysNsBe(MonthsDaysNsFromBe(bytes)) == bytes
  {
    SignedFromBeRoundTrip(bytes[..4]);
    SignedFromBeRoundTrip(bytes[4..8]);
    SignedFromBeRoundTrip(bytes[8..]);
    assert bytes == bytes[..4] + bytes[4..8] + bytes[8..];
  }

  // ---------------------------------------------------------------------
  // i256

  /** A 256-bit two's-complement integer, the physical type of 256-bit
      decimals. Its two words are the signed high word and the low word,
      whose 128 bits are read as unsigned when the value is formed. */
  datatype I256 = I256(value: int256)

  /** `i256::from_words(hi, lo)`: `hi` is the signed high word, the 128
      bits of `lo` are read as unsigned; `into_words` gives both back. */
  function FromWords(hi: i128, lo: i128): (x: I256)
    ensures IntoWords(x) == (hi, lo)
  {
    var v := hi * W128 + (if lo < 0 then lo + W128 else lo);
    WordsBound(hi, if lo < 0 then lo + W128 else lo);
    WordsOfValue(hi, lo, v);
    I256(v)
  }

  lemma WordsBound(hi: i128, u: int)
    requires 0 <= u < W128
    ensures I256_MIN as int <= hi * W128 + u < -(I256_MIN as int)
  {
  }

  /** `into_words`: the high word is the value shifted right arithmetically
      by 128 bits, the low word its low 128 bits read as signed. */
  function IntoWords(x: I256): (w: (i128, i128))
    ensures InSigned(w.0, 16) && InSigned(w.1, 16)
    ensures x.value == w.0 * W128 + ToUnsigned(w.1, 16)
  {
    Pow256Of16();
    var lo := FromUnsigned(x.value % W128, 16);
    I128Width(lo);
    (x.value / W128, lo)
  }

  /** The words of `hi * 2^128 + lo` (with `lo` read as unsigned) are
      `hi` and `lo`. */
  lemma WordsOfValue(hi: i128, lo: i128, v: int256)
    requires v == hi * W128 + (if lo < 0 then lo + W128 else lo)
    ensures IntoWords(I256(v)) == (hi, lo)
  {
    var w := IntoWords(I256(v));
    I128Width(lo);
    I128Width(w.1);
    Pow256Of16();
    assert w.0 == hi by {
      assert ToUnsigned(lo, 16) < W128 && ToUnsigned(w.1, 16) < W128;
    }
    assert ToUnsigned(w.1, 16) == ToUnsigned(lo, 16);
  }

  lemma FromIntoWords(x: I256)
    ensures FromWords(IntoWords(x).0, IntoWords(x).1) == x
  {
    I128Width(IntoWords(x).1);
  }

  /** The 32-byte little-endian encoding of a value is the little-endian low
      word followed by the little-endian high word. */
  lemma SignedLeWords(x: I256)
    ensures InSigned(x.value, 32)
    ensures SignedLe(x.value, 32) == SignedLe(IntoWords(x).1, 16) + SignedLe(IntoWords(x).0, 16)
  {
    var (hi, lo) := IntoWords(x);
    FromIntoWords(x);
    SignedLeOfWords(hi, lo);
  }

  /** The same over the words: `lo` little-endian, then `hi`. */
  lemma SignedLeOfWords(hi: i128, lo: i128)
    ensures InSigned(FromWords(hi, lo).value, 32)
    ensures InSigned(hi, 16) && InSigned(lo, 16)
    ensures SignedLe(FromWords(hi, lo).value, 32) == SignedLe(lo, 16) + SignedLe(hi, 16)
  {
    I128Width(hi);
    I128Width(lo);
    var u := UnsignedOfFromWords(hi, lo);
    ConcatWords(ToUnsigned(lo, 16), ToUnsigned(hi, 16), u);
  }

  lemma UnsignedOfFromWords(hi: i128, lo: i128) returns (u: nat)
    ensures InSigned(hi, 16) && InSigned(lo, 16) && InSigned(FromWords(hi, lo).value, 32)
    ensures u == ToUnsigned(lo, 16) + W128 * ToUnsigned(hi, 16)
    ensures ToUnsigned(FromWords(hi, lo).value, 32) == u
  {
    I128Width(hi);
    I128Width(lo);
    var ul := ToUnsigned(lo, 16);
    assert FromWords(hi, lo).value == hi * W128 + ul;
    UnsignedOfWords(hi, ul);
    u := ul + W128 * ToUnsigned(hi, 16);
  }

  lemma ConcatWords(ul: nat, uh: nat, u: nat)
    requires ul < W128 && uh < W128 && u == ul + W128 * uh
    ensures UnsignedLe(u, 32) == UnsignedLe(ul, 16) + UnsignedLe(uh, 16)
  {
    Pow256Of16();
    UnsignedLeConcat(ul, uh, 16, 16);
  }

  /** The unsigned reading of `hi * 2^128 + ul` over 32 bytes: `ul` below
      the unsigned reading of `hi` over 16 bytes. */
  lemma UnsignedOfWords(hi: i128, ul: int)
    requires 0 <= ul < W128
    ensures InSigned(hi, 16) && InSigned(hi * W128 + ul, 32)
    ensures ToUnsigned(hi * W128 + ul, 32) == ul + W128 * ToUnsigned(hi, 16)
  {
    I128Width(hi);
    Pow256Of32();
    WordsBound(hi, ul);
    var v := hi * W128 + ul;
    if hi < 0 {
      assert ToUnsigned(hi, 16) == hi + W128;
      assert W128 * (hi + W128) == W128 * hi + W256;
      assert v < 0;
      assert ToUnsigned(v, 32) == v + W256;
    } else {
      assert ToUnsigned(hi, 16) == hi;
      assert v >= 0;
    }
  }

  /** The 32-byte big-endian encoding: high word first, then low word. */
  lemma SignedBeWords(x: I256)
    ensures InSigned(x.value, 32)
    ensures SignedBe(x.value, 32) == SignedBe(IntoWords(x).0, 16) + SignedBe(IntoWords(x).1, 16)
  {
    SignedLeWords(x);
    var (hi, lo) := IntoWords(x);
    I128Width(hi);
    I128Width(lo);
    ReverseConcat(SignedLe(lo, 16), SignedLe(hi, 16));
  }

  /** `Neg for i256` as written: only the high word is negated. */
  function I256NegAsWritten(x: I256): (r: I256)
    ensures IntoWords(r).0 == WrappingNeg128(IntoWords(x).0)
    ensures IntoWords(r).1 == IntoWords(x).1
  {
    var (a, b) := IntoWords(x);
    FromWords(WrappingNeg128(a), b)
  }

  /** The low word passes through unchanged and the high word is negated. */
  lemma I256NegAsWrittenWords(hi: i128, lo: i128)
    ensures I256NegAsWritten(FromWords(hi, lo)) == FromWords(WrappingNeg128(hi), lo)
  {
  }

  /** The value one is its own negation under the as-written `Neg`. */
  lemma I256NegAsWrittenCounterexample()
    ensures I256NegAsWritten(I256(1)) == I256(1)
    ensures I256(1) != I256(-1)
  {
    Pow256Of16();
    assert I256(1) == FromWords(0, 1);
    I256NegAsWrittenWords(0, 1);
  }

  /** Negation of the whole 256-bit value, wrapping at the minimum. */
  function I256Neg(x: I256): (r: I256)
    ensures x.value != I256_MIN ==> r.value == -x.value
    ensures x.value == I256_MIN ==> r == x
  {
    if x.value == I256_MIN then x else I256(-x.value)
  }

  lemma I256NegInvolutive(x: I256)
    ensures I256Neg(I256Neg(x)) == x
  {
  }

  /** `to_be_bytes`: the high word big-endian in bytes 0..16, the low word
      in bytes 16..32. */
  function I256Be(x: I256): (r: seq<byte>)
    ensures |r| == 32
  {
    var (a, b) := IntoWords(x);
    I128Width(a);
    I128Width(b);
    SignedBe(a, 16) + SignedBe(b, 16)
  }

  /** `from_be_bytes`: bytes 0..16 are the high word, 16..32 the low word. */
  function I256FromBe(bytes: seq<byte>): (x: I256)
    requires |bytes| == 32
    ensures IntoWords(x) == (SignedFromBe(bytes[..16]), SignedFromBe(bytes[16..]))
  {
    var a := SignedFromBe(bytes[..16]);
    var b := SignedFromBe(bytes[16..]);
    I128Width(a);
    I128Width(b);
    FromWords(a, b)
  }

  /** `to_le_bytes` as written: the high word little-endian in bytes 0..16,
      the low word in bytes 16..32. */
  function I256LeAsWritten(x: I256): (r: seq<byte>)
    ensures |r| == 32
  {
    var (a, b) := IntoWords(x);
    I128Width(a);
    I128Width(b);
    SignedLe(a, 16) + SignedLe(b, 16)
  }

  /** `to_le_bytes` writing the low word first, the intended layout. */
  function I256Le(x: I256): (r: seq<byte>)
    ensures |r| == 32
  {
    var (a, b) := IntoWords(x);
    I128Width(a);
    I128Width(b);
    SignedLe(b, 16) + SignedLe(a, 16)
  }

  /** `from_le_bytes`: splits at 16 and reads bytes 16..32 as the high word
      and bytes 0..16 as the low word. */
  function I256FromLe(bytes: seq<byte>): (x: I256)
    requires |bytes| == 32
    ensures IntoWords(x) == (SignedFromLe(bytes[16..]), SignedFromLe(bytes[..16]))
  {
    var a := SignedFromLe(bytes[16..]);
    var b := SignedFromLe(bytes[..16]);
    I128Width(a);
    I128Width(b);
    FromWords(a, b)
  }

  /** The body shared by `to_le_bytes` and `to_be_bytes`: a zeroed
      32-byte buffer, the first word's 16 bytes copied into bytes 0..16 and
      the second word's into bytes 16..32. */
  method WriteWords(first: seq<byte>, second: seq<byte>) returns (result: seq<byte>)
    requires |first| == 16 && |second| == 16
    ensures result == first + second
  {
    var bytes := new byte[32];
    for i := 0 to 16
      invariant forall k :: 0 <= k < i ==> bytes[k] == first[k]
    {
      bytes[i] := first[i];
    }
    for i := 0 to 16
      invariant forall k :: 0 <= k < 16 ==> bytes[k] == first[k]
      invariant forall k :: 0 <= k < i ==> bytes[k + 16] == second[k]
    {
      bytes[i + 16] := second[i];
    }
    result := bytes[..];
    assert result == first + second;
  }

  method I256ToBeBytes(x: I256) returns (result: seq<byte>)
    ensures result == I256Be(x)
  {
    var (a, b) := IntoWords(x);
    I128Width(a);
    I128Width(b);
    result := WriteWords(SignedBe(a, 16), SignedBe(b, 16));
  }

  method I256ToLeBytesAsWritten(x: I256) returns (result: seq<byte>)
    ensures result == I256LeAsWritten(x)
  {
    var (a, b) := IntoWords(x);
    I128Width(a);
    I128Width(b);
    result := WriteWords(SignedLe(a, 16), SignedLe(b, 16));
  }

  /** `to_le_bytes` with the low word written first. */
  method I256ToLeBytes(x: I256) returns (result: seq<byte>)
    ensures result == I256Le(x)
  {
    var (a, b) := IntoWords(x);
    I128Width(a);
    I128Width(b);
    result := WriteWords(SignedLe(b, 16), SignedLe(a, 16));
  }

  /** `to_be_bytes` is the 32-byte big-endian encoding of the value. */
  lemma I256BeIsBigEndian(x: I256)
    ensures InSigned(x.value, 32)
    ensures I256Be(x) == SignedBe(x.value, 32)
  {
    SignedBeWords(x);
  }

  /** `from_be_bytes` reads a 32-byte big-endian encoding. */
  lemma I256FromBeIsBigEndian(bytes: seq<byte>)
    requires |bytes| == 32
    ensures I256FromBe(bytes).value == SignedFromBe(bytes)
  {
    var x := I256FromBe(bytes);
    SignedBeWords(x);
    SignedFromBeRoundTrip(bytes[..16]);
    SignedFromBeRoundTrip(bytes[16..]);
    assert bytes == bytes[..16] + bytes[16..];
    assert SignedBe(x.value, 32) == bytes;
    SignedBeRoundTrip(x.value, 32);
  }

  lemma I256BeRoundTrip(x: I256)
    ensures I256FromBe(I256Be(x)) == x
  {
    var (a, b) := IntoWords(x);
    I128Width(a);
    I128Width(b);
    var bytes := I256Be(x);
    assert bytes[..16] == SignedBe(a, 16) && bytes[16..] == SignedBe(b, 16);
    SignedBeRoundTrip(a, 16);
    SignedBeRoundTrip(b, 16);
  }

  /** `from_le_bytes` reads a 32-byte little-endian encoding. */
  lemma I256FromLeIsLittleEndian(bytes: seq<byte>)
    requires |bytes| == 32
    ensures I256FromLe(bytes).value == SignedFromLe(bytes)
  {
    var x := I256FromLe(bytes);
    var a := SignedFromLe(bytes[16..]);
    var b := SignedFromLe(bytes[..16]);
    I128Width(a);
    I128Width(b);
    SignedLeWords(x);
    SignedFromLeRoundTrip(bytes[..16]);
    SignedFromLeRoundTrip(bytes[16..]);
    assert bytes == bytes[..16] + bytes[16..];
    assert SignedLe(x.value, 32) == bytes;
    SignedLeRoundTrip(x.value, 32);
  }

  /** As written, a little-endian round trip exchanges the two words. */
  lemma I256LeAsWrittenSwapsWords(hi: i128, lo: i128)
    ensures I256FromLe(I256LeAsWritten(FromWords(hi, lo))) == FromWords(lo, hi)
  {
    I128Width(hi);
    I128Width(lo);
    var bytes := I256LeAsWritten(FromWords(hi, lo));
    assert bytes[..16] == SignedLe(hi, 16) && bytes[16..] == SignedLe(lo, 16);
    SignedLeRoundTrip(hi, 16);
    SignedLeRoundTrip(lo, 16);
  }

  /** The value one comes back as 2^128. */
  lemma I256LeAsWrittenCounterexample()
    ensures I256FromLe(I256LeAsWritten(I256(1))) == I256(W128)
    ensures I256(W128) != I256(1)
  {
    Pow256Of16();
    assert I256(1) == FromWords(0, 1);
    I256LeAsWrittenSwapsWords(0, 1);
  }

  /** With the low word written first, `to_le_bytes` is the 32-byte
      little-endian encoding of the value ... */
  lemma I256LeIsLittleEndian(x: I256)
    ensures InSigned(x.value, 32)
    ensures I256Le(x) == SignedLe(x.value, 32)
  {
    SignedLeWords(x);
  }

  /** ... and `from_le_bytes` inverts it. */
  lemma I256LeRoundTrip(x: I256)
    ensures I256FromLe(I256Le(x)) == x
  {
    I256LeIsLittleEndian(x);
    I256FromLeIsLittleEndian(I256Le(x));
    SignedLeRoundTrip(x.value, 32);
  }
}
