/**
 * `array_to_page_v1` for variable-length binary columns: a Parquet data
 * page (format version 1) whose body is the definition levels (the
 * RLE / bit-packing hybrid encoding) followed by the values in the PLAIN
 * encoding of BYTE_ARRAY, a 4-byte little-endian length before each value's
 * bytes, the whole body optionally compressed.
 *
 * The level encoder (`write_def_levels`), the codec factory (`create_codec`)
 * and the compressor (`compress`) are parameters: each may fail. The errors
 * of the last two are parquet2 errors that `?` converts into the crate's
 * error type; each parameter stands for the call followed by that
 * conversion, so the page writer returns the error it is given.
 */
module ParquetBinary {
  import opened Wrappers
  import opened Bytes
  import opened Nullable

  /** `BinaryArray<O>`: offsets into a byte buffer and an optional
      validity. */
  datatype BinaryArray = BinaryArray(offsets: seq<int>, bytes: seq<byte>, validity: Option<seq<bool>>)
  {
    predicate Valid()
    {
      && |offsets| >= 1
      && 0 <= offsets[0]
      && (forall i, j :: 0 <= i <= j < |offsets| ==> offsets[i] <= offsets[j])
      && offsets[|offsets| - 1] <= |bytes|
      && (validity.Some? ==> |validity.value| == |offsets| - 1)
    }

    function Len(): nat
      requires Valid()
    {
      |offsets| - 1
    }
  }

  /** `values_iter`: every slot's bytes, null or not. */
  function ValuesIter(a: BinaryArray): (r: seq<seq<byte>>)
    requires a.Valid()
    ensures |r| == a.Len()
    ensures forall i :: 0 <= i < |r| ==> r[i] == a.bytes[a.offsets[i]..a.offsets[i + 1]]
  {
    seq(a.Len(), i requires 0 <= i < a.Len() => a.bytes[a.offsets[i]..a.offsets[i + 1]])
  }

  /** `iter`: the nullable view of the slots. */
  function Iter(a: BinaryArray): (r: seq<Option<seq<byte>>>)
    requires a.Valid()
    ensures |r| == a.Len()
  {
    ZipValidity(ValuesIter(a), a.validity)
  }

  datatype Encoding = Plain | Rle

  datatype CompressionCodec = Uncompressed | Snappy | Gzip | Lzo | Brotli | Lz4 | Zstd | Lz4Raw

  /** A codec instance made by `create_codec`. */
  datatype Codec = Codec(kind: CompressionCodec)

  /** The Parquet column statistics a page header may carry. */
  datatype Statistics = Statistics(nullCount: Option<int>, distinctCount: Option<int>,
                                   maxValue: Option<seq<byte>>, minValue: Option<seq<byte>>)

  /** `DataPageHeader` of the Parquet format. */
  datatype DataPageHeader = DataPageHeader(numValues: int, encoding: Encoding,
                                           definitionLevelEncoding: Encoding,
                                           repetitionLevelEncoding: Encoding,
                                           statistics: Option<Statistics>)

  datatype PageHeader = V1(dataPage: DataPageHeader)

  datatype CompressedPage = CompressedPage(header: PageHeader, buffer: seq<byte>,
                                           compression: CompressionCodec,
                                           uncompressedPageSize: nat)

  /** The crate's error type, as the fallible steps deliver it after `?`
      has converted it. */
  datatype Error = Error(message: string)

  /** `n as i32`: the low 32 bits of `n` read as two's complement. */
  function AsI32(n: nat): (r: int)
    ensures -0x8000_0000 <= r < 0x8000_0000
    ensures n < 0x8000_0000 ==> r == n
  {
    var low := n % 0x1_0000_0000;
    if low >= 0x8000_0000 then low - 0x1_0000_0000 else low
  }

  /** One PLAIN BYTE_ARRAY value: `(len as u32).to_le_bytes()` then the
      bytes. */
  function LengthPrefixed(v: seq<byte>): (r: seq<byte>)
    ensures |r| == 4 + |v|
    ensures r[4..] == v
  {
    U32Le(|v|) + v
  }

  /** The PLAIN encoding of a run of BYTE_ARRAY values. */
  function PlainEncode(vs: seq<seq<byte>>): (r: seq<byte>)
  {
    if vs == [] then [] else LengthPrefixed(vs[0]) + PlainEncode(vs[1..])
  }

  /** The sum of `4 + len(v)` over the values. */
  function EncodedSize(vs: seq<seq<byte>>): (n: nat)
  {
    if vs == [] then 0 else 4 + |vs[0]| + EncodedSize(vs[1..])
  }

  /** Reading PLAIN BYTE_ARRAY values back: a length, then that many bytes,
      until the input is used up. */
  function PlainDecode(b: seq<byte>): (r: Option<seq<seq<byte>>>)
    decreases |b|
  {
    if b == [] then Some([])
    else if |b| < 4 then None
    else
      var n := UnsignedFromLe(b[..4]);
      if |b| - 4 < n then None
      else match PlainDecode(b[4 + n..])
        case None => None
        case Some(rest) => Some([b[4..4 + n]] + rest)
  }

  /** The value section of the page: the present values when the column is
      optional, every slot's value when it is required. */
  function ValueSection(a: BinaryArray, isOptional: bool): (r: seq<byte>)
    requires a.Valid()
  {
    PlainEncode(if isOptional then Present(Iter(a)) else ValuesIter(a))
  }

  /** The header of every page this writer emits. */
  function Header(a: BinaryArray): (h: DataPageHeader)
    requires a.Valid()
    ensures a.Len() < 0x8000_0000 ==> h.numValues == a.Len()
    ensures h.encoding == Plain
    ensures h.definitionLevelEncoding == Rle && h.repetitionLevelEncoding == Rle
    ensures h.statistics == None
  {
    DataPageHeader(AsI32(a.Len()), Plain, Rle, Rle, None)
  }

  lemma {:induction false} PlainEncodeAppend(vs: seq<seq<byte>>, v: seq<byte>)
    ensures PlainEncode(vs + [v]) == PlainEncode(vs) + LengthPrefixed(v)
  {
    if vs == [] {
      assert [v][1..] == [];
    } else {
      assert (vs + [v])[1..] == vs[1..] + [v];
      PlainEncodeAppend(vs[1..], v);
    }
  }

  /** The value section is as long as the sum of `4 + len(v)`. */
  lemma {:induction false} PlainEncodeLength(vs: seq<seq<byte>>)
    ensures |PlainEncode(vs)| == EncodedSize(vs)
  {
    if vs != [] {
      PlainEncodeLength(vs[1..]);
    }
  }

  /** One length-prefixed value is read back, then decoding goes on
      with what follows it. */
  lemma DecodeStep(v: seq<byte>, rest: seq<byte>)
    requires |v| < 0x1_0000_0000
    ensures PlainDecode(LengthPrefixed(v) + rest) ==
      match PlainDecode(rest)
      case None => None
      case Some(t) => Some([v] + t)
  {
    var b := LengthPrefixed(v) + rest;
    U32LeRoundTrip(|v|);
    assert b[..4] == U32Le(|v|);
    assert b[4..4 + |v|] == v;
    assert b[4 + |v|..] == rest;
  }

  /** Values shorter than 2^32 bytes are read back exactly. */
  lemma {:induction false} PlainRoundTrip(vs: seq<seq<byte>>)
    requires forall i :: 0 <= i < |vs| ==> |vs[i]| < 0x1_0000_0000
    ensures PlainDecode(PlainEncode(vs)) == Some(vs)
  {
    if vs != [] {
      PlainRoundTrip(vs[1..]);
      DecodeStep(vs[0], PlainEncode(vs[1..]));
      assert vs == [vs[0]] + vs[1..];
    }
  }

  /** A required column writes every slot, whatever its validity bit: the
      same bytes an optional column writes when it has no validity. */
  lemma RequiredWritesEverySlot(a: BinaryArray)
    requires a.Valid()
    ensures ValueSection(a, false) == ValueSection(a.(validity := None), true)
  {
    PresentAllValid(ValuesIter(a));
  }

  /** The validity bits of the slots, all set when there is no mask. */
  function ValidityBits(a: BinaryArray): (bits: seq<bool>)
    requires a.Valid()
    ensures |bits| == a.Len()
    ensures forall i :: 0 <= i < |bits| ==> bits[i] == (a.validity.None? || a.validity.value[i])
    ensures Iter(a) == Zip(ValuesIter(a), bits)
  {
    match a.validity
    case None => seq(a.Len(), _ => true)
    case Some(bits) => bits
  }

  /** For an optional column, with or without a mask, the value section
      decodes, and spreading its values over the set validity bits gives
      back the nullable view of the array. Without a mask the section
      decodes to every slot's value. Only the present values need to be
      shorter than 2^32 bytes. */
  lemma OptionalSectionRecoversView(a: BinaryArray)
    requires a.Valid()
    requires forall i :: 0 <= i < a.Len() && (a.validity.None? || a.validity.value[i]) ==>
      a.offsets[i + 1] - a.offsets[i] < 0x1_0000_0000
    ensures PlainDecode(ValueSection(a, true)).Some?
    ensures Expand(PlainDecode(ValueSection(a, true)).value, ValidityBits(a)) == Some(Iter(a))
    ensures a.validity.None? ==> PlainDecode(ValueSection(a, true)) == Some(ValuesIter(a))
  {
    var values := ValuesIter(a);
    var bits := ValidityBits(a);
    var items := Zip(values, bits);
    assert forall i :: 0 <= i < |items| && items[i].Some? ==> |items[i].value| < 0x1_0000_0000 by {
      forall i | 0 <= i < |items| && items[i].Some?
        ensures |items[i].value| < 0x1_0000_0000
      {
        assert bits[i] && items[i].value == values[i];
      }
    }
    PresentShort(items);
    PlainRoundTrip(Present(items));
    ExpandPresent(values, bits);
    if a.validity.None? {
      PresentAllValid(values);
    }
  }

  lemma {:induction false} PresentShort(items: seq<Option<seq<byte>>>)
    requires forall i :: 0 <= i < |items| && items[i].Some? ==> |items[i].value| < 0x1_0000_0000
    ensures forall k :: 0 <= k < |Present(items)| ==> |Present(items)[k]| < 0x1_0000_0000
  {
    if items != [] {
      PresentShort(items[1..]);
      var head := if items[0].Some? then [items[0].value] else [];
      assert Present(items) == head + Present(items[1..]);
    }
  }

  /** `buffer.extend_from_slice(&(x.len() as u32).to_le_bytes())` followed
      by `buffer.extend_from_slice(x)`. */
  method AppendValue(buffer: seq<byte>, x: seq<byte>) returns (out: seq<byte>)
    ensures out == buffer + LengthPrefixed(x)
  {
    var len := U32Le(|x|);
    out := buffer + len;
    out := out + x;
  }

  /** The loop of an optional column: each present value, a 4-byte
      length prefix before its bytes; nulls write nothing. */
  method AppendPresent(buffer: seq<byte>, items: seq<Option<seq<byte>>>) returns (out: seq<byte>)
    ensures out == buffer + PlainEncode(Present(items))
  {
    out := buffer;
    for i := 0 to |items|
      invariant out == buffer + PlainEncode(Present(items[..i]))
    {
      PresentEncodeStep(buffer, items, i);
      if items[i].Some? {
        out := AppendValue(out, items[i].value);
      }
    }
    assert items[..|items|] == items;
  }

  lemma PresentEncodeStep(buffer: seq<byte>, items: seq<Option<seq<byte>>>, i: nat)
    requires i < |items|
    ensures items[i].Some? ==>
      buffer + PlainEncode(Present(items[..i])) + LengthPrefixed(items[i].value) ==
      buffer + PlainEncode(Present(items[..i + 1]))
    ensures items[i].None? ==> PlainEncode(Present(items[..i + 1])) == PlainEncode(Present(items[..i]))
  {
    assert items[..i + 1] == items[..i] + [items[i]];
    PresentAppend(items[..i], items[i]);
    if items[i].Some? {
      PlainEncodeAppend(Present(items[..i]), items[i].value);
    } else {
      assert Present(items[..i + 1]) == Present(items[..i]);
    }
  }

  /** The loop of a required column: every slot's value, a 4-byte length
      prefix before its bytes. */
  method AppendAll(buffer: seq<byte>, values: seq<seq<byte>>) returns (out: seq<byte>)
    ensures out == buffer + PlainEncode(values)
  {
    out := buffer;
    for i := 0 to |values|
      invariant out == buffer + PlainEncode(values[..i])
    {
      EncodeStep(buffer, values, i);
      out := AppendValue(out, values[i]);
    }
    assert values[..|values|] == values;
  }

  lemma EncodeStep(buffer: seq<byte>, values: seq<seq<byte>>, i: nat)
    requires i < |values|
    ensures buffer + PlainEncode(values[..i]) + LengthPrefixed(values[i]) == buffer + PlainEncode(values[..i + 1])
  {
    assert values[..i + 1] == values[..i] + [values[i]];
    PlainEncodeAppend(values[..i], values[i]);
  }

  /**
   * `array_to_page_v1`. The body is `write_def_levels(is_optional,
   * validity, len)` followed by the value section; its length before
   * compression is the uncompressed size. Without a codec the page holds
   * the body itself, with one it holds what `compress` writes into an empty
   * buffer. Each fallible step's error, already in the crate's error type,
   * is the result.
   */
  method ArrayToPageV1(a: BinaryArray, compression: CompressionCodec, isOptional: bool,
                       writeDefLevels: (bool, Option<seq<bool>>, nat) -> Result<seq<byte>, Error>,
                       createCodec: CompressionCodec -> Result<Option<Codec>, Error>,
                       compress: (Codec, seq<byte>) -> Result<seq<byte>, Error>)
    returns (r: Result<CompressedPage, Error>)
    requires a.Valid()
    ensures writeDefLevels(isOptional, a.validity, a.Len()).Failure? ==>
      r == Failure(writeDefLevels(isOptional, a.validity, a.Len()).error)
    ensures writeDefLevels(isOptional, a.validity, a.Len()).Success? && createCodec(compression).Failure? ==>
      r == Failure(createCodec(compression).error)
    ensures writeDefLevels(isOptional, a.validity, a.Len()).Success? && createCodec(compression).Success? ==>
      var body := writeDefLevels(isOptional, a.validity, a.Len()).value + ValueSection(a, isOptional);
      var codec := createCodec(compression).value;
      && (codec.None? ==> r == Success(CompressedPage(V1(Header(a)), body, compression, |body|)))
      && (codec.Some? && compress(codec.value, body).Failure? ==> r == Failure(compress(codec.value, body).error))
      && (codec.Some? && compress(codec.value, body).Success? ==>
            r == Success(CompressedPage(V1(Header(a)), compress(codec.value, body).value, compression, |body|)))
  {
    var validity := a.validity;
    var levels := writeDefLevels(isOptional, validity, a.Len());
    if levels.Failure? {
      return Failure(levels.error);
    }
    var buffer;
    if isOptional {
      buffer := AppendPresent(levels.value, Iter(a));
    } else {
      buffer := AppendAll(levels.value, ValuesIter(a));
    }
    var uncompressedPageSize := |buffer|;

    var codec := createCodec(compression);
    if codec.Failure? {
      return Failure(codec.error);
    }
    var page: seq<byte>;
    if codec.value.Some? {
      var tmp := compress(codec.value.value, buffer);
      if tmp.Failure? {
        return Failure(tmp.error);
      }
      page := tmp.value;
    } else {
      page := buffer;
    }

    var header := V1(DataPageHeader(AsI32(a.Len()), Plain, Rle, Rle, None));
    r := Success(CompressedPage(header, page, compression, uncompressedPageSize));
  }
}
