/**
 * The binary parser of Level-5 MAT-files (src/parse.rs). Every parser maps
 * the remaining input to `(rest, value)` or an error; the file is a 128-byte
 * header followed by self-framed data elements.
 *
 * The DEFLATE decoder used for compressed elements is a parameter, `inflate`,
 * which yields None where the real decoder reports an error. Because the
 * decompressed buffer may again hold a compressed element, the element
 * parsers carry a `depth` bound on that nesting (see NestingIsMonotone).
 */
module Parse {
  import opened Ints
  import Wrappers
  import opened Nom
  import opened ParseTypes
  import Unicode

  type Inflate = seq<u8> -> Wrappers.Option<seq<u8>>

  // ------------------------------------------------------------------ header

  /** The marker "IM": the file was written little-endian. */
  const MarkerIM: seq<u8> := [0x49, 0x4D]
  /** The marker "MI": the file was written big-endian. */
  const MarkerMI: seq<u8> := [0x4D, 0x49]

  /** The byte order of every multi-byte field after the header. */
  function HeaderEndianness(h: Header): Endianness {
    if h.isLittleEndian then Little else Big
  }

  /** `alt((value(true, tag("IM")), value(false, tag("MI"))))` */
  function ParseEndianMarker(i: seq<u8>): IResult<bool> {
    if |i| >= 2 && i[..2] == MarkerIM then Ok(i[2..], true)
    else if |i| >= 2 && i[..2] == MarkerMI then Ok(i[2..], false)
    else Err(Error)
  }

  /**
   * `parse_header`: 116 bytes of text, 8 bytes of subsystem offset, the
   * version word and the endian marker. Text that is not valid UTF-8 becomes
   * the empty string.
   */
  function ParseHeader(i: seq<u8>): (r: IResult<Header>)
    ensures |i| < 128 ==> r == Err(Error)
    ensures (exists k :: 0 <= k < 4 && k < |i| && i[k] == 0) ==> r == Err(Error)
    ensures r.Ok? ==> r.rest == i[128..]
    ensures r.Ok? ==>
      || (i[126..128] == MarkerIM && r.value.isLittleEndian)
      || (i[126..128] == MarkerMI && !r.value.isLittleEndian)
    ensures r.Ok? ==> UnsignedValue(HeaderEndianness(r.value), i[124..126]) == 0x0100
    ensures r.Ok? ==> r.value.text == Unicode.Decode(i[..116]).GetOr("")
    ensures |i| >= 128 && i[0] != 0 && i[1] != 0 && i[2] != 0 && i[3] != 0
            && (i[126..128] == MarkerIM || i[126..128] == MarkerMI) ==>
      && (r.Ok? <==> UnsignedValue(if i[126..128] == MarkerIM then Little else Big, i[124..126]) == 0x0100)
      && (r.Err? ==> r.kind == Failure)
    ensures (|i| >= 128 && i[0] != 0 && i[1] != 0 && i[2] != 0 && i[3] != 0
             && i[126..128] != MarkerIM && i[126..128] != MarkerMI) ==> r == Err(Error)
  {
    // peek: none of the first four bytes may be NUL
    if |i| < 4 || i[0] == 0 || i[1] == 0 || i[2] == 0 || i[3] == 0 then Err(Error)
    // the text (116 bytes), the subsystem offset (8) and the version word (2) are taken in turn
    else if |i| < 126 then Err(Error)
    else
      var text := i[..116];
      // read little-endian for now
      var version := UnsignedValue(Little, i[124..126]);
      var (rest, isLittleEndian) :- ParseEndianMarker(i[126..]);
      SwappedLittleIsBig(i[124..126]);
      assert i[126..][..2] == i[126..128];
      // correct the version for a big-endian file
      var version := if !isLittleEndian then SwapBytes16(version) else version;
      if version != 0x0100 then Err(Failure)
      else Ok(rest, Header(Unicode.Decode(text).GetOr(""), isLittleEndian))
  }

  // ----------------------------------------------------------------- framing

  /** `ceil_to_multiple`: round `x` up to a multiple of `multiple`, in `u32` arithmetic that wraps. */
  function CeilToMultiple(x: u32, multiple: u32): (r: u32)
    requires multiple > 0
    ensures x == 0 ==> r == 0
    ensures 0 < x && ((x - 1) / multiple + 1) * multiple < 0x1_0000_0000 ==>
      x <= r < x + multiple && r % multiple == 0
  {
    if x > 0 then
      RoundUp(x, multiple);
      WrapUnsigned(((x - 1) / multiple + 1) * multiple, 32)
    else 0
  }

  lemma RoundUp(x: nat, m: nat)
    requires x > 0 && m > 0
    ensures var r := ((x - 1) / m + 1) * m; x <= r < x + m && r % m == 0
  {
    var q := (x - 1) / m;
    assert x - 1 == q * m + (x - 1) % m;
    assert (q + 1) * m == q * m + m;
    assert ((q + 1) * m) % m == 0 by {
      MultipleMod(q + 1, m);
    }
  }

  lemma MultipleMod(a: nat, m: nat)
    requires m > 0
    ensures (a * m) % m == 0
  {
    var r := a * m;
    var d := a - r / m;
    assert m * d == r % m;
    if d > 0 {
      AtLeastOnce(d, m);
    } else if d < 0 {
      AtLeastOnce(-d, m);
    }
  }

  lemma AtLeastOnce(d: nat, m: nat)
    requires d >= 1
    ensures d * m >= m
  {
  }

  /** The padding after a long-format payload: `ceil_to_multiple(size, 8) - size` in `u32`. */
  function PaddingFor(byteSize: u32): u32 {
    WrapUnsigned(CeilToMultiple(byteSize, 8) - byteSize, 32)
  }

  /** Padding is at most 7 bytes and brings the payload to a multiple of 8, even where `u32` wraps. */
  lemma PaddingBounds(byteSize: u32)
    ensures PaddingFor(byteSize) < 8
    ensures (byteSize + PaddingFor(byteSize)) % 8 == 0
    ensures byteSize % 8 == 0 ==> PaddingFor(byteSize) == 0
  {
    if byteSize > 0 {
      RoundUp(byteSize, 8);
    }
  }

  /** The first tag word selects the long format exactly when its high 16 bits are zero. */
  predicate IsLongFormat(startingBytes: nat) {
    startingBytes / 0x1_0000 == 0
  }

  /**
   * `parse_data_element_tag`. Long format: the first word is the kind, the
   * second the byte size, padding reaches the next multiple of 8. Small
   * format: the low half of the first word is the kind, the high half the
   * byte size (at most 4), and the payload fills the rest of an 8-byte slot.
   */
  function ParseDataElementTag(e: Endianness, i: seq<u8>): (r: IResult<DataElementTag>)
    ensures |i| < 4 ==> r == Err(Error)
    ensures r.Ok? ==> |r.rest| + 4 <= |i| && r.rest == i[|i| - |r.rest|..]
    ensures r.Ok? ==> |i| >= 4 && var w := UnsignedValue(e, i[..4]);
      if IsLongFormat(w) then
        && |i| >= 8 && r.rest == i[8..]
        && r.value.dataType.Code() == w
        && r.value.dataByteSize == UnsignedValue(e, i[4..8])
        && r.value.paddingByteSize < 8
        && (r.value.dataByteSize + r.value.paddingByteSize) % 8 == 0
      else
        && r.rest == i[4..]
        && r.value.dataType.Code() == w % 0x1_0000
        && r.value.dataByteSize == w / 0x1_0000 <= 4
        && r.value.paddingByteSize == 4 - r.value.dataByteSize
    ensures |i| >= 8 && IsLongFormat(UnsignedValue(e, i[..4])) ==>
      (r.Ok? <==> DataTypeFromU32(UnsignedValue(e, i[..4])).Some?)
    ensures |i| >= 4 && !IsLongFormat(UnsignedValue(e, i[..4])) ==>
      (r.Ok? <==> UnsignedValue(e, i[..4]) / 0x1_0000 <= 4 && DataTypeFromU32(UnsignedValue(e, i[..4]) % 0x1_0000).Some?)
    ensures r.Err? ==> r.kind != TooDeep
    ensures r.Err? ==> (r.kind == Error <==> |i| < 4 || (IsLongFormat(UnsignedValue(e, i[..4])) && |i| < 8))
  {
    var (i1, startingBytes) :- ReadUnsigned(e, 4, i);
    if IsLongFormat(startingBytes) then
      // long data element format
      var (i2, byteSize) :- ReadUnsigned(e, 4, i1);
      assert i1[..4] == i[4..8] && i2 == i[8..];
      PaddingBounds(byteSize);
      match DataTypeFromU32(startingBytes)
      case None => Err(Failure)
      case Some(dataType) => Ok(i2, DataElementTag(dataType, byteSize, PaddingFor(byteSize)))
    else
      // small data element format
      var byteSize := startingBytes / 0x1_0000;
      if byteSize > 4 then Err(Failure)
      else
        match DataTypeFromU32(startingBytes % 0x1_0000)
        case None => Err(Failure)
        case Some(dataType) => Ok(i1, DataElementTag(dataType, byteSize, 4 - byteSize))
  }

  // ------------------------------------------------------------- subelements

  /** `w & mask != 0` for a single-bit mask. */
  predicate HasBit(w: nat, mask: nat)
    requires mask > 0
  {
    (w / mask) % 2 == 1
  }

  /**
   * `parse_array_flags_subelement`: a raw long-format tag (UInt32, 8 bytes),
   * the flags-and-class word and `nzmax`.
   */
  function ParseArrayFlagsSubelement(e: Endianness, i: seq<u8>): (r: IResult<ArrayFlags>)
    ensures r.Ok? ==> |i| >= 16 && r.rest == i[16..]
    ensures r.Ok? ==> UnsignedValue(e, i[..4]) == DataType.UInt32.Code() && UnsignedValue(e, i[4..8]) == 8
    ensures r.Ok? ==>
      var w := UnsignedValue(e, i[8..12]);
      && r.value.complex == HasBit(w, 0x0800)
      && r.value.global == HasBit(w, 0x0400)
      && r.value.logical == HasBit(w, 0x0200)
      && r.value.arrayClass.Code() == w % 0x100
      && r.value.nzmax == UnsignedValue(e, i[12..16])
    ensures |i| >= 8 && !(UnsignedValue(e, i[..4]) == 6 && UnsignedValue(e, i[4..8]) == 8) ==> r == Err(Failure)
    ensures |i| < 8 ==> r == Err(Error)
    ensures 8 <= |i| < 16 && UnsignedValue(e, i[..4]) == 6 && UnsignedValue(e, i[4..8]) == 8 ==> r == Err(Error)
    ensures |i| >= 16 && UnsignedValue(e, i[..4]) == 6 && UnsignedValue(e, i[4..8]) == 8 ==>
      && (r.Ok? <==> 1 <= UnsignedValue(e, i[8..12]) % 0x100 <= 15)
      && (r.Err? ==> r.kind == Failure)
  {
    var (i1, tagDataType) :- ReadUnsigned(e, 4, i);
    var (i2, tagDataLen) :- ReadUnsigned(e, 4, i1);
    assert i1[..4] == i[4..8] && i2 == i[8..];
    if !(tagDataType == DataType.UInt32.Code() && tagDataLen == 8) then Err(Failure)
    else
      var (i3, flagsAndClass) :- ReadUnsigned(e, 4, i2);
      var (i4, nzmax) :- ReadUnsigned(e, 4, i3);
      assert i2[..4] == i[8..12] && i3[..4] == i[12..16] && i4 == i[16..];
      match ArrayTypeFromU8(flagsAndClass % 0x100)
      case None => Err(Failure)
      case Some(arrayClass) =>
        Ok(i4, ArrayFlags(
          complex := HasBit(flagsAndClass, 0x0800),
          global := HasBit(flagsAndClass, 0x0400),
          logical := HasBit(flagsAndClass, 0x0200),
          arrayClass := arrayClass,
          nzmax := nzmax))
  }

  /**
   * `parse_dimensions_array_subelement`: an Int32 tag of at least 8 bytes
   * and a multiple of 4, then one `i32` per 4 bytes, then the padding.
   */
  function ParseDimensionsArraySubelement(e: Endianness, i: seq<u8>): (r: IResult<seq<i32>>)
    ensures r.Ok? ==>
      var t := ParseDataElementTag(e, i);
      t.Ok? && t.value.dataByteSize / 4 * 4 <= |t.rest|
      && r.value == AsI32s(Words(e, 4, t.value.dataByteSize / 4, t.rest))
    ensures var t := ParseDataElementTag(e, i);
      && (t.Err? ==> r == Err(t.kind))
      && (t.Ok? && !(t.value.dataType == DataType.Int32 && t.value.dataByteSize >= 8 && t.value.dataByteSize % 4 == 0) ==>
            r == Err(Failure))
      && (r.Ok? ==>
            && t.Ok? && t.value.dataType == DataType.Int32
            && t.value.dataByteSize >= 8 && t.value.dataByteSize % 4 == 0
            && |r.value| == t.value.dataByteSize / 4 && |r.value| >= 2
            && t.value.dataByteSize + t.value.paddingByteSize <= |t.rest|
            && r.rest == t.rest[t.value.dataByteSize + t.value.paddingByteSize..])
      && (t.Ok? && t.value.dataType == DataType.Int32 && t.value.dataByteSize >= 8 && t.value.dataByteSize % 4 == 0 ==>
            if t.value.dataByteSize + t.value.paddingByteSize <= |t.rest| then r.Ok? else r == Err(Error))
  {
    var (i1, tag) :- ParseDataElementTag(e, i);
    if !(tag.dataType == DataType.Int32 && tag.dataByteSize >= 8 && tag.dataByteSize % 4 == 0) then Err(Failure)
    else
      var n := tag.dataByteSize / 4;
      assert n * 4 == tag.dataByteSize;
      var (i2, dimensions) :- ReadMany(e, 4, n, i1);
      var (i3, _) :- Take(tag.paddingByteSize, i2);
      assert i3 == i1[tag.dataByteSize + tag.paddingByteSize..];
      Ok(i3, AsI32s(dimensions))
  }

  /**
   * `parse_array_name_subelement`: an Int8 tag with a non-empty payload that
   * is valid UTF-8, then the padding.
   */
  function ParseArrayNameSubelement(e: Endianness, i: seq<u8>): (r: IResult<string>)
    ensures var t := ParseDataElementTag(e, i);
      && (t.Err? ==> r == Err(t.kind))
      && (t.Ok? && !(t.value.dataType == DataType.Int8 && t.value.dataByteSize > 0) ==> r == Err(Failure))
      && (r.Ok? ==>
            && t.Ok? && t.value.dataType == DataType.Int8 && t.value.dataByteSize > 0
            && t.value.dataByteSize + t.value.paddingByteSize <= |t.rest|
            && Unicode.Decode(t.rest[..t.value.dataByteSize]) == Wrappers.Some(r.value)
            && r.rest == t.rest[t.value.dataByteSize + t.value.paddingByteSize..])
      && (t.Ok? && t.value.dataType == DataType.Int8 && t.value.dataByteSize > 0 ==>
            && (r.Ok? <==> t.value.dataByteSize + t.value.paddingByteSize <= |t.rest|
                           && Unicode.Decode(t.rest[..t.value.dataByteSize]).Some?)
            && (r.Err? ==> r.kind == Error))
  {
    var (i, tag) :- ParseDataElementTag(e, i);
    if !(tag.dataType == DataType.Int8 && tag.dataByteSize > 0) then Err(Failure)
    else
      var (i1, bytes) :- Take(tag.dataByteSize, i);
      // map_res turns a rejected conversion into a recoverable error
      match Unicode.Decode(bytes)
      case None => Err(Error)
      case Some(name) =>
        var (i2, _) :- Take(tag.paddingByteSize, i1);
        assert i2 == i[tag.dataByteSize + tag.paddingByteSize..];
        Ok(i2, name)
  }

  /**
   * The row-index and column-index subelements of a sparse matrix (the two
   * parsers are identical): an Int32 tag with a non-empty payload, one `i32`
   * per 4 bytes cast to `usize`, then the padding.
   */
  function ParseIndexArraySubelement(e: Endianness, i: seq<u8>): (r: IResult<seq<usize>>)
    ensures r.Ok? ==>
      var t := ParseDataElementTag(e, i);
      t.Ok? && t.value.dataByteSize / 4 * 4 <= |t.rest|
      && r.value == IndicesFromWords(Words(e, 4, t.value.dataByteSize / 4, t.rest))
    ensures var t := ParseDataElementTag(e, i);
      && (t.Err? ==> r == Err(t.kind))
      && (t.Ok? && !(t.value.dataType == DataType.Int32 && t.value.dataByteSize > 0) ==> r == Err(Failure))
      && (r.Ok? ==>
            && t.Ok? && t.value.dataType == DataType.Int32 && t.value.dataByteSize > 0
            && |r.value| == t.value.dataByteSize / 4
            && t.value.dataByteSize / 4 * 4 + t.value.paddingByteSize <= |t.rest|
            && r.rest == t.rest[t.value.dataByteSize / 4 * 4 + t.value.paddingByteSize..])
      && (t.Ok? && t.value.dataType == DataType.Int32 && t.value.dataByteSize > 0 ==>
            && (r.Ok? <==> t.value.dataByteSize / 4 * 4 + t.value.paddingByteSize <= |t.rest|)
            && (r.Err? ==> r.kind == Error))
  {
    var (i1, tag) :- ParseDataElementTag(e, i);
    if !(tag.dataType == DataType.Int32 && tag.dataByteSize > 0) then Err(Failure)
    else
      var (i2, index) :- ReadMany(e, 4, tag.dataByteSize / 4, i1);
      var (i3, _) :- Take(tag.paddingByteSize, i2);
      assert i3 == i1[tag.dataByteSize / 4 * 4 + tag.paddingByteSize..];
      Ok(i3, IndicesFromWords(index))
  }

  /** Words read as `i32` and cast to `usize`: a negative index wraps to a huge one. */
  function IndicesFromWords(ws: seq<nat>): (r: seq<usize>)
    ensures |r| == |ws|
  {
    AsU64s(AsI32s(ws))
  }

  /** Dimension `k` is the `k`-th 4-byte word after the tag, read in the file's byte order as an `i32`. */
  lemma DimensionValues(e: Endianness, i: seq<u8>, k: nat)
    requires ParseDimensionsArraySubelement(e, i).Ok?
    requires k < |ParseDimensionsArraySubelement(e, i).value|
    ensures var t := ParseDataElementTag(e, i);
      && t.Ok? && 4 * k + 4 <= |t.rest|
      && ParseDimensionsArraySubelement(e, i).value[k] == WrapSigned(UnsignedValue(e, t.rest[4 * k..4 * k + 4]), 32)
  {
    var t := ParseDataElementTag(e, i);
    var n := t.value.dataByteSize / 4;
    var ws := Words(e, 4, n, t.rest);
    assert ParseDimensionsArraySubelement(e, i).value == AsI32s(ws);
    WordsAt(e, 4, n, t.rest, k);
  }

  /** Index `k` is the `k`-th 4-byte word after the tag, read as an `i32` and cast to `usize`. */
  lemma IndexValues(e: Endianness, i: seq<u8>, k: nat)
    requires ParseIndexArraySubelement(e, i).Ok?
    requires k < |ParseIndexArraySubelement(e, i).value|
    ensures var t := ParseDataElementTag(e, i);
      && t.Ok? && 4 * k + 4 <= |t.rest|
      && ParseIndexArraySubelement(e, i).value[k]
         == WrapUnsigned(WrapSigned(UnsignedValue(e, t.rest[4 * k..4 * k + 4]), 32), 64)
  {
    var t := ParseDataElementTag(e, i);
    var n := t.value.dataByteSize / 4;
    var ws := Words(e, 4, n, t.rest);
    assert ParseIndexArraySubelement(e, i).value == IndicesFromWords(ws);
    WordsAt(e, 4, n, t.rest, k);
    IndexFromWordAt(ws, k);
  }

  /** The `i32 as usize` cast, element by element. */
  lemma IndexFromWordAt(ws: seq<nat>, k: nat)
    requires k < |ws|
    ensures IndicesFromWords(ws)[k] == WrapUnsigned(WrapSigned(ws[k], 32), 64)
  {
    var signed := AsI32s(ws);
    assert signed[k] == WrapSigned(ws[k], 32);
  }

  /**
   * The ten element readers: `count(p, byteSize / width)` with `p` the reader
   * of kind `t` (`i8`, `u16`, `f64`, ... in the file's byte order).
   */
  function ReadNumeric(e: Endianness, t: DataType, byteSize: nat, i: seq<u8>): (r: IResult<NumericData>)
    ensures !t.IsNumeric() ==> r == Err(Failure)
    ensures t.IsNumeric() ==> (r.Ok? <==> byteSize / t.Width() * t.Width() <= |i|)
    ensures r.Err? && t.IsNumeric() ==> r.kind == Error
    ensures r.Ok? ==>
      && t.IsNumeric() && r.value.Kind() == t
      && r.value.Len() == byteSize / t.Width()
      && r.rest == i[byteSize / t.Width() * t.Width()..]
      && r.value == FromWords(t, Words(e, t.Width(), byteSize / t.Width(), i))
  {
    if !t.IsNumeric() then Err(Failure)
    else
      var (i1, words) :- ReadMany(e, t.Width(), byteSize / t.Width(), i);
      Ok(i1, FromWords(t, words))
  }

  /** Words of the kind's width, each reinterpreted as a value of kind `t`. */
  function FromWords(t: DataType, words: seq<nat>): (d: NumericData)
    requires t.IsNumeric()
    requires forall k :: 0 <= k < |words| ==> words[k] < Pow256(t.Width())
    ensures d.Kind() == t && d.Len() == |words|
  {
    Pow256Values();
    match t
    case Int8 => NumericData.Int8(AsI8s(words))
    case UInt8 =>
      assert t.Width() == 1;
      NumericData.UInt8(words)
    case Int16 => NumericData.Int16(AsI16s(words))
    case UInt16 =>
      assert t.Width() == 2;
      NumericData.UInt16(words)
    case Int32 => NumericData.Int32(AsI32s(words))
    case UInt32 =>
      assert t.Width() == 4;
      NumericData.UInt32(words)
    case Int64 => NumericData.Int64(AsI64s(words))
    case UInt64 =>
      assert t.Width() == 8;
      NumericData.UInt64(words)
    case Single =>
      assert t.Width() == 4;
      NumericData.Single(seq(|words|, k requires 0 <= k < |words| => F32Bits(words[k])))
    case Double =>
      assert t.Width() == 8;
      NumericData.Double(seq(|words|, k requires 0 <= k < |words| => F64Bits(words[k])))
  }

  /** The bytes a numeric payload's whole elements occupy: its size rounded down to a multiple of the width. */
  function ElementBytes(tag: DataElementTag): nat
    requires tag.dataType.IsNumeric()
  {
    tag.dataByteSize / tag.dataType.Width() * tag.dataType.Width()
  }

  /** The elements a numeric tag announces, read from the start of `bytes` in byte order `e`. */
  function Elements(e: Endianness, tag: DataElementTag, bytes: seq<u8>): NumericData
    requires tag.dataType.IsNumeric() && ElementBytes(tag) <= |bytes|
  {
    var width := tag.dataType.Width();
    FromWords(tag.dataType, Words(e, width, tag.dataByteSize / width, bytes))
  }

  /**
   * `parse_numeric_subelement`: a tag of one of the ten numeric kinds, its
   * elements, then the padding. Payload bytes beyond the last whole element
   * are not consumed.
   */
  function ParseNumericSubelement(e: Endianness, i: seq<u8>): (r: IResult<NumericData>)
    ensures var t := ParseDataElementTag(e, i);
      && (t.Err? ==> r == Err(t.kind))
      && (t.Ok? && !t.value.dataType.IsNumeric() ==> r == Err(Failure))
      && (t.Ok? && t.value.dataType.IsNumeric() ==>
            && (r.Ok? <==> ElementBytes(t.value) + t.value.paddingByteSize <= |t.rest|)
            && (r.Err? ==> r.kind == Error))
      && (r.Ok? ==>
            && t.Ok? && t.value.dataType.IsNumeric()
            && r.value.Kind() == t.value.dataType
            && r.value.Len() == t.value.dataByteSize / t.value.dataType.Width()
            && ElementBytes(t.value) + t.value.paddingByteSize <= |t.rest|
            && r.rest == t.rest[ElementBytes(t.value) + t.value.paddingByteSize..])
    ensures r.Ok? ==>
      var t := ParseDataElementTag(e, i);
      t.Ok? && t.value.dataType.IsNumeric() && ElementBytes(t.value) <= |t.rest| && r.value == Elements(e, t.value, t.rest)
  {
    var (i1, tag) :- ParseDataElementTag(e, i);
    var (i2, numericData) :- ReadNumeric(e, tag.dataType, tag.dataByteSize, i1);
    var (i3, _) :- Take(tag.paddingByteSize, i2);
    assert i3 == i1[ElementBytes(tag) + tag.paddingByteSize..];
    Ok(i3, numericData)
  }

  // ---------------------------------------------------------------- matrices

  /** `dimensions.iter().product::<i32>()`, multiplying left to right in wrapping `i32` arithmetic. */
  function ProductI32(dims: seq<i32>): i32 {
    if dims == [] then 1 else WrapSigned(ProductI32(dims[..|dims| - 1]) * dims[|dims| - 1], 32)
  }

  /** The mathematical product of the dimensions. */
  function Product(dims: seq<int>): int {
    if dims == [] then 1 else Product(dims[..|dims| - 1]) * dims[|dims| - 1]
  }

  /** A numeric part passes the dense checks: `count` elements, of a raw kind the array kind admits. */
  predicate PartFits(p: NumericData, count: int, arrayType: DataType) {
    p.Len() == count && NumericDataTypesAreCompatible(arrayType, p.Kind())
  }

  /**
   * `parse_numeric_matrix_subelements`: dimensions, name, the real part and,
   * exactly when the complex flag is set, the imaginary part; each part must
   * hold as many elements as the dimensions' product and have a raw kind
   * compatible with the class, or the matrix is rejected fatally.
   */
  function ParseNumericMatrixSubelements(e: Endianness, flags: ArrayFlags, i: seq<u8>): (r: IResult<DataElement>)
    requires NumericDataType(flags.arrayClass).Some?
    ensures r.Ok? ==> r.value.NumericMatrix? && r.value.flags == flags && |r.value.dims| >= 2
    ensures r.Ok? ==>
      var expected := NumericDataType(flags.arrayClass).value;
      && r.value.realPart.Len() == WrapUnsigned(ProductI32(r.value.dims), 64)
      && NumericDataTypesAreCompatible(expected, r.value.realPart.Kind())
      && (r.value.imagPart.Some? <==> flags.complex)
      && (r.value.imagPart.Some? ==>
            && r.value.imagPart.value.Len() == r.value.realPart.Len()
            && NumericDataTypesAreCompatible(expected, r.value.imagPart.value.Kind()))
    ensures var d := ParseDimensionsArraySubelement(e, i);
      && (d.Err? ==> r == Err(d.kind))
      && (d.Ok? ==>
            var n := ParseArrayNameSubelement(e, d.rest);
            && (n.Err? ==> r == Err(n.kind))
            && (n.Ok? ==>
                  var re := ParseNumericSubelement(e, n.rest);
                  && (re.Err? ==> r == Err(re.kind))
                  && (re.Ok? ==> DenseOutcome(e, flags, d.value, n.value, re.value, re.rest, r))))
  {
    var (i, dimensions) :- ParseDimensionsArraySubelement(e, i);
    var (i, name) :- ParseArrayNameSubelement(e, i);
    var (i, realPart) :- ParseNumericSubelement(e, i);
    var numRequiredElements := WrapUnsigned(ProductI32(dimensions), 64);
    var arrayDataType := NumericDataType(flags.arrayClass).value;
    if !PartFits(realPart, numRequiredElements, arrayDataType) then Err(Failure)
    else
      var (i, imagPart) :-
        if flags.complex then
          (var (i, p) :- ParseNumericSubelement(e, i); Ok(i, Wrappers.Some(p)))
        else Ok(i, Wrappers.None);
      if imagPart.Some? && !PartFits(imagPart.value, numRequiredElements, arrayDataType) then Err(Failure)
      else Ok(i, NumericMatrix(flags, dimensions, name, realPart, imagPart))
  }

  /**
   * How a dense matrix whose dimensions, name and real part parsed ends: a
   * real part that fails the checks is fatal; otherwise, without the complex
   * flag the matrix is accepted, and with it the next subelement is the
   * imaginary part, whose parse error is passed on, whose failed check is
   * fatal, and which otherwise completes the accepted matrix.
   */
  predicate DenseOutcome(e: Endianness, flags: ArrayFlags, dims: seq<i32>, name: string,
                         realPart: NumericData, rest: seq<u8>, r: IResult<DataElement>)
    requires NumericDataType(flags.arrayClass).Some?
  {
    var count := WrapUnsigned(ProductI32(dims), 64);
    var arrayType := NumericDataType(flags.arrayClass).value;
    if !PartFits(realPart, count, arrayType) then r == Err(Failure)
    else if !flags.complex then r == Ok(rest, NumericMatrix(flags, dims, name, realPart, Wrappers.None))
    else
      var im := ParseNumericSubelement(e, rest);
      if im.Err? then r == Err(im.kind)
      else if !PartFits(im.value, count, arrayType) then r == Err(Failure)
      else r == Ok(im.rest, NumericMatrix(flags, dims, name, realPart, Wrappers.Some(im.value)))
  }

  /**
   * `parse_sparse_matrix_subelements`: dimensions, name, row indices, column
   * shifts, the real part and, when complex, the imaginary part. Only the
   * lengths of the numeric parts are checked (against `nzmax`), fatally; the
   * raw kind and the index vectors are taken as read.
   */
  function ParseSparseMatrixSubelements(e: Endianness, flags: ArrayFlags, i: seq<u8>): (r: IResult<DataElement>)
    ensures r.Ok? ==> r.value.SparseMatrix? && r.value.flags == flags && |r.value.dims| >= 2
    ensures r.Ok? ==>
      && r.value.realPart.Len() == flags.nzmax
      && (r.value.imagPart.Some? <==> flags.complex)
      && (r.value.imagPart.Some? ==> r.value.imagPart.value.Len() == flags.nzmax)
    ensures var d := ParseDimensionsArraySubelement(e, i);
      && (d.Err? ==> r == Err(d.kind))
      && (d.Ok? ==>
            var n := ParseArrayNameSubelement(e, d.rest);
            && (n.Err? ==> r == Err(n.kind))
            && (n.Ok? ==>
                  var rows := ParseIndexArraySubelement(e, n.rest);
                  && (rows.Err? ==> r == Err(rows.kind))
                  && (rows.Ok? ==>
                        var cols := ParseIndexArraySubelement(e, rows.rest);
                        && (cols.Err? ==> r == Err(cols.kind))
                        && (cols.Ok? ==>
                              var re := ParseNumericSubelement(e, cols.rest);
                              && (re.Err? ==> r == Err(re.kind))
                              && (re.Ok? ==> SparseOutcome(e, flags, SparseMatrix(flags, d.value, n.value, rows.value, cols.value, re.value, Wrappers.None), re.rest, r))))))
  {
    var (i, dimensions) :- ParseDimensionsArraySubelement(e, i);
    var (i, name) :- ParseArrayNameSubelement(e, i);
    var (i, rowIndex) :- ParseIndexArraySubelement(e, i);
    var (i, columnIndex) :- ParseIndexArraySubelement(e, i);
    var (i, realPart) :- ParseNumericSubelement(e, i);
    if realPart.Len() != flags.nzmax then Err(Failure)
    else
      var (i, imagPart) :-
        if flags.complex then
          (var (i, p) :- ParseNumericSubelement(e, i); Ok(i, Wrappers.Some(p)))
        else Ok(i, Wrappers.None);
      if imagPart.Some? && imagPart.value.Len() != flags.nzmax then Err(Failure)
      else Ok(i, SparseMatrix(flags, dimensions, name, rowIndex, columnIndex, realPart, imagPart))
  }

  /**
   * How a sparse matrix whose parts up to the real part parsed (`m`, still
   * without an imaginary part) ends: a real part without `nzmax` elements is
   * fatal; otherwise, without the complex flag the matrix is accepted, and
   * with it the next subelement is the imaginary part, whose parse error is
   * passed on, whose wrong length is fatal, and which otherwise completes it.
   */
  predicate SparseOutcome(e: Endianness, flags: ArrayFlags, m: DataElement, rest: seq<u8>, r: IResult<DataElement>)
    requires m.SparseMatrix?
  {
    if m.realPart.Len() != flags.nzmax then r == Err(Failure)
    else if !flags.complex then r == Ok(rest, m)
    else
      var im := ParseNumericSubelement(e, rest);
      if im.Err? then r == Err(im.kind)
      else if im.value.Len() != flags.nzmax then r == Err(Failure)
      else r == Ok(im.rest, m.(imagPart := Wrappers.Some(im.value)))
  }

  /**
   * What the parser guarantees about every element it yields: a dense matrix
   * has a numeric class, parts of the element count its dimensions give and
   * of kinds its class admits; a sparse matrix has parts of `nzmax`
   * elements; in both an imaginary part is present exactly when the complex
   * flag is set.
   */
  predicate WellFormed(d: DataElement) {
    match d
    case NumericMatrix(flags, dims, _, realPart, imagPart) =>
      && NumericDataType(flags.arrayClass).Some?
      && |dims| >= 2
      && PartFits(realPart, WrapUnsigned(ProductI32(dims), 64), NumericDataType(flags.arrayClass).value)
      && (imagPart.Some? <==> flags.complex)
      && (imagPart.Some? ==> PartFits(imagPart.value, WrapUnsigned(ProductI32(dims), 64), NumericDataType(flags.arrayClass).value))
    case SparseMatrix(flags, dims, _, _, _, realPart, imagPart) =>
      && flags.arrayClass == Sparse
      && |dims| >= 2
      && realPart.Len() == flags.nzmax
      && (imagPart.Some? <==> flags.complex)
      && (imagPart.Some? ==> imagPart.value.Len() == flags.nzmax)
    case Unsupported => true
  }

  /** `parse_unsupported_data_element`: the whole payload is skipped. */
  function ParseUnsupportedDataElement(i: seq<u8>): IResult<DataElement> {
    Ok([], Unsupported)
  }

  /**
   * `parse_matrix_data_element`: the array flags decide the route. Cell,
   * Struct, Object and Char arrays are skipped as Unsupported, Sparse arrays
   * go to the sparse parser and every other class to the dense parser.
   */
  function ParseMatrixDataElement(e: Endianness, i: seq<u8>): (r: IResult<DataElement>)
    ensures var f := ParseArrayFlagsSubelement(e, i);
      && (f.Err? ==> r == Err(f.kind))
      && (f.Ok? && f.value.arrayClass in {Cell, Struct, Object, Char} ==> r == Ok([], Unsupported))
      && (f.Ok? && f.value.arrayClass == Sparse ==> r == ParseSparseMatrixSubelements(e, f.value, f.rest))
      && (f.Ok? && NumericDataType(f.value.arrayClass).Some? ==> r == ParseNumericMatrixSubelements(e, f.value, f.rest))
      && (r.Ok? && !r.value.Unsupported? ==> f.Ok? && r.value.flags == f.value)
    ensures r.Ok? ==> WellFormed(r.value)
  {
    var (i, flags) :- ParseArrayFlagsSubelement(e, i);
    match flags.arrayClass
    case Cell | Struct | Object | Char => ParseUnsupportedDataElement(i)
    case Sparse => ParseSparseMatrixSubelements(e, flags, i)
    case _ => ParseNumericMatrixSubelements(e, flags, i)
  }

  // ---------------------------------------------------------------- dispatch

  /**
   * `parse_next_data_element`: frame one element, hand exactly its payload
   * to the parser its kind selects, then skip its padding. A compressed
   * element has no padding; padding missing at the end of the input is
   * tolerated. A payload longer than the remaining input is a recoverable
   * error.
   */
  function ParseNextDataElement(e: Endianness, inflate: Inflate, depth: nat, i: seq<u8>): (r: IResult<DataElement>)
    ensures r.Ok? ==> |r.rest| + 4 <= |i| && r.rest == i[|i| - |r.rest|..]
    ensures r.Ok? ==> WellFormed(r.value)
    decreases depth, 3
  {
    var (i1, tag) :- ParseDataElementTag(e, i);
    if |i1| < tag.dataByteSize then Err(Error)
    else
      var payload := i1[..tag.dataByteSize];
      var after := i1[tag.dataByteSize..];
      var element :- ParsePayload(e, inflate, depth, tag.dataType, payload);
      var numPaddingBytes := if tag.dataType == Compressed then 0 else tag.paddingByteSize;
      // opt(complete(take(n))): padding that is not there is not consumed
      var rest := if numPaddingBytes <= |after| then after[numPaddingBytes..] else after;
      Ok(rest, element.1)
  }

  /**
   * How one element is framed: a tag error is passed on, a payload longer
   * than the input is a recoverable error, and after the payload the padding
   * (none after a compressed element) is skipped only when it is present.
   */
  lemma NextElementFraming(e: Endianness, inflate: Inflate, depth: nat, i: seq<u8>)
    ensures var r := ParseNextDataElement(e, inflate, depth, i);
      var t := ParseDataElementTag(e, i);
      && (t.Err? ==> r == Err(t.kind))
      && (t.Ok? && |t.rest| < t.value.dataByteSize ==> r == Err(Error))
      && (r.Ok? ==>
            var after := t.rest[t.value.dataByteSize..];
            var padding := if t.value.dataType == Compressed then 0 else t.value.paddingByteSize;
            r.rest == if padding <= |after| then after[padding..] else after)
  {
  }

  /** Elements of every kind other than Matrix and Compressed are skipped whole. */
  lemma OtherKindsAreSkipped(e: Endianness, inflate: Inflate, depth: nat, i: seq<u8>)
    ensures var r := ParseNextDataElement(e, inflate, depth, i);
      var t := ParseDataElementTag(e, i);
      t.Ok? && t.value.dataByteSize <= |t.rest| && t.value.dataType != Matrix && t.value.dataType != Compressed ==>
        r.Ok? && r.value.Unsupported?
  {
    var t := ParseDataElementTag(e, i);
    if t.Ok? && t.value.dataByteSize <= |t.rest| && t.value.dataType != Matrix && t.value.dataType != Compressed {
      var payload := t.rest[..t.value.dataByteSize];
      assert ParsePayload(e, inflate, depth, t.value.dataType, payload) == Ok([], Unsupported);
    }
  }

  /** A Matrix element is parsed from exactly its payload: whatever follows it cannot change the result. */
  lemma MatrixElementIsParsedFromItsPayload(e: Endianness, inflate: Inflate, depth: nat, i: seq<u8>)
    ensures var r := ParseNextDataElement(e, inflate, depth, i);
      var t := ParseDataElementTag(e, i);
      t.Ok? && t.value.dataByteSize <= |t.rest| && t.value.dataType == Matrix ==>
        var m := ParseMatrixDataElement(e, t.rest[..t.value.dataByteSize]);
        if m.Ok? then r.Ok? && r.value == m.value else r == Err(m.kind)
  {
    var t := ParseDataElementTag(e, i);
    if t.Ok? && t.value.dataByteSize <= |t.rest| && t.value.dataType == Matrix {
      var payload := t.rest[..t.value.dataByteSize];
      assert ParsePayload(e, inflate, depth, Matrix, payload) == ParseMatrixDataElement(e, payload);
    }
  }

  /** A Compressed element is the compressed-element parser applied to exactly its payload, with no padding skipped. */
  lemma CompressedTagIsInflated(e: Endianness, inflate: Inflate, depth: nat, i: seq<u8>)
    ensures var r := ParseNextDataElement(e, inflate, depth, i);
      var t := ParseDataElementTag(e, i);
      t.Ok? && t.value.dataByteSize <= |t.rest| && t.value.dataType == Compressed ==>
        var c := ParseCompressedDataElement(e, inflate, depth, t.rest[..t.value.dataByteSize]);
        if c.Ok? then r == Ok(t.rest[t.value.dataByteSize..], c.value) else r == Err(c.kind)
  {
    var t := ParseDataElementTag(e, i);
    if t.Ok? && t.value.dataByteSize <= |t.rest| && t.value.dataType == Compressed {
      var payload := t.rest[..t.value.dataByteSize];
      assert ParsePayload(e, inflate, depth, Compressed, payload) == ParseCompressedDataElement(e, inflate, depth, payload);
    }
  }

  /** The parser the element kind selects in `parse_next_data_element`, applied to exactly the payload. */
  function ParsePayload(e: Endianness, inflate: Inflate, depth: nat, t: DataType, payload: seq<u8>): (r: IResult<DataElement>)
    ensures r.Ok? ==> WellFormed(r.value)
    decreases depth, 2
  {
    match t
    case Matrix => ParseMatrixDataElement(e, payload)
    case Compressed => ParseCompressedDataElement(e, inflate, depth, payload)
    case _ => ParseUnsupportedDataElement(payload)
  }

  /**
   * `parse_compressed_data_element`: inflate the payload and parse exactly
   * one element from the result; whatever follows that element is ignored.
   */
  function ParseCompressedDataElement(e: Endianness, inflate: Inflate, depth: nat, i: seq<u8>): (r: IResult<DataElement>)
    ensures inflate(i).None? ==> r == Err(Failure)
    ensures inflate(i).Some? && depth == 0 ==> r == Err(TooDeep)
    ensures r.Ok? ==> WellFormed(r.value)
    decreases depth, 1
  {
    match inflate(i)
    case None => Err(Failure)
    case Some(buf) => ParseInflated(e, inflate, depth, buf)
  }

  /**
   * The first element of the inflated bytes, parsed one nesting level down;
   * whatever follows it is dropped.
   */
  function ParseInflated(e: Endianness, inflate: Inflate, depth: nat, buf: seq<u8>): (r: IResult<DataElement>)
    ensures r.Ok? ==> WellFormed(r.value)
    decreases depth, 0
  {
    if depth == 0 then Err(TooDeep)
    else WithoutRest(ParseNextDataElement(e, inflate, depth - 1, buf))
  }

  /** A parse result with the remaining input dropped. */
  function WithoutRest(n: IResult<DataElement>): (r: IResult<DataElement>)
    ensures n.Err? ==> r == Err(n.kind)
    ensures n.Ok? ==> r == Ok([], n.value)
  {
    var (_, dataElement) :- n;
    Ok([], dataElement)
  }

  /**
   * A compressed element stands for the first element of its inflated
   * payload; whatever follows that element in the inflated bytes is ignored.
   */
  lemma CompressedElementIsFirstInflated(e: Endianness, inflate: Inflate, depth: nat, i: seq<u8>)
    requires inflate(i).Some? && depth > 0
    ensures var r := ParseCompressedDataElement(e, inflate, depth, i);
      var n := ParseNextDataElement(e, inflate, depth - 1, inflate(i).value);
      if n.Ok? then r == Ok([], n.value) else r == Err(n.kind)
  {
  }

  /**
   * `many0(complete(parse_next_data_element))`: elements in file order until
   * the next one fails with a recoverable error, which ends the sequence
   * without failing; a fatal error fails the whole sequence.
   */
  function ParseDataElements(e: Endianness, inflate: Inflate, depth: nat, i: seq<u8>): (r: IResult<seq<DataElement>>)
    ensures r.Err? ==> r.kind != Error
    ensures r.Ok? ==> |r.rest| <= |i| && r.rest == i[|i| - |r.rest|..]
    ensures r.Ok? ==> ParseNextDataElement(e, inflate, depth, r.rest) == Err(Error)
    ensures r.Ok? ==> AllWellFormed(r.value)
    decreases |i|
  {
    var next := ParseNextDataElement(e, inflate, depth, i);
    if next.Err? then
      // many0 ends at the first recoverable error and passes on any other
      if next.kind == Error then Ok(i, []) else Err(next.kind)
    else
      var (i2, elements) :- ParseDataElements(e, inflate, depth, next.rest);
      Ok(i2, [next.value] + elements)
  }

  /** Every element of `es` is well formed. */
  predicate AllWellFormed(es: seq<DataElement>) {
    es != [] ==> WellFormed(es[0]) && AllWellFormed(es[1..])
  }

  /** AllWellFormed holds element by element. */
  lemma {:induction false} AllWellFormedAt(es: seq<DataElement>, k: nat)
    requires AllWellFormed(es) && k < |es|
    ensures WellFormed(es[k])
  {
    if k > 0 {
      AllWellFormedAt(es[1..], k - 1);
    }
  }

  /**
   * The element sequence unfolds one element at a time: a recoverable error
   * ends it with no elements and nothing consumed, any other error is passed
   * on, and a parsed element is followed by the sequence parsed from where
   * that element ended.
   */
  lemma ElementSequenceUnfolds(e: Endianness, inflate: Inflate, depth: nat, i: seq<u8>)
    ensures var r := ParseDataElements(e, inflate, depth, i);
      var next := ParseNextDataElement(e, inflate, depth, i);
      && (next.Err? ==> r == if next.kind == Error then Ok(i, []) else Err(next.kind))
      && (next.Ok? ==>
            var tail := ParseDataElements(e, inflate, depth, next.rest);
            && (tail.Err? ==> r == Err(tail.kind))
            && (tail.Ok? ==> r == Ok(tail.rest, [next.value] + tail.value)))
  {
  }

  /**
   * `parse_all`: the header, then every data element in the byte order the
   * header announces.
   */
  function ParseAll(inflate: Inflate, depth: nat, i: seq<u8>): (r: IResult<ParseResult>)
    ensures var h := ParseHeader(i);
      && (h.Err? ==> r == Err(h.kind))
      && (r.Ok? ==> h.Ok? && r.value.header == h.value)
      && (r.Err? && r.kind == Error ==> h.Err?)
      && (h.Ok? ==>
            var es := ParseDataElements(HeaderEndianness(h.value), inflate, depth, h.rest);
            && (es.Err? ==> r == Err(es.kind))
            && (es.Ok? ==> r == Ok(es.rest, ParseResult(h.value, es.value))))
    ensures r.Ok? ==> AllWellFormed(r.value.dataElements)
  {
    var (i, header) :- ParseHeader(i);
    var endianness := HeaderEndianness(header);
    var (i, dataElements) :- ParseDataElements(endianness, inflate, depth, i);
    Ok(i, ParseResult(header, dataElements))
  }

  // ------------------------------------------------------------------ lemmas

  /** The wrapping product is the true product reduced to `i32`. */
  lemma {:induction false} ProductI32IsWrappedProduct(dims: seq<i32>)
    ensures ProductI32(dims) == WrapSigned(Product(dims), 32)
  {
    if dims != [] {
      var init := dims[..|dims| - 1];
      var last: int := dims[|dims| - 1];
      ProductI32IsWrappedProduct(init);
      var a := ProductI32(init);
      var b := Product(init);
      assert (a - b) % 0x1_0000_0000 == 0;
      CongruentProducts(a, b, last);
      CongruentWrapSigned32(a * last, b * last);
    }
  }

  lemma CongruentProducts(a: int, b: int, x: int)
    requires (a - b) % 0x1_0000_0000 == 0
    ensures (a * x - b * x) % 0x1_0000_0000 == 0
  {
    var q := (a - b) / 0x1_0000_0000;
    assert a - b == q * 0x1_0000_0000;
    assert a * x - b * x == (a - b) * x;
    assert (a - b) * x == (q * x) * 0x1_0000_0000;
  }

  lemma CongruentWrapSigned32(u: int, v: int)
    requires (u - v) % 0x1_0000_0000 == 0
    ensures WrapSigned(u, 32) == WrapSigned(v, 32)
  {
    assert Modulus(32) == 0x1_0000_0000;
    assert u % 0x1_0000_0000 == v % 0x1_0000_0000;
  }

  /** Dimensions [65536, 65536]: the wrapping product is 0, so such a matrix is accepted with no elements. */
  lemma WrappedProductExample()
    ensures Product([0x1_0000, 0x1_0000]) == 0x1_0000_0000
    ensures ProductI32([0x1_0000, 0x1_0000]) == 0
  {
    var dims: seq<i32> := [0x1_0000, 0x1_0000];
    assert dims[..1] == [0x1_0000];
    assert dims[..1][..0] == [];
  }

  /**
   * The element count a dense matrix is checked against: the product of its
   * dimensions whenever that product fits in `i32` and is not negative.
   */
  lemma ElementCountIsProduct(dims: seq<i32>)
    ensures 0 <= Product(dims) < 0x8000_0000 ==> WrapUnsigned(ProductI32(dims), 64) == Product(dims)
  {
    ProductI32IsWrappedProduct(dims);
    assert Modulus(32) == 0x1_0000_0000 && Modulus(64) == 0x1_0000_0000_0000_0000;
  }

  /** A payload longer than what remains ends the element sequence without an error and without that element. */
  lemma TruncatedElementEndsSequence(e: Endianness, inflate: Inflate, depth: nat, i: seq<u8>)
    requires ParseDataElementTag(e, i).Ok?
    requires |ParseDataElementTag(e, i).rest| < ParseDataElementTag(e, i).value.dataByteSize
    ensures ParseDataElements(e, inflate, depth, i) == Ok(i, [])
  {
    NextElementFraming(e, inflate, depth, i);
  }

  /**
   * Raising the nesting bound changes nothing for an element that did not
   * run into it: the bound only ever cuts parsing short with TooDeep.
   */
  lemma {:induction false} NestingIsMonotone(e: Endianness, inflate: Inflate, depth: nat, i: seq<u8>)
    requires ParseNextDataElement(e, inflate, depth, i) != Err(TooDeep)
    ensures ParseNextDataElement(e, inflate, depth + 1, i) == ParseNextDataElement(e, inflate, depth, i)
    decreases depth, 4
  {
    var t := ParseDataElementTag(e, i);
    if t.Ok? && t.value.dataByteSize <= |t.rest| {
      PayloadNestingIsMonotone(e, inflate, depth, t.value.dataType, t.rest[..t.value.dataByteSize]);
    }
  }

  lemma {:induction false} PayloadNestingIsMonotone(e: Endianness, inflate: Inflate, depth: nat, t: DataType, payload: seq<u8>)
    requires ParsePayload(e, inflate, depth, t, payload) != Err(TooDeep)
    ensures ParsePayload(e, inflate, depth + 1, t, payload) == ParsePayload(e, inflate, depth, t, payload)
    decreases depth, 3
  {
    if t == Compressed {
      CompressedNestingIsMonotone(e, inflate, depth, payload);
    } else {
      OnlyCompressedPayloadsSeeDepth(e, inflate, depth, t, payload);
    }
  }

  lemma OnlyCompressedPayloadsSeeDepth(e: Endianness, inflate: Inflate, depth: nat, t: DataType, payload: seq<u8>)
    requires t != Compressed
    ensures ParsePayload(e, inflate, depth + 1, t, payload) == ParsePayload(e, inflate, depth, t, payload)
  {
  }

  lemma {:induction false} CompressedNestingIsMonotone(e: Endianness, inflate: Inflate, depth: nat, payload: seq<u8>)
    requires ParseCompressedDataElement(e, inflate, depth, payload) != Err(TooDeep)
    ensures ParseCompressedDataElement(e, inflate, depth + 1, payload) == ParseCompressedDataElement(e, inflate, depth, payload)
    decreases depth, 2
  {
    if inflate(payload).Some? && depth > 0 {
      InflatedNestingIsMonotone(e, inflate, depth - 1, inflate(payload).value);
    }
  }

  /** Inflated bytes read under a positive bound, d + 1, parse the same under d + 2 unless the bound cut them short. */
  lemma {:induction false} InflatedNestingIsMonotone(e: Endianness, inflate: Inflate, d: nat, buf: seq<u8>)
    requires ParseInflated(e, inflate, d + 1, buf) != Err(TooDeep)
    ensures ParseInflated(e, inflate, d + 2, buf) == ParseInflated(e, inflate, d + 1, buf)
    decreases d + 1, 0
  {
    NestingIsMonotone(e, inflate, d, buf);
  }

  /** The same holds for the whole element sequence. */
  lemma {:induction false} SequenceNestingIsMonotone(e: Endianness, inflate: Inflate, depth: nat, i: seq<u8>)
    requires ParseDataElements(e, inflate, depth, i) != Err(TooDeep)
    ensures ParseDataElements(e, inflate, depth + 1, i) == ParseDataElements(e, inflate, depth, i)
    decreases |i|
  {
    var next := ParseNextDataElement(e, inflate, depth, i);
    if next != Err(TooDeep) {
      NestingIsMonotone(e, inflate, depth, i);
      if next.Ok? {
        SequenceNestingIsMonotone(e, inflate, depth, next.rest);
      }
    }
  }
}
