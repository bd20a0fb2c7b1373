/**
 * The values the MAT-file parser produces (src/parse.rs): element kinds and
 * array classes with their wire codes, numeric payloads, array flags, data
 * elements, and the two classification tables the parser consults.
 */
module ParseTypes {
  import opened Ints
  import opened Wrappers

  /** The element-kind code of a data-element tag. */
  datatype DataType =
    | Int8 | UInt8 | Int16 | UInt16 | Int32 | UInt32 | Single | Double | Int64 | UInt64
    | Matrix | Compressed | Utf8 | Utf16 | Utf32
  {
    function Code(): u32 {
      match this
      case Int8 => 1
      case UInt8 => 2
      case Int16 => 3
      case UInt16 => 4
      case Int32 => 5
      case UInt32 => 6
      case Single => 7
      case Double => 9
      case Int64 => 12
      case UInt64 => 13
      case Matrix => 14
      case Compressed => 15
      case Utf8 => 16
      case Utf16 => 17
      case Utf32 => 18
    }

    /** One of the ten fixed-width numeric kinds. */
    predicate IsNumeric() {
      !(Matrix? || Compressed? || Utf8? || Utf16? || Utf32?)
    }

    /** Bytes per element of a numeric kind. */
    function Width(): (w: nat)
      requires IsNumeric()
      ensures w == 1 <==> Int8? || UInt8?
      ensures w == 2 <==> Int16? || UInt16?
      ensures w == 4 <==> Int32? || UInt32? || Single?
      ensures w == 8 <==> Int64? || UInt64? || Double?
    {
      match this
      case Int8 | UInt8 => 1
      case Int16 | UInt16 => 2
      case Int32 | UInt32 | Single => 4
      case Int64 | UInt64 | Double => 8
    }
  }

  /** `DataType::from_u32`: the kind whose code is `c`, or None for an unknown code. */
  function DataTypeFromU32(c: int): (r: Option<DataType>)
    ensures r.Some? ==> r.value.Code() == c
    ensures r.None? ==> c !in {1, 2, 3, 4, 5, 6, 7, 9, 12, 13, 14, 15, 16, 17, 18}
  {
    if c == 1 then Some(DataType.Int8)
    else if c == 2 then Some(DataType.UInt8)
    else if c == 3 then Some(DataType.Int16)
    else if c == 4 then Some(DataType.UInt16)
    else if c == 5 then Some(DataType.Int32)
    else if c == 6 then Some(DataType.UInt32)
    else if c == 7 then Some(DataType.Single)
    else if c == 9 then Some(DataType.Double)
    else if c == 12 then Some(DataType.Int64)
    else if c == 13 then Some(DataType.UInt64)
    else if c == 14 then Some(Matrix)
    else if c == 15 then Some(Compressed)
    else if c == 16 then Some(Utf8)
    else if c == 17 then Some(Utf16)
    else if c == 18 then Some(Utf32)
    else None
  }

  /** Every kind is recognised from its own code, so the codes are distinct. */
  lemma DataTypeCodeRoundTrip(t: DataType)
    ensures DataTypeFromU32(t.Code() as int) == Some(t)
  {
  }

  /** The class of an array, carried in the low byte of its array-flags word. */
  datatype ArrayType =
    | Cell | Struct | Object | Char | Sparse | Double | Single
    | Int8 | UInt8 | Int16 | UInt16 | Int32 | UInt32 | Int64 | UInt64
  {
    function Code(): u8 {
      match this
      case Cell => 1
      case Struct => 2
      case Object => 3
      case Char => 4
      case Sparse => 5
      case Double => 6
      case Single => 7
      case Int8 => 8
      case UInt8 => 9
      case Int16 => 10
      case UInt16 => 11
      case Int32 => 12
      case UInt32 => 13
      case Int64 => 14
      case UInt64 => 15
    }
  }

  /** `ArrayType::from_u8`: codes 1 through 15 name a class, every other byte none. */
  function ArrayTypeFromU8(c: int): (r: Option<ArrayType>)
    ensures r.Some? <==> 1 <= c <= 15
    ensures r.Some? ==> r.value.Code() == c
  {
    if c == 1 then Some(Cell)
    else if c == 2 then Some(Struct)
    else if c == 3 then Some(Object)
    else if c == 4 then Some(Char)
    else if c == 5 then Some(Sparse)
    else if c == 6 then Some(ArrayType.Double)
    else if c == 7 then Some(ArrayType.Single)
    else if c == 8 then Some(ArrayType.Int8)
    else if c == 9 then Some(ArrayType.UInt8)
    else if c == 10 then Some(ArrayType.Int16)
    else if c == 11 then Some(ArrayType.UInt16)
    else if c == 12 then Some(ArrayType.Int32)
    else if c == 13 then Some(ArrayType.UInt32)
    else if c == 14 then Some(ArrayType.Int64)
    else if c == 15 then Some(ArrayType.UInt64)
    else None
  }

  /**
   * `ArrayType::numeric_data_type`: the raw kind the parser associates with a
   * numeric class. Cell, Struct, Object, Char and Sparse have none. The Int32
   * class is mapped to the UInt32 kind, not to Int32.
   */
  function NumericDataType(c: ArrayType): (r: Option<DataType>)
    ensures r.Some? <==> !(c.Cell? || c.Struct? || c.Object? || c.Char? || c.Sparse?)
    ensures r.Some? ==> r.value.IsNumeric() && r.value != DataType.Int32
  {
    match c
    case Double => Some(DataType.Double)
    case Single => Some(DataType.Single)
    case Int8 => Some(DataType.Int8)
    case UInt8 => Some(DataType.UInt8)
    case Int16 => Some(DataType.Int16)
    case UInt16 => Some(DataType.UInt16)
    case Int32 => Some(DataType.UInt32)
    case UInt32 => Some(DataType.UInt32)
    case Int64 => Some(DataType.Int64)
    case UInt64 => Some(DataType.UInt64)
    case _ => None
  }

  /**
   * `numeric_data_types_are_compatible`: whether a payload of raw kind
   * `subelementType` may be stored in an array whose kind is `arrayType`.
   */
  function NumericDataTypesAreCompatible(arrayType: DataType, subelementType: DataType): bool {
    match arrayType
    case Int8 => subelementType == DataType.Int8
    case UInt8 => subelementType == DataType.UInt8
    case Int16 => subelementType in {DataType.UInt8, DataType.Int16}
    case UInt16 => subelementType in {DataType.UInt8, DataType.UInt16}
    case Int32 => subelementType in {DataType.UInt8, DataType.Int16, DataType.UInt16, DataType.Int32}
    case UInt32 => subelementType in {DataType.UInt8, DataType.Int16, DataType.UInt16, DataType.UInt32}
    case Int64 => subelementType in {DataType.UInt8, DataType.Int16, DataType.UInt16, DataType.Int32, DataType.Int64}
    case UInt64 => subelementType in {DataType.UInt8, DataType.Int16, DataType.UInt16, DataType.Int32, DataType.UInt64}
    case Single => subelementType in {DataType.UInt8, DataType.Int16, DataType.UInt16, DataType.Int32, DataType.Single}
    case Double => subelementType in {DataType.UInt8, DataType.Int16, DataType.UInt16, DataType.Int32, DataType.Double}
    case _ => false
  }

  /**
   * The compatibility table only ever admits numeric kinds, admits every
   * numeric kind for itself, and never admits a raw kind wider than the
   * array's own kind.
   */
  lemma CompatibilityIsWidening(arrayType: DataType, subelementType: DataType)
    ensures arrayType.IsNumeric() ==> NumericDataTypesAreCompatible(arrayType, arrayType)
    ensures NumericDataTypesAreCompatible(arrayType, subelementType) ==>
      && arrayType.IsNumeric() && subelementType.IsNumeric()
      && subelementType.Width() <= arrayType.Width()
  {
  }

  /**
   * A 32-bit IEEE-754 value, kept abstract: the bit pattern read from a file,
   * or the value an integer is converted to by `as f32`.
   */
  datatype F32 = F32Bits(bits: u32) | F32FromInt(n: int)

  /** A 64-bit IEEE-754 value, kept abstract like F32. */
  datatype F64 = F64Bits(bits: u64) | F64FromInt(n: int)

  /** One element of a numeric vector, whatever its kind. */
  datatype Scalar = IntValue(n: int) | SingleValue(f: F32) | DoubleValue(d: F64)

  /** A decoded numeric vector: one variant per raw kind. */
  datatype NumericData =
    | Int8(seq<i8>) | UInt8(seq<u8>) | Int16(seq<i16>) | UInt16(seq<u16>)
    | Int32(seq<i32>) | UInt32(seq<u32>) | Int64(seq<i64>) | UInt64(seq<u64>)
    | Single(seq<F32>) | Double(seq<F64>)
  {
    /** `NumericData::len` */
    function Len(): nat {
      match this
      case Int8(v) => |v|
      case UInt8(v) => |v|
      case Int16(v) => |v|
      case UInt16(v) => |v|
      case Int32(v) => |v|
      case UInt32(v) => |v|
      case Int64(v) => |v|
      case UInt64(v) => |v|
      case Single(v) => |v|
      case Double(v) => |v|
    }

    /** `NumericData::data_type`: the raw kind, always one of the ten numeric kinds. */
    function Kind(): (t: DataType)
      ensures t.IsNumeric()
    {
      match this
      case Int8(_) => DataType.Int8
      case UInt8(_) => DataType.UInt8
      case Int16(_) => DataType.Int16
      case UInt16(_) => DataType.UInt16
      case Int32(_) => DataType.Int32
      case UInt32(_) => DataType.UInt32
      case Int64(_) => DataType.Int64
      case UInt64(_) => DataType.UInt64
      case Single(_) => DataType.Single
      case Double(_) => DataType.Double
    }

    /** Element `k`, for stating element-wise properties uniformly over the kinds. */
    function At(k: nat): Scalar
      requires k < Len()
    {
      match this
      case Int8(v) => IntValue(v[k])
      case UInt8(v) => IntValue(v[k])
      case Int16(v) => IntValue(v[k])
      case UInt16(v) => IntValue(v[k])
      case Int32(v) => IntValue(v[k])
      case UInt32(v) => IntValue(v[k])
      case Int64(v) => IntValue(v[k])
      case UInt64(v) => IntValue(v[k])
      case Single(v) => SingleValue(v[k])
      case Double(v) => DoubleValue(v[k])
    }
  }

  datatype ArrayFlags = ArrayFlags(complex: bool, global: bool, logical: bool, arrayClass: ArrayType, nzmax: usize)

  datatype DataElementTag = DataElementTag(dataType: DataType, dataByteSize: u32, paddingByteSize: u32)

  datatype Header = Header(text: string, isLittleEndian: bool)

  datatype DataElement =
    | NumericMatrix(flags: ArrayFlags, dims: seq<i32>, name: string, realPart: NumericData, imagPart: Option<NumericData>)
    | SparseMatrix(flags: ArrayFlags, dims: seq<i32>, name: string,
                   rowIndex: seq<usize>, columnShift: seq<usize>, realPart: NumericData, imagPart: Option<NumericData>)
    | Unsupported

  datatype ParseResult = ParseResult(header: Header, dataElements: seq<DataElement>)
}
