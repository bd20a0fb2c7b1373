/**
 * The public layer of the decoder (src/lib.rs): the raw numeric payloads the
 * parser produces are converted to the kind their array class declares, real
 * and imaginary parts are paired into one typed value, and the dense numeric
 * matrices of a file are collected in file order and can be looked up by name.
 */
module Lib {
  import opened Ints
  import opened Wrappers
  import P = ParseTypes
  import Parse

  /** The errors of the public interface; an I/O error while reading is not part of this model. */
  datatype Error = ParseError | ConversionError | InternalError

  // ------------------------------------------------------------ conversion

  /**
   * The raw kinds `try_convert_number_format` accepts for each array class:
   * unsigned bytes and 16-bit integers widen into every wider class, 32-bit
   * signed integers into the signed and the 64-bit and floating classes, and
   * every numeric class accepts its own kind.
   */
  predicate AllowedSource(c: P.ArrayType, t: P.DataType) {
    match c
    case Double => t in {P.DataType.UInt8, P.DataType.Int16, P.DataType.UInt16, P.DataType.Int32, P.DataType.Double}
    case Single => t in {P.DataType.UInt8, P.DataType.Int16, P.DataType.UInt16, P.DataType.Int32, P.DataType.Single}
    case UInt64 => t in {P.DataType.UInt8, P.DataType.Int16, P.DataType.UInt16, P.DataType.Int32, P.DataType.UInt64}
    case Int64 => t in {P.DataType.UInt8, P.DataType.Int16, P.DataType.UInt16, P.DataType.Int32, P.DataType.Int64}
    case UInt32 => t in {P.DataType.UInt8, P.DataType.Int16, P.DataType.UInt16, P.DataType.UInt32}
    case Int32 => t in {P.DataType.UInt8, P.DataType.Int16, P.DataType.UInt16, P.DataType.Int32}
    case UInt16 => t in {P.DataType.UInt8, P.DataType.UInt16}
    case Int16 => t in {P.DataType.UInt8, P.DataType.Int16}
    case UInt8 => t == P.DataType.UInt8
    case Int8 => t == P.DataType.Int8
    case _ => false
  }

  /**
   * The kind a converted payload has: the one the class names. Every numeric
   * class has one, and it is the parser's raw kind for that class except for
   * the Int32 class, whose target is Int32 where the parser expects UInt32.
   */
  function TargetKind(c: P.ArrayType): (r: Option<P.DataType>)
    ensures r.Some? ==> r.value.IsNumeric()
    ensures r.Some? <==> P.NumericDataType(c).Some?
    ensures c != P.ArrayType.Int32 ==> r == P.NumericDataType(c)
    ensures c == P.ArrayType.Int32 ==> r == Some(P.DataType.Int32)
  {
    match c
    case Double => Some(P.DataType.Double)
    case Single => Some(P.DataType.Single)
    case UInt64 => Some(P.DataType.UInt64)
    case Int64 => Some(P.DataType.Int64)
    case UInt32 => Some(P.DataType.UInt32)
    case Int32 => Some(P.DataType.Int32)
    case UInt16 => Some(P.DataType.UInt16)
    case Int16 => Some(P.DataType.Int16)
    case UInt8 => Some(P.DataType.UInt8)
    case Int8 => Some(P.DataType.Int8)
    case _ => None
  }

  predicate IsSigned(t: P.DataType) {
    t in {P.DataType.Int8, P.DataType.Int16, P.DataType.Int32, P.DataType.Int64}
  }

  predicate IsInteger(t: P.DataType) {
    t.IsNumeric() && t != P.DataType.Single && t != P.DataType.Double
  }

  /** Rust's `n as T` for an integer `n` and an integer kind `T`. */
  function WrapTo(t: P.DataType, n: int): int
    requires IsInteger(t)
  {
    if IsSigned(t) then WrapSigned(n, 8 * t.Width()) else WrapUnsigned(n, 8 * t.Width())
  }

  /** Rust's `x as T` applied to one element; a floating element is only ever kept as it is. */
  function CastScalar(s: P.Scalar, t: P.DataType): P.Scalar
    requires t.IsNumeric()
  {
    match s
    case IntValue(n) =>
      if t == P.DataType.Single then P.SingleValue(P.F32FromInt(n))
      else if t == P.DataType.Double then P.DoubleValue(P.F64FromInt(n))
      else P.IntValue(WrapTo(t, n))
    case _ => s
  }

  /** `data.into_iter().map(|x| x as T).collect()` for an integer vector and a target kind `T`. */
  function Cast(t: P.DataType, xs: seq<int>): (r: P.NumericData)
    requires t.IsNumeric()
    ensures r.Kind() == t && r.Len() == |xs|
  {
    match t
    case Int8 => P.NumericData.Int8(AsI8s(xs))
    case UInt8 => P.NumericData.UInt8(AsU8s(xs))
    case Int16 => P.NumericData.Int16(AsI16s(xs))
    case UInt16 => P.NumericData.UInt16(AsU16s(xs))
    case Int32 => P.NumericData.Int32(AsI32s(xs))
    case UInt32 => P.NumericData.UInt32(AsU32s(xs))
    case Int64 => P.NumericData.Int64(AsI64s(xs))
    case UInt64 => P.NumericData.UInt64(AsU64s(xs))
    case Single => P.NumericData.Single(seq(|xs|, k requires 0 <= k < |xs| => P.F32FromInt(xs[k])))
    case Double => P.NumericData.Double(seq(|xs|, k requires 0 <= k < |xs| => P.F64FromInt(xs[k])))
  }

  /**
   * What one arm of `try_convert_number_format` promises for class `c`: it
   * succeeds exactly on the raw kinds AllowedSource admits, fails with
   * ConversionError otherwise, yields the kind TargetKind names with as many
   * elements, and keeps a payload already of that kind unchanged.
   */
  predicate ConvertsAs(c: P.ArrayType, data: P.NumericData, r: Result<P.NumericData, Error>) {
    && (r.Ok? <==> AllowedSource(c, data.Kind()))
    && (r.Err? ==> r.error == ConversionError)
    && (r.Ok? ==> TargetKind(c) == Some(r.value.Kind()) && r.value.Len() == data.Len())
    && (r.Ok? && data.Kind() == r.value.Kind() ==> r.value == data)
  }

  /**
   * `try_convert_number_format`: the payload converted to the kind the array
   * class names, for exactly the (class, raw kind) pairs AllowedSource admits;
   * a payload already of that kind is returned unchanged.
   */
  function TryConvertNumberFormat(target: P.ArrayType, data: P.NumericData): (r: Result<P.NumericData, Error>)
    ensures r.Ok? <==> AllowedSource(target, data.Kind())
    ensures r.Err? ==> r.error == ConversionError
    ensures r.Ok? ==> TargetKind(target) == Some(r.value.Kind()) && r.value.Len() == data.Len()
    ensures r.Ok? && data.Kind() == r.value.Kind() ==> r.value == data
  {
    match target
    case Double => ToDouble(data)
    case Single => ToSingle(data)
    case UInt64 => ToUInt64(data)
    case Int64 => ToInt64(data)
    case UInt32 => ToUInt32(data)
    case Int32 => ToInt32(data)
    case UInt16 => ToUInt16(data)
    case Int16 => ToInt16(data)
    case UInt8 => ToUInt8(data)
    case Int8 => ToInt8(data)
    case _ => Err(ConversionError)
  }

  function ToDouble(data: P.NumericData): (r: Result<P.NumericData, Error>)
    ensures ConvertsAs(P.ArrayType.Double, data, r)
  {
    match data
    case UInt8(v) => Ok(Cast(P.DataType.Double, v))
    case Int16(v) => Ok(Cast(P.DataType.Double, v))
    case UInt16(v) => Ok(Cast(P.DataType.Double, v))
    case Int32(v) => Ok(Cast(P.DataType.Double, v))
    case Double(v) => Ok(P.NumericData.Double(v))
    case _ => Err(ConversionError)
  }

  function ToSingle(data: P.NumericData): (r: Result<P.NumericData, Error>)
    ensures ConvertsAs(P.ArrayType.Single, data, r)
  {
    match data
    case UInt8(v) => Ok(Cast(P.DataType.Single, v))
    case Int16(v) => Ok(Cast(P.DataType.Single, v))
    case UInt16(v) => Ok(Cast(P.DataType.Single, v))
    case Int32(v) => Ok(Cast(P.DataType.Single, v))
    case Single(v) => Ok(P.NumericData.Single(v))
    case _ => Err(ConversionError)
  }

  function ToUInt64(data: P.NumericData): (r: Result<P.NumericData, Error>)
    ensures ConvertsAs(P.ArrayType.UInt64, data, r)
  {
    match data
    case UInt8(v) => Ok(Cast(P.DataType.UInt64, v))
    case Int16(v) => Ok(Cast(P.DataType.UInt64, v))
    case UInt16(v) => Ok(Cast(P.DataType.UInt64, v))
    case Int32(v) => Ok(Cast(P.DataType.UInt64, v))
    case UInt64(v) => Ok(P.NumericData.UInt64(v))
    case _ => Err(ConversionError)
  }

  function ToInt64(data: P.NumericData): (r: Result<P.NumericData, Error>)
    ensures ConvertsAs(P.ArrayType.Int64, data, r)
  {
    match data
    case UInt8(v) => Ok(Cast(P.DataType.Int64, v))
    case Int16(v) => Ok(Cast(P.DataType.Int64, v))
    case UInt16(v) => Ok(Cast(P.DataType.Int64, v))
    case Int32(v) => Ok(Cast(P.DataType.Int64, v))
    case Int64(v) => Ok(P.NumericData.Int64(v))
    case _ => Err(ConversionError)
  }

  function ToUInt32(data: P.NumericData): (r: Result<P.NumericData, Error>)
    ensures ConvertsAs(P.ArrayType.UInt32, data, r)
  {
    match data
    case UInt8(v) => Ok(Cast(P.DataType.UInt32, v))
    case Int16(v) => Ok(Cast(P.DataType.UInt32, v))
    case UInt16(v) => Ok(Cast(P.DataType.UInt32, v))
    case UInt32(v) => Ok(P.NumericData.UInt32(v))
    case _ => Err(ConversionError)
  }

  function ToInt32(data: P.NumericData): (r: Result<P.NumericData, Error>)
    ensures ConvertsAs(P.ArrayType.Int32, data, r)
  {
    match data
    case UInt8(v) => Ok(Cast(P.DataType.Int32, v))
    case Int16(v) => Ok(Cast(P.DataType.Int32, v))
    case UInt16(v) => Ok(Cast(P.DataType.Int32, v))
    case Int32(v) => Ok(P.NumericData.Int32(v))
    case _ => Err(ConversionError)
  }

  function ToUInt16(data: P.NumericData): (r: Result<P.NumericData, Error>)
    ensures ConvertsAs(P.ArrayType.UInt16, data, r)
  {
    match data
    case UInt8(v) => Ok(Cast(P.DataType.UInt16, v))
    case UInt16(v) => Ok(P.NumericData.UInt16(v))
    case _ => Err(ConversionError)
  }

  function ToInt16(data: P.NumericData): (r: Result<P.NumericData, Error>)
    ensures ConvertsAs(P.ArrayType.Int16, data, r)
  {
    match data
    case UInt8(v) => Ok(Cast(P.DataType.Int16, v))
    case Int16(v) => Ok(P.NumericData.Int16(v))
    case _ => Err(ConversionError)
  }

  function ToUInt8(data: P.NumericData): (r: Result<P.NumericData, Error>)
    ensures ConvertsAs(P.ArrayType.UInt8, data, r)
  {
    match data
    case UInt8(v) => Ok(P.NumericData.UInt8(v))
    case _ => Err(ConversionError)
  }

  function ToInt8(data: P.NumericData): (r: Result<P.NumericData, Error>)
    ensures ConvertsAs(P.ArrayType.Int8, data, r)
  {
    match data
    case Int8(v) => Ok(P.NumericData.Int8(v))
    case _ => Err(ConversionError)
  }

  /** Element `k` of a cast vector is element `k` of the source, cast. */
  lemma CastIsElementwise(t: P.DataType, xs: seq<int>, k: nat)
    requires t.IsNumeric() && k < |xs|
    ensures Cast(t, xs).At(k) == CastScalar(P.IntValue(xs[k]), t)
  {
  }

  /** The elements of an integer payload as numbers. */
  function IntsOf(data: P.NumericData): (xs: seq<int>)
    requires IsInteger(data.Kind())
    ensures |xs| == data.Len()
    ensures forall k :: 0 <= k < |xs| ==> data.At(k) == P.IntValue(xs[k])
  {
    match data
    case Int8(v) => v
    case UInt8(v) => v
    case Int16(v) => v
    case UInt16(v) => v
    case Int32(v) => v
    case UInt32(v) => v
    case Int64(v) => v
    case UInt64(v) => v
  }

  /** Casting an element to the kind it already has gives it back. */
  lemma SameKindCastIsIdentity(data: P.NumericData, k: nat)
    requires k < data.Len()
    ensures CastScalar(data.At(k), data.Kind()) == data.At(k)
  {
  }

  /** A converted payload is the source payload cast element by element, in the same order. */
  lemma ConversionIsElementwise(target: P.ArrayType, data: P.NumericData, k: nat)
    requires TryConvertNumberFormat(target, data).Ok? && k < data.Len()
    ensures var r := TryConvertNumberFormat(target, data).value;
      r.At(k) == CastScalar(data.At(k), r.Kind())
  {
    var r := TryConvertNumberFormat(target, data).value;
    if data.Kind() == r.Kind() {
      SameKindCastIsIdentity(data, k);
    } else {
      assert r == Cast(r.Kind(), IntsOf(data));
      CastIsElementwise(r.Kind(), IntsOf(data), k);
    }
  }

  /**
   * Converting between integer kinds keeps every value that is not negative,
   * and every value when the target kind is signed: the table only widens.
   */
  lemma WideningKeepsValues(target: P.ArrayType, data: P.NumericData, k: nat)
    requires TryConvertNumberFormat(target, data).Ok? && k < data.Len()
    requires IsInteger(data.Kind()) && TargetKind(target).Some? && IsInteger(TargetKind(target).value)
    requires IntsOf(data)[k] >= 0 || IsSigned(TargetKind(target).value)
    ensures TryConvertNumberFormat(target, data).value.At(k) == data.At(k)
  {
    ConversionIsElementwise(target, data, k);
    var t := TargetKind(target).value;
    var n := IntsOf(data)[k];
    assert Modulus(8) == 0x100 && Modulus(16) == 0x1_0000;
    assert Modulus(32) == 0x1_0000_0000 && Modulus(64) == 0x1_0000_0000_0000_0000;
    assert WrapTo(t, n) == n;
  }

  /** `-1i16 as u32`: a negative value converted to an unsigned class wraps around. */
  lemma NegativeValuesWrap()
    ensures TryConvertNumberFormat(P.ArrayType.UInt32, P.NumericData.Int16([-1]))
         == Ok(P.NumericData.UInt32([0xFFFF_FFFF]))
  {
    var xs: seq<int> := [-1];
    assert TryConvertNumberFormat(P.ArrayType.UInt32, P.NumericData.Int16([-1])) == Ok(Cast(P.DataType.UInt32, xs));
    assert WrapUnsigned(-1, 32) == 0xFFFF_FFFF by { assert Modulus(32) == 0x1_0000_0000; }
    var ws: seq<u32> := seq(|xs|, k requires 0 <= k < |xs| => WrapUnsigned(xs[k], 32));
    assert ws == [0xFFFF_FFFF];
  }

  // --------------------------------------------------- tables side by side

  /**
   * For every dense class but Int32, the parser's compatibility check and the
   * conversion table admit exactly the same raw kinds.
   */
  lemma TablesAgreeExceptInt32(c: P.ArrayType, t: P.DataType)
    requires P.NumericDataType(c).Some? && c != P.ArrayType.Int32
    ensures P.NumericDataTypesAreCompatible(P.NumericDataType(c).value, t) <==> AllowedSource(c, t)
  {
  }

  /**
   * For the Int32 class the two tables disagree: the parser checks the class
   * against the UInt32 kind, so it accepts a raw UInt32 payload, which the
   * conversion rejects, and rejects a raw Int32 payload, which the conversion
   * would accept.
   */
  lemma Int32TablesDisagree()
    ensures var k := P.NumericDataType(P.ArrayType.Int32).value;
      && P.NumericDataTypesAreCompatible(k, P.DataType.UInt32) && !AllowedSource(P.ArrayType.Int32, P.DataType.UInt32)
      && !P.NumericDataTypesAreCompatible(k, P.DataType.Int32) && AllowedSource(P.ArrayType.Int32, P.DataType.Int32)
  {
  }

  /** Of the payloads the parser lets through for an Int32-class array, exactly the raw UInt32 ones fail to convert. */
  lemma Int32ClassConversion(data: P.NumericData)
    requires P.NumericDataTypesAreCompatible(P.NumericDataType(P.ArrayType.Int32).value, data.Kind())
    ensures TryConvertNumberFormat(P.ArrayType.Int32, data).Ok? <==> data.Kind() != P.DataType.UInt32
  {
  }

  // ------------------------------------------------------ typed numeric data

  /** The public numeric value of a matrix: one variant per kind, real part and optional imaginary part. */
  datatype NumericData =
    | Int8(seq<i8>, Option<seq<i8>>)
    | UInt8(seq<u8>, Option<seq<u8>>)
    | Int16(seq<i16>, Option<seq<i16>>)
    | UInt16(seq<u16>, Option<seq<u16>>)
    | Int32(seq<i32>, Option<seq<i32>>)
    | UInt32(seq<u32>, Option<seq<u32>>)
    | Int64(seq<i64>, Option<seq<i64>>)
    | UInt64(seq<u64>, Option<seq<u64>>)
    | Single(seq<P.F32>, Option<seq<P.F32>>)
    | Double(seq<P.F64>, Option<seq<P.F64>>)
  {
    /** The real part, as a payload of the variant's kind. */
    function Real(): P.NumericData {
      match this
      case Int8(re, _) => P.NumericData.Int8(re)
      case UInt8(re, _) => P.NumericData.UInt8(re)
      case Int16(re, _) => P.NumericData.Int16(re)
      case UInt16(re, _) => P.NumericData.UInt16(re)
      case Int32(re, _) => P.NumericData.Int32(re)
      case UInt32(re, _) => P.NumericData.UInt32(re)
      case Int64(re, _) => P.NumericData.Int64(re)
      case UInt64(re, _) => P.NumericData.UInt64(re)
      case Single(re, _) => P.NumericData.Single(re)
      case Double(re, _) => P.NumericData.Double(re)
    }

    /** The imaginary part, if any, as a payload of the variant's kind. */
    function Imag(): Option<P.NumericData> {
      match this
      case Int8(_, im) => if im.Some? then Some(P.NumericData.Int8(im.value)) else None
      case UInt8(_, im) => if im.Some? then Some(P.NumericData.UInt8(im.value)) else None
      case Int16(_, im) => if im.Some? then Some(P.NumericData.Int16(im.value)) else None
      case UInt16(_, im) => if im.Some? then Some(P.NumericData.UInt16(im.value)) else None
      case Int32(_, im) => if im.Some? then Some(P.NumericData.Int32(im.value)) else None
      case UInt32(_, im) => if im.Some? then Some(P.NumericData.UInt32(im.value)) else None
      case Int64(_, im) => if im.Some? then Some(P.NumericData.Int64(im.value)) else None
      case UInt64(_, im) => if im.Some? then Some(P.NumericData.UInt64(im.value)) else None
      case Single(_, im) => if im.Some? then Some(P.NumericData.Single(im.value)) else None
      case Double(_, im) => if im.Some? then Some(P.NumericData.Double(im.value)) else None
    }
  }

  /**
   * `NumericData::try_from`: both parts converted against the same class and
   * paired into one variant. The imaginary part is present exactly when it
   * was given, and a failure on either part fails the whole.
   */
  function TryFrom(target: P.ArrayType, realPart: P.NumericData, imagPart: Option<P.NumericData>): (r: Result<NumericData, Error>)
    ensures r.Ok? <==> TryConvertNumberFormat(target, realPart).Ok? && (imagPart.Some? ==> TryConvertNumberFormat(target, imagPart.value).Ok?)
    ensures r.Err? ==> r.error == ConversionError
    ensures r.Ok? ==> r.value.Real() == TryConvertNumberFormat(target, realPart).value
    ensures r.Ok? ==> (r.value.Imag().Some? <==> imagPart.Some?)
    ensures r.Ok? && imagPart.Some? ==> r.value.Imag().value == TryConvertNumberFormat(target, imagPart.value).value
  {
    var realPart: P.NumericData :- TryConvertNumberFormat(target, realPart);
    var imagPart: Option<P.NumericData> :-
      match imagPart
      case Some(im) => (var im :- TryConvertNumberFormat(target, im); Ok(Some(im)))
      case None => Ok(None);
    Pair(realPart, imagPart)
  }

  /**
   * The pairing step of `NumericData::try_from`: parts of the same kind
   * become one variant, any other combination is an internal error.
   */
  function Pair(realPart: P.NumericData, imagPart: Option<P.NumericData>): (r: Result<NumericData, Error>)
    ensures r.Err? ==> r.error == InternalError
    ensures r.Ok? <==> imagPart.None? || imagPart.value.Kind() == realPart.Kind()
    ensures r.Ok? ==> r.value.Real() == realPart && r.value.Imag() == imagPart
  {
    match realPart
    case Double(re) =>
      (match imagPart
       case None => Ok(NumericData.Double(re, None))
       case Some(Double(im)) => Ok(NumericData.Double(re, Some(im)))
       case _ => Err(InternalError))
    case Single(re) =>
      (match imagPart
       case None => Ok(NumericData.Single(re, None))
       case Some(Single(im)) => Ok(NumericData.Single(re, Some(im)))
       case _ => Err(InternalError))
    case UInt64(re) =>
      (match imagPart
       case None => Ok(NumericData.UInt64(re, None))
       case Some(UInt64(im)) => Ok(NumericData.UInt64(re, Some(im)))
       case _ => Err(InternalError))
    case Int64(re) =>
      (match imagPart
       case None => Ok(NumericData.Int64(re, None))
       case Some(Int64(im)) => Ok(NumericData.Int64(re, Some(im)))
       case _ => Err(InternalError))
    case UInt32(re) =>
      (match imagPart
       case None => Ok(NumericData.UInt32(re, None))
       case Some(UInt32(im)) => Ok(NumericData.UInt32(re, Some(im)))
       case _ => Err(InternalError))
    case Int32(re) =>
      (match imagPart
       case None => Ok(NumericData.Int32(re, None))
       case Some(Int32(im)) => Ok(NumericData.Int32(re, Some(im)))
       case _ => Err(InternalError))
    case UInt16(re) =>
      (match imagPart
       case None => Ok(NumericData.UInt16(re, None))
       case Some(UInt16(im)) => Ok(NumericData.UInt16(re, Some(im)))
       case _ => Err(InternalError))
    case Int16(re) =>
      (match imagPart
       case None => Ok(NumericData.Int16(re, None))
       case Some(Int16(im)) => Ok(NumericData.Int16(re, Some(im)))
       case _ => Err(InternalError))
    case UInt8(re) =>
      (match imagPart
       case None => Ok(NumericData.UInt8(re, None))
       case Some(UInt8(im)) => Ok(NumericData.UInt8(re, Some(im)))
       case _ => Err(InternalError))
    case Int8(re) =>
      (match imagPart
       case None => Ok(NumericData.Int8(re, None))
       case Some(Int8(im)) => Ok(NumericData.Int8(re, Some(im)))
       case _ => Err(InternalError))
  }

  /**
   * A dense matrix the parser accepted converts whenever its class is not
   * Int32: both its parts passed the parser's check, which for those classes
   * is the conversion table itself.
   */
  lemma AcceptedDenseMatrixConverts(c: P.ArrayType, realPart: P.NumericData, imagPart: Option<P.NumericData>)
    requires P.NumericDataType(c).Some? && c != P.ArrayType.Int32
    requires P.NumericDataTypesAreCompatible(P.NumericDataType(c).value, realPart.Kind())
    requires imagPart.Some? ==> P.NumericDataTypesAreCompatible(P.NumericDataType(c).value, imagPart.value.Kind())
    ensures TryFrom(c, realPart, imagPart).Ok?
  {
    TablesAgreeExceptInt32(c, realPart.Kind());
    if imagPart.Some? {
      TablesAgreeExceptInt32(c, imagPart.value.Kind());
    }
  }

  /**
   * A file the parser accepted fails to convert only because of an Int32-class
   * matrix: every other dense matrix it yields passed the parser's checks,
   * which for those classes are the conversion table itself.
   */
  lemma ConversionFailsOnlyOnInt32Class(inflate: Parse.Inflate, depth: nat, bytes: seq<u8>)
    requires Parse.ParseAll(inflate, depth, bytes).Ok?
    requires ParseMatFile(inflate, depth, bytes).Err?
    ensures var es := Parse.ParseAll(inflate, depth, bytes).value.dataElements;
      exists k :: 0 <= k < |es| && es[k].NumericMatrix? && es[k].flags.arrayClass == P.ArrayType.Int32
  {
    var es := Parse.ParseAll(inflate, depth, bytes).value.dataElements;
    var k :| 0 <= k < |es| && es[k].NumericMatrix? && ToMatrix(es[k]).Err?;
    Parse.AllWellFormedAt(es, k);
    if es[k].flags.arrayClass != P.ArrayType.Int32 {
      AcceptedDenseMatrixConverts(es[k].flags.arrayClass, es[k].realPart, es[k].imagPart);
      assert false;
    }
  }

  // ------------------------------------------------------------- the file

  /** A dense numeric matrix: its dimensions, its name and its converted data. */
  datatype Matrix = Matrix(dims: seq<i32>, name: string, data: NumericData)

  /** The dense numeric matrices of a file, in file order. */
  datatype MatFile = MatFile(matrices: seq<Matrix>) {

    /** `MatFile::find_by_name`: the first matrix with the given name, or None when no matrix has it. */
    method FindByName(name: string) returns (r: Option<Matrix>)
      ensures r.None? <==> forall k :: 0 <= k < |matrices| ==> matrices[k].name != name
      ensures r.Some? ==>
        exists k :: 0 <= k < |matrices| && matrices[k] == r.value && r.value.name == name
          && forall j :: 0 <= j < k ==> matrices[j].name != name
    {
      for k := 0 to |matrices|
        invariant forall j :: 0 <= j < k ==> matrices[j].name != name
      {
        if matrices[k].name == name {
          return Some(matrices[k]);
        }
      }
      return None;
    }
  }

  /** The elements `filter_map` keeps: the dense numeric matrices, in their order. */
  function NumericMatrices(es: seq<P.DataElement>): (r: seq<P.DataElement>)
    ensures |r| <= |es|
    ensures forall k :: 0 <= k < |r| ==> r[k].NumericMatrix?
  {
    if es == [] then []
    else (if es[0].NumericMatrix? then [es[0]] else []) + NumericMatrices(es[1..])
  }

  /** Keeping the dense matrices of two sequences one after the other keeps them of each in turn. */
  lemma {:induction false} NumericMatricesOfConcat(a: seq<P.DataElement>, b: seq<P.DataElement>)
    ensures NumericMatrices(a + b) == NumericMatrices(a) + NumericMatrices(b)
  {
    if a == [] {
      assert a + b == b;
    } else {
      assert (a + b)[1..] == a[1..] + b;
      NumericMatricesOfConcat(a[1..], b);
    }
  }

  /** A sequence of dense matrices is kept whole; any other element is dropped. */
  lemma {:induction false} NumericMatricesKeepsExactlyMatrices(es: seq<P.DataElement>)
    ensures (forall k :: 0 <= k < |es| ==> es[k].NumericMatrix?) <==> NumericMatrices(es) == es
  {
    if es != [] {
      NumericMatricesKeepsExactlyMatrices(es[1..]);
      if !es[0].NumericMatrix? {
        assert |NumericMatrices(es)| < |es|;
      }
    }
  }

  /** One dense matrix element made public: its dimensions and name with its parts converted. */
  function ToMatrix(m: P.DataElement): (r: Result<Matrix, Error>)
    requires m.NumericMatrix?
    ensures r.Err? ==> r.error == ConversionError
    ensures r.Ok? <==> TryFrom(m.flags.arrayClass, m.realPart, m.imagPart).Ok?
    ensures r.Ok? ==> r.value.dims == m.dims && r.value.name == m.name
    ensures r.Ok? ==> r.value.data == TryFrom(m.flags.arrayClass, m.realPart, m.imagPart).value
  {
    var data :- TryFrom(m.flags.arrayClass, m.realPart, m.imagPart);
    Ok(Matrix(m.dims, m.name, data))
  }

  /**
   * The `filter_map(..).collect::<Result<Vec<_>, _>>()` of `MatFile::parse`:
   * every dense matrix converted, in file order, or the conversion error of
   * the first one that does not convert.
   */
  function CollectMatrices(es: seq<P.DataElement>): (r: Result<seq<Matrix>, Error>)
    ensures r.Err? ==> r.error == ConversionError
    decreases |es|
  {
    if es == [] then Ok([])
    else
      if es[0].NumericMatrix? then
        var m :- ToMatrix(es[0]);
        var rest :- CollectMatrices(es[1..]);
        Ok([m] + rest)
      else CollectMatrices(es[1..])
  }

  /**
   * Collecting succeeds exactly when every dense matrix converts, and then
   * yields one matrix per dense matrix element, in order.
   */
  lemma CollectMatricesConvertsEach(es: seq<P.DataElement>)
    ensures var r := CollectMatrices(es);
      && (r.Ok? <==> forall k :: 0 <= k < |es| && es[k].NumericMatrix? ==> ToMatrix(es[k]).Ok?)
      && (r.Ok? ==> |r.value| == |NumericMatrices(es)|)
      && (r.Ok? ==> forall j :: 0 <= j < |r.value| ==> ToMatrix(NumericMatrices(es)[j]) == Ok(r.value[j]))
  {
    CollectMatricesSucceedsIff(es);
    CollectMatricesValues(es);
  }

  lemma {:induction false} CollectMatricesSucceedsIff(es: seq<P.DataElement>)
    ensures CollectMatrices(es).Ok? <==> forall k :: 0 <= k < |es| && es[k].NumericMatrix? ==> ToMatrix(es[k]).Ok?
  {
    if es != [] {
      var tail := es[1..];
      CollectMatricesSucceedsIff(tail);
      assert forall k :: 1 <= k < |es| ==> es[k] == tail[k - 1];
    }
  }

  lemma {:induction false} CollectMatricesValues(es: seq<P.DataElement>)
    ensures var r := CollectMatrices(es);
      r.Ok? ==> (|r.value| == |NumericMatrices(es)|
        && forall j :: 0 <= j < |r.value| ==> ToMatrix(NumericMatrices(es)[j]) == Ok(r.value[j]))
  {
    if es != [] && CollectMatrices(es).Ok? {
      var tail := es[1..];
      CollectMatricesValues(tail);
      var ms, rest := NumericMatrices(es), CollectMatrices(tail).value;
      if es[0].NumericMatrix? {
        var m := ToMatrix(es[0]).value;
        assert CollectMatrices(es).value == [m] + rest;
        assert ms == [es[0]] + NumericMatrices(tail);
        forall j | 0 <= j < |ms|
          ensures ToMatrix(ms[j]) == Ok(([m] + rest)[j])
        {
          if j > 0 {
            assert ms[j] == NumericMatrices(tail)[j - 1];
          }
        }
      } else {
        assert ms == NumericMatrices(tail);
      }
    }
  }

  /**
   * `MatFile::parse` after the input has been read: parse the whole file and
   * keep its dense numeric matrices, converted, in file order. Any parse
   * failure becomes ParseError; one matrix that does not convert fails the
   * whole call with ConversionError.
   */
  function ParseMatFile(inflate: Parse.Inflate, depth: nat, bytes: seq<u8>): (r: Result<MatFile, Error>)
    ensures Parse.ParseAll(inflate, depth, bytes).Err? ==> r == Err(ParseError)
    ensures r.Err? ==> r.error == ParseError || r.error == ConversionError
    ensures var p := Parse.ParseAll(inflate, depth, bytes);
      p.Ok? ==>
        var es := p.value.dataElements;
        && (r.Ok? <==> forall k :: 0 <= k < |es| && es[k].NumericMatrix? ==> ToMatrix(es[k]).Ok?)
        && (r.Ok? ==> |r.value.matrices| == |NumericMatrices(es)|)
        && (r.Ok? ==> forall j :: 0 <= j < |r.value.matrices| ==> ToMatrix(NumericMatrices(es)[j]) == Ok(r.value.matrices[j]))
  {
    var parsed := Parse.ParseAll(inflate, depth, bytes);
    if parsed.Err? then Err(ParseError)
    else
      CollectMatricesConvertsEach(parsed.value.dataElements);
      var matrices :- CollectMatrices(parsed.value.dataElements);
      Ok(MatFile(matrices))
  }
}
