# matfile — a Dafny model of a MATLAB Level-5 MAT-file decoder

This project models the core of the Rust crate `matfile`, which decodes MATLAB
Level-5 MAT-files. The model has two layers.

- **The binary parser** (`src/parse.rs`), modelled in `parse.dfy` with its values
  in `parse_types.dfy`. It reads a 128-byte header, which holds the text, the
  version word and the `IM`/`MI` endian marker. Then it reads a sequence of
  self-framed data elements. Each element has a small or long tag, a payload
  and padding up to 8 bytes. A `Matrix` element holds array flags, dimensions,
  a name and numeric subelements, either dense or sparse. A `Compressed` element
  holds a DEFLATE stream that inflates to another element. Every other kind is
  skipped as `Unsupported`.
- **The public layer** (`src/lib.rs`), modelled in `lib.dfy`. It converts the
  raw numeric payloads to the kind the array class declares, pairs the real and
  imaginary parts into one typed value, and collects the dense numeric matrices
  of a file in file order. It also looks a matrix up by name.

Supporting modules:

- `nom.dfy` holds the parser-combinator vocabulary: results, error kinds,
  `take`, fixed-width reads in either byte order, and `count`.
- `unicode.dfy` models `std::str::from_utf8` together with its inverse.
- `ints.dfy` holds the fixed-width integer types and Rust's wrapping `as` casts.
- `wrappers.dfy` holds `Option` and `Result`.

Parsers follow nom's convention. A parser maps the remaining input to
`Ok(rest, value)` or to `Err(kind)`. The kind `Error` is recoverable: it ends
`many0` quietly. The kind `Failure` is fatal. Integer arithmetic is that of a
release build: `ceil_to_multiple` wraps in `u32`, the dimension product wraps in
`i32`, and `i32 as usize` and the conversions of `lib.rs` wrap as Rust's `as`
does.

## Model

| member | source | states |
|---|---|---|
| Nom.Take | src/parse.rs:119-121 | `take(n)` succeeds exactly when `n` bytes remain; it returns those bytes and the rest, which together make up the input, and otherwise fails recoverably |
| Nom.ReadUnsigned | src/parse.rs:380-411 | a fixed-width read succeeds exactly when `width` bytes remain; the value is the number those bytes encode in the chosen byte order, below 256^width, and exactly `width` bytes are consumed |
| Nom.ReadMany | src/parse.rs:371-374 | `count(p, n)` succeeds exactly when `n * width` bytes remain; it then yields `Words(n)`, the `n` words of the input in file order, and leaves exactly the bytes after them; a short input is a recoverable error |
| Nom.Words | src/parse.rs:371-374 | `n` words of `width` bytes, read in order, each below 256^width |
| Nom.WordsStep | src/parse.rs:371-374 | the words of an input are its first word followed by the words of the bytes after it, which is how `count` reads them one by one |
| Nom.WordsAt | src/parse.rs:371-374 | word `k` is bytes `k * width` up to `(k + 1) * width` of the input, read in the chosen byte order |
| Nom.SwappedLittleIsBig | src/parse.rs:124-130 | a version word read little-endian and then byte-swapped equals the same two bytes read big-endian |
| Unicode.DecodeFirstEncodeChar | src/parse.rs:343-345 | decoding the encoding of one character gives that character back and consumes exactly its encoding, whatever follows it |
| Unicode.DecodeEncode | src/parse.rs:141 | the UTF-8 decoder inverts encoding: every text survives the round trip (the reverse direction is `EncodeDecode`) |
| Unicode.EncodeDecode | src/parse.rs:141 | every byte sequence that decodes is the encoding of the text it decodes to, so the decoder accepts only canonical UTF-8 |
| Unicode.DecodeFirstIsCanonical | src/parse.rs:343-345 | the bytes the decoder consumes for one character are exactly that character's encoding |
| Unicode.DecodeAscii | src/parse.rs:331-354 | bytes below 0x80 always decode, one character per byte, each with the byte's code |
| ParseTypes.DataTypeFromU32 | src/parse.rs:200-217 | a recognised code names the kind whose code it is; exactly the 15 listed codes are recognised |
| ParseTypes.DataTypeCodeRoundTrip | src/parse.rs:200-217 | every element kind is recognised from its own code, so the codes are distinct |
| ParseTypes.ArrayTypeFromU8 | src/parse.rs:231-248 | exactly the bytes 1 to 15 name an array class, and a class is recognised from its own code |
| ParseTypes.NumericDataType | src/parse.rs:262-276 | exactly the ten numeric classes have a raw kind; that kind is numeric and never Int32 (the Int32 class maps to UInt32) |
| ParseTypes.DataType.Width | src/parse.rs:490-572 | a numeric kind is 1 byte wide exactly for Int8 and UInt8, 2 exactly for Int16 and UInt16, 4 exactly for Int32, UInt32 and Single, and 8 exactly for Int64, UInt64 and Double |
| ParseTypes.NumericData.Kind | src/parse.rs:62-75 | the kind of a numeric payload is always one of the ten numeric kinds |
| ParseTypes.CompatibilityIsWidening | src/parse.rs:428-488 | the compatibility table admits only numeric kinds, admits every numeric kind for itself, and never admits a raw kind wider than the array's kind |
| Parse.ParseHeader | src/parse.rs:115-145 | input under 128 bytes, or a NUL among the first four bytes, is a recoverable error; on success exactly 128 bytes are consumed, the marker decides the byte order, and the version word read in that order is 0x0100; the text is the UTF-8 decoding of the first 116 bytes, or empty when they are not valid UTF-8; a marker that is neither `IM` nor `MI` is a recoverable error; given a valid marker, a wrong version is the only way to fail, and it fails fatally |
| Parse.CeilToMultiple | src/parse.rs:183-189 | 0 maps to 0; when the rounded value fits in `u32`, the result is the least multiple of `multiple` that is at least `x` |
| Parse.PaddingBounds | src/parse.rs:297 | the long-format padding is below 8 and brings size plus padding to a multiple of 8 (in `u32`, even where `ceil_to_multiple` wraps); an aligned size needs no padding |
| Parse.ParseDataElementTag | src/parse.rs:288-329 | long format when the high 16 bits of the first word are 0: kind = first word, size = second word, 8 bytes consumed, padding to a multiple of 8; small format: kind = low half, size = high half, at most 4, 4 bytes consumed, padding `4 - size`; it succeeds exactly when the kind code is known (and, in small format, size <= 4); it fails recoverably exactly when fewer than 4 bytes remain, or the tag is long and fewer than 8 remain; every other failure is fatal |
| Parse.ParseArrayFlagsSubelement | src/parse.rs:380-411 | under 8 bytes is a recoverable error; a tag other than (UInt32, 8) is fatal; with a valid tag, under 16 bytes is a recoverable error; on success 16 bytes are consumed, the complex, global and logical flags are bits 0x800, 0x400 and 0x200 of the third word, the class is its low byte and `nzmax` is the fourth word; with a valid tag and 16 bytes it succeeds exactly when the class byte is 1 to 15, and fails fatally otherwise |
| Parse.ParseDimensionsArraySubelement | src/parse.rs:356-378 | tag errors pass through; a tag that is not Int32 with size >= 8 and a multiple of 4 is fatal; with a valid tag it succeeds when payload and padding are present and otherwise fails recoverably; on success there are size/4 >= 2 dimensions, each the `i32` that the corresponding 4-byte word of the payload encodes in the file's byte order, and exactly payload plus padding are consumed |
| Parse.DimensionValues | src/parse.rs:356-378 | dimension `k` is the `k`-th 4-byte word after the tag, read in the file's byte order as an `i32` |
| Parse.ParseArrayNameSubelement | src/parse.rs:331-354 | tag errors pass through; a tag that is not Int8 with a non-empty payload is fatal; with a valid tag it succeeds exactly when the bytes are present and are valid UTF-8, and every other failure is recoverable (`map_res` turns the rejected conversion into a recoverable error); on success the name is the UTF-8 decoding of the payload and payload plus padding are consumed |
| Parse.ParseIndexArraySubelement | src/parse.rs:693-712 | the row-index parser (the column-index parser at src/parse.rs:714-733 is identical): tag errors pass through; a tag that is not Int32 with a non-empty payload is fatal; with a valid tag it succeeds exactly when the whole words and the padding are present, and otherwise fails recoverably; on success it yields size/4 indices, each the `i32 as usize` of the corresponding 4-byte word, and consumes those words plus the padding |
| Parse.IndexValues | src/parse.rs:693-712 | index `k` is the `k`-th 4-byte word after the tag, read as an `i32` and cast to `usize`, so the indices keep file order |
| Parse.ReadNumeric | src/parse.rs:490-572 | a non-numeric kind is fatal; a numeric kind succeeds exactly when `size / width` whole elements are present; it yields that many elements of that kind, each the value its `width` bytes encode in the file's byte order reinterpreted as the kind, and consumes exactly those bytes |
| Parse.ParseNumericSubelement | src/parse.rs:490-576 | tag errors pass through; a non-numeric kind is fatal; with a numeric kind it succeeds exactly when the whole elements and the padding are present, and otherwise fails recoverably; the payload has the tag's kind and `size / width` elements, decoded from the bytes after the tag (`Elements`); the elements and the padding are consumed |
| Parse.ParseNumericMatrixSubelements | src/parse.rs:608-646 | errors of the dimensions, name and real-part subelements pass through in that order; then (`DenseOutcome`) a real part without `product(dims) as usize` elements (a wrapping `i32` product) or of a kind the class does not admit is fatal; a non-complex matrix is accepted there, and a complex one reads the imaginary part from the rest after the real part, passes its errors through, and is accepted exactly when it passes the same checks; the result carries the parsed flags, dimensions, name and parts |
| Parse.ParseSparseMatrixSubelements | src/parse.rs:648-691 | errors of the dimensions, name, row-index, column-index and real-part subelements pass through in that order; then (`SparseOutcome`) a real part without `nzmax` elements is fatal; a non-complex matrix is accepted there, and a complex one reads the imaginary part from the rest after the real part, passes its errors through, and is accepted exactly when it also has `nzmax` elements; the result carries the parsed flags, dimensions, name, indices and parts |
| Parse.ParseMatrixDataElement | src/parse.rs:413-426 | flag errors pass through; Cell, Struct, Object and Char arrays become Unsupported; Sparse arrays are the sparse parser applied to the bytes after the flags; numeric classes are the dense parser applied there; every element it yields is well formed (`WellFormed`) |
| Parse.ParseNextDataElement | src/parse.rs:151-181 | every successfully parsed element consumes at least its 4-byte tag, leaves a suffix of the input, and is well formed |
| Parse.NextElementFraming | src/parse.rs:151-181 | tag errors pass through; a payload longer than the remaining input is a recoverable error; after the payload the padding (none after a Compressed element) is skipped only when it is all present |
| Parse.OtherKindsAreSkipped | src/parse.rs:156-166 | an element of any kind other than Matrix or Compressed, with its payload present, parses as Unsupported |
| Parse.MatrixElementIsParsedFromItsPayload | src/parse.rs:168-169 | a Matrix element's result is the matrix parser applied to exactly its payload, so the bytes after it cannot influence it |
| Parse.CompressedTagIsInflated | src/parse.rs:158-181 | a Compressed element's result is the compressed parser applied to exactly its payload; no padding is skipped after it, and its errors pass through |
| Parse.ParseCompressedDataElement | src/parse.rs:578-603 | a stream that does not inflate is a fatal error; at nesting depth 0 the model stops with TooDeep |
| Parse.CompressedElementIsFirstInflated | src/parse.rs:599-601 | a compressed element is the first element parsed from its inflated bytes; the bytes after that element are ignored, and its errors pass through unchanged |
| Parse.ParseDataElements | src/parse.rs:771 | `many0(complete(..))` never fails recoverably; its rest is a suffix of the input at which the next element fails recoverably; every element in the sequence, including those read from inflated bytes, is well formed |
| Parse.ElementSequenceUnfolds | src/parse.rs:771 | a recoverable error of the first element ends the sequence empty at the input; any other error passes through; otherwise the sequence is the first element followed by the sequence parsed from its rest, whose errors pass through |
| Parse.AllWellFormedAt | src/parse.rs:771 | every element of a well-formed sequence is well formed |
| Parse.TruncatedElementEndsSequence | src/parse.rs:771 | an element whose payload runs past the end of the input ends the sequence with no error and is not in it |
| Parse.ParseAll | src/parse.rs:764-779 | header errors pass through; otherwise the result is the element sequence parsed, in the byte order the header gives, from the bytes after the header: its errors pass through, and on success it is paired with the parsed header; a recoverable error can only come from the header; every element is well formed |
| Parse.ProductI32IsWrappedProduct | src/parse.rs:617 | the wrapping `i32` product of the dimensions is the mathematical product reduced into `i32` |
| Parse.ElementCountIsProduct | src/parse.rs:617-621 | the element count a dense matrix is checked against is the true product of its dimensions whenever that product is between 0 and 2^31 - 1 |
| Parse.WrappedProductExample | src/parse.rs:617 | dimensions [65536, 65536] have a true product of 2^32 but a wrapping product of 0, so such a matrix is accepted with no elements |
| Parse.NestingIsMonotone | src/parse.rs:151-181 | raising the nesting bound does not change the result of an element parse that did not stop with TooDeep |
| Parse.PayloadNestingIsMonotone | src/parse.rs:158-169 | the same, for the parser the element kind selects |
| Parse.OnlyCompressedPayloadsSeeDepth | src/parse.rs:158-169 | payloads of any kind other than Compressed do not depend on the nesting bound |
| Parse.CompressedNestingIsMonotone | src/parse.rs:578-603 | the same monotonicity, for a compressed element |
| Parse.InflatedNestingIsMonotone | src/parse.rs:599-601 | the same monotonicity, for the element parsed from inflated bytes under a positive bound |
| Parse.SequenceNestingIsMonotone | src/parse.rs:771 | the same monotonicity, for the whole element sequence |
| Lib.TargetKind | src/lib.rs:34-153 | exactly the numeric classes have a target kind, and it is numeric; it is the parser's raw kind for every class except Int32, whose target is Int32 |
| Lib.Cast | src/lib.rs:103-115 | an `as`-cast vector has the target kind and the same length |
| Lib.CastIsElementwise | src/lib.rs:39-53 | element `k` of a cast vector is element `k` of the source cast to the target (wrapping for integers, `as f32`/`as f64` for floats) |
| Lib.TryConvertNumberFormat | src/lib.rs:34-153 | it succeeds exactly for the (class, raw kind) pairs of the conversion table; failures are ConversionError; the result has the class's kind and the same length; a payload already of that kind is returned unchanged |
| Lib.ToDouble | src/lib.rs:39-54 | the Double arm: UInt8, Int16, UInt16 and Int32 are cast; Double is kept as it is; every other kind is a ConversionError |
| Lib.ToSingle | src/lib.rs:55-70 | the Single arm, with the same table |
| Lib.ToUInt64 | src/lib.rs:71-86 | the UInt64 arm, with the same table |
| Lib.ToInt64 | src/lib.rs:87-102 | the Int64 arm, with the same table |
| Lib.ToUInt32 | src/lib.rs:103-115 | the UInt32 arm: UInt8, Int16 and UInt16 are cast; UInt32 is kept as it is; everything else is a ConversionError |
| Lib.ToInt32 | src/lib.rs:116-128 | the Int32 arm: UInt8, Int16 and UInt16 are cast; Int32 is kept as it is; everything else is a ConversionError |
| Lib.ToUInt16 | src/lib.rs:129-135 | the UInt16 arm: UInt8 is cast; UInt16 is kept as it is; everything else is a ConversionError |
| Lib.ToInt16 | src/lib.rs:136-142 | the Int16 arm: UInt8 is cast; Int16 is kept as it is; everything else is a ConversionError |
| Lib.ToUInt8 | src/lib.rs:143-146 | the UInt8 arm: only UInt8 is accepted, and it is kept as it is |
| Lib.ToInt8 | src/lib.rs:147-150 | the Int8 arm: only Int8 is accepted, and it is kept as it is |
| Lib.ConversionIsElementwise | src/lib.rs:34-153 | a converted payload is the source payload cast element by element, in the same order |
| Lib.WideningKeepsValues | src/lib.rs:34-153 | converting between integer kinds keeps every non-negative value, and every value when the target is signed |
| Lib.NegativeValuesWrap | src/lib.rs:103-115 | `-1i16` converted to the UInt32 class becomes 0xFFFFFFFF |
| Lib.TablesAgreeExceptInt32 | src/parse.rs:428-488 | for every numeric class but Int32, the parser's compatibility check and the conversion table admit exactly the same raw kinds |
| Lib.Int32TablesDisagree | src/parse.rs:270 | for the Int32 class the parser admits a raw UInt32 payload, which the conversion rejects, and rejects a raw Int32 payload, which the conversion accepts |
| Lib.Int32ClassConversion | src/lib.rs:116-128 | of the payloads the parser accepts for an Int32 array, exactly the raw UInt32 ones fail to convert |
| Lib.TryFrom | src/lib.rs:155-211 | it succeeds exactly when the real part, and the imaginary part if given, convert; failures are ConversionError; the result's real part is the converted real part, and it has an imaginary part exactly when one was given, equal to the converted imaginary part |
| Lib.Pair | src/lib.rs:166-209 | parts of the same kind pair into one variant that gives both back unchanged; mismatched kinds are an InternalError |
| Lib.AcceptedDenseMatrixConverts | src/parse.rs:608-646 | a dense matrix the parser accepted always converts when its class is not Int32 |
| Lib.MatFile.FindByName | src/lib.rs:288-295 | None exactly when no matrix has the name; otherwise the first matrix in file order that has it |
| Lib.NumericMatrices | src/lib.rs:265-277 | `filter_map` keeps only dense numeric matrices and never adds elements |
| Lib.NumericMatricesOfConcat | src/lib.rs:265-277 | filtering distributes over concatenation, so file order is kept |
| Lib.NumericMatricesKeepsExactlyMatrices | src/lib.rs:265-277 | a sequence is left whole exactly when all of its elements are dense numeric matrices |
| Lib.ToMatrix | src/lib.rs:266-274 | one element made public: it succeeds exactly when `try_from` does; it keeps dimensions and name, and its data is the converted data |
| Lib.CollectMatrices | src/lib.rs:262-280 | collecting fails only with ConversionError |
| Lib.CollectMatricesConvertsEach | src/lib.rs:262-280 | collecting succeeds exactly when every dense matrix converts; it then yields one matrix per dense matrix element, each the conversion of that element, in file order |
| Lib.CollectMatricesSucceedsIff | src/lib.rs:262-280 | collecting succeeds exactly when every dense matrix converts |
| Lib.CollectMatricesValues | src/lib.rs:262-280 | a successful collection has one matrix per dense matrix element, each the conversion of that element, in file order |
| Lib.ParseMatFile | src/lib.rs:256-282 | any parse failure is ParseError, and the only other error is ConversionError; after a successful parse it succeeds exactly when every dense matrix converts, and the file's matrices are their conversions, in file order |
| Lib.ConversionFailsOnlyOnInt32Class | src/lib.rs:262-280 | when the file parses but conversion fails, some dense matrix in it has the Int32 class |

## Left out

- Reading the input: `read_to_end`, its `IOError` and the `Read` parameter of `MatFile::parse` are left out. `Lib.ParseMatFile` starts from the bytes.
- DEFLATE: the decoder behind compressed elements is the parameter `inflate`. `None` stands for a decoder error, which the source reports as a fatal error.
- Nesting depth: the source recurses through compressed elements without a bound. The model bounds the nesting by `depth` and stops with `TooDeep`, which is not in the source. The `*NestingIsMonotone` lemmas show that the bound only ever cuts parsing short.
- Floating point: `f32`/`f64` values are kept abstract, either as the bits read or as the integer a value was converted from. Rounding of `as f32`/`as f64` is not modelled.
- Diagnostics: `println!`/`eprintln!` and the `Display`/`Error` impls have no effect on results and are left out.
- `replace_err_slice` only relabels the input slice an error points at. The model keeps the error kind and has no error positions.
- Parse.ParseNextDataElement: its own contract states the tag consumption, the suffix and well-formedness. The framing and the dispatch are stated by separate lemmas: `NextElementFraming`, `OtherKindsAreSkipped`, `MatrixElementIsParsedFromItsPayload`, `CompressedTagIsInflated` and `CompressedElementIsFirstInflated`.
- Parse.ParseDataElements: its own contract does not state how the elements are chained; `ElementSequenceUnfolds` states it one element at a time.
- Payload bytes past the last whole element of a numeric subelement (size not a multiple of the width) are not consumed, as in the source. The padding is then read from those bytes.
- A truncated last element ends the element sequence without an error (`Parse.TruncatedElementEndsSequence`). This follows the code; it does not reject the file.
- The Int32 class mismatch between the parser's table and the conversion table is stated (`Lib.Int32TablesDisagree`, `Lib.Int32ClassConversion`), not corrected.
- Overflow panics of a debug build are not modelled; the wrapping arithmetic of a release build is.
- `Matrix::name`, `Matrix::shape`, `Matrix::data` and `MatFile::matrices` are plain field reads; they are the fields of the `Lib.Matrix` and `Lib.MatFile` datatypes.
- `CollectMatrices` returns the first conversion error in file order, as `collect` into a `Result` does. Since conversion is pure, stopping early changes nothing else.
- `src/ndarray.rs`, the sparse-matrix helpers and the example programs are not part of this model. Nor is the test data file of the `sparse1` test.
