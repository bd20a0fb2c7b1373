/**
 * The parser-combinator vocabulary the decoder is written in: a parser maps
 * the remaining input to either `(rest, value)` or an error, and fixed-width
 * numbers are read in a chosen byte order.
 *
 * Two error kinds matter to the decoder's behaviour: a recoverable `Error`
 * (input too short, a rejected conversion), which makes a repetition such as
 * `many0` stop and succeed with what it has, and a fatal `Failure` (an
 * explicit validity check failed), which aborts the whole parse. A third
 * kind, `TooDeep`, exists only in this model: it is what a compressed element
 * nested beyond the chosen depth bound yields.
 */
module Nom {
  import opened Ints

  datatype Endianness = Little | Big

  datatype ErrKind = Error | Failure | TooDeep

  datatype IResult<+T> = Ok(rest: seq<u8>, value: T) | Err(kind: ErrKind) {

    predicate IsFailure() {
      Err?
    }

    function PropagateFailure<U>(): IResult<U>
      requires Err?
    {
      Err(kind)
    }

    /** The remaining input and the parsed value, as Rust's `let (i, x) = p(i)?;` binds them. */
    function Extract(): (seq<u8>, T)
      requires Ok?
    {
      (rest, value)
    }
  }

  /** 256^n */
  function Pow256(n: nat): (r: nat)
    ensures r >= 1
  {
    if n == 0 then 1 else 0x100 * Pow256(n - 1)
  }

  lemma Pow256Values()
    ensures Pow256(1) == 0x100 && Pow256(2) == 0x1_0000
    ensures Pow256(4) == 0x1_0000_0000 && Pow256(8) == 0x1_0000_0000_0000_0000
  {
  }

  /** The number whose base-256 digits, least significant first, are `s`. */
  function LittleEndianValue(s: seq<u8>): (r: nat)
    ensures r < Pow256(|s|)
  {
    if s == [] then 0 else s[0] + 0x100 * LittleEndianValue(s[1..])
  }

  function Reverse(s: seq<u8>): (r: seq<u8>)
    ensures |r| == |s|
    ensures forall k :: 0 <= k < |s| ==> r[k] == s[|s| - 1 - k]
  {
    if s == [] then [] else Reverse(s[1..]) + [s[0]]
  }

  /** The unsigned number stored in `s` in byte order `e`. */
  function UnsignedValue(e: Endianness, s: seq<u8>): (r: nat)
    ensures r < Pow256(|s|)
  {
    match e
    case Little => LittleEndianValue(s)
    case Big => LittleEndianValue(Reverse(s))
  }

  /** A two-byte word read little-endian and then byte-swapped is the same word read big-endian. */
  lemma SwappedLittleIsBig(s: seq<u8>)
    requires |s| == 2
    ensures UnsignedValue(Little, s) < 0x1_0000
    ensures SwapBytes16(UnsignedValue(Little, s)) == UnsignedValue(Big, s)
  {
    var lo: int := s[0];
    var hi: int := s[1];
    assert LittleEndianValue(s[1..][1..]) == 0 by { assert s[1..][1..] == []; }
    assert LittleEndianValue(s[1..]) == hi;
    assert UnsignedValue(Little, s) == lo + 0x100 * hi;
    var r := Reverse(s);
    assert r[0] == hi && r[1] == lo && |r| == 2;
    assert LittleEndianValue(r[1..][1..]) == 0 by { assert r[1..][1..] == []; }
    assert LittleEndianValue(r[1..]) == lo;
    assert UnsignedValue(Big, s) == hi + 0x100 * lo;
    var w := lo + 0x100 * hi;
    assert w % 0x100 == lo && w / 0x100 == hi;
  }

  /** nom's `take(n)`: the next `n` bytes. */
  function Take(n: nat, i: seq<u8>): (r: IResult<seq<u8>>)
    ensures r.Ok? <==> n <= |i|
    ensures r.Ok? ==> |r.value| == n && r.value + r.rest == i
    ensures r.Err? ==> r.kind == Error
  {
    if n <= |i| then Ok(i[n..], i[..n]) else Err(Error)
  }

  /** nom's `u16`, `u32`, `u64` (and, through a sign change, the signed readers): one unsigned word of `width` bytes. */
  function ReadUnsigned(e: Endianness, width: nat, i: seq<u8>): (r: IResult<nat>)
    ensures r.Ok? <==> width <= |i|
    ensures r.Ok? ==> r.rest == i[width..] && r.value == UnsignedValue(e, i[..width])
    ensures r.Ok? ==> r.value < Pow256(width)
    ensures r.Err? ==> r.kind == Error
  {
    var (i, bytes) :- Take(width, i);
    Ok(i, UnsignedValue(e, bytes))
  }

  /**
   * The first `n` words of `width` bytes in `s`: word `k` is the number that
   * bytes `k * width` up to `(k + 1) * width` encode in byte order `e`.
   */
  function Words(e: Endianness, width: nat, n: nat, s: seq<u8>): (ws: seq<nat>)
    requires n * width <= |s|
    ensures |ws| == n
    ensures forall k :: 0 <= k < n ==> ws[k] < Pow256(width)
  {
    seq(n, k requires 0 <= k < n => (WordInBounds(k, n, width); WordAt(e, width, k, s)))
  }

  /** Word `k` of `s`: bytes `k * width` up to `(k + 1) * width`, read in byte order `e`. */
  function WordAt(e: Endianness, width: nat, k: nat, s: seq<u8>): (w: nat)
    requires k * width + width <= |s|
    ensures w < Pow256(width)
  {
    var bytes := s[k * width..k * width + width];
    assert |bytes| == width;
    UnsignedValue(e, bytes)
  }

  lemma WordInBounds(k: nat, n: nat, width: nat)
    requires k < n
    ensures k * width + width <= n * width
  {
    assert n * width == (k + 1) * width + (n - k - 1) * width;
  }

  /** Word `k` of the words of `s` is bytes `k * width` up to `(k + 1) * width` of `s`, read in byte order `e`. */
  lemma WordsAt(e: Endianness, width: nat, n: nat, s: seq<u8>, k: nat)
    requires k < n && n * width <= |s|
    ensures k * width + width <= |s|
    ensures Words(e, width, n, s)[k] == UnsignedValue(e, s[k * width..k * width + width])
  {
    WordInBounds(k, n, width);
  }

  /** Dropping the first word of `s` shifts the remaining words down by one. */
  lemma WordsStep(e: Endianness, width: nat, n: nat, s: seq<u8>)
    requires n > 0 && n * width <= |s|
    ensures width <= |s| && (n - 1) * width <= |s| - width
    ensures Words(e, width, n, s) == [UnsignedValue(e, s[..width])] + Words(e, width, n - 1, s[width..])
  {
    MulStep(n, width);
    var a := Words(e, width, n, s);
    var b := [UnsignedValue(e, s[..width])] + Words(e, width, n - 1, s[width..]);
    assert a[0] == b[0];
    forall k | 1 <= k < n
      ensures a[k] == b[k]
    {
      var j := k - 1;
      assert j * width + width == k * width by {
        assert (j + 1) * width == j * width + width;
      }
      WordInBounds(j, n - 1, width);
      assert s[width..][j * width..j * width + width] == s[k * width..k * width + width];
      assert a[k] == WordAt(e, width, k, s);
    }
  }

  /**
   * nom's `count(p, n)` with `p` a reader of `width`-byte words: `n` words in
   * file order, or a recoverable error when fewer than `n * width` bytes remain.
   */
  function ReadMany(e: Endianness, width: nat, n: nat, i: seq<u8>): (r: IResult<seq<nat>>)
    requires width > 0
    ensures r.Ok? <==> n * width <= |i|
    ensures r.Err? ==> r.kind == Error
    ensures r.Ok? ==> r.value == Words(e, width, n, i) && r.rest == i[n * width..]
    decreases n
  {
    if n == 0 then Ok(i, [])
    else
      MulStep(n, width);
      var (i1, x) :- ReadUnsigned(e, width, i);
      var (i2, xs) :- ReadMany(e, width, n - 1, i1);
      assert i2 == i[n * width..];
      WordsStep(e, width, n, i);
      Ok(i2, [x] + xs)
  }

  lemma MulStep(n: nat, w: nat)
    requires n > 0
    ensures n * w == (n - 1) * w + w
    ensures (n - 1) * w >= 0
  {
  }
}
