/**
 * UTF-8 decoding as Rust's `std::str::from_utf8` performs it: the input must
 * consist of well-formed UTF-8 sequences (table 3-7 of the Unicode Standard,
 * chapter 3: no overlong forms, no surrogates, nothing above U+10FFFF),
 * otherwise decoding fails as a whole.
 */
module Unicode {
  import opened Ints
  import opened Wrappers

  predicate IsContinuation(b: u8) {
    0x80 <= b <= 0xBF
  }

  /** The first scalar value encoded at the start of `s` and the number of bytes it takes. */
  function DecodeFirst(s: seq<u8>): (r: Option<(char, nat)>)
    requires |s| > 0
    ensures r.Some? ==> 1 <= r.value.1 <= 4 && r.value.1 <= |s|
  {
    var b0: int := s[0];
    if b0 < 0x80 then
      Some((b0 as char, 1))
    else if 0xC2 <= b0 <= 0xDF then
      if |s| >= 2 && IsContinuation(s[1]) then
        Some((((b0 - 0xC0) * 0x40 + (s[1] as int - 0x80)) as char, 2))
      else None
    else if 0xE0 <= b0 <= 0xEF then
      // E0 must not start an overlong form, ED must not start a surrogate
      var lo := if b0 == 0xE0 then 0xA0 else 0x80;
      var hi := if b0 == 0xED then 0x9F else 0xBF;
      if |s| >= 3 && lo <= s[1] <= hi && IsContinuation(s[2]) then
        Some((((b0 - 0xE0) * 0x1000 + (s[1] as int - 0x80) * 0x40 + (s[2] as int - 0x80)) as char, 3))
      else None
    else if 0xF0 <= b0 <= 0xF4 then
      // F0 must not start an overlong form, F4 must stay at or below U+10FFFF
      var lo := if b0 == 0xF0 then 0x90 else 0x80;
      var hi := if b0 == 0xF4 then 0x8F else 0xBF;
      if |s| >= 4 && lo <= s[1] <= hi && IsContinuation(s[2]) && IsContinuation(s[3]) then
        Some((((b0 - 0xF0) * 0x4_0000 + (s[1] as int - 0x80) * 0x1000 + (s[2] as int - 0x80) * 0x40 + (s[3] as int - 0x80)) as char, 4))
      else None
    else
      None
  }

  /** `std::str::from_utf8`: the text `s` encodes, or None when `s` is not well-formed UTF-8. */
  function Decode(s: seq<u8>): Option<string>
    decreases |s|
  {
    if s == [] then Some([])
    else
      var (c, n) :- DecodeFirst(s);
      var cs :- Decode(s[n..]);
      Some([c] + cs)
  }

  /** The UTF-8 encoding of one scalar value (the partner of DecodeFirst). */
  function EncodeChar(c: char): (r: seq<u8>)
    ensures 1 <= |r| <= 4
  {
    var v := c as int;
    if v < 0x80 then [v]
    else if v < 0x800 then [0xC0 + v / 0x40, 0x80 + v % 0x40]
    else if v < 0x1_0000 then [0xE0 + v / 0x1000, 0x80 + v / 0x40 % 0x40, 0x80 + v % 0x40]
    else [0xF0 + v / 0x4_0000, 0x80 + v / 0x1000 % 0x40, 0x80 + v / 0x40 % 0x40, 0x80 + v % 0x40]
  }

  function Encode(s: string): seq<u8> {
    if s == [] then [] else EncodeChar(s[0]) + Encode(s[1..])
  }

  /** Decoding the first sequence of an encoded character gives the character back. */
  lemma DecodeFirstEncodeChar(c: char, rest: seq<u8>)
    ensures DecodeFirst(EncodeChar(c) + rest) == Some((c, |EncodeChar(c)|))
  {
    var v := c as int;
    var s := EncodeChar(c) + rest;
    if v < 0x80 {
    } else if v < 0x800 {
      TwoByteForm(v, s);
    } else if v < 0x1_0000 {
      ThreeByteForm(v, s);
    } else {
      FourByteForm(v, s);
    }
  }

  lemma TwoByteForm(v: int, s: seq<u8>)
    requires 0x80 <= v < 0x800 && |s| >= 2
    requires s[0] == 0xC0 + v / 0x40 && s[1] == 0x80 + v % 0x40
    ensures 0xC2 <= s[0] <= 0xDF && IsContinuation(s[1])
    ensures (s[0] as int - 0xC0) * 0x40 + (s[1] as int - 0x80) == v
  {
  }

  lemma ThreeByteForm(v: int, s: seq<u8>)
    requires 0x800 <= v < 0x1_0000 && !(0xD800 <= v < 0xE000) && |s| >= 3
    requires s[0] == 0xE0 + v / 0x1000 && s[1] == 0x80 + v / 0x40 % 0x40 && s[2] == 0x80 + v % 0x40
    ensures 0xE0 <= s[0] <= 0xEF && IsContinuation(s[1]) && IsContinuation(s[2])
    ensures s[0] == 0xE0 ==> s[1] >= 0xA0
    ensures s[0] == 0xED ==> s[1] <= 0x9F
    ensures (s[0] as int - 0xE0) * 0x1000 + (s[1] as int - 0x80) * 0x40 + (s[2] as int - 0x80) == v
  {
  }

  lemma FourByteForm(v: int, s: seq<u8>)
    requires 0x1_0000 <= v < 0x11_0000 && |s| >= 4
    requires s[0] == 0xF0 + v / 0x4_0000 && s[1] == 0x80 + v / 0x1000 % 0x40
    requires s[2] == 0x80 + v / 0x40 % 0x40 && s[3] == 0x80 + v % 0x40
    ensures 0xF0 <= s[0] <= 0xF4 && IsContinuation(s[1]) && IsContinuation(s[2]) && IsContinuation(s[3])
    ensures s[0] == 0xF0 ==> s[1] >= 0x90
    ensures s[0] == 0xF4 ==> s[1] <= 0x8F
    ensures (s[0] as int - 0xF0) * 0x4_0000 + (s[1] as int - 0x80) * 0x1000 + (s[2] as int - 0x80) * 0x40 + (s[3] as int - 0x80) == v
  {
    var q := v / 0x40;
    assert v == q * 0x40 + v % 0x40;
    assert v / 0x1000 == q / 0x40;
    assert q == (q / 0x40) * 0x40 + q % 0x40;
    assert v / 0x4_0000 == q / 0x40 / 0x40;
  }

  /** Every text survives an encode/decode round trip. */
  lemma {:induction false} DecodeEncode(s: string)
    ensures Decode(Encode(s)) == Some(s)
  {
    if s != [] {
      var head := EncodeChar(s[0]);
      DecodeFirstEncodeChar(s[0], Encode(s[1..]));
      assert (head + Encode(s[1..]))[|head|..] == Encode(s[1..]);
      DecodeEncode(s[1..]);
      assert [s[0]] + s[1..] == s;
    }
  }

  /** Decoding is canonical: the bytes DecodeFirst accepts are exactly the encoding of what it returns. */
  lemma DecodeFirstIsCanonical(s: seq<u8>)
    requires |s| > 0 && DecodeFirst(s).Some?
    ensures EncodeChar(DecodeFirst(s).value.0) == s[..DecodeFirst(s).value.1]
  {
    var b0: int := s[0];
    if b0 < 0x80 {
      assert s[..1] == [s[0]];
    } else if 0xC2 <= b0 <= 0xDF {
      TwoByteIsCanonical(s[0], s[1]);
      assert s[..2] == [s[0], s[1]];
    } else if 0xE0 <= b0 <= 0xEF {
      ThreeByteIsCanonical(s[0], s[1], s[2]);
      assert s[..3] == [s[0], s[1], s[2]];
    } else {
      FourByteIsCanonical(s[0], s[1], s[2], s[3]);
      assert s[..4] == [s[0], s[1], s[2], s[3]];
    }
  }

  lemma TwoByteIsCanonical(b0: u8, b1: u8)
    requires 0xC2 <= b0 <= 0xDF && IsContinuation(b1)
    ensures EncodeChar(((b0 as int - 0xC0) * 0x40 + (b1 as int - 0x80)) as char) == [b0, b1]
  {
  }

  lemma ThreeByteIsCanonical(b0: u8, b1: u8, b2: u8)
    requires 0xE0 <= b0 <= 0xEF && IsContinuation(b1) && IsContinuation(b2)
    requires b0 == 0xE0 ==> b1 >= 0xA0
    requires b0 == 0xED ==> b1 <= 0x9F
    ensures EncodeChar(((b0 as int - 0xE0) * 0x1000 + (b1 as int - 0x80) * 0x40 + (b2 as int - 0x80)) as char) == [b0, b1, b2]
  {
    var q := (b0 as int - 0xE0) * 0x40 + (b1 as int - 0x80);
    var v := q * 0x40 + (b2 as int - 0x80);
    assert v / 0x40 == q && v % 0x40 == b2 as int - 0x80;
    assert q / 0x40 == b0 as int - 0xE0 && q % 0x40 == b1 as int - 0x80;
    assert v / 0x1000 == q / 0x40;
    assert 0x800 <= v < 0x1_0000;
  }

  lemma FourByteIsCanonical(b0: u8, b1: u8, b2: u8, b3: u8)
    requires 0xF0 <= b0 <= 0xF4 && IsContinuation(b1) && IsContinuation(b2) && IsContinuation(b3)
    requires b0 == 0xF0 ==> b1 >= 0x90
    requires b0 == 0xF4 ==> b1 <= 0x8F
    ensures EncodeChar(((b0 as int - 0xF0) * 0x4_0000 + (b1 as int - 0x80) * 0x1000
      + (b2 as int - 0x80) * 0x40 + (b3 as int - 0x80)) as char) == [b0, b1, b2, b3]
  {
    var p := (b0 as int - 0xF0) * 0x40 + (b1 as int - 0x80);
    var q := p * 0x40 + (b2 as int - 0x80);
    var v := q * 0x40 + (b3 as int - 0x80);
    assert v / 0x40 == q && v % 0x40 == b3 as int - 0x80;
    assert q / 0x40 == p && q % 0x40 == b2 as int - 0x80;
    assert p / 0x40 == b0 as int - 0xF0 && p % 0x40 == b1 as int - 0x80;
    assert v / 0x1000 == q / 0x40;
    assert v / 0x4_0000 == p / 0x40;
    assert 0x1_0000 <= v < 0x11_0000;
  }

  /** One step of Decode on non-empty input that decodes. */
  lemma DecodeStep(b: seq<u8>)
    requires b != [] && Decode(b).Some?
    ensures DecodeFirst(b).Some? && Decode(b[DecodeFirst(b).value.1..]).Some?
    ensures Decode(b).value == [DecodeFirst(b).value.0] + Decode(b[DecodeFirst(b).value.1..]).value
  {
  }

  /** One step of Encode on non-empty text. */
  lemma EncodeStep(c: char, cs: string)
    ensures Encode([c] + cs) == EncodeChar(c) + Encode(cs)
  {
    assert ([c] + cs)[1..] == cs;
  }

  /** Every byte sequence that decodes is the encoding of what it decodes to. */
  lemma {:induction false} EncodeDecode(b: seq<u8>)
    requires Decode(b).Some?
    ensures Encode(Decode(b).value) == b
    decreases |b|
  {
    if b != [] {
      DecodeStep(b);
      var d := DecodeFirst(b).value;
      var tail := b[d.1..];
      DecodeFirstIsCanonical(b);
      EncodeDecode(tail);
      EncodeStep(d.0, Decode(tail).value);
      SplitAt(b, d.1);
    }
  }

  lemma SplitAt(b: seq<u8>, n: nat)
    requires n <= |b|
    ensures b[..n] + b[n..] == b
  {
  }

  /** Bytes below 0x80 decode one-to-one into the characters with those codes. */
  lemma {:induction false} DecodeAscii(s: seq<u8>)
    requires forall k :: 0 <= k < |s| ==> s[k] < 0x80
    ensures Decode(s).Some?
    ensures |Decode(s).value| == |s|
    ensures forall k :: 0 <= k < |s| ==> Decode(s).value[k] as int == s[k]
  {
    if s != [] {
      DecodeAscii(s[1..]);
    }
  }
}
