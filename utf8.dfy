/** UTF-8 as Rust's `str::as_bytes` and `String::from_utf8` see it.

    A Dafny `char` is a Unicode scalar value, so every string has exactly one UTF-8
    encoding. Decoding validates the bytes as `String::from_utf8` does (well-formed
    sequences of table 3-7 of the Unicode standard: no overlong forms, no surrogates,
    nothing above U+10FFFF) and reports the length of the longest valid prefix. */
module Utf8 {
  import opened Wrappers

  type Byte = b: int | 0 <= b < 0x100

  /** `FromUtf8Error`: the bytes before `validUpTo` are valid UTF-8, the sequence
      starting there is not. */
  datatype Utf8Error = Utf8Error(validUpTo: nat)

  predicate IsContinuation(b: Byte) {
    0x80 <= b < 0xC0
  }

  /** The bytes of one scalar value, shortest form. */
  function EncodeChar(c: char): (r: seq<Byte>)
    ensures 1 <= |r| <= 4
  {
    var cp := c as int;
    if cp < 0x80 then [cp]
    else if cp < 0x800 then [0xC0 + cp / 0x40, 0x80 + cp % 0x40]
    else if cp < 0x10000 then [0xE0 + cp / 0x1000, 0x80 + (cp / 0x40) % 0x40, 0x80 + cp % 0x40]
    else [0xF0 + cp / 0x40000, 0x80 + (cp / 0x1000) % 0x40, 0x80 + (cp / 0x40) % 0x40, 0x80 + cp % 0x40]
  }

  /** `str::as_bytes`. */
  function Encode(s: string): (r: seq<Byte>)
    ensures |r| >= |s|
  {
    if |s| == 0 then [] else EncodeChar(s[0]) + Encode(s[1..])
  }

  /** The bounds table 3-7 puts on the second byte of a sequence led by `b0`. */
  function SecondByteLow(b0: Byte): Byte {
    if b0 == 0xE0 then 0xA0 else if b0 == 0xF0 then 0x90 else 0x80
  }

  function SecondByteHigh(b0: Byte): Byte {
    if b0 == 0xED then 0x9F else if b0 == 0xF4 then 0x8F else 0xBF
  }

  /** The value carried by a lead byte and its continuation bytes. */
  function Combine2(b0: int, b1: int): int { (b0 - 0xC0) * 0x40 + (b1 - 0x80) }
  function Combine3(b0: int, b1: int, b2: int): int { (b0 - 0xE0) * 0x1000 + (b1 - 0x80) * 0x40 + (b2 - 0x80) }
  function Combine4(b0: int, b1: int, b2: int, b3: int): int {
    (b0 - 0xF0) * 0x40000 + (b1 - 0x80) * 0x1000 + (b2 - 0x80) * 0x40 + (b3 - 0x80)
  }

  /** The scalar value at the front of `b` and the number of bytes it takes, if the
      bytes there form a well-formed sequence. */
  function DecodeFirst(b: seq<Byte>): (r: Option<(char, nat)>)
    ensures r.Some? ==> 1 <= r.value.1 <= |b| && r.value.1 <= 4
  {
    if |b| == 0 then None
    else
      var b0 := b[0];
      if b0 < 0x80 then Some((b0 as char, 1))
      else if 0xC2 <= b0 <= 0xDF then
        if |b| < 2 || !IsContinuation(b[1]) then None
        else Some((Combine2(b0, b[1]) as char, 2))
      else if 0xE0 <= b0 <= 0xEF then
        if |b| < 3 || !(SecondByteLow(b0) <= b[1] <= SecondByteHigh(b0)) || !IsContinuation(b[2]) then None
        else
          var cp := Combine3(b0, b[1], b[2]);
          assert cp < 0xD800 || 0xE000 <= cp < 0x10000;
          Some((cp as char, 3))
      else if 0xF0 <= b0 <= 0xF4 then
        if |b| < 4 || !(SecondByteLow(b0) <= b[1] <= SecondByteHigh(b0))
           || !IsContinuation(b[2]) || !IsContinuation(b[3]) then None
        else
          var cp := Combine4(b0, b[1], b[2], b[3]);
          assert 0x10000 <= cp < 0x110000;
          Some((cp as char, 4))
      else None
  }

  /** `String::from_utf8`. */
  function Decode(b: seq<Byte>): (r: Result<string, Utf8Error>)
    ensures r.Err? ==> r.error.validUpTo < |b|
    decreases |b|
  {
    if |b| == 0 then Ok([])
    else match DecodeFirst(b)
      case None => Err(Utf8Error(0))
      case Some((c, n)) =>
        match Decode(b[n..])
        case Ok(s) => Ok([c] + s)
        case Err(e) => Err(Utf8Error(n + e.validUpTo))
  }

  // ---------------------------------------------------------------------------
  // Round trips

  /** The decoder reads back each encoded scalar value, whatever follows it. */
  lemma DecodeFirstEncodeChar(c: char, rest: seq<Byte>)
    ensures DecodeFirst(EncodeChar(c) + rest) == Some((c, |EncodeChar(c)|))
  {
    var cp := c as int;
    if cp < 0x80 {
    } else if cp < 0x800 {
      Split2(cp);
    } else if cp < 0x10000 {
      Split3(cp);
    } else {
      Split4(cp);
    }
  }

  lemma Split2(cp: int)
    requires 0x80 <= cp < 0x800
    ensures Combine2(0xC0 + cp / 0x40, 0x80 + cp % 0x40) == cp
  {
  }

  lemma Split3(cp: int)
    requires 0x800 <= cp < 0x10000
    ensures Combine3(0xE0 + cp / 0x1000, 0x80 + (cp / 0x40) % 0x40, 0x80 + cp % 0x40) == cp
    ensures cp / 0x1000 == 0 ==> (cp / 0x40) % 0x40 >= 0x20
    ensures cp / 0x1000 == 0xD && (cp < 0xD800 || cp >= 0xE000) ==> (cp / 0x40) % 0x40 < 0x20
  {
    assert cp / 0x40 == (cp / 0x1000) * 0x40 + (cp / 0x40) % 0x40;
  }

  lemma Split4(cp: int)
    requires 0x10000 <= cp < 0x110000
    ensures Combine4(0xF0 + cp / 0x40000, 0x80 + (cp / 0x1000) % 0x40, 0x80 + (cp / 0x40) % 0x40, 0x80 + cp % 0x40) == cp
    ensures cp / 0x40000 == 0 ==> (cp / 0x1000) % 0x40 >= 0x10
    ensures cp / 0x40000 == 4 ==> (cp / 0x1000) % 0x40 < 0x10
    ensures cp / 0x40000 <= 4
  {
    assert cp / 0x40 == (cp / 0x1000) * 0x40 + (cp / 0x40) % 0x40;
    assert cp / 0x1000 == (cp / 0x40000) * 0x40 + (cp / 0x1000) % 0x40;
  }

  /** The bytes a decoded scalar value took are exactly its encoding. */
  lemma EncodeCharDecodeFirst(b: seq<Byte>)
    requires DecodeFirst(b).Some?
    ensures var (c, n) := DecodeFirst(b).value; b[..n] == EncodeChar(c)
  {
    var (c, n) := DecodeFirst(b).value;
    if n == 2 {
      Join2(b[0], b[1]);
    } else if n == 3 {
      Join3(b[0], b[1], b[2]);
    } else if n == 4 {
      Join4(b[0], b[1], b[2], b[3]);
    }
  }

  lemma Join2(b0: int, b1: int)
    requires 0xC2 <= b0 <= 0xDF && 0x80 <= b1 < 0xC0
    ensures var cp := Combine2(b0, b1); 0x80 <= cp < 0x800 && cp / 0x40 == b0 - 0xC0 && cp % 0x40 == b1 - 0x80
  {
  }

  lemma Join3(b0: int, b1: int, b2: int)
    requires 0xE0 <= b0 <= 0xEF && 0x80 <= b1 < 0xC0 && 0x80 <= b2 < 0xC0
    requires b0 == 0xE0 ==> b1 >= 0xA0
    ensures var cp := Combine3(b0, b1, b2);
      && 0x800 <= cp < 0x10000
      && cp / 0x1000 == b0 - 0xE0 && (cp / 0x40) % 0x40 == b1 - 0x80 && cp % 0x40 == b2 - 0x80
  {
    var cp := Combine3(b0, b1, b2);
    assert cp / 0x40 == (b0 - 0xE0) * 0x40 + (b1 - 0x80);
  }

  lemma Join4(b0: int, b1: int, b2: int, b3: int)
    requires 0xF0 <= b0 <= 0xF4 && 0x80 <= b1 < 0xC0 && 0x80 <= b2 < 0xC0 && 0x80 <= b3 < 0xC0
    requires b0 == 0xF0 ==> b1 >= 0x90
    ensures var cp := Combine4(b0, b1, b2, b3);
      && 0x10000 <= cp
      && cp / 0x40000 == b0 - 0xF0 && (cp / 0x1000) % 0x40 == b1 - 0x80
      && (cp / 0x40) % 0x40 == b2 - 0x80 && cp % 0x40 == b3 - 0x80
  {
    var cp := Combine4(b0, b1, b2, b3);
    assert cp / 0x40 == (b0 - 0xF0) * 0x1000 + (b1 - 0x80) * 0x40 + (b2 - 0x80);
    assert cp / 0x1000 == (b0 - 0xF0) * 0x40 + (b1 - 0x80);
  }

  /** Decoding the bytes of a string gives the string back. */
  lemma {:induction false} DecodeEncode(s: string)
    ensures Decode(Encode(s)) == Ok(s)
    decreases |s|
  {
    if |s| > 0 {
      var b := Encode(s);
      var head := EncodeChar(s[0]);
      DecodeFirstEncodeChar(s[0], Encode(s[1..]));
      assert b[|head|..] == Encode(s[1..]);
      DecodeEncode(s[1..]);
      assert [s[0]] + s[1..] == s;
    }
  }

  /** Bytes that decode are the encoding of what they decode to. */
  lemma {:induction false} EncodeDecode(b: seq<Byte>)
    requires Decode(b).Ok?
    ensures Encode(Decode(b).value) == b
    decreases |b|
  {
    if |b| > 0 {
      var c, n, rest := DecodeStep(b);
      EncodeDecode(b[n..]);
      EncodeCons(c, rest);
      assert b == b[..n] + b[n..];
    }
  }

  /** A non-empty input that decodes is the encoding of its first scalar value, then
      bytes that decode to the rest. */
  lemma DecodeStep(b: seq<Byte>) returns (c: char, n: nat, rest: string)
    requires |b| > 0 && Decode(b).Ok?
    ensures 1 <= n <= |b| && b[..n] == EncodeChar(c)
    ensures Decode(b[n..]) == Ok(rest) && Decode(b).value == [c] + rest
  {
    var first := DecodeFirst(b).value;
    c, n := first.0, first.1;
    rest := Decode(b[n..]).value;
    EncodeCharDecodeFirst(b);
  }

  lemma EncodeCons(c: char, rest: string)
    ensures Encode([c] + rest) == EncodeChar(c) + Encode(rest)
  {
    assert ([c] + rest)[1..] == rest;
  }

  /** Whether the front of `b` decodes depends only on the bytes the sequence takes. */
  lemma DecodeFirstPrefix(b: seq<Byte>, t: seq<Byte>)
    requires DecodeFirst(b).Some? && DecodeFirst(b).value.1 <= |t|
    requires t[..DecodeFirst(b).value.1] == b[..DecodeFirst(b).value.1]
    ensures DecodeFirst(t) == DecodeFirst(b)
  {
    var n := DecodeFirst(b).value.1;
    assert forall i :: 0 <= i < n ==> t[i] == b[i] by {
      forall i | 0 <= i < n ensures t[i] == b[i] {
        assert t[..n][i] == b[..n][i];
      }
    }
  }

  /** The bytes before the reported error position are valid UTF-8. */
  lemma {:induction false} ValidUpToDecodes(b: seq<Byte>)
    requires Decode(b).Err?
    ensures Decode(b[..Decode(b).error.validUpTo]).Ok?
    decreases |b|
  {
    var v := Decode(b).error.validUpTo;
    if DecodeFirst(b).Some? {
      var (c, n) := DecodeFirst(b).value;
      var rest := b[n..];
      ValidUpToDecodes(rest);
      var w := Decode(rest).error.validUpTo;
      assert v == n + w;
      var p := b[..v];
      DecodeFirstPrefix(b, p);
      assert p[n..] == rest[..w];
    }
  }
}
