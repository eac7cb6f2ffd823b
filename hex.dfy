/** Base16 as the `hex` crate implements it (section 8 of RFC 4648): `hex::encode`
    writes two lower-case digits per byte, high nibble first; `hex::decode` reads the
    UTF-8 bytes of its text argument, refuses an odd number of bytes before looking at
    any of them, and otherwise accepts digits of either case, reporting the first byte
    that is not a digit together with its byte index. */
module Hex {
  import opened Wrappers
  import opened Utf8

  /** `hex::FromHexError` as `hex::decode` can return it. */
  datatype FromHexError = OddLength | InvalidHexCharacter(c: char, index: nat)

  /** The lower-case digit of a nibble. */
  function HexDigit(n: nat): (c: char)
    requires n < 16
    ensures c as int < 0x80
  {
    if n < 10 then ('0' as int + n) as char else ('a' as int + n - 10) as char
  }

  /** The value of one hex digit byte, of either case. */
  function HexValue(b: Byte): (r: Option<nat>)
    ensures r.Some? ==> r.value < 16
  {
    if '0' as int <= b <= '9' as int then Some(b - '0' as int)
    else if 'a' as int <= b <= 'f' as int then Some(b - 'a' as int + 10)
    else if 'A' as int <= b <= 'F' as int then Some(b - 'A' as int + 10)
    else None
  }

  /** `hex::encode`. */
  function EncodeHex(b: seq<Byte>): (r: string)
    ensures |r| == 2 * |b|
    ensures forall i :: 0 <= i < |r| ==> r[i] as int < 0x80 && HexValue(r[i] as int).Some?
  {
    if |b| == 0 then []
    else [HexDigit(b[0] / 16), HexDigit(b[0] % 16)] + EncodeHex(b[1..])
  }

  /** The digit pairs of `h`, whose first byte sits at index `base` of the input. */
  function DecodePairs(h: seq<Byte>, base: nat): (r: Result<seq<Byte>, FromHexError>)
    requires |h| % 2 == 0
    ensures r.Ok? ==> |r.value| * 2 == |h|
    ensures r.Err? ==> r.error.InvalidHexCharacter?
    decreases |h|
  {
    if |h| == 0 then Ok([])
    else match HexValue(h[0])
      case None => Err(InvalidHexCharacter(h[0] as char, base))
      case Some(hi) =>
        match HexValue(h[1])
        case None => Err(InvalidHexCharacter(h[1] as char, base + 1))
        case Some(lo) =>
          match DecodePairs(h[2..], base + 2)
          case Ok(rest) => Ok([hi * 16 + lo] + rest)
          case Err(e) => Err(e)
  }

  /** `hex::decode` on bytes. */
  function DecodeHexBytes(h: seq<Byte>): Result<seq<Byte>, FromHexError> {
    if |h| % 2 != 0 then Err(OddLength) else DecodePairs(h, 0)
  }

  /** `hex::decode` on a `&str`: the bytes are its UTF-8 encoding. */
  function DecodeHex(s: string): Result<seq<Byte>, FromHexError> {
    DecodeHexBytes(Utf8.Encode(s))
  }

  // ---------------------------------------------------------------------------
  // Properties

  /** The bytes of an ASCII string are its character codes. */
  lemma {:induction false} EncodeAscii(s: string)
    requires forall i :: 0 <= i < |s| ==> s[i] as int < 0x80
    ensures Utf8.Encode(s) == seq(|s|, i requires 0 <= i < |s| => s[i] as int)
    decreases |s|
  {
    if |s| > 0 {
      EncodeAscii(s[1..]);
    }
  }

  /** `hex::encode` writes lower-case digits only. */
  lemma {:induction false} EncodeHexLowerCase(b: seq<Byte>)
    ensures forall i :: 0 <= i < |EncodeHex(b)| ==> '0' <= EncodeHex(b)[i] <= '9' || 'a' <= EncodeHex(b)[i] <= 'f'
    decreases |b|
  {
    if |b| > 0 {
      EncodeHexLowerCase(b[1..]);
      var tail := EncodeHex(b[1..]);
      assert EncodeHex(b) == [HexDigit(b[0] / 16), HexDigit(b[0] % 16)] + tail;
      assert forall i :: 2 <= i < |EncodeHex(b)| ==> EncodeHex(b)[i] == tail[i - 2];
    }
  }

  /** Every digit reads back as its nibble. */
  lemma HexValueOfDigit(n: nat)
    requires n < 16
    ensures HexValue(HexDigit(n) as int) == Some(n)
  {
  }

  /** One step of the decoder over two valid digits. */
  lemma DecodePairsCons(h: seq<Byte>, base: nat)
    requires |h| >= 2 && |h| % 2 == 0 && HexValue(h[0]).Some? && HexValue(h[1]).Some?
    requires DecodePairs(h[2..], base + 2).Ok?
    ensures DecodePairs(h, base)
      == Ok([HexValue(h[0]).value * 16 + HexValue(h[1]).value] + DecodePairs(h[2..], base + 2).value)
  {
  }

  /** Decoding pairs written by the encoder gives the bytes back. */
  lemma {:induction false} DecodePairsEncode(b: seq<Byte>, base: nat)
    ensures var e := EncodeHex(b);
      DecodePairs(seq(|e|, i requires 0 <= i < |e| => e[i] as int), base) == Ok(b)
    decreases |b|
  {
    if |b| > 0 {
      var e := EncodeHex(b);
      var h := seq(|e|, i requires 0 <= i < |e| => e[i] as int);
      var tail := EncodeHex(b[1..]);
      var hi, lo := HexDigit(b[0] / 16), HexDigit(b[0] % 16);
      assert e == [hi, lo] + tail;
      DecodePairsEncode(b[1..], base + 2);
      assert h[2..] == seq(|tail|, i requires 0 <= i < |tail| => tail[i] as int);
      HexValueOfDigit(b[0] / 16);
      HexValueOfDigit(b[0] % 16);
      assert h[0] == hi as int && h[1] == lo as int;
      DecodePairsCons(h, base);
      assert [b[0]] + b[1..] == b;
    }
  }

  /** `hex::decode(hex::encode(b)) == Ok(b)`. The proof is direct; automatic induction on
      `b` is switched off because its hypothesis only slows the proof down. */
  lemma {:induction false} DecodeEncodeHex(b: seq<Byte>)
    ensures DecodeHex(EncodeHex(b)) == Ok(b)
  {
    var e := EncodeHex(b);
    var h := seq(|e|, i requires 0 <= i < |e| => e[i] as int);
    assert Utf8.Encode(e) == h by { EncodeAscii(e); }
    assert DecodePairs(h, 0) == Ok(b) by { DecodePairsEncode(b, 0); }
    assert |h| % 2 == 0;
  }

  /** The decoder fails exactly when some byte is not a hex digit, and then it names the
      first such byte and its index. */
  lemma {:induction false} DecodePairsFirstInvalid(h: seq<Byte>, base: nat)
    requires |h| % 2 == 0
    ensures DecodePairs(h, base).Ok? <==> forall i :: 0 <= i < |h| ==> HexValue(h[i]).Some?
    ensures DecodePairs(h, base).Err? ==>
      var InvalidHexCharacter(c, index) := DecodePairs(h, base).error;
      && base <= index < base + |h|
      && HexValue(h[index - base]).None?
      && c == h[index - base] as char
      && forall j :: 0 <= j < index - base ==> HexValue(h[j]).Some?
    decreases |h|
  {
    if |h| > 0 {
      DecodePairsFirstInvalid(h[2..], base + 2);
      assert forall i :: 2 <= i < |h| ==> h[i] == h[2..][i - 2];
    }
  }

  /** Each decoded byte is the high digit of its pair times 16 plus the low digit. */
  lemma {:induction false} DecodePairsValues(h: seq<Byte>, base: nat)
    requires |h| % 2 == 0 && DecodePairs(h, base).Ok?
    ensures forall k :: 0 <= k < |h| / 2 ==>
      HexValue(h[2 * k]).Some? && HexValue(h[2 * k + 1]).Some? &&
      DecodePairs(h, base).value[k] == HexValue(h[2 * k]).value * 16 + HexValue(h[2 * k + 1]).value
    decreases |h|
  {
    if |h| > 0 {
      DecodePairsValues(h[2..], base + 2);
      var r := DecodePairs(h, base).value;
      var rest := DecodePairs(h[2..], base + 2).value;
      assert r == [HexValue(h[0]).value * 16 + HexValue(h[1]).value] + rest;
      forall k | 1 <= k < |h| / 2
        ensures HexValue(h[2 * k]).Some? && HexValue(h[2 * k + 1]).Some?
        ensures r[k] == HexValue(h[2 * k]).value * 16 + HexValue(h[2 * k + 1]).value
      {
        assert h[2 * k] == h[2..][2 * (k - 1)] && h[2 * k + 1] == h[2..][2 * (k - 1) + 1];
        assert r[k] == rest[k - 1];
      }
    }
  }

  /** `hex::decode` on text: an odd byte count wins over any bad digit; otherwise the
      first byte that is not a digit is reported. */
  lemma DecodeHexErrors(s: string)
    ensures var h := Utf8.Encode(s);
      && (DecodeHex(s) == Err(OddLength) <==> |h| % 2 != 0)
      && (DecodeHex(s).Ok? <==> |h| % 2 == 0 && forall i :: 0 <= i < |h| ==> HexValue(h[i]).Some?)
      && (DecodeHex(s).Err? && DecodeHex(s).error.InvalidHexCharacter? ==>
            var index := DecodeHex(s).error.index;
            && index < |h| && HexValue(h[index]).None? && DecodeHex(s).error.c == h[index] as char
            && forall j :: 0 <= j < index ==> HexValue(h[j]).Some?)
  {
    var h := Utf8.Encode(s);
    if |h| % 2 == 0 {
      DecodePairsFirstInvalid(h, 0);
    }
  }
}
