/** The cell codec of src/crypt.rs: a string is encrypted by RSAES-PKCS1-v1_5 (section
    7.2 of RFC 8017) under the public key and written as lower-case hex; decryption runs
    hex decoding, RSA decryption and the UTF-8 check in that order, and reports the
    first stage that fails.

    The padding (EME-PKCS1-v1_5, as the `rsa` crate implements it) is modelled exactly.
    The RSA primitives themselves (RSAEP and RSADP with I2OSP/OS2IP) are functions held
    by the key pair; `Matching` states the one fact about them the codec relies on: the
    private primitive undoes the public one on every `k`-byte block whose first byte is
    zero, which is what makes such a block smaller than the modulus. The operating
    system's random generator is a stream of non-zero bytes passed in. */
module Crypt {
  import opened Wrappers
  import opened Utf8
  import opened Hex

  type NonZeroByte = b: int | 1 <= b < 0x100 witness 1

  /** The `rsa::errors::Error` values the codec can see: the message does not fit, the
      padding is malformed, or the raw primitive refused its input. */
  datatype RsaError = MessageTooLong | Decryption | Primitive

  /** `KeyPair(RsaPublicKey, RsaPrivateKey)`: the modulus length `k` in bytes and the two
      raw primitives on `k`-byte blocks. */
  datatype KeyPair = KeyPair(
    k: nat,
    encryptRaw: seq<Byte> -> Result<seq<Byte>, RsaError>,
    decryptRaw: seq<Byte> -> Result<seq<Byte>, RsaError>)

  /** The public and private halves belong to one RSA key. */
  ghost predicate Matching(kp: KeyPair) {
    forall em: seq<Byte> :: |em| == kp.k && 0 < kp.k && em[0] == 0 ==>
      && kp.encryptRaw(em).Ok?
      && |kp.encryptRaw(em).value| == kp.k
      && kp.decryptRaw(kp.encryptRaw(em).value) == Ok(em)
  }

  /** `DecryptionError`: the stage of `decrypt_string_from_hex` that failed. */
  datatype DecryptionError =
    | ParseHex(hexError: FromHexError)
    | Rsa(rsaError: RsaError)
    | ParseString(utf8Error: Utf8Error)

  // ---------------------------------------------------------------------------
  // EME-PKCS1-v1_5

  /** The padding string: `len` bytes drawn from the non-zero random stream. */
  function PaddingString(rng: nat -> NonZeroByte, len: nat): (ps: seq<Byte>)
    ensures |ps| == len && forall i :: 0 <= i < len ==> ps[i] != 0
  {
    seq(len, i requires 0 <= i < len => rng(i) as Byte)
  }

  /** `EM = 0x00 || 0x02 || PS || 0x00 || M`, with `PS` filling the block to `k` bytes. */
  function EmeEncode(k: nat, m: seq<Byte>, rng: nat -> NonZeroByte): (em: seq<Byte>)
    requires |m| + 11 <= k
    ensures |em| == k && em[0] == 0 && em[1] == 2 && em[k - |m| - 1] == 0 && em[k - |m|..] == m
    ensures em[2..k - |m| - 1] == PaddingString(rng, k - |m| - 3)
  {
    [0, 2] + PaddingString(rng, k - |m| - 3) + [0] + m
  }

  /** The first zero byte of `em` at or after `from`. */
  function FindZero(em: seq<Byte>, from: nat): (r: Option<nat>)
    ensures r.Some? ==>
      && from <= r.value < |em| && em[r.value] == 0
      && forall j :: from <= j < r.value ==> em[j] != 0
    ensures r.None? ==> forall j :: from <= j < |em| ==> em[j] != 0
    decreases |em| - from
  {
    if from >= |em| then None
    else if em[from] == 0 then Some(from)
    else FindZero(em, from + 1)
  }

  /** The unpadding of `decrypt_inner`: the block must start `0x00 0x02`, hold a zero
      separator, and have at least eight padding bytes before it. */
  function EmeDecode(em: seq<Byte>): (r: Result<seq<Byte>, RsaError>)
    ensures r.Err? ==> r.error == Decryption
    ensures r.Ok? ==>
      var sep := |em| - |r.value| - 1;
      && 10 <= sep && em[0] == 0 && em[1] == 2 && em[sep] == 0
      && (forall j :: 2 <= j < sep ==> em[j] != 0)
      && em[sep + 1..] == r.value
  {
    if |em| < 2 then Err(Decryption)
    else match FindZero(em, 2)
      case None => Err(Decryption)
      case Some(index) =>
        if em[0] == 0 && em[1] == 2 && index >= 10 then Ok(em[index + 1..]) else Err(Decryption)
  }

  /** `RsaPublicKey::encrypt` with `PaddingScheme::new_pkcs1v15_encrypt()`. */
  function Encrypt(kp: KeyPair, m: seq<Byte>, rng: nat -> NonZeroByte): Result<seq<Byte>, RsaError> {
    if |m| + 11 > kp.k then Err(MessageTooLong)
    else kp.encryptRaw(EmeEncode(kp.k, m, rng))
  }

  /** `RsaPrivateKey::decrypt` with `PaddingScheme::new_pkcs1v15_encrypt()`. */
  function Decrypt(kp: KeyPair, c: seq<Byte>): Result<seq<Byte>, RsaError> {
    if kp.k < 11 then Err(Decryption)
    else match kp.decryptRaw(c)
      case Err(e) => Err(e)
      case Ok(em) => EmeDecode(em)
  }

  /** Padding is undone whatever the random bytes were. */
  lemma EmeRoundTrip(k: nat, m: seq<Byte>, rng: nat -> NonZeroByte)
    requires |m| + 11 <= k
    ensures EmeDecode(EmeEncode(k, m, rng)) == Ok(m)
  {
    var em := EmeEncode(k, m, rng);
    var ps := PaddingString(rng, k - |m| - 3);
    assert forall j :: 2 <= j < k - |m| - 1 ==> em[j] == ps[j - 2];
    assert FindZero(em, 2) == Some(k - |m| - 1);
  }

  /** RSAES-PKCS1-v1_5 round trip for a matching key pair. */
  lemma DecryptEncrypt(kp: KeyPair, m: seq<Byte>, rng: nat -> NonZeroByte)
    requires Matching(kp)
    ensures Encrypt(kp, m, rng).Ok? <==> |m| + 11 <= kp.k
    ensures Encrypt(kp, m, rng).Ok? ==>
      |Encrypt(kp, m, rng).value| == kp.k && Decrypt(kp, Encrypt(kp, m, rng).value) == Ok(m)
  {
    if |m| + 11 <= kp.k {
      var em := EmeEncode(kp.k, m, rng);
      assert kp.encryptRaw(em).Ok?;
      EmeRoundTrip(kp.k, m, rng);
    }
  }

  // ---------------------------------------------------------------------------
  // The codec

  /** `encrypt_string_to_hex`: the hex text of the ciphertext of the string's UTF-8
      bytes; an RSA error is returned as it is. */
  function EncryptStringToHex(kp: KeyPair, s: string, rng: nat -> NonZeroByte): (r: Result<string, RsaError>)
    ensures r.Ok? <==> Encrypt(kp, Utf8.Encode(s), rng).Ok?
    ensures r.Err? ==> r.error == Encrypt(kp, Utf8.Encode(s), rng).error
    ensures r.Ok? ==>
      var c := Encrypt(kp, Utf8.Encode(s), rng).value;
      |r.value| == 2 * |c| && DecodeHex(r.value) == Ok(c) && r.value == EncodeHex(c)
  {
    match Encrypt(kp, Utf8.Encode(s), rng)
    case Err(e) => Err(e)
    case Ok(c) =>
      DecodeEncodeHex(c);
      Ok(EncodeHex(c))
  }

  /** `decrypt_string_from_hex`. */
  function DecryptStringFromHex(kp: KeyPair, hex: string): Result<string, DecryptionError> {
    match DecodeHex(hex)
    case Err(e) => Err(ParseHex(e))
    case Ok(c) =>
      match Decrypt(kp, c)
      case Err(e) => Err(Rsa(e))
      case Ok(m) =>
        match Utf8.Decode(m)
        case Err(e) => Err(ParseString(e))
        case Ok(s) => Ok(s)
  }

  /** The error names the first stage that fails: text that is not hex is refused before
      any key is used (so every key pair gives the same answer), then an RSA failure,
      then bytes that are not UTF-8. */
  lemma DecryptionErrorOrder(kp: KeyPair, other: KeyPair, hex: string)
    ensures DecodeHex(hex).Err? ==>
      DecryptStringFromHex(kp, hex) == Err(ParseHex(DecodeHex(hex).error))
      && DecryptStringFromHex(other, hex) == DecryptStringFromHex(kp, hex)
    ensures DecodeHex(hex).Ok? && Decrypt(kp, DecodeHex(hex).value).Err? ==>
      DecryptStringFromHex(kp, hex) == Err(Rsa(Decrypt(kp, DecodeHex(hex).value).error))
    ensures DecodeHex(hex).Ok? && Decrypt(kp, DecodeHex(hex).value).Ok? ==>
      var m := Decrypt(kp, DecodeHex(hex).value).value;
      DecryptStringFromHex(kp, hex) == (if Utf8.Decode(m).Ok? then Ok(Utf8.Decode(m).value)
                                        else Err(ParseString(Utf8.Decode(m).error)))
  {
  }

  /** A string encrypted under a matching key pair decrypts back to itself; encryption
      fails exactly when its UTF-8 bytes do not fit in the block with eleven bytes of
      padding. */
  lemma CodecRoundTrip(kp: KeyPair, s: string, rng: nat -> NonZeroByte)
    requires Matching(kp)
    ensures EncryptStringToHex(kp, s, rng).Ok? <==> |Utf8.Encode(s)| + 11 <= kp.k
    ensures EncryptStringToHex(kp, s, rng).Ok? ==>
      |EncryptStringToHex(kp, s, rng).value| == 2 * kp.k
      && DecryptStringFromHex(kp, EncryptStringToHex(kp, s, rng).value) == Ok(s)
  {
    var m := Utf8.Encode(s);
    DecryptEncrypt(kp, m, rng);
    if |m| + 11 <= kp.k {
      var c := Encrypt(kp, m, rng).value;
      DecodeEncodeHex(c);
      DecodeEncode(s);
    }
  }
}
