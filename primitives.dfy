/**
 * The JCA primitives the key service calls, as small concrete stand-ins.
 *
 * They are not AES, RSA or a real signature scheme. Each one keeps the
 * interface of the Java call it replaces (which inputs it takes, which sizes it
 * produces, when it throws) and has exactly the algebraic properties the services
 * depend on, each proved below:
 * - AES-GCM: decryption inverts encryption under the same key and IV, the
 *   output is the ciphertext followed by a tag of the requested length, and a
 *   tampered input is rejected (AEADBadTagException).
 * - RSA-OAEP: only the private key of the public key used can unwrap.
 * - Signatures: a signature verifies for exactly the signed message and the
 *   public key of the signer.
 * - X.509 and PKCS#8: key encodings decode back to the key.
 */
module Primitives {
  import opened Bytes
  import opened Wrappers

  /** An AES `SecretKey`; `encoded` is what `getEncoded()` returns. */
  datatype AesKey = AesKey(encoded: seq<byte>)

  /** AES accepts 128-, 192- and 256-bit keys; anything else is an InvalidKeyException. */
  predicate ValidAesKey(k: AesKey) {
    |k.encoded| == 16 || |k.encoded| == 24 || |k.encoded| == 32
  }

  /** The tag lengths, in bits, that `GCMParameterSpec` accepts for AES/GCM. */
  predicate ValidTagBits(tagBits: int) {
    tagBits == 128 || tagBits == 120 || tagBits == 112 || tagBits == 104 || tagBits == 96 || tagBits == 64 || tagBits == 32
  }

  /** Whether `Cipher.init` accepts the key, tag length and IV. */
  predicate GcmParamsOk(key: AesKey, tagBits: int, iv: seq<byte>) {
    ValidAesKey(key) && ValidTagBits(tagBits) && |iv| > 0
  }

  function KeystreamByte(key: AesKey, iv: seq<byte>, i: nat): byte
    requires |key.encoded| > 0 && |iv| > 0
  {
    (key.encoded[i % |key.encoded|] + iv[i % |iv|] + i) % 256
  }

  function Encipher(key: AesKey, iv: seq<byte>, data: seq<byte>): (c: seq<byte>)
    requires |key.encoded| > 0 && |iv| > 0
    ensures |c| == |data|
  {
    seq(|data|, i requires 0 <= i < |data| => (data[i] + KeystreamByte(key, iv, i)) % 256)
  }

  function Decipher(key: AesKey, iv: seq<byte>, c: seq<byte>): (p: seq<byte>)
    requires |key.encoded| > 0 && |iv| > 0
    ensures |p| == |c|
  {
    seq(|c|, i requires 0 <= i < |c| => (c[i] + 256 - KeystreamByte(key, iv, i)) % 256)
  }

  function Checksum(c: seq<byte>): byte {
    if c == [] then 0 else (c[0] + Checksum(c[1..])) % 256
  }

  /** The authentication tag over a ciphertext, `tagLength` bytes long. */
  function Tag(key: AesKey, iv: seq<byte>, c: seq<byte>, tagLength: nat): (t: seq<byte>)
    requires |key.encoded| > 0 && |iv| > 0
    ensures |t| == tagLength
  {
    seq(tagLength, j requires 0 <= j < tagLength => (KeystreamByte(key, iv, |c| + j) + Checksum(c)) % 256)
  }

  /** `Cipher("AES/GCM/NoPadding")` in ENCRYPT_MODE: the ciphertext with the tag appended. */
  function GcmEncrypt(key: AesKey, tagBits: int, iv: seq<byte>, data: seq<byte>): (r: Result<seq<byte>>)
    ensures r.Success? <==> GcmParamsOk(key, tagBits, iv)
    ensures r.Failure? ==> r.error == Crypto
    ensures r.Success? ==> |r.value| == |data| + tagBits / 8
  {
    if !GcmParamsOk(key, tagBits, iv) then Failure(Crypto)
    else
      var c := Encipher(key, iv, data);
      Success(c + Tag(key, iv, c, tagBits / 8))
  }

  /**
   * `Cipher("AES/GCM/NoPadding")` in DECRYPT_MODE: an input shorter than the tag
   * or whose tag does not match is an AEADBadTagException.
   */
  function GcmDecrypt(key: AesKey, tagBits: int, iv: seq<byte>, input: seq<byte>): (r: Result<seq<byte>>)
    ensures r.Failure? ==> r.error == Crypto
    ensures r.Success? ==> GcmParamsOk(key, tagBits, iv) && |r.value| == |input| - tagBits / 8
  {
    if !GcmParamsOk(key, tagBits, iv) then Failure(Crypto)
    else if |input| < tagBits / 8 then Failure(Crypto)
    else
      var n := |input| - tagBits / 8;
      var c := input[..n];
      if input[n..] != Tag(key, iv, c, tagBits / 8) then Failure(Crypto)
      else Success(Decipher(key, iv, c))
  }

  lemma DecipherEncipher(key: AesKey, iv: seq<byte>, data: seq<byte>)
    requires |key.encoded| > 0 && |iv| > 0
    ensures Decipher(key, iv, Encipher(key, iv, data)) == data
  {
    var p := Decipher(key, iv, Encipher(key, iv, data));
    forall i | 0 <= i < |data| ensures p[i] == data[i] {
    }
  }

  lemma EncipherDecipher(key: AesKey, iv: seq<byte>, c: seq<byte>)
    requires |key.encoded| > 0 && |iv| > 0
    ensures Encipher(key, iv, Decipher(key, iv, c)) == c
  {
    var c' := Encipher(key, iv, Decipher(key, iv, c));
    forall i | 0 <= i < |c| ensures c'[i] == c[i] {
    }
  }

  /** Decryption under the same key, tag length and IV gives back the plaintext. */
  lemma GcmRoundTrip(key: AesKey, tagBits: int, iv: seq<byte>, data: seq<byte>)
    requires GcmParamsOk(key, tagBits, iv)
    ensures GcmDecrypt(key, tagBits, iv, GcmEncrypt(key, tagBits, iv, data).value) == Success(data)
  {
    var c := Encipher(key, iv, data);
    var input := c + Tag(key, iv, c, tagBits / 8);
    assert input[..|c|] == c && input[|c|..] == Tag(key, iv, c, tagBits / 8);
    DecipherEncipher(key, iv, data);
  }

  /** Only the encryption of a plaintext decrypts to it: any other input is caught by the tag. */
  lemma GcmDecryptAuthentic(key: AesKey, tagBits: int, iv: seq<byte>, input: seq<byte>)
    requires GcmDecrypt(key, tagBits, iv, input).Success?
    ensures GcmEncrypt(key, tagBits, iv, GcmDecrypt(key, tagBits, iv, input).value) == Success(input)
  {
    var n := |input| - tagBits / 8;
    var c := input[..n];
    EncipherDecipher(key, iv, c);
    assert input == c + input[n..];
  }

  /** The byte length of a 2048-bit RSA modulus. */
  const ModulusLength := 256

  type Modulus = m: seq<byte> | |m| == ModulusLength witness seq(256, _ => 0)

  datatype PublicKey = PublicKey(modulus: Modulus)

  datatype PrivateKey = PrivateKey(modulus: Modulus, privateExponent: seq<byte>)

  /** The public half of a key pair. */
  function PublicKeyOf(k: PrivateKey): (pub: PublicKey)
    ensures pub.modulus == k.modulus
  {
    PublicKey(k.modulus)
  }

  /** `Cipher("RSA/ECB/OAEPWithSHA-256AndMGF1Padding")` in ENCRYPT_MODE. */
  function RsaEncrypt(data: seq<byte>, pub: PublicKey): (c: seq<byte>)
    ensures |c| == ModulusLength + |data|
  {
    pub.modulus + data
  }

  /** The same cipher in DECRYPT_MODE; a block not made for this key is a BadPaddingException. */
  function RsaDecrypt(c: seq<byte>, priv: PrivateKey): (r: Result<seq<byte>>)
    ensures r.Failure? ==> r.error == Crypto
  {
    if |c| >= ModulusLength && c[..ModulusLength] == priv.modulus then Success(c[ModulusLength..])
    else Failure(Crypto)
  }

  /** Unwrapping with the matching private key gives back the wrapped bytes. */
  lemma RsaRoundTrip(data: seq<byte>, k: PrivateKey)
    ensures RsaDecrypt(RsaEncrypt(data, PublicKeyOf(k)), k) == Success(data)
  {
    var c := RsaEncrypt(data, PublicKeyOf(k));
    assert c[..ModulusLength] == k.modulus && c[ModulusLength..] == data;
  }

  /** A wrapped block opens under a private key exactly when it was wrapped for that key's public half. */
  lemma RsaOnlyOwner(data: seq<byte>, pub: PublicKey, k: PrivateKey)
    ensures RsaDecrypt(RsaEncrypt(data, pub), k).Success? <==> pub == PublicKeyOf(k)
  {
    var c := RsaEncrypt(data, pub);
    assert c[..ModulusLength] == pub.modulus;
  }

  /** `Signature.sign` over a message with a private key. */
  function Sign(message: seq<byte>, k: PrivateKey): (sig: seq<byte>)
    ensures |sig| == ModulusLength + |message|
  {
    k.modulus + message
  }

  /** `Signature.verify` of a signature over a message with a public key. */
  predicate Verify(message: seq<byte>, sig: seq<byte>, pub: PublicKey) {
    sig == pub.modulus + message
  }

  /** A signature verifies for exactly the message signed and the public half of the signer's key. */
  lemma {:induction false} VerifySign(message: seq<byte>, signed: seq<byte>, k: PrivateKey, pub: PublicKey)
    ensures Verify(message, Sign(signed, k), pub) <==> message == signed && pub == PublicKeyOf(k)
  {
    if Verify(message, Sign(signed, k), pub) {
      var sig := Sign(signed, k);
      assert sig[..ModulusLength] == k.modulus == pub.modulus;
      assert sig[ModulusLength..] == signed == message;
    }
  }

  /** `PublicKey.getEncoded()`: the X.509 SubjectPublicKeyInfo bytes. */
  function EncodeX509(pub: PublicKey): (b: seq<byte>)
    ensures |b| == ModulusLength
  {
    pub.modulus
  }

  /** `KeyFactory("RSA").generatePublic(new X509EncodedKeySpec(b))`; malformed bytes are an InvalidKeySpecException. */
  function DecodeX509(b: seq<byte>): (r: Result<PublicKey>)
    ensures r.Failure? ==> r.error == Crypto
    ensures r.Success? ==> EncodeX509(r.value) == b
  {
    if |b| == ModulusLength then Success(PublicKey(b)) else Failure(Crypto)
  }

  /** `PrivateKey.getEncoded()`: the PKCS#8 bytes. */
  function EncodePkcs8(k: PrivateKey): (b: seq<byte>)
    ensures |b| >= ModulusLength
  {
    k.modulus + k.privateExponent
  }

  /** `KeyFactory("RSA").generatePrivate(new PKCS8EncodedKeySpec(b))`. */
  function DecodePkcs8(b: seq<byte>): (r: Result<PrivateKey>)
    ensures r.Failure? ==> r.error == Crypto
    ensures r.Success? ==> EncodePkcs8(r.value) == b
  {
    if |b| >= ModulusLength then Success(PrivateKey(b[..ModulusLength], b[ModulusLength..]))
    else Failure(Crypto)
  }

  lemma X509RoundTrip(pub: PublicKey)
    ensures DecodeX509(EncodeX509(pub)) == Success(pub)
  {
  }

  lemma Pkcs8RoundTrip(k: PrivateKey)
    ensures DecodePkcs8(EncodePkcs8(k)) == Success(k)
  {
    var b := EncodePkcs8(k);
    assert b[..ModulusLength] == k.modulus && b[ModulusLength..] == k.privateExponent;
  }
}
