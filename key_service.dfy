/**
 * The key service: the byte framing of sealed private keys, IV and AES key
 * generation, and the cipher calls the file service makes, over the primitives.
 *
 * A user's RSA private key is stored sealed under the server's master key: the
 * Base64 text of a 12-byte IV followed by the AES-GCM output (ciphertext and
 * 16-byte tag) over the key's PKCS#8 bytes.
 */
module KeyService {
  import opened Bytes
  import opened Wrappers
  import opened Primitives
  import Base64

  const GcmIvLength := 12
  const GcmTagLength := 16
  const AesKeySize := 256

  /** The GCM tag length every cipher call passes to `GCMParameterSpec`, in bits. */
  const GcmTagBits := GcmTagLength * 8

  /** The first `n` values of a random byte stream: what `SecureRandom.nextBytes` writes into an n-byte buffer. */
  function RandomBytes(random: nat -> byte, n: nat): (b: seq<byte>)
    ensures |b| == n && forall i :: 0 <= i < n ==> b[i] == random(i)
  {
    seq(n, i requires 0 <= i < n => random(i))
  }

  /** `SecureRandom.nextBytes(a)`: fills the whole buffer from the random stream. */
  method NextBytes(a: array<byte>, random: nat -> byte)
    modifies a
    ensures a[..] == RandomBytes(random, a.Length)
  {
    var i := 0;
    while i < a.Length
      invariant 0 <= i <= a.Length
      invariant forall j :: 0 <= j < i ==> a[j] == random(j)
    {
      a[i] := random(i);
      i := i + 1;
    }
  }

  /** `System.arraycopy(src, srcPos, dest, destPos, length)` within bounds. */
  method ArrayCopy(src: seq<byte>, srcPos: nat, dest: array<byte>, destPos: nat, length: nat)
    requires srcPos + length <= |src| && destPos + length <= dest.Length
    modifies dest
    ensures dest[..] == old(dest[..destPos]) + src[srcPos..srcPos + length] + old(dest[destPos + length..])
  {
    var i := 0;
    while i < length
      invariant 0 <= i <= length
      invariant forall j :: 0 <= j < destPos ==> dest[j] == old(dest[j])
      invariant forall j :: destPos + length <= j < dest.Length ==> dest[j] == old(dest[j])
      invariant forall j :: destPos <= j < destPos + i ==> dest[j] == src[srcPos + j - destPos]
      invariant forall j :: destPos + i <= j < destPos + length ==> dest[j] == old(dest[j])
    {
      dest[destPos + i] := src[srcPos + i];
      i := i + 1;
    }
    ghost var want := old(dest[..destPos]) + src[srcPos..srcPos + length] + old(dest[destPos + length..]);
    assert |want| == dest.Length;
    forall j | 0 <= j < dest.Length ensures dest[j] == want[j] {
      if j < destPos {
      } else if j < destPos + length {
        assert want[j] == src[srcPos + j - destPos];
      } else {
        assert want[j] == old(dest[j]);
      }
    }
  }

  /** `generateIV`: a fresh 12-byte IV from the random stream. */
  method GenerateIv(random: nat -> byte) returns (iv: seq<byte>)
    ensures |iv| == GcmIvLength
    ensures iv == RandomBytes(random, GcmIvLength)
  {
    var a := new byte[GcmIvLength];
    NextBytes(a, random);
    iv := a[..];
  }

  /** `generateAesKey`: a 256-bit AES key drawn from the random stream. */
  function GenerateAesKey(random: nat -> byte): (k: AesKey)
    ensures ValidAesKey(k) && |k.encoded| * 8 == AesKeySize
    ensures k.encoded == RandomBytes(random, AesKeySize / 8)
  {
    AesKey(RandomBytes(random, AesKeySize / 8))
  }

  /** `getAesKeyBytes`. */
  function AesKeyBytes(k: AesKey): (b: seq<byte>)
    ensures |b| == |k.encoded|
  {
    k.encoded
  }

  /** `getAesKeyFromBytes`: `SecretKeySpec` rejects an empty key with IllegalArgumentException. */
  function AesKeyFromBytes(b: seq<byte>): (r: Result<AesKey>)
    ensures r.Success? <==> |b| > 0
    ensures r.Success? ==> r.value.encoded == b
    ensures r.Failure? ==> r.error == IllegalArgument
  {
    if |b| == 0 then Failure(IllegalArgument) else Success(AesKey(b))
  }

  /** A key rebuilt from its own bytes is the same key. */
  lemma AesKeyBytesRoundTrip(k: AesKey)
    requires ValidAesKey(k)
    ensures AesKeyFromBytes(AesKeyBytes(k)) == Success(k)
  {
  }

  /** `encryptWithAesGcm`: the ciphertext followed by a 16-byte tag. */
  function EncryptWithAesGcm(data: seq<byte>, key: AesKey, iv: seq<byte>): (r: Result<seq<byte>>)
    ensures r.Success? <==> ValidAesKey(key) && |iv| > 0
    ensures r.Success? ==> |r.value| == |data| + GcmTagLength
  {
    GcmEncrypt(key, GcmTagBits, iv, data)
  }

  /** `decryptWithAesGcm`. */
  function DecryptWithAesGcm(input: seq<byte>, key: AesKey, iv: seq<byte>): (r: Result<seq<byte>>)
    ensures r.Success? ==> ValidAesKey(key) && |input| >= GcmTagLength && |r.value| == |input| - GcmTagLength
  {
    GcmDecrypt(key, GcmTagBits, iv, input)
  }

  lemma AesGcmRoundTrip(data: seq<byte>, key: AesKey, iv: seq<byte>)
    requires EncryptWithAesGcm(data, key, iv).Success?
    ensures DecryptWithAesGcm(EncryptWithAesGcm(data, key, iv).value, key, iv) == Success(data)
  {
    GcmRoundTrip(key, GcmTagBits, iv, data);
  }

  /** `encryptWithRsa` and `decryptWithRsa` (RSA/ECB/OAEPWithSHA-256AndMGF1Padding). */
  function EncryptWithRsa(data: seq<byte>, pub: PublicKey): (c: seq<byte>)
    ensures |c| == ModulusLength + |data|
  {
    RsaEncrypt(data, pub)
  }

  function DecryptWithRsa(c: seq<byte>, priv: PrivateKey): (r: Result<seq<byte>>)
    ensures r.Failure? ==> r.error == Crypto
  {
    RsaDecrypt(c, priv)
  }

  lemma RsaWrapRoundTrip(data: seq<byte>, k: PrivateKey)
    ensures DecryptWithRsa(EncryptWithRsa(data, PublicKeyOf(k)), k) == Success(data)
  {
    RsaRoundTrip(data, k);
  }

  /** `encodePublicKey` and `encodePrivateKey`: Base64 of the X.509 or PKCS#8 bytes. */
  function EncodePublicKey(pub: PublicKey): string {
    Base64.Encode(EncodeX509(pub))
  }

  function EncodePrivateKey(k: PrivateKey): string {
    Base64.Encode(EncodePkcs8(k))
  }

  /**
   * `decodePublicKey`. A column that is null fails (a NullPointerException,
   * reported here as Crypto, which the callers' catches wrap like any other
   * key failure), bad Base64 is an IllegalArgumentException and a bad X.509
   * encoding an InvalidKeySpecException.
   */
  function DecodePublicKey(text: Option<string>): (r: Result<PublicKey>)
    ensures text.None? ==> r == Failure(Crypto)
    ensures r.Success? ==> text.Some? && Base64.Decode(text.value) == Success(EncodeX509(r.value))
  {
    match text
    case None => Failure(Crypto)
    case Some(s) =>
      var bytes :- Base64.Decode(s);
      DecodeX509(bytes)
  }

  lemma PublicKeyTextRoundTrip(pub: PublicKey)
    ensures DecodePublicKey(Some(EncodePublicKey(pub))) == Success(pub)
  {
    Base64.DecodeEncode(EncodeX509(pub));
  }

  /** The Base64 text `encryptPrivateKey` stores for a key sealed with a given IV. */
  function SealedPrivateKey(master: AesKey, iv: seq<byte>, k: PrivateKey): (r: Result<string>)
    ensures r.Success? <==> ValidAesKey(master) && |iv| > 0
  {
    var sealed :- GcmEncrypt(master, GcmTagBits, iv, EncodePkcs8(k));
    Success(Base64.Encode(iv + sealed))
  }

  /**
   * What `decryptPrivateKey` yields for a stored text. A null column is a
   * NullPointerException, reported here as Crypto; a blob shorter than the IV
   * makes the first `arraycopy` throw (ArrayIndexOutOfBoundsException). Every
   * caller's catch turns both into the same RuntimeException, so one error
   * value serves for all of them.
   */
  function UnsealedPrivateKey(master: AesKey, text: Option<string>): (r: Result<PrivateKey>)
    ensures text.None? ==> r == Failure(Crypto)
  {
    match text
    case None => Failure(Crypto)
    case Some(s) =>
      var blob :- Base64.Decode(s);
      if |blob| < GcmIvLength then Failure(Crypto)
      else
        var pkcs8 :- GcmDecrypt(master, GcmTagBits, blob[..GcmIvLength], blob[GcmIvLength..]);
        DecodePkcs8(pkcs8)
  }

  /** decryptPrivateKey inverts encryptPrivateKey. */
  lemma {:induction false} SealUnseal(master: AesKey, iv: seq<byte>, k: PrivateKey)
    requires |iv| == GcmIvLength && ValidAesKey(master)
    ensures UnsealedPrivateKey(master, Some(SealedPrivateKey(master, iv, k).value)) == Success(k)
  {
    var sealed := GcmEncrypt(master, GcmTagBits, iv, EncodePkcs8(k)).value;
    var blob := iv + sealed;
    Base64.DecodeEncode(blob);
    assert blob[..GcmIvLength] == iv && blob[GcmIvLength..] == sealed;
    GcmRoundTrip(master, GcmTagBits, iv, EncodePkcs8(k));
    Pkcs8RoundTrip(k);
  }

  /** A blob too short to hold the IV is rejected, whatever the master key. */
  lemma UnsealShortBlob(master: AesKey, text: string)
    requires Base64.Decode(text).Success? && |Base64.Decode(text).value| < GcmIvLength
    ensures UnsealedPrivateKey(master, Some(text)) == Failure(Crypto)
  {
  }

  /**
   * A text unseals only if its bytes are, exactly, an IV followed by the GCM
   * output over the key's PKCS#8 bytes under the master key and that IV: a wrong
   * master key or any tampering fails at doFinal.
   */
  lemma {:induction false} UnsealAuthentic(master: AesKey, text: string)
    requires UnsealedPrivateKey(master, Some(text)).Success?
    ensures var blob := Base64.Decode(text).value;
      |blob| >= GcmIvLength + GcmTagLength
      && GcmEncrypt(master, GcmTagBits, blob[..GcmIvLength], EncodePkcs8(UnsealedPrivateKey(master, Some(text)).value))
         == Success(blob[GcmIvLength..])
  {
    var blob := Base64.Decode(text).value;
    var pkcs8 := GcmDecrypt(master, GcmTagBits, blob[..GcmIvLength], blob[GcmIvLength..]).value;
    GcmDecryptAuthentic(master, GcmTagBits, blob[..GcmIvLength], blob[GcmIvLength..]);
    assert EncodePkcs8(DecodePkcs8(pkcs8).value) == pkcs8;
  }

  /**
   * `encryptPrivateKey`: draw a 12-byte IV, seal the PKCS#8 bytes and store
   * IV ‖ GCM output as Base64.
   */
  method EncryptPrivateKey(master: AesKey, k: PrivateKey, random: nat -> byte) returns (r: Result<string>)
    ensures r == SealedPrivateKey(master, RandomBytes(random, GcmIvLength), k)
  {
    var privateKeyBytes := EncodePkcs8(k);
    var iv := new byte[GcmIvLength];
    NextBytes(iv, random);
    var encrypted := GcmEncrypt(master, GcmTagBits, iv[..], privateKeyBytes);
    if encrypted.Failure? {
      return Failure(encrypted.error);
    }
    var encryptedKeyBytes := encrypted.value;
    var combined := new byte[iv.Length + |encryptedKeyBytes|];
    ArrayCopy(iv[..], 0, combined, 0, iv.Length);
    ArrayCopy(encryptedKeyBytes, 0, combined, iv.Length, |encryptedKeyBytes|);
    assert combined[..] == iv[..] + encryptedKeyBytes;
    r := Success(Base64.Encode(combined[..]));
  }

  /** `decryptPrivateKey`: split the blob into IV and sealed bytes, open and decode. */
  method DecryptPrivateKey(master: AesKey, text: Option<string>) returns (r: Result<PrivateKey>)
    ensures r == UnsealedPrivateKey(master, text)
  {
    if text.None? {
      return Failure(Crypto);
    }
    var decoded := Base64.Decode(text.value);
    if decoded.Failure? {
      return Failure(decoded.error);
    }
    var encryptedCombined := decoded.value;
    var iv := new byte[GcmIvLength];
    if |encryptedCombined| < iv.Length {
      return Failure(Crypto);
    }
    ArrayCopy(encryptedCombined, 0, iv, 0, iv.Length);
    var encryptedKeyBytes := new byte[|encryptedCombined| - GcmIvLength];
    ArrayCopy(encryptedCombined, GcmIvLength, encryptedKeyBytes, 0, encryptedKeyBytes.Length);
    assert iv[..] == encryptedCombined[..GcmIvLength];
    assert encryptedKeyBytes[..] == encryptedCombined[GcmIvLength..];
    var decrypted := GcmDecrypt(master, GcmTagBits, iv[..], encryptedKeyBytes[..]);
    if decrypted.Failure? {
      return Failure(decrypted.error);
    }
    r := DecodePkcs8(decrypted.value);
  }

  /** `generateRsaKeyPair`: a 2048-bit key pair drawn from the random stream. */
  function GenerateRsaKeyPair(random: nat -> byte): (k: PrivateKey)
    ensures |k.modulus| * 8 == 2048
    ensures k.modulus == RandomBytes(random, ModulusLength)
  {
    PrivateKey(RandomBytes(random, ModulusLength), RandomBytes(n => random(ModulusLength + n), ModulusLength))
  }
}
