/**
 * The key download service: a user's public key, or unsealed private key,
 * served as PEM-style text whose Base64 body is cut into 64-character lines
 * (the textual encoding of RFC 7468, section 2).
 */
module KeyDownloadService {
  import opened Bytes
  import opened Wrappers
  import opened Entities
  import opened Primitives
  import opened KeyService

  const PemLineLength := 64
  const PublicKeyHeader := "-----BEGIN PUBLIC KEY-----\n"
  const PublicKeyFooter := "-----END PUBLIC KEY-----\n"

  function Min(a: int, b: int): int {
    if a < b then a else b
  }

  /** The lines `chunkString` cuts a text into, without their line breaks. */
  function Lines(s: string): (ls: seq<string>)
    decreases |s|
  {
    if s == [] then [] else [s[..Min(|s|, PemLineLength)]] + Lines(s[Min(|s|, PemLineLength)..])
  }

  /** Lines, each followed by a line break. */
  function JoinLines(ls: seq<string>): string {
    if ls == [] then "" else ls[0] + "\n" + JoinLines(ls[1..])
  }

  function Concat(ls: seq<string>): string {
    if ls == [] then "" else ls[0] + Concat(ls[1..])
  }

  /** What `chunkString` returns. */
  function Chunked(s: string): string {
    JoinLines(Lines(s))
  }

  function RemoveNewlines(s: string): string {
    if s == [] then "" else (if s[0] == '\n' then "" else [s[0]]) + RemoveNewlines(s[1..])
  }

  /** `chunkString("")` is empty. */
  lemma ChunkedEmpty()
    ensures Chunked("") == ""
  {
  }

  /**
   * There are ceil(|s| / 64) lines; each holds 1 to 64 characters, every line
   * but the last exactly 64, and together they are `s`.
   */
  lemma {:induction false} LinesShape(s: string)
    ensures |Lines(s)| == (|s| + PemLineLength - 1) / PemLineLength
    ensures forall i :: 0 <= i < |Lines(s)| ==> 1 <= |Lines(s)[i]| <= PemLineLength
    ensures forall i :: 0 <= i < |Lines(s)| - 1 ==> |Lines(s)[i]| == PemLineLength
    ensures Concat(Lines(s)) == s
    decreases |s|
  {
    if s != [] {
      var n := Min(|s|, PemLineLength);
      LinesShape(s[n..]);
      assert Lines(s) == [s[..n]] + Lines(s[n..]);
      assert s[..n] + s[n..] == s;
      if |s| <= PemLineLength {
        assert s[n..] == [];
      }
    }
  }

  lemma {:induction false} RemoveNewlinesAppend(a: string, b: string)
    ensures RemoveNewlines(a + b) == RemoveNewlines(a) + RemoveNewlines(b)
  {
    if a != [] {
      assert (a + b)[1..] == a[1..] + b;
      RemoveNewlinesAppend(a[1..], b);
    } else {
      assert a + b == b;
    }
  }

  lemma {:induction false} RemoveNewlinesNone(s: string)
    requires '\n' !in s
    ensures RemoveNewlines(s) == s
  {
    if s != [] {
      assert s == [s[0]] + s[1..];
      RemoveNewlinesNone(s[1..]);
    }
  }

  lemma {:induction false} RemoveNewlinesJoin(ls: seq<string>)
    requires forall i :: 0 <= i < |ls| ==> '\n' !in ls[i]
    ensures RemoveNewlines(JoinLines(ls)) == Concat(ls)
  {
    if ls != [] {
      var rest := JoinLines(ls[1..]);
      assert JoinLines(ls) == (ls[0] + "\n") + rest;
      RemoveNewlinesAppend(ls[0] + "\n", rest);
      RemoveNewlinesAppend(ls[0], "\n");
      assert RemoveNewlines("\n") == "";
      RemoveNewlinesNone(ls[0]);
      assert forall i :: 0 <= i < |ls[1..]| ==> ls[1..][i] == ls[i + 1];
      RemoveNewlinesJoin(ls[1..]);
      assert RemoveNewlines(ls[0] + "\n") == ls[0] + "" == ls[0];
      assert Concat(ls) == ls[0] + Concat(ls[1..]);
    }
  }

  lemma {:induction false} LinesHaveNoNewline(s: string)
    requires '\n' !in s
    ensures forall i :: 0 <= i < |Lines(s)| ==> '\n' !in Lines(s)[i]
    decreases |s|
  {
    if s != [] {
      var n := Min(|s|, PemLineLength);
      assert forall c :: c in s[n..] ==> c in s;
      LinesHaveNoNewline(s[n..]);
    }
  }

  /** Taking the line breaks out of `chunkString(s)` gives back `s`, for a text without line breaks such as Base64. */
  lemma ChunkedUnchunk(s: string)
    requires '\n' !in s
    ensures RemoveNewlines(Chunked(s)) == s
  {
    LinesHaveNoNewline(s);
    RemoveNewlinesJoin(Lines(s));
    LinesShape(s);
  }

  /** `chunkString`: append 64-character slices, each with a line break, at i = 0, 64, 128, ... */
  method ChunkString(str: string) returns (r: string)
    ensures r == Chunked(str)
  {
    var sb := "";
    var i := 0;
    while i < |str|
      invariant i % PemLineLength == 0
      invariant sb + Chunked(str[Min(i, |str|)..]) == Chunked(str)
      decreases |str| - i
    {
      var end := Min(|str|, i + PemLineLength);
      assert Lines(str[i..]) == [str[i..end]] + Lines(str[end..]) by {
        assert str[i..][..Min(|str| - i, PemLineLength)] == str[i..end];
        assert str[i..][Min(|str| - i, PemLineLength)..] == str[end..];
      }
      sb := sb + str[i..end] + "\n";
      i := i + PemLineLength;
      assert Min(i, |str|) == end;
    }
    r := sb;
  }

  /** The armor both downloads put around a key text. */
  function Armor(body: string): string {
    PublicKeyHeader + Chunked(body) + PublicKeyFooter
  }

  /** `downloadPublicKey`: the bytes of the armored public key of the logged-in user. */
  method DownloadPublicKey(users: seq<User>, requester: string) returns (r: Result<seq<byte>>)
    ensures LoggedInUser(users, requester).Failure? ==> r == Failure(UsernameNotFound)
    ensures LoggedInUser(users, requester).Success? && LoggedInUser(users, requester).value.publicKey.None?
      ==> r == Failure(IllegalState)
    ensures LoggedInUser(users, requester).Success? && LoggedInUser(users, requester).value.publicKey.Some?
      ==> r == Success(Utf8(Armor(LoggedInUser(users, requester).value.publicKey.value)))
  {
    var user := LoggedInUser(users, requester);
    if user.Failure? {
      return Failure(user.error);
    }
    if user.value.publicKey.None? {
      return Failure(IllegalState);
    }
    var encodedKey := user.value.publicKey.value;
    var chunked := ChunkString(encodedKey);
    var pemFormatted := PublicKeyHeader + chunked + PublicKeyFooter;
    r := Success(Utf8(pemFormatted));
  }

  /**
   * `downloadPrivateKey`: unseal the logged-in user's private key, re-encode it as
   * Base64 PKCS#8 and armor it, under the same PUBLIC KEY labels.
   */
  method DownloadPrivateKey(master: AesKey, users: seq<User>, requester: string) returns (r: Result<seq<byte>>)
    ensures LoggedInUser(users, requester).Failure? ==> r == Failure(UsernameNotFound)
    ensures LoggedInUser(users, requester).Success? && LoggedInUser(users, requester).value.privateKey.None?
      ==> r == Failure(IllegalState)
    ensures LoggedInUser(users, requester).Success? && LoggedInUser(users, requester).value.privateKey.Some?
      ==> r == match UnsealedPrivateKey(master, LoggedInUser(users, requester).value.privateKey)
              case Failure(e) => Failure(e)
              case Success(k) => Success(Utf8(Armor(EncodePrivateKey(k))))
  {
    var user := LoggedInUser(users, requester);
    if user.Failure? {
      return Failure(user.error);
    }
    if user.value.privateKey.None? {
      return Failure(IllegalState);
    }
    var privateKey := DecryptPrivateKey(master, user.value.privateKey);
    if privateKey.Failure? {
      return Failure(privateKey.error);
    }
    var encodedKey := EncodePrivateKey(privateKey.value);
    var chunked := ChunkString(encodedKey);
    var pemFormatted := PublicKeyHeader + chunked + PublicKeyFooter;
    r := Success(Utf8(pemFormatted));
  }

  /**
   * The private-key download of a key sealed as encryptPrivateKey seals it is the
   * armored Base64 PKCS#8 encoding of that key, and its body, without line breaks,
   * is exactly that encoding.
   */
  lemma PrivateKeyDownloadBody(master: AesKey, iv: seq<byte>, k: PrivateKey)
    requires |iv| == GcmIvLength && ValidAesKey(master)
    ensures UnsealedPrivateKey(master, Some(SealedPrivateKey(master, iv, k).value)) == Success(k)
    ensures RemoveNewlines(Chunked(EncodePrivateKey(k))) == EncodePrivateKey(k)
  {
    SealUnseal(master, iv, k);
    Base64.EncodeAlphabet(EncodePkcs8(k));
    ChunkedUnchunk(EncodePrivateKey(k));
  }
}
