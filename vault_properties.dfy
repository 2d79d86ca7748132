/**
 * Properties of the vault that relate several operations: the lineage
 * invariant every operation keeps, the upload-then-download and
 * share-then-download round trips, and the consequences of the guards.
 */
module VaultProperties {
  import opened Bytes
  import opened Wrappers
  import opened Primitives
  import opened KeyService
  import opened Entities
  import opened SharedFileRepository
  import opened Vault
  import Base64

  // ---------------------------------------------------------------- keys

  /** A user's stored keys: the sealed private key opens to `k` and the public key column is its public half. */
  predicate HasKeyPair(master: AesKey, u: User, k: PrivateKey) {
    UnsealedPrivateKey(master, u.privateKey) == Success(k) && DecodePublicKey(u.publicKey) == Success(PublicKeyOf(k))
  }

  /** A user whose columns hold a key sealed by encryptPrivateKey and its encoded public half has that key pair. */
  lemma RegisteredKeyPair(master: AesKey, iv: seq<byte>, k: PrivateKey, u: User)
    requires ValidAesKey(master) && |iv| == GcmIvLength
    requires u.privateKey == Some(SealedPrivateKey(master, iv, k).value)
    requires u.publicKey == Some(EncodePublicKey(PublicKeyOf(k)))
    ensures HasKeyPair(master, u, k)
  {
    SealUnseal(master, iv, k);
    PublicKeyTextRoundTrip(PublicKeyOf(k));
  }

  // ---------------------------------------------------------------- upload, then download

  /**
   * For an owner holding a key pair the upload row is built, its envelope opens
   * to the uploaded bytes under the owner's private key, and its signature is
   * the owner's signature over the metadata.
   */
  lemma UploadRowOpens(master: AesKey, owner: User, file: MultipartFile, description: string, category: string,
                       keyStream: nat -> byte, ivStream: nat -> byte, now: int, k: PrivateKey)
    requires HasKeyPair(master, owner, k)
    ensures UploadRow(master, owner, file, description, category, keyStream, ivStream, now).Success?
    ensures var row := UploadRow(master, owner, file, description, category, keyStream, ivStream, now).value;
      OpenEnvelope(master, owner, row) == Success(file.bytes)
      && Base64.Decode(row.signature) == Success(Sign(Metadata(file.originalFilename, description, category), k))
  {
    var aesKey := GenerateAesKey(keyStream);
    var iv := RandomBytes(ivStream, GcmIvLength);
    var combined := EncryptWithAesGcm(file.bytes, aesKey, iv).value;
    var parts := SplitCiphertextAndTag(combined);
    var wrapped := EncryptWithRsa(AesKeyBytes(aesKey), PublicKeyOf(k));
    var signature := Sign(Metadata(file.originalFilename, description, category), k);
    var row := UploadRow(master, owner, file, description, category, keyStream, ivStream, now).value;
    assert row.encryptedAesKey == Base64.Encode(wrapped) && row.iv == Base64.Encode(iv);
    assert row.encryptedData == parts.0 && row.authTag == Base64.Encode(parts.1);
    assert row.signature == Base64.Encode(signature);
    Base64.DecodeEncode(wrapped);
    Base64.DecodeEncode(iv);
    Base64.DecodeEncode(signature);
    RsaWrapRoundTrip(AesKeyBytes(aesKey), k);
    AesKeyBytesRoundTrip(aesKey);
    CombineSplit(combined);
    AesGcmRoundTrip(file.bytes, aesKey, iv);
  }

  /** OpenEnvelope reads only the envelope columns of a row. */
  lemma OpenEnvelopeColumns(master: AesKey, owner: User, a: FileRow, b: FileRow)
    requires a.encryptedData == b.encryptedData && a.encryptedAesKey == b.encryptedAesKey
    requires a.iv == b.iv && a.authTag == b.authTag
    ensures OpenEnvelope(master, owner, a) == OpenEnvelope(master, owner, b)
  {
  }

  /**
   * An upload by a user holding a key pair downloads back: the same requester
   * gets the uploaded bytes, filename and content type for the new id.
   */
  lemma UploadThenDownload(t: Tables, master: AesKey, requester: string, file: MultipartFile, description: string,
                           category: string, keyStream: nat -> byte, ivStream: nat -> byte, now: int, k: PrivateKey)
    requires UniqueUsers(t.users) && |file.bytes| > 0
    requires LoggedInUser(t.users, requester).Success? && HasKeyPair(master, LoggedInUser(t.users, requester).value, k)
    ensures var o := StoreSingleFile(t, master, requester, file, description, category, keyStream, ivStream, now);
      o.result.Success?
      && DownloadFileAndGetMetadata(o.tables, master, requester, o.result.value)
         == Success(Download(file.bytes, file.originalFilename, file.contentType))
  {
    var owner := LoggedInUser(t.users, requester).value;
    UploadRowOpens(master, owner, file, description, category, keyStream, ivStream, now, k);
    var row := UploadRow(master, owner, file, description, category, keyStream, ivStream, now).value;
    var id := t.nextFileId;
    var stored := row.(id := id, originalFileId := Some(id));
    var o := StoreSingleFile(t, master, requester, file, description, category, keyStream, ivStream, now);
    assert o == Outcome(Success(id), t.(files := t.files[id := stored], nextFileId := id + 1));
    OpenEnvelopeColumns(master, owner, stored, row);
    DownloadOwnRoot(o.tables, master, requester, id, k, file.bytes);
  }

  /**
   * A root row owned by the requester, whose signature is the requester's over
   * its metadata and whose envelope opens, downloads to that plaintext.
   */
  lemma DownloadOwnRoot(u: Tables, master: AesKey, requester: string, id: nat, k: PrivateKey, bytes: seq<byte>)
    requires UniqueUsers(u.users)
    requires LoggedInUser(u.users, requester).Success? && HasKeyPair(master, LoggedInUser(u.users, requester).value, k)
    requires OwnsRow(u, requester, id) && u.files[id].originalFileId == Some(id)
    requires var row := u.files[id];
      Base64.Decode(row.signature) == Success(Sign(Metadata(row.filename, row.description, row.category), k))
      && OpenEnvelope(master, LoggedInUser(u.users, requester).value, row) == Success(bytes)
    ensures DownloadFileAndGetMetadata(u, master, requester, id)
            == Success(Download(bytes, u.files[id].filename, u.files[id].contentType))
  {
    var owner := LoggedInUser(u.users, requester).value;
    var stored := u.files[id];
    assert FindFileById(u.files, id) == Some(stored);
    var i :| 0 <= i < |u.users| && u.users[i] == owner;
    FindUserByIdUnique(u.users, i);
    assert FindRootOwnerId(u.files, stored.originalFileId) == Some(owner.userId);
    var message := Metadata(stored.filename, stored.description, stored.category);
    VerifySign(message, message, k, PublicKeyOf(k));
    assert CheckSignature(u, stored) == Success(());
    assert DownloadSteps(u, master, requester, id) == Success(Download(bytes, stored.filename, stored.contentType));
  }


  // ---------------------------------------------------------------- the lineage invariant

  /**
   * The invariant the vault keeps: rows are keyed by their ids, below the next
   * id; every row names a lineage id no greater than its own, and the row under
   * that id, while it exists, is the lineage root itself; every ledger entry
   * names an id already handed out, and the row under it, while it exists, is
   * a copy and not a root.
   */
  predicate Lineage(t: Tables) {
    RowsKeyed(t)
    && (forall k :: k in t.files ==>
          t.files[k].originalFileId.Some? && t.files[k].originalFileId.value <= k
          && (t.files[k].originalFileId.value in t.files ==> IsRoot(t.files[t.files[k].originalFileId.value])))
    && (forall e :: e in t.sharedFiles ==>
          e.newFileId < t.nextFileId && (e.newFileId in t.files ==> !IsRoot(t.files[e.newFileId])))
  }

  /** An empty vault keeps the invariant, whoever its users are. */
  lemma LineageEmpty(users: seq<User>)
    ensures Lineage(Tables(map[], 0, [], 0, users, []))
  {
  }

  /** Uploads keep the invariant. */
  lemma LineageUploaded(t: Tables, u: Tables, n: nat, requester: string)
    requires Lineage(t) && Uploaded(t, u, n, requester)
    ensures Lineage(u)
  {
    forall k | k in u.files
      ensures u.files[k].id == k && k < u.nextFileId
      ensures u.files[k].originalFileId.Some? && u.files[k].originalFileId.value <= k
      ensures u.files[k].originalFileId.value in u.files ==> IsRoot(u.files[u.files[k].originalFileId.value])
    {
      if k < t.nextFileId {
        assert k in t.files && u.files[k] == t.files[k];
        var r := t.files[k].originalFileId.value;
        if r in u.files {
          assert r in t.files && u.files[r] == t.files[r];
        }
      }
    }
    forall e | e in u.sharedFiles
      ensures e.newFileId < u.nextFileId && (e.newFileId in u.files ==> !IsRoot(u.files[e.newFileId]))
    {
      assert e in t.sharedFiles;
      if e.newFileId in u.files {
        assert e.newFileId in t.files && u.files[e.newFileId] == t.files[e.newFileId];
      }
    }
  }

  /** storeSingleFile keeps the invariant. */
  lemma LineageStoreSingleFile(t: Tables, master: AesKey, requester: string, file: MultipartFile, description: string,
                               category: string, keyStream: nat -> byte, ivStream: nat -> byte, now: int)
    requires Lineage(t)
    ensures Lineage(StoreSingleFile(t, master, requester, file, description, category, keyStream, ivStream, now).tables)
  {
    var o := StoreSingleFile(t, master, requester, file, description, category, keyStream, ivStream, now);
    if o.result.Success? {
      UploadedOne(t, master, requester, file, description, category, keyStream, ivStream, now);
      LineageUploaded(t, o.tables, 1, requester);
    }
  }

  /** storeFiles keeps the invariant. */
  lemma LineageStoreFiles(t: Tables, master: AesKey, requester: string, files: seq<MultipartFile>, description: string,
                          category: string, keyStreams: nat -> nat -> byte, ivStreams: nat -> nat -> byte, now: int)
    requires Lineage(t)
    ensures Lineage(StoreFiles(t, master, requester, files, description, category, keyStreams, ivStreams, now).tables)
  {
    var o := StoreFiles(t, master, requester, files, description, category, keyStreams, ivStreams, now);
    if o.result.Success? {
      LineageUploaded(t, o.tables, |files|, requester);
    }
  }

  /** `u` keeps some of the rows and entries of `t`, unchanged, and hands out the same next id. */
  predicate Shrunk(t: Tables, u: Tables) {
    u.nextFileId == t.nextFileId
    && (forall k :: k in u.files ==> k in t.files && u.files[k] == t.files[k])
    && (forall e :: e in u.sharedFiles ==> e in t.sharedFiles)
  }

  /** Removing rows and entries keeps the invariant. */
  lemma LineageShrunk(t: Tables, u: Tables)
    requires Lineage(t) && Shrunk(t, u)
    ensures Lineage(u)
  {
    forall k | k in u.files
      ensures u.files[k].originalFileId.Some? && u.files[k].originalFileId.value <= k
      ensures u.files[k].originalFileId.value in u.files ==> IsRoot(u.files[u.files[k].originalFileId.value])
    {
      assert k in t.files && u.files[k] == t.files[k];
    }
    forall e | e in u.sharedFiles
      ensures e.newFileId < u.nextFileId && (e.newFileId in u.files ==> !IsRoot(u.files[e.newFileId]))
    {
      assert e in t.sharedFiles;
    }
  }

  /** Every branch of deleteFile only removes rows and entries. */
  lemma DeleteFileShrinks(t: Tables, requester: string, fileId: nat, deletionType: Option<string>,
                          recipientUsernames: Option<seq<string>>)
    ensures Shrunk(t, DeleteFile(t, requester, fileId, deletionType, recipientUsernames).tables)
  {
  }

  /** deleteFile keeps the invariant. */
  lemma LineageDeleteFile(t: Tables, requester: string, fileId: nat, deletionType: Option<string>,
                          recipientUsernames: Option<seq<string>>)
    requires Lineage(t)
    ensures Lineage(DeleteFile(t, requester, fileId, deletionType, recipientUsernames).tables)
  {
    DeleteFileShrinks(t, requester, fileId, deletionType, recipientUsernames);
    LineageShrunk(t, DeleteFile(t, requester, fileId, deletionType, recipientUsernames).tables);
  }

  // ---------------------------------------------------------------- share

  /** The guards the body of shareFile passes on its way to a successful share. */
  lemma ShareStepsGuards(t: Tables, master: AesKey, requester: string, fileId: nat, recipientUsername: string,
                         isSensitive: Option<bool>, now: int)
    requires ShareSteps(t, master, requester, fileId, recipientUsername, isSensitive, now).Success?
    ensures LoggedInUser(t.users, requester).Success? && Recipient(t, recipientUsername).Some?
    ensures GetFileLobDataForSharing(t, fileId, LoggedInUser(t.users, requester).value.userId).Success?
    ensures !ExistsByOriginalFileIdAndOwnerId(t.files, fileId, Recipient(t, recipientUsername).value.userId)
    ensures ShareCopy(master, LoggedInUser(t.users, requester).value,
                      GetFileLobDataForSharing(t, fileId, LoggedInUser(t.users, requester).value.userId).value,
                      Recipient(t, recipientUsername).value, now).Success?
  {
  }

  /** What the body of shareFile stores once its guards pass. */
  lemma ShareStepsParts(t: Tables, master: AesKey, requester: string, fileId: nat, recipientUsername: string,
                        isSensitive: Option<bool>, now: int, owner: User, lob: FileLobData, recipient: User, copy: FileRow)
    requires LoggedInUser(t.users, requester) == Success(owner) && Recipient(t, recipientUsername) == Some(recipient)
    requires GetFileLobDataForSharing(t, fileId, owner.userId) == Success(lob)
    requires !ExistsByOriginalFileIdAndOwnerId(t.files, fileId, recipient.userId)
    requires ShareCopy(master, owner, lob, recipient, now) == Success(copy)
    ensures ShareSteps(t, master, requester, fileId, recipientUsername, isSensitive, now).Success?
    ensures var step := ShareSteps(t, master, requester, fileId, recipientUsername, isSensitive, now).value;
      step.0 == t.nextFileId && step.1.files == t.files[t.nextFileId := copy.(id := t.nextFileId)]
      && step.1.users == t.users
  {
  }

  /** The same pieces, from a successful shareFile. */
  lemma ShareParts(t: Tables, master: AesKey, requester: string, fileId: nat, recipientUsername: string,
                   isSensitive: Option<bool>, now: int)
    requires ShareFile(t, master, requester, fileId, recipientUsername, isSensitive, now).result.Success?
    ensures LoggedInUser(t.users, requester).Success? && Recipient(t, recipientUsername).Some?
    ensures var owner := LoggedInUser(t.users, requester).value;
      var lob := GetFileLobDataForSharing(t, fileId, owner.userId);
      var recipient := Recipient(t, recipientUsername).value;
      lob.Success? && ShareCopy(master, owner, lob.value, recipient, now).Success?
      && var o := ShareFile(t, master, requester, fileId, recipientUsername, isSensitive, now);
      o.result.value == t.nextFileId
      && o.tables.files == t.files[t.nextFileId := ShareCopy(master, owner, lob.value, recipient, now).value.(id := t.nextFileId)]
      && o.tables.users == t.users
  {
    var steps := ShareSteps(t, master, requester, fileId, recipientUsername, isSensitive, now);
    assert steps.Success?;
    ShareStepsGuards(t, master, requester, fileId, recipientUsername, isSensitive, now);
    var owner := LoggedInUser(t.users, requester).value;
    var lob := GetFileLobDataForSharing(t, fileId, owner.userId).value;
    var recipient := Recipient(t, recipientUsername).value;
    ShareStepsParts(t, master, requester, fileId, recipientUsername, isSensitive, now, owner, lob, recipient,
                    ShareCopy(master, owner, lob, recipient, now).value);
    assert ShareFile(t, master, requester, fileId, recipientUsername, isSensitive, now) == Outcome(Success(steps.value.0), steps.value.1);
  }

  /**
   * The recipient's key opens the copy to whatever the sender's key opens the
   * shared row to: the copy holds the same envelope with the AES key wrapped
   * again for the recipient.
   */
  lemma ShareCopyOpens(master: AesKey, owner: User, lob: FileLobData, recipient: User, now: int, k: PrivateKey, row: FileRow)
    requires ShareCopy(master, owner, lob, recipient, now).Success? && HasKeyPair(master, recipient, k)
    requires row.encryptedData == lob.encryptedData && row.encryptedAesKey == lob.encryptedAesKey
    requires row.iv == lob.iv && row.authTag == lob.authTag
    ensures OpenEnvelope(master, recipient, ShareCopy(master, owner, lob, recipient, now).value) == OpenEnvelope(master, owner, row)
  {
    var senderPrivateKey := UnsealedPrivateKey(master, owner.privateKey).value;
    var keyBytes := DecryptWithRsa(Base64.Decode(lob.encryptedAesKey).value, senderPrivateKey).value;
    var aesKey := AesKeyFromBytes(keyBytes).value;
    var rewrapped := EncryptWithRsa(AesKeyBytes(aesKey), PublicKeyOf(k));
    var copy := ShareCopy(master, owner, lob, recipient, now).value;
    assert copy.encryptedAesKey == Base64.Encode(rewrapped);
    Base64.DecodeEncode(rewrapped);
    RsaWrapRoundTrip(AesKeyBytes(aesKey), k);
    assert AesKeyFromBytes(keyBytes) == AesKeyFromBytes(AesKeyBytes(aesKey));
  }

  /**
   * Sharing keeps the invariant: the copy is stored under a fresh id, names the
   * lineage id of the shared row and so is not a root, and the new entry names it.
   */
  lemma LineageShareFile(t: Tables, master: AesKey, requester: string, fileId: nat, recipientUsername: string,
                         isSensitive: Option<bool>, now: int)
    requires Lineage(t)
    ensures Lineage(ShareFile(t, master, requester, fileId, recipientUsername, isSensitive, now).tables)
  {
    var o := ShareFile(t, master, requester, fileId, recipientUsername, isSensitive, now);
    if o.result.Success? {
      ShareParts(t, master, requester, fileId, recipientUsername, isSensitive, now);
      var u := o.tables;
      var newId := t.nextFileId;
      var copy := u.files[newId];
      assert copy.id == newId && copy.originalFileId == t.files[fileId].originalFileId;
      assert copy.originalFileId.value < newId;
      forall k | k in u.files
        ensures u.files[k].id == k && k < u.nextFileId
        ensures u.files[k].originalFileId.Some? && u.files[k].originalFileId.value <= k
        ensures u.files[k].originalFileId.value in u.files ==> IsRoot(u.files[u.files[k].originalFileId.value])
      {
        var r := u.files[k].originalFileId.value;
        if k != newId {
          assert u.files[k] == t.files[k];
        }
        if r in u.files {
          assert r != newId && r in t.files && u.files[r] == t.files[r];
        }
      }
      forall e | e in u.sharedFiles
        ensures e.newFileId < u.nextFileId && (e.newFileId in u.files ==> !IsRoot(u.files[e.newFileId]))
      {
        var n := |t.sharedFiles|;
        var i :| 0 <= i < |u.sharedFiles| && u.sharedFiles[i] == e;
        if i < n {
          assert e == u.sharedFiles[..n][i] && e in t.sharedFiles;
          if e.newFileId in u.files {
            assert e.newFileId != newId && u.files[e.newFileId] == t.files[e.newFileId];
          }
        } else {
          assert e.newFileId == newId;
        }
      }
    }
  }

  /** The signature check depends only on the root owner, the users, the signature and the metadata. */
  lemma SameSignatureCheck(t: Tables, u: Tables, a: FileRow, b: FileRow)
    requires t.users == u.users
    requires FindRootOwnerId(u.files, b.originalFileId) == FindRootOwnerId(t.files, a.originalFileId)
    requires a.signature == b.signature && a.filename == b.filename
    requires a.description == b.description && a.category == b.category
    ensures CheckSignature(u, b) == CheckSignature(t, a)
  {
  }

  /**
   * A successful share lets the recipient download the copy exactly as the
   * sender downloads the shared row: the same bytes, the same filename and
   * content type, or the same exception. The signature is still checked
   * against the lineage root's owner, not the recipient.
   */
  lemma ShareThenDownload(t: Tables, master: AesKey, requester: string, fileId: nat, recipientUsername: string,
                          isSensitive: Option<bool>, now: int, k: PrivateKey)
    requires Lineage(t)
    requires ShareFile(t, master, requester, fileId, recipientUsername, isSensitive, now).result.Success?
    requires Recipient(t, recipientUsername).Some? && HasKeyPair(master, Recipient(t, recipientUsername).value, k)
    ensures var o := ShareFile(t, master, requester, fileId, recipientUsername, isSensitive, now);
      DownloadFileAndGetMetadata(o.tables, master, recipientUsername, o.result.value)
      == DownloadFileAndGetMetadata(t, master, requester, fileId)
  {
    ShareParts(t, master, requester, fileId, recipientUsername, isSensitive, now);
    var o := ShareFile(t, master, requester, fileId, recipientUsername, isSensitive, now);
    var owner := LoggedInUser(t.users, requester).value;
    var lob := GetFileLobDataForSharing(t, fileId, owner.userId).value;
    var recipient := Recipient(t, recipientUsername).value;
    var row := t.files[fileId];
    var newId := t.nextFileId;
    var copy := o.tables.files[newId];
    assert copy == ShareCopy(master, owner, lob, recipient, now).value.(id := newId);
    ShareCopyOpens(master, owner, lob, recipient, now, k, row);
    OpenEnvelopeColumns(master, recipient, copy, ShareCopy(master, owner, lob, recipient, now).value);
    assert LoggedInUser(o.tables.users, recipientUsername) == Success(recipient);
    assert FindFileById(o.tables.files, newId) == Some(copy);
    assert FindRootOwnerId(o.tables.files, copy.originalFileId) == FindRootOwnerId(t.files, row.originalFileId) by {
      var r := row.originalFileId.value;
      assert r <= fileId < newId;
      assert ExistsByOriginalFileIdAndFileId(o.tables.files, r) == ExistsByOriginalFileIdAndFileId(t.files, r);
    }
    SameSignatureCheck(t, o.tables, row, copy);
    assert DownloadSteps(o.tables, master, recipientUsername, newId) == DownloadSteps(t, master, requester, fileId);
  }

  /**
   * Share checks the signature against the sender's own public key: once the
   * other guards pass, a signature that decodes but does not verify is a
   * SecurityException, and nothing is written.
   */
  lemma ShareRejectsBadSignature(t: Tables, master: AesKey, requester: string, fileId: nat, recipientUsername: string,
                                 isSensitive: Option<bool>, now: int)
    requires UniqueUsers(t.users)
    requires LoggedInUser(t.users, requester).Success? && Recipient(t, recipientUsername).Some?
    requires OwnsRow(t, requester, fileId)
    requires !ExistsByOriginalFileIdAndOwnerId(t.files, fileId, Recipient(t, recipientUsername).value.userId)
    requires var row := t.files[fileId];
      var sender := LoggedInUser(t.users, requester).value;
      Base64.Decode(row.signature).Success? && DecodePublicKey(sender.publicKey).Success?
      && !Verify(Metadata(row.filename, row.description, row.category), Base64.Decode(row.signature).value,
                 DecodePublicKey(sender.publicKey).value)
    ensures ShareFile(t, master, requester, fileId, recipientUsername, isSensitive, now) == Outcome(Failure(Security), t)
  {
    var owner := LoggedInUser(t.users, requester).value;
    var i :| 0 <= i < |t.users| && t.users[i] == owner;
    FindUserByIdUnique(t.users, i);
    var lob := GetFileLobDataForSharing(t, fileId, owner.userId).value;
    assert lob.ownerPublicKey == owner.publicKey;
    assert ShareCopy(master, owner, lob, Recipient(t, recipientUsername).value, now) == Failure(Security);
    assert ShareSteps(t, master, requester, fileId, recipientUsername, isSensitive, now) == Failure(Security);
  }

  /**
   * Downloading a row whose signature decodes but does not verify under the
   * lineage root owner's public key is a SecurityException, once the requester
   * is known to own that row.
   */
  lemma DownloadRejectsBadSignature(t: Tables, master: AesKey, requester: string, fileId: nat)
    requires LoggedInUser(t.users, requester).Success? && OwnsRow(t, requester, fileId)
    requires FindRootOwnerId(t.files, t.files[fileId].originalFileId).Some?
    requires FindUserById(t.users, FindRootOwnerId(t.files, t.files[fileId].originalFileId).value).Some?
    requires var row := t.files[fileId];
      var signer := FindUserById(t.users, FindRootOwnerId(t.files, row.originalFileId).value).value;
      Base64.Decode(row.signature).Success? && DecodePublicKey(signer.publicKey).Success?
      && !Verify(Metadata(row.filename, row.description, row.category), Base64.Decode(row.signature).value,
                 DecodePublicKey(signer.publicKey).value)
    ensures DownloadFileAndGetMetadata(t, master, requester, fileId) == Failure(Security)
  {
  }

  /**
   * Sharing a copy on: the duplicate guard cannot fire, since no row names a
   * copy's id as its lineage id; the new row names the root's lineage id, but
   * the ledger entry names the copy; and a recipient who already holds a row of
   * that lineage ends up holding two.
   */
  lemma ReshareFromCopy(t: Tables, master: AesKey, requester: string, fileId: nat, recipientUsername: string,
                        isSensitive: Option<bool>, now: int)
    requires Lineage(t) && fileId in t.files && !IsRoot(t.files[fileId])
    requires ShareFile(t, master, requester, fileId, recipientUsername, isSensitive, now).result.Success?
    ensures forall uid :: !ExistsByOriginalFileIdAndOwnerId(t.files, fileId, uid)
    ensures var o := ShareFile(t, master, requester, fileId, recipientUsername, isSensitive, now);
      var newId := o.result.value;
      var recipientId := Recipient(t, recipientUsername).value.userId;
      o.tables.files[newId].originalFileId == t.files[fileId].originalFileId != Some(fileId)
      && o.tables.sharedFiles[|t.sharedFiles|].originalFileId == fileId
      && (forall k :: (k in t.files && t.files[k].originalFileId == t.files[fileId].originalFileId
                       && t.files[k].ownerId == recipientId) ==>
            k in o.tables.files && k != newId && o.tables.files[k] == t.files[k]
            && o.tables.files[newId].ownerId == recipientId)
  {
    ShareParts(t, master, requester, fileId, recipientUsername, isSensitive, now);
    assert t.files[fileId].id == fileId;
  }

  /**
   * An owner's row is a lineage root exactly when some row of the owner names
   * its id as lineage id: the test deleteAccount uses to choose "everyone" over
   * "me" picks out the roots.
   */
  lemma OwnedRootTest(t: Tables, fileId: nat)
    requires Lineage(t) && fileId in t.files
    ensures ExistsByOriginalFileIdAndOwnerId(t.files, fileId, t.files[fileId].ownerId) <==> IsRoot(t.files[fileId])
  {
    if IsRoot(t.files[fileId]) {
      assert t.files[fileId].id == fileId;
      assert t.files[fileId].originalFileId == Some(fileId);
    }
    if ExistsByOriginalFileIdAndOwnerId(t.files, fileId, t.files[fileId].ownerId) {
      var k :| k in t.files && t.files[k].originalFileId == Some(fileId) && t.files[k].ownerId == t.files[fileId].ownerId;
      assert t.files[k].originalFileId.value in t.files;
    }
  }

  // ---------------------------------------------------------------- delete

  /** Deleting a root for a list of recipients keeps the root row, since no ledger entry names a root. */
  lemma ListDeletionKeepsRoot(t: Tables, requester: string, fileId: nat, recipientUsernames: Option<seq<string>>)
    requires Lineage(t) && ExistsByOriginalFileIdAndFileId(t.files, fileId)
    requires DeleteFile(t, requester, fileId, Some("list"), recipientUsernames).result.Success?
    ensures var u := DeleteFile(t, requester, fileId, Some("list"), recipientUsernames).tables;
      fileId in u.files && u.files[fileId] == t.files[fileId]
  {
    var ids := ResolveRecipients(t.users, recipientUsernames.value).value;
    var entries := FindSharedFilesByFileIdAndRecipientId(t.sharedFiles, fileId, ids);
    assert DeleteFile(t, requester, fileId, Some("list"), recipientUsernames).tables == DeleteListed(t, entries);
    forall e | e in entries
      ensures e.newFileId != fileId
    {
      assert e in t.sharedFiles;
    }
  }

  /**
   * Deleting a root "for me" orphans its copies: a recipient who still holds a
   * copy can no longer download it, because the signature check finds no root
   * owner and its `findById(null)` ends in a RuntimeException.
   */
  lemma MeDeletionOrphansCopies(t: Tables, master: AesKey, requester: string, fileId: nat,
                                recipientUsernames: Option<seq<string>>, holder: string, copyId: nat)
    requires ExistsByOriginalFileIdAndFileId(t.files, fileId)
    requires DeleteFile(t, requester, fileId, Some("me"), recipientUsernames).result.Success?
    requires copyId in t.files && copyId != fileId && t.files[copyId].originalFileId == Some(fileId)
    requires OwnsRow(t, holder, copyId)
    ensures var u := DeleteFile(t, requester, fileId, Some("me"), recipientUsernames).tables;
      copyId in u.files && DownloadFileAndGetMetadata(u, master, holder, copyId) == Failure(Runtime)
  {
    var u := DeleteFile(t, requester, fileId, Some("me"), recipientUsernames).tables;
    assert u == t.(files := t.files - {fileId});
    assert FindRootOwnerId(u.files, u.files[copyId].originalFileId).None?;
    assert DownloadSteps(u, master, holder, copyId) == Failure(Runtime);
  }
}
