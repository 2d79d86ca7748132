/**
 * The file service against the database object: each method performs the
 * repository calls of its Java counterpart in order, and is proved to leave
 * the database, and to return, exactly what the corresponding operation of
 * `Vault` computes from the database it started with. A method that fails
 * after it has written restores the tables, as the transaction's rollback does.
 */
module FileService {
  import opened Bytes
  import opened Wrappers
  import opened Primitives
  import opened KeyService
  import opened Entities
  import opened SharedFileRepository
  import Vault
  import Database
  import SharedFileService
  import Base64

  /** `combineCiphertextAndTag`: decode the tag and copy both parts into one buffer. */
  method CombineCiphertextAndTag(encryptedData: seq<byte>, authTag: string) returns (r: Result<seq<byte>>)
    ensures r == Vault.CombineCiphertextAndTag(encryptedData, authTag)
    ensures r.Success? ==> r.value[..|encryptedData|] == encryptedData
  {
    var authTagBytes := Base64.Decode(authTag);
    if authTagBytes.Failure? {
      return Failure(authTagBytes.error);
    }
    var combined := new byte[|encryptedData| + |authTagBytes.value|];
    ArrayCopy(encryptedData, 0, combined, 0, |encryptedData|);
    ArrayCopy(authTagBytes.value, 0, combined, |encryptedData|, |authTagBytes.value|);
    assert combined[..] == encryptedData + authTagBytes.value;
    r := Success(combined[..]);
  }

  /** Commit or roll back: on a failure the tables go back to `snapshot`. */
  method EndTransaction<T>(db: Database.Db, snapshot: Tables, r: Result<T>)
    modifies db
    ensures r.Failure? ==> db.State() == snapshot
    ensures r.Success? ==> db.State() == old(db.State())
  {
    if r.Failure? {
      db.Restore(snapshot);
    }
  }

  /** `storeSingleFile`: build the row, save it, then save it again as its own lineage root. */
  method StoreSingleFile(db: Database.Db, master: AesKey, requester: string, file: Vault.MultipartFile,
                         description: string, category: string, keyStream: nat -> byte, ivStream: nat -> byte,
                         now: int) returns (r: Result<nat>)
    modifies db
    ensures var o := Vault.StoreSingleFile(old(db.State()), master, requester, file, description, category,
                                           keyStream, ivStream, now);
      r == o.result && db.State() == o.tables
  {
    var owner := LoggedInUser(db.users, requester);
    if owner.Failure? {
      return Failure(Vault.CatchUpload(owner.error));
    }
    if |file.bytes| == 0 {
      return Failure(IllegalArgument);
    }
    var newFile := Vault.UploadRow(master, owner.value, file, description, category, keyStream, ivStream, now);
    if newFile.Failure? {
      return Failure(Vault.CatchUpload(newFile.error));
    }
    ghost var t := db.State();
    ghost var root := newFile.value.(id := t.nextFileId, originalFileId := Some(t.nextFileId));
    assert Vault.StoreSingleFile(t, master, requester, file, description, category, keyStream, ivStream, now)
        == Vault.Outcome(Success(t.nextFileId), t.(files := t.files[t.nextFileId := root], nextFileId := t.nextFileId + 1));
    var savedId := db.SaveNewFile(newFile.value);
    var savedFile := db.files[savedId];
    db.SaveFile(savedFile.(originalFileId := Some(savedId)));
    assert db.files == t.files[savedId := root];
    r := Success(savedId);
  }

  /**
   * `storeFiles`: reject an empty selection, then store the files one by one;
   * a failure rolls back the files stored before it.
   */
  method StoreFiles(db: Database.Db, master: AesKey, requester: string, files: seq<Vault.MultipartFile>,
                    description: string, category: string, keyStreams: nat -> nat -> byte,
                    ivStreams: nat -> nat -> byte, now: int) returns (r: Result<seq<nat>>)
    modifies db
    ensures var o := Vault.StoreFiles(old(db.State()), master, requester, files, description, category,
                                      keyStreams, ivStreams, now);
      r == o.result && db.State() == o.tables
  {
    if |files| == 0 {
      return Failure(IllegalArgument);
    }
    var snapshot := db.State();
    var uploadedFileIds := [];
    var i := 0;
    while i < |files|
      invariant 0 <= i <= |files|
      invariant Vault.StoreFrom(snapshot, master, requester, files, 0, [], description, category, keyStreams, ivStreams, now)
             == Vault.StoreFrom(db.State(), master, requester, files, i, uploadedFileIds, description, category,
                                keyStreams, ivStreams, now)
      decreases |files| - i
    {
      var fileId := StoreSingleFile(db, master, requester, files[i], description, category, keyStreams(i), ivStreams(i), now);
      if fileId.Failure? {
        db.Restore(snapshot);
        return Failure(fileId.error);
      }
      uploadedFileIds := uploadedFileIds + [fileId.value];
      i := i + 1;
    }
    r := Success(uploadedFileIds);
  }

  /**
   * `shareFile`: check, re-wrap the key for the recipient, save the copy and log
   * the share, all in one transaction.
   */
  method ShareFile(db: Database.Db, master: AesKey, requester: string, fileId: nat, recipientUsername: string,
                   isSensitive: Option<bool>, now: int) returns (r: Result<nat>)
    modifies db
    ensures var o := Vault.ShareFile(old(db.State()), master, requester, fileId, recipientUsername, isSensitive, now);
      r == o.result && db.State() == o.tables
  {
    var owner := LoggedInUser(db.users, requester);
    if owner.Failure? {
      return Failure(Vault.CatchAll(owner.error));
    }
    var originalFileData := Vault.GetFileLobDataForSharing(db.State(), fileId, owner.value.userId);
    if originalFileData.Failure? {
      return Failure(Vault.CatchAll(originalFileData.error));
    }
    var recipient := FindUserByUsername(db.users, recipientUsername);
    if recipient.None? {
      return Failure(NoSuchElement);
    }
    if ExistsByOriginalFileIdAndOwnerId(db.files, fileId, recipient.value.userId) {
      return Failure(IllegalArgument);
    }
    var sharedFile := Vault.ShareCopy(master, owner.value, originalFileData.value, recipient.value, now);
    if sharedFile.Failure? {
      return Failure(Vault.CatchAll(sharedFile.error));
    }
    var snapshot := db.State();
    var savedId := db.SaveNewFile(sharedFile.value);
    var logged := SharedFileService.LogFileShare(db, requester, fileId, savedId, recipient.value.userId,
                                                 Vault.IsSensitiveText(isSensitive), now);
    EndTransaction(db, snapshot, logged);
    r := match logged
      case Success(_) => Success(savedId)
      case Failure(e) => Failure(Vault.CatchAll(e));
  }

  /** The recipient ids of a "list" deletion, one lookup per username in order. */
  method ResolveRecipients(users: seq<User>, names: seq<string>) returns (r: Result<seq<nat>>)
    ensures r == Vault.ResolveRecipients(users, names)
  {
    var recipientIds := [];
    var i := 0;
    while i < |names|
      invariant 0 <= i <= |names| && |recipientIds| == i
      invariant forall j :: 0 <= j < i ==>
        (FindUserByUsername(users, names[j]).Some? && recipientIds[j] == FindUserByUsername(users, names[j]).value.userId)
    {
      var user := FindUserByUsername(users, names[i]);
      if user.None? {
        assert names[i] in names;
        return Failure(NoSuchElement);
      }
      recipientIds := recipientIds + [user.value.userId];
      i := i + 1;
    }
    forall n | n in names
      ensures FindUserByUsername(users, n).Some?
    {
      var j :| 0 <= j < |names| && names[j] == n;
    }
    var expected := Vault.ResolveRecipients(users, names);
    assert expected.Success?;
    assert expected.value == recipientIds;
    r := Success(recipientIds);
  }

  /** `deleteFile`: every check comes before the first write, so a failure writes nothing. */
  method DeleteFile(db: Database.Db, requester: string, fileId: nat, deletionType: Option<string>,
                    recipientUsernames: Option<seq<string>>) returns (r: Result<()>)
    modifies db
    ensures var o := Vault.DeleteFile(old(db.State()), requester, fileId, deletionType, recipientUsernames);
      r == o.result && db.State() == o.tables
  {
    var owner := LoggedInUser(db.users, requester);
    if owner.Failure? {
      return Failure(owner.error);
    }
    var originalFile := FindFileById(db.files, fileId);
    if originalFile.None? {
      return Failure(NoSuchElement);
    }
    if originalFile.value.ownerId != owner.value.userId {
      return Failure(Security);
    }
    if ExistsByOriginalFileIdAndFileId(db.files, fileId) {
      if deletionType.None? {
        return Failure(NullPointer);
      }
      var kind := deletionType.value;
      if kind == "me" {
        db.DeleteFileById(fileId);
      } else if kind == "everyone" {
        var allSharedFileLogs := FindSharedFilesByFileId(db.sharedFiles, fileId);
        var recipientFileIds := NewFileIds(allSharedFileLogs);
        db.DeleteSharedFiles(allSharedFileLogs);
        db.DeleteAllById(recipientFileIds);
        db.DeleteFileById(fileId);
      } else if kind == "list" {
        if recipientUsernames.None? || recipientUsernames.value == [] {
          return Failure(IllegalArgument);
        }
        var recipientIds := ResolveRecipients(db.users, recipientUsernames.value);
        if recipientIds.Failure? {
          return Failure(recipientIds.error);
        }
        var logs := FindSharedFilesByFileIdAndRecipientId(db.sharedFiles, fileId, recipientIds.value);
        if logs == [] {
          return Failure(NoSuchElement);
        }
        db.DeleteSharedFiles(logs);
        db.DeleteAllById(NewFileIds(logs));
      } else {
        return Failure(IllegalArgument);
      }
    } else {
      if deletionType != Some("me") {
        return Failure(IllegalArgument);
      }
      db.DeleteFileById(fileId);
      db.DeleteSharedFilesByNewFileId(fileId);
    }
    r := Success(());
  }

  /**
   * `downloadFileAndGetMetadata`: the guards, the signature check, then the key
   * unwrapping and the GCM decryption of the recombined ciphertext and tag.
   */
  method DownloadFileAndGetMetadata(db: Database.Db, master: AesKey, requester: string, fileId: nat)
    returns (r: Result<Vault.Download>)
    ensures r == Vault.DownloadFileAndGetMetadata(db.State(), master, requester, fileId)
  {
    var owner := LoggedInUser(db.users, requester);
    if owner.Failure? {
      return Failure(Vault.CatchAll(owner.error));
    }
    var file := FindFileById(db.files, fileId);
    if file.None? {
      return Failure(NoSuchElement);
    }
    if file.value.ownerId != owner.value.userId {
      return Failure(Security);
    }
    var signatureCheck := Vault.CheckSignature(db.State(), file.value);
    if signatureCheck.Failure? {
      return Failure(Vault.CatchAll(signatureCheck.error));
    }
    var ownerPrivateKey := DecryptPrivateKey(master, owner.value.privateKey);
    if ownerPrivateKey.Failure? {
      return Failure(Vault.CatchAll(ownerPrivateKey.error));
    }
    var wrapped := Base64.Decode(file.value.encryptedAesKey);
    if wrapped.Failure? {
      return Failure(Vault.CatchAll(wrapped.error));
    }
    var keyBytes := DecryptWithRsa(wrapped.value, ownerPrivateKey.value);
    if keyBytes.Failure? {
      return Failure(Vault.CatchAll(keyBytes.error));
    }
    var aesKey := AesKeyFromBytes(keyBytes.value);
    if aesKey.Failure? {
      return Failure(Vault.CatchAll(aesKey.error));
    }
    var iv := Base64.Decode(file.value.iv);
    if iv.Failure? {
      return Failure(Vault.CatchAll(iv.error));
    }
    var combined := CombineCiphertextAndTag(file.value.encryptedData, file.value.authTag);
    if combined.Failure? {
      return Failure(Vault.CatchAll(combined.error));
    }
    var fileData := DecryptWithAesGcm(combined.value, aesKey.value, iv.value);
    if fileData.Failure? {
      return Failure(Vault.CatchAll(fileData.error));
    }
    r := Success(Vault.Download(fileData.value, file.value.filename, file.value.contentType));
  }

  /**
   * `downloadEncryptedFileAndSendKeys`: the stored ciphertext under the name
   * filename + ".enc", and the mail to the owner with the unwrapped key, the IV
   * and the tag; `delivered` is the mail server's answer.
   */
  method DownloadEncryptedFileAndSendKeys(db: Database.Db, master: AesKey, requester: string, fileId: nat,
                                          delivered: bool)
    returns (r: Result<(Vault.EncryptedDownload, Vault.KeyMail)>)
    ensures r == Vault.DownloadEncryptedFileAndSendKeys(db.State(), master, requester, fileId, delivered)
  {
    var owner := LoggedInUser(db.users, requester);
    if owner.Failure? {
      return Failure(Vault.CatchAll(owner.error));
    }
    var file := FindFileById(db.files, fileId);
    if file.None? {
      return Failure(NoSuchElement);
    }
    if file.value.ownerId != owner.value.userId {
      return Failure(Security);
    }
    var ownerPrivateKey := DecryptPrivateKey(master, owner.value.privateKey);
    if ownerPrivateKey.Failure? {
      return Failure(Vault.CatchAll(ownerPrivateKey.error));
    }
    var wrapped := Base64.Decode(file.value.encryptedAesKey);
    if wrapped.Failure? {
      return Failure(Vault.CatchAll(wrapped.error));
    }
    var keyBytes := DecryptWithRsa(wrapped.value, ownerPrivateKey.value);
    if keyBytes.Failure? {
      return Failure(Vault.CatchAll(keyBytes.error));
    }
    var mail := Vault.KeyMail(owner.value.email, Base64.Encode(keyBytes.value), file.value.iv, file.value.authTag);
    if !delivered {
      return Failure(Runtime);
    }
    r := Success((Vault.EncryptedDownload(file.value.encryptedData, file.value.filename + ".enc", file.value.contentType), mail));
  }
}
