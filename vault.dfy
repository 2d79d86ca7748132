/**
 * The file vault: what each FileService operation does to the tables, as a
 * function of the tables before it.
 *
 * Each operation is `@Transactional`, so it either commits all its writes or,
 * ending in an exception, none: an `Outcome` pairs the result with the tables
 * after the call, and every failure leaves them as they were. The requester is
 * the username `authUtil.getLoggedInUser()` resolves, the master key the one
 * the key service loaded, and the key and IV streams the randomness of each
 * upload.
 */
module Vault {
  import opened Bytes
  import opened Wrappers
  import opened Primitives
  import opened KeyService
  import opened Entities
  import opened SharedFileRepository
  import SharedFileService
  import Base64

  datatype Outcome<T> = Outcome(result: Result<T>, tables: Tables)

  /** The part of a multipart upload the service reads. */
  datatype MultipartFile = MultipartFile(originalFilename: string, contentType: string, bytes: seq<byte>)

  /** What storeSingleFile's catch lets through unchanged; every other exception becomes a RuntimeException. */
  function CatchUpload(e: Error): (r: Error)
    ensures e == NoSuchElement || e == IllegalArgument ==> r == e
    ensures e != NoSuchElement && e != IllegalArgument ==> r == Runtime
  {
    if e == NoSuchElement || e == IllegalArgument then e else Runtime
  }

  /** The same for the catch of shareFile and the two downloads, which also let SecurityException through. */
  function CatchAll(e: Error): (r: Error)
    ensures e == NoSuchElement || e == Security || e == IllegalArgument ==> r == e
    ensures e != NoSuchElement && e != Security && e != IllegalArgument ==> r == Runtime
  {
    if e == NoSuchElement || e == Security || e == IllegalArgument then e else Runtime
  }

  /** The bytes upload signs and the downloads verify: filename, description and category run together. */
  function Metadata(filename: string, description: string, category: string): seq<byte> {
    Utf8(filename + description + category)
  }

  /** The two `copyOfRange` calls of storeSingleFile: the GCM output without, and with only, its last 16 bytes. */
  function SplitCiphertextAndTag(combined: seq<byte>): (parts: (seq<byte>, seq<byte>))
    requires |combined| >= GcmTagLength
    ensures parts.0 + parts.1 == combined
    ensures |parts.1| == GcmTagLength
  {
    (combined[..|combined| - GcmTagLength], combined[|combined| - GcmTagLength..])
  }

  /** What `combineCiphertextAndTag` returns: the stored ciphertext with the decoded tag appended. */
  function CombineCiphertextAndTag(encryptedData: seq<byte>, authTag: string): Result<seq<byte>> {
    var tag :- Base64.Decode(authTag);
    Success(encryptedData + tag)
  }

  /** Splitting a GCM output and recombining the halves, through the Base64 tag column, gives it back. */
  lemma CombineSplit(combined: seq<byte>)
    requires |combined| >= GcmTagLength
    ensures var parts := SplitCiphertextAndTag(combined);
      CombineCiphertextAndTag(parts.0, Base64.Encode(parts.1)) == Success(combined)
  {
    Base64.DecodeEncode(SplitCiphertextAndTag(combined).1);
  }

  // ---------------------------------------------------------------- upload

  /**
   * The row storeSingleFile builds for an upload, before it is saved (id 0 and
   * no originalFileId yet), or the failure of a key-service call.
   */
  function UploadRow(master: AesKey, owner: User, file: MultipartFile, description: string, category: string,
                     keyStream: nat -> byte, ivStream: nat -> byte, now: int): (r: Result<FileRow>)
    ensures r.Success? ==> (r.value.ownerId == owner.userId && r.value.filename == file.originalFilename
      && r.value.description == description && r.value.category == category
      && r.value.contentType == file.contentType && r.value.timestamp == now)
  {
    var ownerPrivateKey :- UnsealedPrivateKey(master, owner.privateKey);
    var signature := Base64.Encode(Sign(Metadata(file.originalFilename, description, category), ownerPrivateKey));
    var aesKey := GenerateAesKey(keyStream);
    var iv := RandomBytes(ivStream, GcmIvLength);
    var combined := EncryptWithAesGcm(file.bytes, aesKey, iv).value;
    var parts := SplitCiphertextAndTag(combined);
    var ownerPublicKey :- DecodePublicKey(owner.publicKey);
    var wrapped := EncryptWithRsa(AesKeyBytes(aesKey), ownerPublicKey);
    Success(FileRow(0, parts.0, signature, Base64.Encode(wrapped), Base64.Encode(iv), Base64.Encode(parts.1),
                    file.originalFilename, description, category, file.contentType, owner.userId, None, now))
  }

  /**
   * The columns of an upload row: the IV column decodes to the 12 bytes drawn
   * for it, the tag column to 16 bytes, and the signature is the owner's over
   * the metadata.
   */
  lemma UploadRowColumns(master: AesKey, owner: User, file: MultipartFile, description: string, category: string,
                         keyStream: nat -> byte, ivStream: nat -> byte, now: int)
    requires UploadRow(master, owner, file, description, category, keyStream, ivStream, now).Success?
    ensures var row := UploadRow(master, owner, file, description, category, keyStream, ivStream, now).value;
      Base64.Decode(row.iv) == Success(RandomBytes(ivStream, GcmIvLength)) && |RandomBytes(ivStream, GcmIvLength)| == 12
      && Base64.Decode(row.authTag).Success? && |Base64.Decode(row.authTag).value| == GcmTagLength
      && UnsealedPrivateKey(master, owner.privateKey).Success?
      && row.signature == Base64.Encode(Sign(Metadata(file.originalFilename, description, category),
                                             UnsealedPrivateKey(master, owner.privateKey).value))
  {
    var combined := EncryptWithAesGcm(file.bytes, GenerateAesKey(keyStream), RandomBytes(ivStream, GcmIvLength)).value;
    Base64.DecodeEncode(RandomBytes(ivStream, GcmIvLength));
    Base64.DecodeEncode(SplitCiphertextAndTag(combined).1);
  }

  /** `row` succeeded and is saved under `id` as its own lineage root. */
  predicate RowStored(u: Tables, id: nat, row: Result<FileRow>) {
    row.Success? && id in u.files && u.files[id] == row.value.(id := id, originalFileId := Some(id))
  }

  /**
   * The row under `id` in `u` is the upload of `file` by the requester of `t`:
   * the row UploadRow builds from that file and those key and IV streams, saved
   * under `id` as its own lineage root.
   */
  predicate StoredUpload(t: Tables, u: Tables, master: AesKey, requester: string, file: MultipartFile,
                         description: string, category: string, keyStream: nat -> byte, ivStream: nat -> byte,
                         now: int, id: nat) {
    LoggedInUser(t.users, requester).Success?
    && RowStored(u, id, UploadRow(master, LoggedInUser(t.users, requester).value, file, description, category,
                                  keyStream, ivStream, now))
  }

  /** Rows `i` onward of `rows` are stored in `v` under consecutive ids from `base`. */
  predicate RowsStoredFrom(v: Tables, base: nat, rows: seq<Result<FileRow>>, i: nat) {
    forall j :: i <= j < |rows| ==> RowStored(v, base + j - i, rows[j])
  }

  /** The upload rows of a selection of files, file `j` with the `j`-th key and IV streams. */
  function UploadRows(master: AesKey, owner: User, files: seq<MultipartFile>, description: string, category: string,
                      keyStreams: nat -> nat -> byte, ivStreams: nat -> nat -> byte, now: int): (rows: seq<Result<FileRow>>)
    ensures |rows| == |files|
  {
    seq(|files|, j requires 0 <= j < |files| =>
      UploadRow(master, owner, files[j], description, category, keyStreams(j), ivStreams(j), now))
  }

  /** Entry `j` of UploadRows is the upload row of file `j`. */
  lemma UploadRowsAt(master: AesKey, owner: User, files: seq<MultipartFile>, description: string, category: string,
                     keyStreams: nat -> nat -> byte, ivStreams: nat -> nat -> byte, now: int, j: nat)
    requires j < |files|
    ensures UploadRows(master, owner, files, description, category, keyStreams, ivStreams, now)[j]
            == UploadRow(master, owner, files[j], description, category, keyStreams(j), ivStreams(j), now)
  {
  }

  /**
   * `storeSingleFile`: a file without content is rejected; otherwise the row is
   * saved under the next id and, by the second save, made its own lineage root.
   */
  function StoreSingleFile(t: Tables, master: AesKey, requester: string, file: MultipartFile, description: string,
                           category: string, keyStream: nat -> byte, ivStream: nat -> byte, now: int): (o: Outcome<nat>)
    ensures o.result.Failure? ==> o.tables == t
    ensures o.result.Failure? ==> o.result.error in {NoSuchElement, IllegalArgument, Runtime}
    ensures LoggedInUser(t.users, requester).Failure? ==> o.result == Failure(Runtime)
    ensures LoggedInUser(t.users, requester).Success? && |file.bytes| == 0 ==> o.result == Failure(IllegalArgument)
    ensures o.result.Success? ==> LoggedInUser(t.users, requester).Success? && |file.bytes| > 0
    ensures o.result.Success? ==>
      var id := o.result.value;
      id == t.nextFileId && id in o.tables.files
      && o.tables == t.(files := t.files[id := o.tables.files[id]], nextFileId := id + 1)
    ensures o.result.Success? && LoggedInUser(t.users, requester).Success? ==>
      var row := o.tables.files[o.result.value];
      row.id == o.result.value && IsRoot(row) && row.ownerId == LoggedInUser(t.users, requester).value.userId
      && row.filename == file.originalFilename && row.description == description && row.category == category
      && row.contentType == file.contentType && row.timestamp == now
  {
    match LoggedInUser(t.users, requester)
    case Failure(e) => Outcome(Failure(CatchUpload(e)), t)
    case Success(owner) =>
      if |file.bytes| == 0 then Outcome(Failure(IllegalArgument), t)
      else
        match UploadRow(master, owner, file, description, category, keyStream, ivStream, now)
        case Failure(e) => Outcome(Failure(CatchUpload(e)), t)
        case Success(row) =>
          var id := t.nextFileId;
          Outcome(Success(id), t.(files := t.files[id := row.(id := id, originalFileId := Some(id))], nextFileId := id + 1))
  }

  /** A successful storeSingleFile saves, under the new id, the row built from that file. */
  lemma StoreSingleFileRow(t: Tables, master: AesKey, requester: string, file: MultipartFile, description: string,
                           category: string, keyStream: nat -> byte, ivStream: nat -> byte, now: int)
    requires StoreSingleFile(t, master, requester, file, description, category, keyStream, ivStream, now).result.Success?
    ensures var o := StoreSingleFile(t, master, requester, file, description, category, keyStream, ivStream, now);
      StoredUpload(t, o.tables, master, requester, file, description, category, keyStream, ivStream, now, t.nextFileId)
  {
  }

  /**
   * `u` is `t` with `n` uploads of the requester added: rows under the next `n`
   * ids, each its own lineage root owned by the requester, and nothing else changed.
   */
  ghost predicate Uploaded(t: Tables, u: Tables, n: nat, requester: string) {
    u.nextFileId == t.nextFileId + n
    && u.sharedFiles == t.sharedFiles && u.nextSharedFileId == t.nextSharedFileId
    && u.users == t.users && u.auditLogs == t.auditLogs
    && (forall k :: k in u.files <==> k in t.files || t.nextFileId <= k < u.nextFileId)
    && (forall k :: k in u.files && !(t.nextFileId <= k < u.nextFileId) ==> u.files[k] == t.files[k])
    && (forall k :: t.nextFileId <= k < u.nextFileId ==>
          k in u.files && u.files[k].id == k && IsRoot(u.files[k])
          && LoggedInUser(t.users, requester).Success? && u.files[k].ownerId == LoggedInUser(t.users, requester).value.userId)
  }

  lemma UploadedNone(t: Tables, requester: string)
    ensures Uploaded(t, t, 0, requester)
  {
  }

  lemma UploadedOne(t: Tables, master: AesKey, requester: string, file: MultipartFile, description: string,
                    category: string, keyStream: nat -> byte, ivStream: nat -> byte, now: int)
    requires StoreSingleFile(t, master, requester, file, description, category, keyStream, ivStream, now).result.Success?
    ensures Uploaded(t, StoreSingleFile(t, master, requester, file, description, category, keyStream, ivStream, now).tables, 1, requester)
  {
    var o := StoreSingleFile(t, master, requester, file, description, category, keyStream, ivStream, now);
    var id := t.nextFileId;
    var row := o.tables.files[id];
    assert o.tables == t.(files := t.files[id := row], nextFileId := id + 1);
    assert row.id == id && IsRoot(row) && row.ownerId == LoggedInUser(t.users, requester).value.userId;
    forall k ensures k in o.tables.files <==> k in t.files || id <= k < id + 1 {
    }
    forall k | k in o.tables.files && !(id <= k < id + 1) ensures o.tables.files[k] == t.files[k] {
    }
    forall k | id <= k < id + 1
      ensures k in o.tables.files && o.tables.files[k].id == k && IsRoot(o.tables.files[k])
        && LoggedInUser(t.users, requester).Success? && o.tables.files[k].ownerId == LoggedInUser(t.users, requester).value.userId
    {
      assert k == id;
    }
  }

  lemma UploadedTrans(t: Tables, u: Tables, v: Tables, m: nat, n: nat, requester: string)
    requires Uploaded(t, u, m, requester) && Uploaded(u, v, n, requester)
    ensures Uploaded(t, v, m + n, requester)
  {
  }

  /** One more upload in front of a run of `n`: the ids and the tables of the longer run. */
  lemma StoreStep(t: Tables, u: Tables, v: Tables, ids: seq<nat>, id: nat, all: seq<nat>, n: nat, requester: string)
    requires Uploaded(t, u, 1, requester) && id == t.nextFileId
    requires |all| == |ids| + 1 + n && all[..|ids| + 1] == ids + [id]
    requires forall j :: |ids| + 1 <= j < |all| ==> all[j] == u.nextFileId + j - (|ids| + 1)
    requires Uploaded(u, v, n, requester)
    ensures |all| == |ids| + 1 + n && all[..|ids|] == ids
    ensures forall j :: |ids| <= j < |all| ==> all[j] == t.nextFileId + j - |ids|
    ensures Uploaded(t, v, 1 + n, requester)
  {
    assert all[..|ids|] == all[..|ids| + 1][..|ids|];
    assert all[|ids|] == all[..|ids| + 1][|ids|];
    UploadedTrans(t, u, v, 1, n, requester);
  }

  /**
   * The files from index `i` on, stored one after the other with the ids so far
   * in `ids`; the first failure stops the run. File `i` draws its AES key from
   * `keyStreams(i)` and its IV from `ivStreams(i)`.
   */
  function StoreFrom(t: Tables, master: AesKey, requester: string, files: seq<MultipartFile>, i: nat, ids: seq<nat>,
                     description: string, category: string,
                     keyStreams: nat -> nat -> byte, ivStreams: nat -> nat -> byte, now: int): (o: Outcome<seq<nat>>)
    requires i <= |files|
    ensures o.result.Success? ==>
      |o.result.value| == |ids| + |files| - i && o.result.value[..|ids|] == ids
      && (forall j :: |ids| <= j < |o.result.value| ==> o.result.value[j] == t.nextFileId + j - |ids|)
      && Uploaded(t, o.tables, |files| - i, requester)
    decreases |files| - i
  {
    if i == |files| then
      UploadedNone(t, requester);
      Outcome(Success(ids), t)
    else
      var one := StoreSingleFile(t, master, requester, files[i], description, category, keyStreams(i), ivStreams(i), now);
      if one.result.Failure? then Outcome(Failure(one.result.error), one.tables)
      else
        var rest := StoreFrom(one.tables, master, requester, files, i + 1, ids + [one.result.value], description, category, keyStreams, ivStreams, now);
        if rest.result.Failure? then rest
        else
          UploadedOne(t, master, requester, files[i], description, category, keyStreams(i), ivStreams(i), now);
          StoreStep(t, one.tables, rest.tables, ids, one.result.value, rest.result.value, |files| - (i + 1), requester);
          rest
  }

  /**
   * `storeFiles`: an empty selection is rejected, then every file is stored in
   * order; a failure on any file rolls back the ones stored before it.
   */
  function StoreFiles(t: Tables, master: AesKey, requester: string, files: seq<MultipartFile>, description: string,
                      category: string, keyStreams: nat -> nat -> byte, ivStreams: nat -> nat -> byte, now: int): (o: Outcome<seq<nat>>)
    ensures |files| == 0 ==> o.result == Failure(IllegalArgument)
    ensures o.result.Failure? ==> o.tables == t
    ensures o.result.Success? ==> |files| > 0 && |o.result.value| == |files|
    ensures o.result.Success? ==> forall j :: 0 <= j < |o.result.value| ==> o.result.value[j] == t.nextFileId + j
    ensures o.result.Success? ==> Uploaded(t, o.tables, |files|, requester)
  {
    if |files| == 0 then Outcome(Failure(IllegalArgument), t)
    else
      var run := StoreFrom(t, master, requester, files, 0, [], description, category, keyStreams, ivStreams, now);
      if run.result.Failure? then Outcome(run.result, t) else run
  }

  /**
   * storeFiles keeps the input order: the `j`-th new id holds the row built
   * from the `j`-th file, with that file's own key and IV streams.
   */
  lemma StoreFilesInOrder(t: Tables, master: AesKey, requester: string, files: seq<MultipartFile>, description: string,
                          category: string, keyStreams: nat -> nat -> byte, ivStreams: nat -> nat -> byte, now: int)
    requires StoreFiles(t, master, requester, files, description, category, keyStreams, ivStreams, now).result.Success?
    ensures var o := StoreFiles(t, master, requester, files, description, category, keyStreams, ivStreams, now);
      forall j :: 0 <= j < |files| ==>
        o.result.value[j] == t.nextFileId + j
        && StoredUpload(t, o.tables, master, requester, files[j], description, category, keyStreams(j), ivStreams(j),
                        now, t.nextFileId + j)
  {
    StoreFromUnfold(t, master, requester, files, 0, [], description, category, keyStreams, ivStreams, now);
    var owner := LoggedInUser(t.users, requester).value;
    var o := StoreFrom(t, master, requester, files, 0, [], description, category, keyStreams, ivStreams, now);
    StoreFromRows(t, master, requester, owner, files, 0, [], description, category, keyStreams, ivStreams, now);
    RowsStoredAsUploads(t, o.tables, master, requester, owner, files, description, category, keyStreams, ivStreams, now);
  }

  /** Upload rows stored under consecutive ids are each that file's StoredUpload. */
  lemma RowsStoredAsUploads(t: Tables, v: Tables, master: AesKey, requester: string, owner: User,
                            files: seq<MultipartFile>, description: string, category: string,
                            keyStreams: nat -> nat -> byte, ivStreams: nat -> nat -> byte, now: int)
    requires LoggedInUser(t.users, requester) == Success(owner)
    requires RowsStoredFrom(v, t.nextFileId, UploadRows(master, owner, files, description, category, keyStreams,
                                                        ivStreams, now), 0)
    ensures forall j :: 0 <= j < |files| ==>
      StoredUpload(t, v, master, requester, files[j], description, category, keyStreams(j), ivStreams(j), now,
                   t.nextFileId + j)
  {
    forall j | 0 <= j < |files|
      ensures StoredUpload(t, v, master, requester, files[j], description, category, keyStreams(j), ivStreams(j),
                           now, t.nextFileId + j)
    {
      UploadRowsAt(master, owner, files, description, category, keyStreams, ivStreams, now, j);
    }
  }

  /** One step of a successful run: the first file is stored, then the run goes on from the next. */
  lemma StoreFromUnfold(t: Tables, master: AesKey, requester: string, files: seq<MultipartFile>, i: nat, ids: seq<nat>,
                        description: string, category: string, keyStreams: nat -> nat -> byte,
                        ivStreams: nat -> nat -> byte, now: int)
    requires i < |files|
    requires StoreFrom(t, master, requester, files, i, ids, description, category, keyStreams, ivStreams, now).result.Success?
    ensures var one := StoreSingleFile(t, master, requester, files[i], description, category, keyStreams(i), ivStreams(i), now);
      one.result.Success? && LoggedInUser(t.users, requester).Success?
      && one.tables.users == t.users && one.tables.nextFileId == t.nextFileId + 1
      && StoreFrom(t, master, requester, files, i, ids, description, category, keyStreams, ivStreams, now)
         == StoreFrom(one.tables, master, requester, files, i + 1, ids + [one.result.value], description, category,
                      keyStreams, ivStreams, now)
  {
  }

  /**
   * The rows of a run from index `i` on: row `i` stored in `u`, and the rows
   * after it stored from `u` to `v`.
   */
  lemma RowsStoredStep(t: Tables, u: Tables, v: Tables, n: nat, requester: string, rows: seq<Result<FileRow>>, i: nat)
    requires i < |rows| && u.nextFileId == t.nextFileId + 1
    requires RowStored(u, t.nextFileId, rows[i])
    requires Uploaded(u, v, n, requester)
    requires RowsStoredFrom(v, u.nextFileId, rows, i + 1)
    ensures RowsStoredFrom(v, t.nextFileId, rows, i)
  {
    assert RowStored(v, t.nextFileId, rows[i]) by {
      assert !(u.nextFileId <= t.nextFileId < v.nextFileId);
    }
  }

  /**
   * A successful run from file `i` on stores file `j` under the `j - i`-th new
   * id, built from file `j`'s own key and IV streams.
   */
  lemma {:induction false} StoreFromRows(t: Tables, master: AesKey, requester: string, owner: User,
                                         files: seq<MultipartFile>, i: nat, ids: seq<nat>, description: string,
                                         category: string, keyStreams: nat -> nat -> byte,
                                         ivStreams: nat -> nat -> byte, now: int)
    requires i <= |files| && LoggedInUser(t.users, requester) == Success(owner)
    requires StoreFrom(t, master, requester, files, i, ids, description, category, keyStreams, ivStreams, now).result.Success?
    ensures RowsStoredFrom(StoreFrom(t, master, requester, files, i, ids, description, category, keyStreams, ivStreams,
                                     now).tables,
                           t.nextFileId, UploadRows(master, owner, files, description, category, keyStreams, ivStreams, now), i)
    decreases |files| - i
  {
    if i < |files| {
      var one := StoreSingleFile(t, master, requester, files[i], description, category, keyStreams(i), ivStreams(i), now);
      StoreFromUnfold(t, master, requester, files, i, ids, description, category, keyStreams, ivStreams, now);
      StoreSingleFileRow(t, master, requester, files[i], description, category, keyStreams(i), ivStreams(i), now);
      StoreFromRows(one.tables, master, requester, owner, files, i + 1, ids + [one.result.value], description, category,
                    keyStreams, ivStreams, now);
      var rest := StoreFrom(one.tables, master, requester, files, i + 1, ids + [one.result.value], description, category,
                            keyStreams, ivStreams, now);
      var rows := UploadRows(master, owner, files, description, category, keyStreams, ivStreams, now);
      UploadRowsAt(master, owner, files, description, category, keyStreams, ivStreams, now, i);
      RowsStoredStep(t, one.tables, rest.tables, |files| - (i + 1), requester, rows, i);
    }
  }

  // ---------------------------------------------------------------- share

  /** The in-memory copy getFileLobDataForSharing makes of a row, with its owner's public key. */
  datatype FileLobData = FileLobData(
    encryptedData: seq<byte>, encryptedAesKey: string, iv: string, authTag: string, signature: string,
    filename: string, description: string, category: string, contentType: string,
    originalFileId: Option<nat>, ownerId: nat, ownerPublicKey: Option<string>)

  /** `getFileLobDataForSharing`: the row, only for its owner, with the owner's public key. */
  function GetFileLobDataForSharing(t: Tables, fileId: nat, ownerId: nat): (r: Result<FileLobData>)
    ensures fileId !in t.files ==> r == Failure(NoSuchElement)
    ensures fileId in t.files && t.files[fileId].ownerId != ownerId ==> r == Failure(Security)
    ensures fileId in t.files && t.files[fileId].ownerId == ownerId && FindUserById(t.users, ownerId).None?
      ==> r == Failure(NoSuchElement)
    ensures r.Success? ==> fileId in t.files && FindUserById(t.users, ownerId).Some?
    ensures r.Success? ==>
      var row := t.files[fileId];
      r.value.ownerId == ownerId && r.value.ownerPublicKey == FindUserById(t.users, ownerId).value.publicKey
      && r.value.encryptedData == row.encryptedData && r.value.encryptedAesKey == row.encryptedAesKey
      && r.value.iv == row.iv && r.value.authTag == row.authTag && r.value.signature == row.signature
      && r.value.filename == row.filename && r.value.description == row.description
      && r.value.category == row.category && r.value.contentType == row.contentType
      && r.value.originalFileId == row.originalFileId
  {
    var row :- Require(FindFileById(t.files, fileId), NoSuchElement);
    if row.ownerId != ownerId then Failure(Security)
    else
      var owner :- Require(FindUserById(t.users, ownerId), NoSuchElement);
      Success(FileLobData(row.encryptedData, row.encryptedAesKey, row.iv, row.authTag, row.signature,
                          row.filename, row.description, row.category, row.contentType,
                          row.originalFileId, row.ownerId, owner.publicKey))
  }

  /** `String.valueOf` of a nullable Boolean. */
  function IsSensitiveText(isSensitive: Option<bool>): (s: string)
    ensures s == "true" || s == "false" || s == "null"
    ensures s == "true" <==> isSensitive == Some(true)
  {
    match isSensitive
    case None => "null"
    case Some(b) => if b then "true" else "false"
  }

  /**
   * The copy shareFile writes for the recipient, before it is saved: the
   * signature must verify under the sender's public key, and the AES key is
   * unwrapped with the sender's private key and wrapped again for the recipient.
   */
  function ShareCopy(master: AesKey, owner: User, lob: FileLobData, recipient: User, now: int): (r: Result<FileRow>)
    ensures r.Success? ==> (r.value.ownerId == recipient.userId && r.value.originalFileId == lob.originalFileId
      && r.value.encryptedData == lob.encryptedData && r.value.signature == lob.signature
      && r.value.iv == lob.iv && r.value.authTag == lob.authTag && r.value.filename == lob.filename
      && r.value.description == lob.description && r.value.category == lob.category
      && r.value.contentType == lob.contentType && r.value.timestamp == now)
  {
    var signature :- Base64.Decode(lob.signature);
    var senderPublicKey :- DecodePublicKey(lob.ownerPublicKey);
    if !Verify(Metadata(lob.filename, lob.description, lob.category), signature, senderPublicKey) then Failure(Security)
    else
      var senderPrivateKey :- UnsealedPrivateKey(master, owner.privateKey);
      var wrapped :- Base64.Decode(lob.encryptedAesKey);
      var keyBytes :- DecryptWithRsa(wrapped, senderPrivateKey);
      var aesKey :- AesKeyFromBytes(keyBytes);
      var recipientPublicKey :- DecodePublicKey(recipient.publicKey);
      var rewrapped := EncryptWithRsa(AesKeyBytes(aesKey), recipientPublicKey);
      Success(FileRow(0, lob.encryptedData, lob.signature, Base64.Encode(rewrapped), lob.iv, lob.authTag,
                      lob.filename, lob.description, lob.category, lob.contentType, recipient.userId,
                      lob.originalFileId, now))
  }

  /** The body of shareFile's try block: the new id and the tables, or the exception raised in it. */
  function ShareSteps(t: Tables, master: AesKey, requester: string, fileId: nat, recipientUsername: string,
                      isSensitive: Option<bool>, now: int): Result<(nat, Tables)>
  {
    var owner :- LoggedInUser(t.users, requester);
    var lob :- GetFileLobDataForSharing(t, fileId, owner.userId);
    var recipient :- Require(FindUserByUsername(t.users, recipientUsername), NoSuchElement);
    if ExistsByOriginalFileIdAndOwnerId(t.files, fileId, recipient.userId) then Failure(IllegalArgument)
    else
      var row :- ShareCopy(master, owner, lob, recipient, now);
      var newId := t.nextFileId;
      var saved := t.(files := t.files[newId := row.(id := newId)], nextFileId := newId + 1);
      var logged :- SharedFileService.LoggedShare(saved, requester, fileId, newId, recipient.userId, IsSensitiveText(isSensitive), now);
      Success((newId, logged))
  }

  /** The recipient shareFile resolves. */
  function Recipient(t: Tables, recipientUsername: string): Option<User> {
    FindUserByUsername(t.users, recipientUsername)
  }

  /**
   * `shareFile`. Its guards, in order: the requester, the row, ownership (both
   * in getFileLobDataForSharing), the recipient, the recipient already holding
   * a row whose originalFileId is the passed id, then the signature. On
   * success exactly one row, a copy owned by the recipient, and one ledger
   * entry are added.
   */
  function ShareFile(t: Tables, master: AesKey, requester: string, fileId: nat, recipientUsername: string,
                     isSensitive: Option<bool>, now: int): (o: Outcome<nat>)
    ensures o.result.Failure? ==> o.tables == t
    ensures LoggedInUser(t.users, requester).Failure? ==> o.result == Failure(Runtime)
    ensures LoggedInUser(t.users, requester).Success? ==>
      var owner := LoggedInUser(t.users, requester).value;
      (GetFileLobDataForSharing(t, fileId, owner.userId).Failure? ==>
        o.result == Failure(GetFileLobDataForSharing(t, fileId, owner.userId).error))
      && (GetFileLobDataForSharing(t, fileId, owner.userId).Success? && Recipient(t, recipientUsername).None? ==>
        o.result == Failure(NoSuchElement))
      && (GetFileLobDataForSharing(t, fileId, owner.userId).Success? && Recipient(t, recipientUsername).Some?
          && ExistsByOriginalFileIdAndOwnerId(t.files, fileId, Recipient(t, recipientUsername).value.userId) ==>
        o.result == Failure(IllegalArgument))
    ensures o.result.Success? ==> (LoggedInUser(t.users, requester).Success? && fileId in t.files
      && Recipient(t, recipientUsername).Some?
      && t.files[fileId].ownerId == LoggedInUser(t.users, requester).value.userId
      && !ExistsByOriginalFileIdAndOwnerId(t.files, fileId, Recipient(t, recipientUsername).value.userId))
    ensures (o.result.Success? && LoggedInUser(t.users, requester).Success? && fileId in t.files
             && Recipient(t, recipientUsername).Some?) ==>
      var newId := o.result.value;
      var row := t.files[fileId];
      newId == t.nextFileId && newId in o.tables.files
      && o.tables.files == t.files[newId := o.tables.files[newId]] && o.tables.nextFileId == newId + 1
      && var copy := o.tables.files[newId];
      copy.id == newId && copy.ownerId == Recipient(t, recipientUsername).value.userId
      && copy.originalFileId == row.originalFileId
      && copy.encryptedData == row.encryptedData && copy.signature == row.signature
      && copy.iv == row.iv && copy.authTag == row.authTag && copy.filename == row.filename
      && copy.description == row.description && copy.category == row.category && copy.contentType == row.contentType
      && copy.timestamp == now
    ensures o.result.Success? && LoggedInUser(t.users, requester).Success? && Recipient(t, recipientUsername).Some? ==>
      |o.tables.sharedFiles| == |t.sharedFiles| + 1 && o.tables.sharedFiles[..|t.sharedFiles|] == t.sharedFiles
      && var e := o.tables.sharedFiles[|t.sharedFiles|];
      e.newFileId == o.result.value && e.originalFileId == fileId
      && e.senderId == LoggedInUser(t.users, requester).value.userId
      && e.recipientId == Recipient(t, recipientUsername).value.userId
      && e.isSensitive == IsSensitiveText(isSensitive) && e.sharedAt == now
      && o.tables.users == t.users && o.tables.auditLogs == t.auditLogs
  {
    match ShareSteps(t, master, requester, fileId, recipientUsername, isSensitive, now)
    case Failure(e) => Outcome(Failure(CatchAll(e)), t)
    case Success(step) => Outcome(Success(step.0), step.1)
  }

  // ---------------------------------------------------------------- delete

  /** The recipient ids of the "list" deletion: every name must resolve. */
  function ResolveRecipients(users: seq<User>, names: seq<string>): (r: Result<seq<nat>>)
    ensures r.Success? <==> forall n :: n in names ==> FindUserByUsername(users, n).Some?
    ensures r.Failure? ==> r.error == NoSuchElement
    ensures r.Success? ==> (|r.value| == |names|
      && forall i :: 0 <= i < |names| ==> r.value[i] == FindUserByUsername(users, names[i]).value.userId)
  {
    if names == [] then Success([])
    else
      assert names[0] in names && forall n :: n in names[1..] ==> n in names;
      assert forall n :: n in names ==> n == names[0] || n in names[1..];
      match FindUserByUsername(users, names[0])
      case None => Failure(NoSuchElement)
      case Some(user) =>
        match ResolveRecipients(users, names[1..])
        case Failure(e) => Failure(e)
        case Success(rest) => Success([user.userId] + rest)
  }

  /** The requester may delete the row: it exists and they own it. */
  predicate OwnsRow(t: Tables, requester: string, fileId: nat) {
    LoggedInUser(t.users, requester).Success? && fileId in t.files
    && t.files[fileId].ownerId == LoggedInUser(t.users, requester).value.userId
  }

  /**
   * The "everyone" deletion of a root: every ledger entry made from it, the
   * copies those entries name, and the root itself.
   */
  function DeleteEveryone(t: Tables, fileId: nat): (u: Tables)
    ensures forall e :: e in u.sharedFiles <==> e in t.sharedFiles && e.originalFileId != fileId
    ensures forall k :: k in u.files <==> (k in t.files && k != fileId
      && !(exists e :: e in t.sharedFiles && e.originalFileId == fileId && e.newFileId == k))
    ensures forall k :: k in u.files ==> u.files[k] == t.files[k]
    ensures u.users == t.users && u.auditLogs == t.auditLogs
    ensures u.nextFileId == t.nextFileId && u.nextSharedFileId == t.nextSharedFileId
  {
    var entries := FindSharedFilesByFileId(t.sharedFiles, fileId);
    NewFileIdsMembership(entries);
    t.(sharedFiles := DeleteAll(t.sharedFiles, entries), files := t.files - IdSet(NewFileIds(entries)) - {fileId})
  }

  /** The "list" deletion: the chosen entries and the copies they name; the root stays. */
  function DeleteListed(t: Tables, entries: seq<SharedFile>): (u: Tables)
    ensures forall e :: e in u.sharedFiles <==> e in t.sharedFiles && e !in entries
    ensures forall k :: k in u.files <==> k in t.files && !(exists e :: e in entries && e.newFileId == k)
    ensures forall k :: k in u.files ==> u.files[k] == t.files[k]
    ensures u.users == t.users && u.auditLogs == t.auditLogs
    ensures u.nextFileId == t.nextFileId && u.nextSharedFileId == t.nextSharedFileId
  {
    NewFileIdsMembership(entries);
    t.(sharedFiles := DeleteAll(t.sharedFiles, entries), files := t.files - IdSet(NewFileIds(entries)))
  }

  /** A recipient deleting a copy: the row and the ledger entries naming it. */
  function DeleteCopy(t: Tables, fileId: nat): (u: Tables)
    ensures forall e :: e in u.sharedFiles <==> e in t.sharedFiles && e.newFileId != fileId
    ensures u.files == t.files - {fileId}
    ensures u.users == t.users && u.auditLogs == t.auditLogs
    ensures u.nextFileId == t.nextFileId && u.nextSharedFileId == t.nextSharedFileId
  {
    t.(files := t.files - {fileId}, sharedFiles := DeleteByNewFileId(t.sharedFiles, fileId))
  }

  /** The "list" branch of a root deletion, from the requested usernames on. */
  function DeleteListSteps(t: Tables, fileId: nat, recipientUsernames: Option<seq<string>>): (r: Result<Tables>)
    ensures recipientUsernames.None? || recipientUsernames.value == [] ==> r == Failure(IllegalArgument)
    ensures (recipientUsernames.Some? && recipientUsernames.value != []
             && ResolveRecipients(t.users, recipientUsernames.value).Failure?) ==> r == Failure(NoSuchElement)
    ensures (recipientUsernames.Some? && recipientUsernames.value != []
             && ResolveRecipients(t.users, recipientUsernames.value).Success?) ==>
      var entries := FindSharedFilesByFileIdAndRecipientId(t.sharedFiles, fileId,
                                                           ResolveRecipients(t.users, recipientUsernames.value).value);
      r == (if entries == [] then Failure(NoSuchElement) else Success(DeleteListed(t, entries)))
  {
    if recipientUsernames.None? || recipientUsernames.value == [] then Failure(IllegalArgument)
    else
      var recipientIds :- ResolveRecipients(t.users, recipientUsernames.value);
      var entries := FindSharedFilesByFileIdAndRecipientId(t.sharedFiles, fileId, recipientIds);
      if entries == [] then Failure(NoSuchElement) else Success(DeleteListed(t, entries))
  }

  /** The body of deleteFile: the tables after it, or the exception it ends with. */
  function DeleteSteps(t: Tables, requester: string, fileId: nat, deletionType: Option<string>,
                       recipientUsernames: Option<seq<string>>): Result<Tables>
  {
    var owner :- LoggedInUser(t.users, requester);
    if fileId !in t.files then Failure(NoSuchElement)
    else if t.files[fileId].ownerId != owner.userId then Failure(Security)
    else if ExistsByOriginalFileIdAndFileId(t.files, fileId) then
      match deletionType
      case None => Failure(NullPointer)
      case Some(kind) =>
        if kind == "me" then Success(t.(files := t.files - {fileId}))
        else if kind == "everyone" then Success(DeleteEveryone(t, fileId))
        else if kind == "list" then DeleteListSteps(t, fileId, recipientUsernames)
        else Failure(IllegalArgument)
    else if deletionType != Some("me") then Failure(IllegalArgument)
    else Success(DeleteCopy(t, fileId))
  }

  /**
   * `deleteFile`. No try block here: the requester's UsernameNotFoundException
   * and a null deletion type's NullPointerException come out as they are. An
   * owner deletes a lineage root for "me" (the row alone), "everyone" (with all
   * its copies and entries) or "list" (the copies of the named recipients); the
   * recipient of a copy may only delete it for "me".
   */
  function DeleteFile(t: Tables, requester: string, fileId: nat, deletionType: Option<string>,
                      recipientUsernames: Option<seq<string>>): (o: Outcome<()>)
    ensures o.result.Failure? ==> o.tables == t
    ensures o.result.Success? ==> OwnsRow(t, requester, fileId)
    ensures LoggedInUser(t.users, requester).Failure? ==> o.result == Failure(UsernameNotFound)
    ensures LoggedInUser(t.users, requester).Success? && fileId !in t.files ==> o.result == Failure(NoSuchElement)
    ensures LoggedInUser(t.users, requester).Success? && fileId in t.files && !OwnsRow(t, requester, fileId)
      ==> o.result == Failure(Security)
    ensures OwnsRow(t, requester, fileId) && ExistsByOriginalFileIdAndFileId(t.files, fileId) ==>
      if deletionType.None? then o.result == Failure(NullPointer)
      else if deletionType.value == "me" then o == Outcome(Success(()), t.(files := t.files - {fileId}))
      else if deletionType.value == "everyone" then o == Outcome(Success(()), DeleteEveryone(t, fileId))
      else if deletionType.value == "list" then
        (if DeleteListSteps(t, fileId, recipientUsernames).Success?
         then o == Outcome(Success(()), DeleteListSteps(t, fileId, recipientUsernames).value)
         else o.result == Failure(DeleteListSteps(t, fileId, recipientUsernames).error))
      else o.result == Failure(IllegalArgument)
    ensures OwnsRow(t, requester, fileId) && !ExistsByOriginalFileIdAndFileId(t.files, fileId) ==>
      o == if deletionType == Some("me") then Outcome(Success(()), DeleteCopy(t, fileId))
           else Outcome(Failure(IllegalArgument), t)
  {
    match DeleteSteps(t, requester, fileId, deletionType, recipientUsernames)
    case Failure(e) => Outcome(Failure(e), t)
    case Success(after) => Outcome(Success(()), after)
  }

  /** A row id is among the copies a list of entries names exactly when some entry names it. */
  lemma NewFileIdsMembership(entries: seq<SharedFile>)
    ensures forall k :: k in IdSet(NewFileIds(entries)) <==> exists e :: e in entries && e.newFileId == k
  {
    forall k ensures k in IdSet(NewFileIds(entries)) <==> exists e :: e in entries && e.newFileId == k {
      if k in NewFileIds(entries) {
        var i :| 0 <= i < |entries| && NewFileIds(entries)[i] == k;
        assert entries[i] in entries;
      }
      if exists e :: e in entries && e.newFileId == k {
        var e :| e in entries && e.newFileId == k;
        var i :| 0 <= i < |entries| && entries[i] == e;
        assert NewFileIds(entries)[i] == k;
      }
    }
  }

  // ---------------------------------------------------------------- download

  /** What downloadFileAndGetMetadata returns. */
  datatype Download = Download(fileData: seq<byte>, originalFilename: string, contentType: string)

  /** Unwrap a row's AES key with the owner's private key and open its GCM envelope. */
  function OpenEnvelope(master: AesKey, owner: User, file: FileRow): Result<seq<byte>> {
    var ownerPrivateKey :- UnsealedPrivateKey(master, owner.privateKey);
    var wrapped :- Base64.Decode(file.encryptedAesKey);
    var keyBytes :- DecryptWithRsa(wrapped, ownerPrivateKey);
    var aesKey :- AesKeyFromBytes(keyBytes);
    var iv :- Base64.Decode(file.iv);
    var combined :- CombineCiphertextAndTag(file.encryptedData, file.authTag);
    DecryptWithAesGcm(combined, aesKey, iv)
  }

  /**
   * The signature check of the download: the owner of the lineage root, looked
   * up through findByIdAndOriginalFileId, must exist and its key must verify
   * the signature over the row's metadata. A null owner id reaches
   * `findById(null)`, whose exception is not one the catch lets through.
   */
  function CheckSignature(t: Tables, file: FileRow): (r: Result<()>)
    ensures r.Success? ==> FindRootOwnerId(t.files, file.originalFileId).Some?
    ensures FindRootOwnerId(t.files, file.originalFileId).None? ==> r == Failure(Runtime)
  {
    var originalOwnerId :- Require(FindRootOwnerId(t.files, file.originalFileId), Runtime);
    var originalOwner :- Require(FindUserById(t.users, originalOwnerId), NoSuchElement);
    var signature :- Base64.Decode(file.signature);
    var signerKey :- DecodePublicKey(originalOwner.publicKey);
    if !Verify(Metadata(file.filename, file.description, file.category), signature, signerKey) then Failure(Security)
    else Success(())
  }

  /** The signature verifies under the public key of the lineage root's owner. */
  predicate SignedByRootOwner(t: Tables, file: FileRow) {
    match FindRootOwnerId(t.files, file.originalFileId)
    case None => false
    case Some(id) =>
      match FindUserById(t.users, id)
      case None => false
      case Some(signer) =>
        Base64.Decode(file.signature).Success? && DecodePublicKey(signer.publicKey).Success?
        && Verify(Metadata(file.filename, file.description, file.category), Base64.Decode(file.signature).value,
                  DecodePublicKey(signer.publicKey).value)
  }

  function DownloadSteps(t: Tables, master: AesKey, requester: string, fileId: nat): Result<Download> {
    var owner :- LoggedInUser(t.users, requester);
    var file :- Require(FindFileById(t.files, fileId), NoSuchElement);
    if file.ownerId != owner.userId then Failure(Security)
    else
      var _ :- CheckSignature(t, file);
      var fileData :- OpenEnvelope(master, owner, file);
      Success(Download(fileData, file.filename, file.contentType))
  }

  /**
   * `downloadFileAndGetMetadata`: a missing row and a requester who does not own
   * it fail before any key is touched, whatever the master key; a download
   * succeeds only for a signature the root owner's key verifies, and returns the
   * plaintext with the row's filename and content type.
   */
  function DownloadFileAndGetMetadata(t: Tables, master: AesKey, requester: string, fileId: nat): (r: Result<Download>)
    ensures LoggedInUser(t.users, requester).Failure? ==> r == Failure(Runtime)
    ensures LoggedInUser(t.users, requester).Success? && fileId !in t.files ==> r == Failure(NoSuchElement)
    ensures LoggedInUser(t.users, requester).Success? && fileId in t.files && !OwnsRow(t, requester, fileId)
      ==> r == Failure(Security)
    ensures r.Failure? ==> r.error in {NoSuchElement, Security, IllegalArgument, Runtime}
    ensures r.Success? ==> (OwnsRow(t, requester, fileId) && SignedByRootOwner(t, t.files[fileId])
      && r.value.originalFilename == t.files[fileId].filename && r.value.contentType == t.files[fileId].contentType
      && OpenEnvelope(master, LoggedInUser(t.users, requester).value, t.files[fileId]) == Success(r.value.fileData))
  {
    match DownloadSteps(t, master, requester, fileId)
    case Failure(e) => Failure(CatchAll(e))
    case Success(d) => Success(d)
  }

  /** What downloadEncryptedFileAndSendKeys returns, and the mail it sends the owner. */
  datatype EncryptedDownload = EncryptedDownload(encryptedFileData: seq<byte>, originalFilename: string, contentType: string)
  datatype KeyMail = KeyMail(to: string, aesKey: string, iv: string, authTag: string)

  /** The row's AES key, unwrapped with the owner's unsealed private key. */
  function UnwrappedKey(master: AesKey, owner: User, file: FileRow): (r: Result<seq<byte>>)
    ensures r.Success? <==> (UnsealedPrivateKey(master, owner.privateKey).Success?
                             && Base64.Decode(file.encryptedAesKey).Success?
                             && DecryptWithRsa(Base64.Decode(file.encryptedAesKey).value,
                                               UnsealedPrivateKey(master, owner.privateKey).value).Success?)
    ensures r.Success? ==> r.value == DecryptWithRsa(Base64.Decode(file.encryptedAesKey).value,
                                                     UnsealedPrivateKey(master, owner.privateKey).value).value
  {
    var ownerPrivateKey :- UnsealedPrivateKey(master, owner.privateKey);
    var wrapped :- Base64.Decode(file.encryptedAesKey);
    DecryptWithRsa(wrapped, ownerPrivateKey)
  }

  /**
   * `delivered` says whether the mail server accepted the key mail; a
   * MessagingException or MailException from it is wrapped like any other
   * exception, as a RuntimeException.
   */
  function EncryptedDownloadSteps(t: Tables, master: AesKey, requester: string, fileId: nat, delivered: bool)
    : Result<(EncryptedDownload, KeyMail)>
  {
    var owner :- LoggedInUser(t.users, requester);
    var file :- Require(FindFileById(t.files, fileId), NoSuchElement);
    if file.ownerId != owner.userId then Failure(Security)
    else
      var keyBytes :- UnwrappedKey(master, owner, file);
      if !delivered then Failure(Runtime)
      else
        Success((EncryptedDownload(file.encryptedData, file.filename + ".enc", file.contentType),
                 KeyMail(owner.email, Base64.Encode(keyBytes), file.iv, file.authTag)))
  }

  /**
   * `downloadEncryptedFileAndSendKeys`: the same owner guards; on success the
   * stored ciphertext under the name filename + ".enc", and a delivered mail to
   * the owner with the Base64 of the unwrapped AES key, the IV and the tag. A
   * mail that cannot be sent fails the whole call.
   */
  function DownloadEncryptedFileAndSendKeys(t: Tables, master: AesKey, requester: string, fileId: nat, delivered: bool)
    : (r: Result<(EncryptedDownload, KeyMail)>)
    ensures LoggedInUser(t.users, requester).Failure? ==> r == Failure(Runtime)
    ensures LoggedInUser(t.users, requester).Success? && fileId !in t.files ==> r == Failure(NoSuchElement)
    ensures LoggedInUser(t.users, requester).Success? && fileId in t.files && !OwnsRow(t, requester, fileId)
      ==> r == Failure(Security)
    ensures !delivered ==> r.Failure?
    ensures (OwnsRow(t, requester, fileId) && !delivered
             && UnwrappedKey(master, LoggedInUser(t.users, requester).value, t.files[fileId]).Success?)
      ==> r == Failure(Runtime)
    ensures r.Success? ==> (OwnsRow(t, requester, fileId)
      && r.value.0 == EncryptedDownload(t.files[fileId].encryptedData, t.files[fileId].filename + ".enc", t.files[fileId].contentType)
      && r.value.1.to == LoggedInUser(t.users, requester).value.email
      && r.value.1.iv == t.files[fileId].iv && r.value.1.authTag == t.files[fileId].authTag)
    ensures r.Success? ==> (
      var key := UnwrappedKey(master, LoggedInUser(t.users, requester).value, t.files[fileId]);
      key.Success? && r.value.1.aesKey == Base64.Encode(key.value))
  {
    match EncryptedDownloadSteps(t, master, requester, fileId, delivered)
    case Failure(e) => Failure(CatchAll(e))
    case Success(d) => Success(d)
  }
}
