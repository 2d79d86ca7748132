/**
 * The persistent records of the vault and the repository lookups the services
 * issue against them.
 *
 * File rows live in a map keyed by their generated id, and the share ledger,
 * the users and the audit log are tables in insertion order. A nullable column
 * is an `Option`.
 */
module Entities {
  import opened Wrappers
  import opened Bytes

  /** A stored file: an encrypted envelope plus its metadata, as the file service's setters fill it. */
  datatype FileRow = FileRow(
    id: nat,
    encryptedData: seq<byte>,   // AES-GCM ciphertext without its tag
    signature: string,          // Base64 signature over filename + description + category
    encryptedAesKey: string,    // Base64 of the AES key wrapped for the owner
    iv: string,                 // Base64 of the 12-byte GCM IV
    authTag: string,            // Base64 of the 16-byte GCM tag
    filename: string,
    description: string,
    category: string,
    contentType: string,
    ownerId: nat,
    originalFileId: Option<nat>, // the lineage root; null only between the two saves of an upload
    timestamp: int)

  /** A row is a lineage root when its originalFileId is its own id. */
  predicate IsRoot(row: FileRow) {
    row.originalFileId == Some(row.id)
  }

  /** A share-ledger entry. */
  datatype SharedFile = SharedFile(
    id: nat,
    newFileId: nat,        // the recipient's copy
    originalFileId: nat,   // the file id the share was made from
    senderId: nat,
    recipientId: nat,
    filename: string,
    category: string,
    isSensitive: string,   // "true", "false" or "null"
    sharedAt: int)

  datatype User = User(
    userId: nat,
    username: string,
    email: string,
    password: string,
    publicKey: Option<string>,   // Base64 X.509
    privateKey: Option<string>)  // Base64 of IV ‖ GCM output, sealed under the master key

  datatype AuditLog = AuditLog(id: nat, userId: nat, action: string, filename: string, timestamp: int)

  /** The database the file, sharing and user services work on. */
  datatype Tables = Tables(
    files: map<nat, FileRow>,
    nextFileId: nat,
    sharedFiles: seq<SharedFile>,
    nextSharedFileId: nat,
    users: seq<User>,
    auditLogs: seq<AuditLog>)

  /** Usernames, emails and user ids are unique (the users table's unique constraints and its key). */
  predicate UniqueUsers(users: seq<User>) {
    forall i, j :: 0 <= i < j < |users| ==>
      users[i].username != users[j].username && users[i].email != users[j].email && users[i].userId != users[j].userId
  }

  /** `userRepository.findByUsername`. */
  function FindUserByUsername(users: seq<User>, username: string): (r: Option<User>)
    ensures r.Some? ==> r.value in users && r.value.username == username
    ensures r.None? ==> forall u :: u in users ==> u.username != username
  {
    if users == [] then None
    else if users[0].username == username then Some(users[0])
    else FindUserByUsername(users[1..], username)
  }

  /** `userRepository.findById`. */
  function FindUserById(users: seq<User>, userId: nat): (r: Option<User>)
    ensures r.Some? ==> r.value in users && r.value.userId == userId
    ensures r.None? ==> forall u :: u in users ==> u.userId != userId
  {
    if users == [] then None
    else if users[0].userId == userId then Some(users[0])
    else FindUserById(users[1..], userId)
  }

  /** `userRepository.findByEmail`. */
  function FindUserByEmail(users: seq<User>, email: string): (r: Option<User>)
    ensures r.Some? ==> r.value in users && r.value.email == email
    ensures r.None? ==> forall u :: u in users ==> u.email != email
  {
    if users == [] then None
    else if users[0].email == email then Some(users[0])
    else FindUserByEmail(users[1..], email)
  }

  /** Under the unique constraints a lookup finds the one user with that name. */
  lemma {:induction false} FindUserByUsernameUnique(users: seq<User>, i: nat)
    requires UniqueUsers(users) && i < |users|
    ensures FindUserByUsername(users, users[i].username) == Some(users[i])
  {
    if i > 0 {
      assert users[0].username != users[i].username;
      assert UniqueUsers(users[1..]) by {
        forall a, b | 0 <= a < b < |users| - 1
          ensures users[1..][a].username != users[1..][b].username
          && users[1..][a].email != users[1..][b].email && users[1..][a].userId != users[1..][b].userId
        {
          assert users[1..][a] == users[a + 1] && users[1..][b] == users[b + 1];
        }
      }
      FindUserByUsernameUnique(users[1..], i - 1);
    }
  }

  /** `authUtil.getLoggedInUser()`: the requester's record, or UsernameNotFoundException. */
  function LoggedInUser(users: seq<User>, requester: string): (r: Result<User>)
    ensures r.Success? <==> FindUserByUsername(users, requester).Some?
    ensures r.Success? ==> r.value in users && r.value.username == requester
    ensures r.Failure? ==> r.error == UsernameNotFound
  {
    match FindUserByUsername(users, requester)
    case Some(u) => Success(u)
    case None => Failure(UsernameNotFound)
  }

  /** `fileRepository.findById`. */
  function FindFileById(files: map<nat, FileRow>, fileId: nat): (r: Option<FileRow>)
    ensures r.Some? <==> fileId in files
    ensures r.Some? ==> r.value == files[fileId]
  {
    if fileId in files then Some(files[fileId]) else None
  }

  /** `existbyOriginalFileIdAndOwnerId(originalFileId, ownerId)`: some row of that lineage id has that owner. */
  predicate ExistsByOriginalFileIdAndOwnerId(files: map<nat, FileRow>, originalFileId: nat, ownerId: nat) {
    exists k :: k in files && files[k].originalFileId == Some(originalFileId) && files[k].ownerId == ownerId
  }

  /** `existbyOriginalFileIdAndFileId(fileId)`: the row with that id is its own lineage root. */
  predicate ExistsByOriginalFileIdAndFileId(files: map<nat, FileRow>, fileId: nat) {
    fileId in files && files[fileId].originalFileId == Some(fileId)
  }

  /**
   * `findByIdAndOriginalFileId(originalFileId)`: the owner of the root row with
   * that id, or null when the id is null or that root is gone.
   */
  function FindRootOwnerId(files: map<nat, FileRow>, originalFileId: Option<nat>): (r: Option<nat>)
    ensures r.Some? <==> originalFileId.Some? && ExistsByOriginalFileIdAndFileId(files, originalFileId.value)
    ensures r.Some? ==> r.value == files[originalFileId.value].ownerId
  {
    match originalFileId
    case None => None
    case Some(o) => if ExistsByOriginalFileIdAndFileId(files, o) then Some(files[o].ownerId) else None
  }

  /** The ids below `bound` of the rows an owner has, in ascending order. */
  function OwnedIdsBelow(files: map<nat, FileRow>, ownerId: nat, bound: nat): (ids: seq<nat>)
    ensures forall i :: 0 <= i < |ids| ==> ids[i] < bound && ids[i] in files && files[ids[i]].ownerId == ownerId
    ensures forall k :: k in files && k < bound && files[k].ownerId == ownerId ==> k in ids
    ensures forall i, j :: 0 <= i < j < |ids| ==> ids[i] < ids[j]
  {
    if bound == 0 then []
    else
      var below := OwnedIdsBelow(files, ownerId, bound - 1);
      if bound - 1 in files && files[bound - 1].ownerId == ownerId then below + [bound - 1] else below
  }

  /** `findByOwnerId(ownerId)` mapped to ids; the rows are taken in ascending id order. */
  function FindIdsByOwnerId(t: Tables, ownerId: nat): seq<nat> {
    OwnedIdsBelow(t.files, ownerId, t.nextFileId)
  }

  /** Every row is stored under its own id, and ids are below the next id to hand out. */
  predicate RowsKeyed(t: Tables) {
    forall k :: k in t.files ==> t.files[k].id == k && k < t.nextFileId
  }

  /** The ids a list names, as a set (the rows `deleteAllById` removes). */
  function IdSet(ids: seq<nat>): (s: set<nat>)
    ensures forall id :: id in s <==> id in ids
  {
    set id | id in ids
  }

  /** Under the unique constraints a lookup by id finds the one user with that id. */
  lemma {:induction false} FindUserByIdUnique(users: seq<User>, i: nat)
    requires UniqueUsers(users) && i < |users|
    ensures FindUserById(users, users[i].userId) == Some(users[i])
  {
    if i > 0 {
      assert users[0].userId != users[i].userId;
      assert UniqueUsers(users[1..]) by {
        forall a, b | 0 <= a < b < |users| - 1
          ensures users[1..][a].username != users[1..][b].username
          && users[1..][a].email != users[1..][b].email && users[1..][a].userId != users[1..][b].userId
        {
          assert users[1..][a] == users[a + 1] && users[1..][b] == users[b + 1];
        }
      }
      FindUserByIdUnique(users[1..], i - 1);
    }
  }
}
