/**
 * The account operations of the user service: the password reset by one-time
 * password, and the deletion of an account with everything it owns. The
 * username `deleteFile` reads from the security context is the parameter
 * `requester`; the password encoder is the function `encode`.
 */
module UserService {
  import opened Wrappers
  import opened Entities
  import opened SharedFileRepository
  import Vault
  import VaultProperties
  import Database
  import FileService
  import OtpService

  // ------------------------------------------------------------ account deletion

  /** The deletion type deleteAccount passes for one of the user's rows: "everyone" for a root it owns. */
  function DeletionKind(files: map<nat, FileRow>, fileId: nat, userId: nat): string {
    if ExistsByOriginalFileIdAndOwnerId(files, fileId, userId) then "everyone" else "me"
  }

  /** The loop of deleteAccount: one deleteFile per id, the first failure ends it. */
  function DeleteEach(t: Tables, requester: string, userId: nat, ids: seq<nat>): (r: Result<Tables>)
    decreases |ids|
  {
    if ids == [] then Success(t)
    else
      var o := Vault.DeleteFile(t, requester, ids[0], Some(DeletionKind(t.files, ids[0], userId)), Some([]));
      match o.result
      case Failure(e) => Failure(e)
      case Success(_) => DeleteEach(o.tables, requester, userId, ids[1..])
  }

  /**
   * `deleteAccount`: the user by name, every row it owns (the ids read before
   * the first delete), its audit logs, then the user; one transaction.
   */
  function AccountDeletion(t: Tables, requester: string, username: string): (o: Vault.Outcome<()>)
    ensures o.result.Failure? ==> o.tables == t
    ensures FindUserByUsername(t.users, username).None? ==> o == Vault.Outcome(Failure(NoSuchElement), t)
  {
    match FindUserByUsername(t.users, username)
    case None => Vault.Outcome(Failure(NoSuchElement), t)
    case Some(user) =>
      match DeleteEach(t, requester, user.userId, FindIdsByOwnerId(t, user.userId))
      case Failure(e) => Vault.Outcome(Failure(e), t)
      case Success(u) =>
        Vault.Outcome(Success(()), u.(auditLogs := Database.WithoutLogsOf(u.auditLogs, user.userId),
                                      users := Database.WithoutUser(u.users, user.userId)))
  }

  /** A lineage root that `userId` owns. */
  predicate OwnedRoot(files: map<nat, FileRow>, fileId: nat, userId: nat) {
    fileId in files && IsRoot(files[fileId]) && files[fileId].ownerId == userId
  }

  /**
   * One successful step of the loop: the row existed and is gone, the accounts
   * are untouched, and for a root the user owns the step was "everyone", so no
   * ledger entry of that root is left.
   */
  lemma DeleteStep(t: Tables, requester: string, userId: nat, fileId: nat)
    requires VaultProperties.Lineage(t)
    requires Vault.DeleteFile(t, requester, fileId, Some(DeletionKind(t.files, fileId, userId)), Some([])).result.Success?
    ensures var u := Vault.DeleteFile(t, requester, fileId, Some(DeletionKind(t.files, fileId, userId)), Some([])).tables;
      fileId in t.files && fileId !in u.files && u.users == t.users && u.auditLogs == t.auditLogs
      && (OwnedRoot(t.files, fileId, userId) ==> forall e :: e in u.sharedFiles ==> e.originalFileId != fileId)
  {
    var kind := DeletionKind(t.files, fileId, userId);
    assert fileId in t.files;
    if OwnedRoot(t.files, fileId, userId) {
      VaultProperties.OwnedRootTest(t, fileId);
      assert kind == "everyone";
      assert t.files[fileId].id == fileId;
      assert ExistsByOriginalFileIdAndFileId(t.files, fileId);
    }
  }

  /**
   * A successful loop only removed rows and entries, removed every id it was
   * given (each of which existed), and left no ledger entry of a root the user
   * owned.
   */
  lemma {:induction false} DeleteEachRemoves(t: Tables, requester: string, userId: nat, ids: seq<nat>)
    requires VaultProperties.Lineage(t)
    requires DeleteEach(t, requester, userId, ids).Success?
    ensures var u := DeleteEach(t, requester, userId, ids).value;
      VaultProperties.Shrunk(t, u) && u.users == t.users && u.auditLogs == t.auditLogs
      && (forall id :: id in ids ==> id in t.files && id !in u.files)
      && (forall id, e :: id in ids && OwnedRoot(t.files, id, userId) && e in u.sharedFiles ==> e.originalFileId != id)
    decreases |ids|
  {
    if ids != [] {
      var kind := DeletionKind(t.files, ids[0], userId);
      var o := Vault.DeleteFile(t, requester, ids[0], Some(kind), Some([]));
      VaultProperties.DeleteFileShrinks(t, requester, ids[0], Some(kind), Some([]));
      VaultProperties.LineageDeleteFile(t, requester, ids[0], Some(kind), Some([]));
      DeleteStep(t, requester, userId, ids[0]);
      DeleteEachRemoves(o.tables, requester, userId, ids[1..]);
      var u := DeleteEach(t, requester, userId, ids).value;
      assert u == DeleteEach(o.tables, requester, userId, ids[1..]).value;
      forall id | id in ids
        ensures id in t.files && id !in u.files
      {
        if id != ids[0] {
          assert id in ids[1..];
        }
      }
      forall id, e | id in ids && OwnedRoot(t.files, id, userId) && e in u.sharedFiles
        ensures e.originalFileId != id
      {
        if id != ids[0] {
          assert id in ids[1..];
          assert OwnedRoot(o.tables.files, id, userId);
        }
      }
    }
  }

  /**
   * After a successful deleteAccount the user owns no row, has no audit log and
   * no account, no ledger entry of a root it owned is left, every other user is
   * kept, and the lineage invariant still holds.
   */
  lemma AccountDeletionErases(t: Tables, requester: string, username: string)
    requires VaultProperties.Lineage(t) && UniqueUsers(t.users)
    requires AccountDeletion(t, requester, username).result.Success?
    ensures FindUserByUsername(t.users, username).Some?
    ensures var user := FindUserByUsername(t.users, username).value;
      var u := AccountDeletion(t, requester, username).tables;
      (forall k :: k in u.files ==> u.files[k].ownerId != user.userId)
      && (forall l :: l in u.auditLogs ==> l.userId != user.userId)
      && FindUserByUsername(u.users, username).None?
      && (forall v :: v in t.users && v.userId != user.userId ==> v in u.users)
      && (forall e, k :: e in u.sharedFiles && OwnedRoot(t.files, k, user.userId) ==> e.originalFileId != k)
      && VaultProperties.Lineage(u)
  {
    var user := FindUserByUsername(t.users, username).value;
    var ids := FindIdsByOwnerId(t, user.userId);
    DeleteEachRemoves(t, requester, user.userId, ids);
    var mid := DeleteEach(t, requester, user.userId, ids).value;
    var u := AccountDeletion(t, requester, username).tables;
    forall k | k in u.files
      ensures u.files[k].ownerId != user.userId
    {
      assert k in t.files && u.files[k] == t.files[k];
    }
    forall e, k | e in u.sharedFiles && OwnedRoot(t.files, k, user.userId)
      ensures e.originalFileId != k
    {
      assert k in ids;
    }
    VaultProperties.LineageShrunk(t, u);
  }

  /** An unknown username: NoSuchElementException and nothing deleted. */
  lemma AccountDeletionUnknownUser(t: Tables, requester: string, username: string)
    requires forall u :: u in t.users ==> u.username != username
    ensures AccountDeletion(t, requester, username) == Vault.Outcome(Failure(NoSuchElement), t)
  {
  }

  /** `deleteAccount` on the database, rolled back on a failure of any of its deletes. */
  method DeleteAccount(db: Database.Db, requester: string, username: string) returns (r: Result<()>)
    modifies db
    ensures var o := AccountDeletion(old(db.State()), requester, username);
      r == o.result && db.State() == o.tables
  {
    var user := FindUserByUsername(db.users, username);
    if user.None? {
      return Failure(NoSuchElement);
    }
    var userId := user.value.userId;
    var snapshot := db.State();
    var userFileIds := FindIdsByOwnerId(db.State(), userId);
    var i := 0;
    while i < |userFileIds|
      invariant 0 <= i <= |userFileIds|
      invariant DeleteEach(snapshot, requester, userId, userFileIds)
             == DeleteEach(db.State(), requester, userId, userFileIds[i..])
      decreases |userFileIds| - i
    {
      assert userFileIds[i..][1..] == userFileIds[i + 1..];
      var deleted := FileService.DeleteFile(db, requester, userFileIds[i],
                                            Some(DeletionKind(db.files, userFileIds[i], userId)), Some([]));
      if deleted.Failure? {
        db.Restore(snapshot);
        return Failure(deleted.error);
      }
      i := i + 1;
    }
    db.DeleteAuditLogsOf(userId);
    db.DeleteUser(userId);
    r := Success(());
  }

  // ------------------------------------------------------------ password reset

  /** `initiatePasswordReset`: only a registered email gets a code. */
  method InitiatePasswordReset(db: Database.Db, otpRepo: OtpService.OtpRepository, email: string, draw: nat,
                               now: int, delivered: bool) returns (r: Result<()>)
    requires otpRepo.Valid()
    modifies otpRepo
    ensures otpRepo.Valid()
    ensures FindUserByEmail(db.users, email).None? ==> r == Failure(NoSuchElement) && otpRepo.otps == old(otpRepo.otps)
    ensures FindUserByEmail(db.users, email).Some? ==>
      r == (if delivered then Success(()) else Failure(Runtime))
      && otpRepo.otps == if delivered then old(otpRepo.otps)[email := OtpService.IssuedOtp(email, draw, now)]
                         else old(otpRepo.otps)
  {
    var user := FindUserByEmail(db.users, email);
    if user.None? {
      return Failure(NoSuchElement);
    }
    r := OtpService.GenerateAndSendOtp(otpRepo, user.value.email, draw, now, delivered);
  }

  /**
   * `resetPassword`: the code is checked (and consumed, in its own transaction)
   * before the user is looked up; only then is the new password encoded and saved.
   */
  method ResetPassword(db: Database.Db, otpRepo: OtpService.OtpRepository, email: string, otp: string,
                       newPassword: string, now: int, encode: string -> string) returns (r: Result<()>)
    requires otpRepo.Valid()
    modifies db, otpRepo
    ensures otpRepo.Valid()
    ensures otpRepo.otps == OtpService.CommittedAfterVerify(old(otpRepo.otps), email, otp, now)
    ensures var v := OtpService.VerifyOutcome(old(otpRepo.otps), email, otp, now);
      v.Failure? ==> r == Failure(v.error) && db.State() == old(db.State())
    ensures var v := OtpService.VerifyOutcome(old(otpRepo.otps), email, otp, now);
      v.Success? && FindUserByEmail(old(db.users), email).None? ==>
        r == Failure(NoSuchElement) && db.State() == old(db.State())
    ensures var v := OtpService.VerifyOutcome(old(otpRepo.otps), email, otp, now);
      var user := FindUserByEmail(old(db.users), email);
      v.Success? && user.Some? ==>
        r == Success(()) && db.State() == old(db.State()).(users := Database.ReplaceUser(old(db.users),
                                                             user.value.(password := encode(newPassword))))
  {
    var verified := OtpService.VerifyOtpTransactional(otpRepo, email, otp, now);
    if verified.Failure? || !verified.value {
      return Failure(if verified.Failure? then verified.error else IllegalArgument);
    }
    var user := FindUserByEmail(db.users, email);
    if user.None? {
      return Failure(NoSuchElement);
    }
    var encodedPassword := encode(newPassword);
    db.SaveUser(user.value.(password := encodedPassword));
    r := Success(());
  }

  /**
   * The save of resetPassword, with unique users: the record with that email,
   * and only it, gets the new password, and nothing else of it changes.
   */
  lemma ResetChangesOnlyPassword(users: seq<User>, email: string, password: string)
    requires UniqueUsers(users) && FindUserByEmail(users, email).Some?
    ensures var user := FindUserByEmail(users, email).value;
      var after := Database.ReplaceUser(users, user.(password := password));
      |after| == |users|
      && (forall i :: 0 <= i < |users| ==>
            after[i] == if users[i].email == email then users[i].(password := password) else users[i])
      && UniqueUsers(after)
  {
    var user := FindUserByEmail(users, email).value;
    var j :| 0 <= j < |users| && users[j] == user;
    var after := Database.ReplaceUser(users, user.(password := password));
    forall i | 0 <= i < |users|
      ensures after[i] == if users[i].email == email then users[i].(password := password) else users[i]
    {
      if users[i].userId == user.userId || users[i].email == email {
        assert i == j;
      }
    }
  }
}
