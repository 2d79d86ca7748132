/**
 * The sharing service: the ledger entry written for each share, and the
 * selections behind the three listing pages.
 *
 * A keyword filter is `value LIKE '%keyword%'` on the lower-cased column; the
 * parameter `like(value, keyword)` stands for that test. Paging and sorting are
 * not modelled: a listing is the whole selection, in ledger order.
 */
module SharedFileService {
  import opened Wrappers
  import opened Entities
  import Database

  /** The entry `logFileShare` appends for a share of `oldFileId` whose copy is the row `newFileId`. */
  function LogEntry(t: Tables, senderId: nat, oldFileId: nat, newFileId: nat, recipientId: nat, isSensitive: string, now: int): SharedFile
    requires newFileId in t.files
  {
    SharedFile(t.nextSharedFileId, newFileId, oldFileId, senderId, recipientId,
               t.files[newFileId].filename, t.files[newFileId].category, isSensitive, now)
  }

  /**
   * The tables once `logFileShare` has recorded a share made by the logged-in
   * user. The copy must exist; its filename and category go into the entry.
   */
  function LoggedShare(t: Tables, requester: string, oldFileId: nat, newFileId: nat, recipientId: nat, isSensitive: string, now: int): (r: Result<Tables>)
    ensures LoggedInUser(t.users, requester).Failure? ==> r == Failure(UsernameNotFound)
    ensures LoggedInUser(t.users, requester).Success? && newFileId !in t.files ==> r == Failure(NoSuchElement)
    ensures r.Success? ==> newFileId in t.files && LoggedInUser(t.users, requester).Success?
    ensures r.Success? ==> |r.value.sharedFiles| == |t.sharedFiles| + 1 && r.value.sharedFiles[..|t.sharedFiles|] == t.sharedFiles
    ensures r.Success? ==>
      var e := r.value.sharedFiles[|t.sharedFiles|];
      e.id == t.nextSharedFileId && r.value.nextSharedFileId == t.nextSharedFileId + 1
      && e.newFileId == newFileId && e.originalFileId == oldFileId
      && e.senderId == LoggedInUser(t.users, requester).value.userId && e.recipientId == recipientId
      && e.filename == t.files[newFileId].filename && e.category == t.files[newFileId].category
      && e.isSensitive == isSensitive && e.sharedAt == now
    ensures r.Success? ==>
      r.value.files == t.files && r.value.nextFileId == t.nextFileId && r.value.users == t.users && r.value.auditLogs == t.auditLogs
  {
    var owner :- LoggedInUser(t.users, requester);
    if newFileId !in t.files then Failure(NoSuchElement)
    else
      var entry := LogEntry(t, owner.userId, oldFileId, newFileId, recipientId, isSensitive, now);
      assert (t.sharedFiles + [entry])[..|t.sharedFiles|] == t.sharedFiles;
      Success(t.(sharedFiles := t.sharedFiles + [entry], nextSharedFileId := t.nextSharedFileId + 1))
  }

  /**
   * `logFileShare` against the database: the logged-in user is the sender, and
   * the copy's row must exist; its filename and category go into the entry.
   */
  method LogFileShare(db: Database.Db, requester: string, oldFileId: nat, newFileId: nat, recipientId: nat,
                      isSensitive: string, now: int) returns (r: Result<()>)
    modifies db
    ensures var o := LoggedShare(old(db.State()), requester, oldFileId, newFileId, recipientId, isSensitive, now);
      r.Success? <==> o.Success?
    ensures var o := LoggedShare(old(db.State()), requester, oldFileId, newFileId, recipientId, isSensitive, now);
      o.Failure? ==> r == Failure(o.error) && db.State() == old(db.State())
    ensures var o := LoggedShare(old(db.State()), requester, oldFileId, newFileId, recipientId, isSensitive, now);
      o.Success? ==> db.State() == o.value
  {
    var owner := LoggedInUser(db.users, requester);
    if owner.Failure? {
      return Failure(owner.error);
    }
    var newFile := FindFileById(db.files, newFileId);
    if newFile.None? {
      return Failure(NoSuchElement);
    }
    var log := SharedFile(0, newFileId, oldFileId, owner.value.userId, recipientId,
                          newFile.value.filename, newFile.value.category, isSensitive, now);
    var _ := db.SaveSharedFile(log);
    r := Success(());
  }

  /** The entries of a ledger that satisfy a condition, in ledger order. */
  function Select(ledger: seq<SharedFile>, p: SharedFile -> bool): (r: seq<SharedFile>)
    ensures forall e :: e in r <==> e in ledger && p(e)
  {
    if ledger == [] then []
    else if p(ledger[0]) then [ledger[0]] + Select(ledger[1..], p)
    else Select(ledger[1..], p)
  }

  /** A null or empty keyword adds no condition. */
  predicate NoKeyword(keyword: Option<string>) {
    keyword.None? || keyword.value == ""
  }

  /** The username subquery: some user with that id has a username matching the keyword. */
  predicate UsernameMatches(users: seq<User>, userId: nat, keyword: string, like: (string, string) -> bool) {
    exists u :: u in users && u.userId == userId && like(u.username, keyword)
  }

  /** The filter of the "shared by me" page: mine as sender, optionally by sensitivity, and by keyword on the recipient, filename or category. */
  predicate SharedByMe(users: seq<User>, me: nat, sensitive: Option<string>, keyword: Option<string>, like: (string, string) -> bool, e: SharedFile) {
    e.senderId == me
    && (sensitive.None? || e.isSensitive == sensitive.value)
    && (NoKeyword(keyword)
        || UsernameMatches(users, e.recipientId, keyword.value, like) || like(e.filename, keyword.value) || like(e.category, keyword.value))
  }

  /** The filter of the "shared to me" page; its username match is on the sender. */
  predicate SharedToMe(users: seq<User>, me: nat, sensitive: Option<string>, keyword: Option<string>, like: (string, string) -> bool, e: SharedFile) {
    e.recipientId == me
    && (sensitive.None? || e.isSensitive == sensitive.value)
    && (NoKeyword(keyword)
        || UsernameMatches(users, e.senderId, keyword.value, like) || like(e.filename, keyword.value) || like(e.category, keyword.value))
  }

  /** A listing row. */
  datatype SharedFileResponse = SharedFileResponse(
    senderUsername: string, recipientUsername: string, filename: string, category: string, isSensitive: bool, sharedAt: int)

  /** ASCII case folding, as `equalsIgnoreCase` applies it to "true". */
  function Lower(c: char): char {
    if 'A' <= c <= 'Z' then (c as int - 'A' as int + 'a' as int) as char else c
  }

  /** `Boolean.valueOf(s)`: true exactly for "true" in any letter case. */
  function BooleanValueOf(s: string): (b: bool)
    ensures b <==> |s| == 4 && forall i :: 0 <= i < 4 ==> Lower(s[i]) == "true"[i]
    ensures s == "true" || s == "TRUE" || s == "True" ==> b
    ensures s == "false" || s == "null" ==> !b
  {
    |s| == 4 && Lower(s[0]) == 't' && Lower(s[1]) == 'r' && Lower(s[2]) == 'u' && Lower(s[3]) == 'e'
  }

  /** The response rows for selected entries; a sender or recipient that no longer exists is a NoSuchElementException. */
  function Responses(users: seq<User>, entries: seq<SharedFile>): (r: Result<seq<SharedFileResponse>>)
    ensures r.Success? <==> forall e :: e in entries ==> FindUserById(users, e.senderId).Some? && FindUserById(users, e.recipientId).Some?
    ensures r.Failure? ==> r.error == NoSuchElement
    ensures r.Success? ==> |r.value| == |entries| && forall i :: 0 <= i < |entries| ==>
      r.value[i] == SharedFileResponse(
        FindUserById(users, entries[i].senderId).value.username, FindUserById(users, entries[i].recipientId).value.username,
        entries[i].filename, entries[i].category, BooleanValueOf(entries[i].isSensitive), entries[i].sharedAt)
  {
    if entries == [] then Success([])
    else
      var e := entries[0];
      match (FindUserById(users, e.senderId), FindUserById(users, e.recipientId))
      case (Some(sender), Some(recipient)) =>
        (match Responses(users, entries[1..])
         case Success(rest) =>
           Success([SharedFileResponse(sender.username, recipient.username, e.filename, e.category, BooleanValueOf(e.isSensitive), e.sharedAt)] + rest)
         case Failure(err) => Failure(err))
      case _ => Failure(NoSuchElement)
  }

  /** The entries the "shared by me" page lists, in ledger order. */
  function SelectSharedByMe(t: Tables, me: nat, keyword: Option<string>, sensitive: Option<string>, like: (string, string) -> bool): (sel: seq<SharedFile>)
    ensures forall e :: e in sel <==> e in t.sharedFiles && SharedByMe(t.users, me, sensitive, keyword, like, e)
  {
    Select(t.sharedFiles, e => SharedByMe(t.users, me, sensitive, keyword, like, e))
  }

  /** The entries the "shared to me" page lists, in ledger order. */
  function SelectSharedToMe(t: Tables, me: nat, keyword: Option<string>, sensitive: Option<string>, like: (string, string) -> bool): (sel: seq<SharedFile>)
    ensures forall e :: e in sel <==> e in t.sharedFiles && SharedToMe(t.users, me, sensitive, keyword, like, e)
  {
    Select(t.sharedFiles, e => SharedToMe(t.users, me, sensitive, keyword, like, e))
  }

  /**
   * `getFilesSharedByMe`, all pages: one row per entry the requester sent that
   * passes the filters, unless a sender or recipient has disappeared.
   */
  function GetFilesSharedByMe(t: Tables, requester: string, keyword: Option<string>, sensitive: Option<string>, like: (string, string) -> bool): (r: Result<seq<SharedFileResponse>>)
    ensures LoggedInUser(t.users, requester).Failure? ==> r == Failure(UsernameNotFound)
    ensures r.Failure? ==> r.error in {UsernameNotFound, NoSuchElement}
    ensures r.Success? ==> LoggedInUser(t.users, requester).Success?
    ensures r.Success? && LoggedInUser(t.users, requester).Success? ==>
      var sel := SelectSharedByMe(t, LoggedInUser(t.users, requester).value.userId, keyword, sensitive, like);
      |r.value| == |sel| && forall i :: 0 <= i < |sel| ==>
        r.value[i].filename == sel[i].filename && r.value[i].category == sel[i].category
        && r.value[i].isSensitive == BooleanValueOf(sel[i].isSensitive) && r.value[i].sharedAt == sel[i].sharedAt
  {
    var owner :- LoggedInUser(t.users, requester);
    Responses(t.users, SelectSharedByMe(t, owner.userId, keyword, sensitive, like))
  }

  /** `getFilesSharedToMe`, all pages: the same, over the entries addressed to the requester. */
  function GetFilesSharedToMe(t: Tables, requester: string, keyword: Option<string>, sensitive: Option<string>, like: (string, string) -> bool): (r: Result<seq<SharedFileResponse>>)
    ensures LoggedInUser(t.users, requester).Failure? ==> r == Failure(UsernameNotFound)
    ensures r.Failure? ==> r.error in {UsernameNotFound, NoSuchElement}
    ensures r.Success? ==> LoggedInUser(t.users, requester).Success?
    ensures r.Success? && LoggedInUser(t.users, requester).Success? ==>
      var sel := SelectSharedToMe(t, LoggedInUser(t.users, requester).value.userId, keyword, sensitive, like);
      |r.value| == |sel| && forall i :: 0 <= i < |sel| ==>
        r.value[i].filename == sel[i].filename && r.value[i].category == sel[i].category
        && r.value[i].isSensitive == BooleanValueOf(sel[i].isSensitive) && r.value[i].sharedAt == sel[i].sharedAt
  {
    var owner :- LoggedInUser(t.users, requester);
    Responses(t.users, SelectSharedToMe(t, owner.userId, keyword, sensitive, like))
  }

  /** A user's name, or "Unknown" for a recipient that no longer exists. */
  function UsernameOrUnknown(users: seq<User>, userId: nat): string {
    match FindUserById(users, userId)
    case Some(u) => u.username
    case None => "Unknown"
  }

  function RecipientNames(users: seq<User>, entries: seq<SharedFile>): (names: seq<string>)
    ensures |names| == |entries|
    ensures forall i :: 0 <= i < |entries| ==> names[i] == UsernameOrUnknown(users, entries[i].recipientId)
  {
    if entries == [] then [] else [UsernameOrUnknown(users, entries[0].recipientId)] + RecipientNames(users, entries[1..])
  }

  /** The filter of `getUsersFileIsSharedWith`: entries made from that file, optionally by recipient username. */
  predicate SharedFrom(users: seq<User>, fileId: nat, keyword: Option<string>, like: (string, string) -> bool, e: SharedFile) {
    e.originalFileId == fileId && (NoKeyword(keyword) || UsernameMatches(users, e.recipientId, keyword.value, like))
  }

  /** The entries `getUsersFileIsSharedWith` lists for a file, in ledger order. */
  function SelectSharedFrom(t: Tables, fileId: nat, keyword: Option<string>, like: (string, string) -> bool): (sel: seq<SharedFile>)
    ensures forall e :: e in sel <==> e in t.sharedFiles && SharedFrom(t.users, fileId, keyword, like, e)
  {
    Select(t.sharedFiles, e => SharedFrom(t.users, fileId, keyword, like, e))
  }

  /**
   * `getUsersFileIsSharedWith`, all pages. The guards, in order: the requester,
   * a missing row, a row that is not an original, a requester who is not its
   * owner; then one recipient name per entry made from the file.
   */
  function GetUsersFileIsSharedWith(t: Tables, requester: string, fileId: nat, keyword: Option<string>, like: (string, string) -> bool): (r: Result<seq<string>>)
    ensures LoggedInUser(t.users, requester).Failure? ==> r == Failure(UsernameNotFound)
    ensures LoggedInUser(t.users, requester).Success? && fileId !in t.files ==> r == Failure(NoSuchElement)
    ensures LoggedInUser(t.users, requester).Success? && fileId in t.files
      && t.files[fileId].originalFileId.Some? && t.files[fileId].originalFileId.value != t.files[fileId].id
      ==> r == Failure(IllegalArgument)
    ensures LoggedInUser(t.users, requester).Success? && fileId in t.files
      && (t.files[fileId].originalFileId.None? || t.files[fileId].originalFileId.value == t.files[fileId].id)
      && t.files[fileId].ownerId != LoggedInUser(t.users, requester).value.userId
      ==> r == Failure(Security)
    ensures r.Success? ==> LoggedInUser(t.users, requester).Success? && fileId in t.files
    ensures r.Success? && LoggedInUser(t.users, requester).Success? && fileId in t.files ==>
      t.files[fileId].ownerId == LoggedInUser(t.users, requester).value.userId &&
      r.value == RecipientNames(t.users, SelectSharedFrom(t, t.files[fileId].id, keyword, like))
  {
    var owner :- LoggedInUser(t.users, requester);
    if fileId !in t.files then Failure(NoSuchElement)
    else
      var file := t.files[fileId];
      if file.originalFileId.Some? && file.originalFileId.value != file.id then Failure(IllegalArgument)
      else if file.ownerId != owner.userId then Failure(Security)
      else Success(RecipientNames(t.users, SelectSharedFrom(t, file.id, keyword, like)))
  }
}
