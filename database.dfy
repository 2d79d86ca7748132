/**
 * The database the services write to, as an object: one field per table, and
 * one method per repository call the services make. `State()` is its content
 * as a value, so every method is specified by what it does to that value.
 */
module Database {
  import opened Wrappers
  import opened Entities
  import opened SharedFileRepository

  /** The users table without the rows of one user id (`userRepository.delete`). */
  function WithoutUser(users: seq<User>, userId: nat): (r: seq<User>)
    ensures forall u :: u in r <==> u in users && u.userId != userId
    ensures |r| <= |users|
  {
    if users == [] then []
    else if users[0].userId == userId then WithoutUser(users[1..], userId)
    else [users[0]] + WithoutUser(users[1..], userId)
  }

  /** The users table with the record of `u`'s id replaced by `u` (`userRepository.save` of a loaded user). */
  function ReplaceUser(users: seq<User>, u: User): (r: seq<User>)
    ensures |r| == |users|
    ensures forall i :: 0 <= i < |users| ==> r[i] == (if users[i].userId == u.userId then u else users[i])
  {
    if users == [] then [] else [if users[0].userId == u.userId then u else users[0]] + ReplaceUser(users[1..], u)
  }

  /** The audit log without the entries of one user id (`auditLogRepository.deleteAll(findAuditLogsByUserId(id))`). */
  function WithoutLogsOf(logs: seq<AuditLog>, userId: nat): (r: seq<AuditLog>)
    ensures forall l :: l in r <==> l in logs && l.userId != userId
    ensures |r| <= |logs|
  {
    if logs == [] then []
    else if logs[0].userId == userId then WithoutLogsOf(logs[1..], userId)
    else [logs[0]] + WithoutLogsOf(logs[1..], userId)
  }

  class Db {
    var files: map<nat, FileRow>
    var nextFileId: nat
    var sharedFiles: seq<SharedFile>
    var nextSharedFileId: nat
    var users: seq<User>
    var auditLogs: seq<AuditLog>

    /** The content of the database. */
    function State(): (t: Tables)
      reads this
      ensures t.files == files && t.nextFileId == nextFileId && t.sharedFiles == sharedFiles
      ensures t.nextSharedFileId == nextSharedFileId && t.users == users && t.auditLogs == auditLogs
    {
      Tables(files, nextFileId, sharedFiles, nextSharedFileId, users, auditLogs)
    }

    constructor (t: Tables)
      ensures State() == t
    {
      files, nextFileId, sharedFiles, nextSharedFileId, users, auditLogs :=
        t.files, t.nextFileId, t.sharedFiles, t.nextSharedFileId, t.users, t.auditLogs;
    }

    /** The rollback of a transaction: every table back to what it held at its start. */
    method Restore(t: Tables)
      modifies this
      ensures State() == t
    {
      files, nextFileId, sharedFiles, nextSharedFileId, users, auditLogs :=
        t.files, t.nextFileId, t.sharedFiles, t.nextSharedFileId, t.users, t.auditLogs;
    }

    /** `fileRepository.save` of a new row: it gets the next generated id. */
    method SaveNewFile(row: FileRow) returns (id: nat)
      modifies this
      ensures id == old(nextFileId)
      ensures State() == old(State()).(files := old(files)[id := row.(id := id)], nextFileId := id + 1)
    {
      id := nextFileId;
      files := files[id := row.(id := id)];
      nextFileId := id + 1;
    }

    /** `fileRepository.save` of a row that already has its id. */
    method SaveFile(row: FileRow)
      modifies this
      ensures State() == old(State()).(files := old(files)[row.id := row])
    {
      files := files[row.id := row];
    }

    /** `fileRepository.delete`; a row already gone is ignored. */
    method DeleteFileById(id: nat)
      modifies this
      ensures State() == old(State()).(files := old(files) - {id})
    {
      files := files - {id};
    }

    /** `fileRepository.deleteAllById`: one delete per id, in order. */
    method DeleteAllById(ids: seq<nat>)
      modifies this
      ensures State() == old(State()).(files := old(files) - IdSet(ids))
    {
      var i := 0;
      while i < |ids|
        invariant 0 <= i <= |ids|
        invariant State() == old(State()).(files := old(files) - IdSet(ids[..i]))
      {
        assert IdSet(ids[..i + 1]) == IdSet(ids[..i]) + {ids[i]} by {
          assert ids[..i + 1] == ids[..i] + [ids[i]];
        }
        files := files - {ids[i]};
        i := i + 1;
      }
      assert ids[..i] == ids;
    }

    /** `sharedFileRepository.save` of a new entry: it gets the next generated id. */
    method SaveSharedFile(e: SharedFile) returns (id: nat)
      modifies this
      ensures id == old(nextSharedFileId)
      ensures State() == old(State()).(sharedFiles := old(sharedFiles) + [e.(id := id)], nextSharedFileId := id + 1)
    {
      id := nextSharedFileId;
      sharedFiles := sharedFiles + [e.(id := id)];
      nextSharedFileId := id + 1;
    }

    /** `sharedFileRepository.deleteAll(entries)`. */
    method DeleteSharedFiles(entries: seq<SharedFile>)
      modifies this
      ensures State() == old(State()).(sharedFiles := DeleteAll(old(sharedFiles), entries))
    {
      sharedFiles := DeleteAll(sharedFiles, entries);
    }

    /** `sharedFileRepository.deleteByNewFileId`. */
    method DeleteSharedFilesByNewFileId(fileId: nat)
      modifies this
      ensures State() == old(State()).(sharedFiles := DeleteByNewFileId(old(sharedFiles), fileId))
    {
      sharedFiles := DeleteByNewFileId(sharedFiles, fileId);
    }

    /** The audit-log removal of deleteAccount. */
    method DeleteAuditLogsOf(userId: nat)
      modifies this
      ensures State() == old(State()).(auditLogs := WithoutLogsOf(old(auditLogs), userId))
    {
      auditLogs := WithoutLogsOf(auditLogs, userId);
    }

    /** `userRepository.delete(user)`. */
    method DeleteUser(userId: nat)
      modifies this
      ensures State() == old(State()).(users := WithoutUser(old(users), userId))
    {
      users := WithoutUser(users, userId);
    }

    /** `userRepository.save` of a loaded user. */
    method SaveUser(u: User)
      modifies this
      ensures State() == old(State()).(users := ReplaceUser(old(users), u))
    {
      users := ReplaceUser(users, u);
    }
  }
}
