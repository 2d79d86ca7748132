/** The share-ledger queries: two read-only selections and the removals the file service issues. */
module SharedFileRepository {
  import opened Entities

  /** `findSharedFilesByFileId`: the entries made from that file id, in ledger order. */
  function FindSharedFilesByFileId(ledger: seq<SharedFile>, fileId: nat): (r: seq<SharedFile>)
    ensures forall e :: e in r <==> e in ledger && e.originalFileId == fileId
    ensures |r| <= |ledger|
  {
    if ledger == [] then []
    else
      var rest := FindSharedFilesByFileId(ledger[1..], fileId);
      if ledger[0].originalFileId == fileId then [ledger[0]] + rest else rest
  }

  /** `findSharedFilesByFileIdAndRecipientId`: the entries made from that file id for one of the recipients. */
  function FindSharedFilesByFileIdAndRecipientId(ledger: seq<SharedFile>, fileId: nat, recipientIds: seq<nat>): (r: seq<SharedFile>)
    ensures forall e :: e in r <==> e in ledger && e.originalFileId == fileId && e.recipientId in recipientIds
    ensures |r| <= |ledger|
  {
    if ledger == [] then []
    else
      var rest := FindSharedFilesByFileIdAndRecipientId(ledger[1..], fileId, recipientIds);
      if ledger[0].originalFileId == fileId && ledger[0].recipientId in recipientIds then [ledger[0]] + rest else rest
  }

  /** Restricting to recipients narrows the selection of the whole lineage id. */
  lemma {:induction false} RecipientSelectionIsSubset(ledger: seq<SharedFile>, fileId: nat, recipientIds: seq<nat>)
    ensures forall e :: e in FindSharedFilesByFileIdAndRecipientId(ledger, fileId, recipientIds) ==>
      e in FindSharedFilesByFileId(ledger, fileId)
    ensures |FindSharedFilesByFileIdAndRecipientId(ledger, fileId, recipientIds)| <= |FindSharedFilesByFileId(ledger, fileId)|
  {
    if ledger != [] {
      RecipientSelectionIsSubset(ledger[1..], fileId, recipientIds);
    }
  }

  /** `deleteByNewFileId`: drop the entries whose copy is that file id. */
  function DeleteByNewFileId(ledger: seq<SharedFile>, fileId: nat): (r: seq<SharedFile>)
    ensures forall e :: e in r <==> e in ledger && e.newFileId != fileId
    ensures |r| <= |ledger|
  {
    if ledger == [] then []
    else
      var rest := DeleteByNewFileId(ledger[1..], fileId);
      if ledger[0].newFileId == fileId then rest else [ledger[0]] + rest
  }

  /** `sharedFileRepository.deleteAll(entries)`. */
  function DeleteAll(ledger: seq<SharedFile>, entries: seq<SharedFile>): (r: seq<SharedFile>)
    ensures forall e :: e in r <==> e in ledger && e !in entries
    ensures |r| <= |ledger|
  {
    if ledger == [] then []
    else
      var rest := DeleteAll(ledger[1..], entries);
      if ledger[0] in entries then rest else [ledger[0]] + rest
  }

  /** The copies a list of entries points at (`map(SharedFile::getNewFileId)`). */
  function NewFileIds(entries: seq<SharedFile>): (ids: seq<nat>)
    ensures |ids| == |entries|
    ensures forall i :: 0 <= i < |entries| ==> ids[i] == entries[i].newFileId
  {
    if entries == [] then [] else [entries[0].newFileId] + NewFileIds(entries[1..])
  }

  /**
   * Removals keep every surviving entry in its place: deleting by new file id is
   * exact, and a removal of nothing changes nothing.
   */
  lemma {:induction false} DeleteByNewFileIdAbsent(ledger: seq<SharedFile>, fileId: nat)
    requires forall e :: e in ledger ==> e.newFileId != fileId
    ensures DeleteByNewFileId(ledger, fileId) == ledger
  {
    if ledger != [] {
      DeleteByNewFileIdAbsent(ledger[1..], fileId);
    }
  }
}
