/** The "Update Excel" rule: spreadsheets are written back only when the merge changed rows. */
module Commit {
  import opened Wrappers
  import opened FrameTable

  datatype Store = LabeledStore | UnlabeledStore

  /** One spreadsheet overwrite: the file id, which table, and the rows written. */
  datatype Write = Write(fileId: string, store: Store, rows: seq<Record>)

  /** What a click on "Update Excel" does after the merge. */
  datatype Outcome = NothingToCommit | Committed(count: nat, writes: seq<Write>)

  /** A file id the upload accepts (`if not file_id` skips None and ""). */
  predicate Present(fileId: Option<string>)
    ensures fileId.None? ==> !Present(fileId)
    ensures fileId == Some("") ==> !Present(fileId)
  {
    fileId.Some? && fileId.value != ""
  }

  /**
   * Zero changes: nothing is written. Otherwise the labeled table is written
   * to its file (skipped for an empty id), then the unlabeled table when its id is present.
   */
  function CommitOutcome(labeled: seq<Record>, unlabeled: seq<Record>, count: nat,
                         framesFileId: string, unlabeledFileId: Option<string>): (o: Outcome)
    ensures o.NothingToCommit? <==> count == 0
    ensures o.Committed? ==> o.count == count && |o.writes| <= 2
    ensures o.Committed? ==> |o.writes| == (if framesFileId != "" then 1 else 0) + (if Present(unlabeledFileId) then 1 else 0)
    ensures o.Committed? && framesFileId != "" ==> o.writes[0] == Write(framesFileId, LabeledStore, labeled)
    ensures o.Committed? ==> forall w :: w in o.writes ==> w.fileId != ""
    ensures o.Committed? ==> forall w :: w in o.writes && w.store == LabeledStore ==> w == Write(framesFileId, LabeledStore, labeled)
    ensures o.Committed? ==> forall w :: w in o.writes && w.store == UnlabeledStore ==>
      unlabeledFileId.Some? && w == Write(unlabeledFileId.value, UnlabeledStore, unlabeled)
    ensures o.Committed? ==> (Write(framesFileId, LabeledStore, labeled) in o.writes <==> framesFileId != "")
    ensures o.Committed? && Present(unlabeledFileId) ==> Write(unlabeledFileId.value, UnlabeledStore, unlabeled) in o.writes
    ensures o.Committed? && !Present(unlabeledFileId) ==> forall w :: w in o.writes ==> w.store == LabeledStore
  {
    if count == 0 then NothingToCommit
    else
      var framesWrite := if framesFileId != "" then [Write(framesFileId, LabeledStore, labeled)] else [];
      var unlabeledWrite := if Present(unlabeledFileId) then [Write(unlabeledFileId.value, UnlabeledStore, unlabeled)] else [];
      Committed(count, framesWrite + unlabeledWrite)
  }
}
