/**
 * The effect on the attachment table of the two attachment-service calls the
 * job-application service makes inside its transactions: one attachment per
 * uploaded file, and deletion of listed attachments scoped to one item.
 * Attachments are keyed by an auto-incremented id.
 */
module Attachments {
  import opened Entities

  type Table = map<int, Attachment>

  /** Every key is below the next id the table will hand out. */
  predicate KeysBelow(atts: Table, next: int)
  {
    forall k :: k in atts ==> k < next
  }

  /**
   * The table after one job-application attachment per file has been added
   * for item `itemId`, file j getting id `next + j`. Everything already there
   * stays as it was.
   */
  function AddAttachments(atts: Table, next: int, itemId: int, files: seq<FileRef>): (r: Table)
    requires KeysBelow(atts, next)
    ensures KeysBelow(r, next + |files|)
    ensures forall k :: k in r <==> k in atts || next <= k < next + |files|
    ensures forall k :: k in atts ==> r[k] == atts[k]
    ensures forall k :: k in r && k !in atts ==> r[k].itemType == JobApplicationItem && r[k].itemId == itemId
    ensures forall j :: 0 <= j < |files| ==> r[next + j].file == files[j]
    decreases |files|
  {
    if files == [] then atts
    else
      var last := |files| - 1;
      var prev := AddAttachments(atts, next, itemId, files[..last]);
      prev[next + last := Attachment(JobApplicationItem, itemId, files[last])]
  }

  /** Adding attachments for N files grows the table by exactly N rows. */
  lemma {:induction false} AddAttachmentsCount(atts: Table, next: int, itemId: int, files: seq<FileRef>)
    requires KeysBelow(atts, next)
    ensures |AddAttachments(atts, next, itemId, files)| == |atts| + |files|
    decreases |files|
  {
    if files != [] {
      var last := |files| - 1;
      AddAttachmentsCount(atts, next, itemId, files[..last]);
      assert next + last !in AddAttachments(atts, next, itemId, files[..last]);
    }
  }

  /**
   * The table after deleting the attachments whose ids are listed, but only
   * those that belong to item (`itemType`, `itemId`); listed ids of other
   * items and ids not in the table are ignored.
   */
  function DeleteItemAttachmentsByIds(atts: Table, itemType: ItemType, itemId: int, ids: seq<int>): (r: Table)
    ensures forall k :: k in r <==> k in atts && !(k in ids && atts[k].itemType == itemType && atts[k].itemId == itemId)
    ensures forall k :: k in r ==> r[k] == atts[k]
  {
    map k | k in atts && !(k in ids && atts[k].itemType == itemType && atts[k].itemId == itemId) :: atts[k]
  }

  /** Adding the first i + 1 files is adding the first i, then file i. */
  lemma AddOneMore(atts: Table, next: int, itemId: int, files: seq<FileRef>, i: nat)
    requires KeysBelow(atts, next)
    requires i < |files|
    ensures AddAttachments(atts, next, itemId, files[..i + 1])
         == AddAttachments(atts, next, itemId, files[..i])[next + i := Attachment(JobApplicationItem, itemId, files[i])]
  {
    assert files[..i + 1][..i] == files[..i];
  }

  /**
   * Writes one attachment per file inside an open transaction, the writes
   * numbered from `first`. If one of them throws, `ok` is false (the caller
   * rolls back and discards `atts'`); otherwise the table is the one
   * `AddAttachments` describes and the id counter has advanced by |files|.
   */
  method CreateJobApplyAttachments(atts: Table, next: int, itemId: int, files: seq<FileRef>, fault: Fault, first: nat)
    returns (ok: bool, atts': Table, next': int)
    requires KeysBelow(atts, next)
    ensures ok <==> !FailsWithin(fault, first, first + |files|)
    ensures ok ==> atts' == AddAttachments(atts, next, itemId, files) && next' == next + |files|
  {
    atts', next' := atts, next;
    var i := 0;
    while i < |files|
      invariant 0 <= i <= |files|
      invariant next' == next + i
      invariant atts' == AddAttachments(atts, next, itemId, files[..i])
      invariant !FailsWithin(fault, first, first + i)
    {
      if fault == FailAt(first + i) {
        return false, atts', next';
      }
      AddOneMore(atts, next, itemId, files, i);
      atts' := atts'[next' := Attachment(JobApplicationItem, itemId, files[i])];
      next' := next' + 1;
      i := i + 1;
    }
    assert files[..i] == files;
    ok := true;
  }
}
