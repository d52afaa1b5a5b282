/**
 * Properties that span several calls on one service, proved from the
 * methods' contracts alone, as a caller would see them.
 */
module Scenarios {
  import opened EvidenceTypes
  import opened ObjectKeys
  import opened Service

  /** Updating with `{a: 1}` and then `{b: 2}` leaves `{b: 2}`: the bag is replaced, not merged. */
  method MetadataIsReplacedNotMerged(svc: EvidenceService, id: string)
    returns (first: Result<EvidenceRecord>, second: Result<EvidenceRecord>)
    requires svc.Valid() && id in svc.records
    modifies svc
    ensures svc.Valid()
    ensures id in svc.records
    ensures svc.records[id].metadata == JObject(map["b" := JNumber(2)])
    ensures "a" !in svc.records[id].metadata.fields
    ensures SameIdentity(old(svc.records)[id], svc.records[id])
    ensures svc.blobs == old(svc.blobs)
  {
    first := svc.UpdateMetadata(id, Some(JObject(map["a" := JNumber(1)])), Succeeds);
    second := svc.UpdateMetadata(id, Some(JObject(map["b" := JNumber(2)])), Succeeds);
  }

  /** Linking a row to the same question twice leaves the table as linking it once does. */
  method LinkingTwiceIsLinkingOnce(svc: EvidenceService, id: string, questionId: string)
    returns (first: Result<EvidenceRecord>, second: Result<EvidenceRecord>)
    requires svc.Valid()
    modifies svc
    ensures svc.Valid()
    ensures id in old(svc.records) ==>
      && first.Ok? && second == first
      && svc.records == old(svc.records)[id := old(svc.records)[id].(questionId := Some(questionId))]
    ensures id !in old(svc.records) ==>
      first == second == Err(RecordNotFound) && svc.records == old(svc.records)
    ensures svc.blobs == old(svc.blobs)
  {
    first := svc.LinkToQuestion(id, questionId, Succeeds);
    ghost var once := svc.records;
    second := svc.LinkToQuestion(id, questionId, Succeeds);
    assert id in old(svc.records) ==> svc.records == once;
  }

  /**
   * An upload followed by a delete from someone else: the delete is refused,
   * and the row and its bytes are still there to read.
   */
  method OnlyTheUploaderDeletes(
    svc: EvidenceService, file: FileUpload, uploader: string, other: string, fileId: string, now: nat)
    returns (uploaded: Result<EvidenceRecord>, refused: Result<DeleteAck>)
    requires svc.Valid() && IsUuidV4(fileId) && svc.Unused(fileId)
    requires other != uploader
    modifies svc
    ensures svc.Valid()
    ensures uploaded.Ok? && refused == Err(Unauthorized)
    ensures GetEvidence(svc.records, fileId) == uploaded
    ensures GetFileStream(svc.records, svc.blobs, fileId) == Ok(file.buffer)
  {
    uploaded := svc.UploadFile(file, uploader, None, None, None, fileId, now, Succeeds, Succeeds);
    refused := svc.DeleteEvidence(fileId, other, Succeeds, Succeeds);
  }

  /** A delete by the uploader, when both store calls succeed, leaves nothing to read. */
  method DeleteThenRead(svc: EvidenceService, id: string)
    returns (deleted: Result<DeleteAck>)
    requires svc.Valid() && id in svc.records
    modifies svc
    ensures svc.Valid()
    ensures deleted == Ok(DeleteAck(true))
    ensures GetEvidence(svc.records, id) == Err(EvidenceNotFound)
    ensures GetFileStream(svc.records, svc.blobs, id) == Err(EvidenceNotFound)
    ensures BlobKeyOf(old(svc.records)[id]) !in svc.blobs
  {
    deleted := svc.DeleteEvidence(id, svc.records[id].uploadedBy, Succeeds, Succeeds);
  }
}
