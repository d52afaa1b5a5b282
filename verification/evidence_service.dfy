/**
 * The evidence coordinator. It keeps two external stores in step: the MinIO
 * object store, a map from (bucket, object key) to bytes, and the Prisma
 * `evidence` table, a map from evidence id to record. Uploads write the
 * object before the row; deletes remove the object before the row. Each call
 * into a store is given its outcome, so every partial failure is visible in
 * the contracts.
 */
module Service {
  import opened EvidenceTypes
  import opened NodePath
  import opened ObjectKeys
  import opened EvidenceSearch

  /** The object key of a new upload: its id followed by the extension of the original name. */
  function ObjectKey(id: string, originalName: string): string {
    id + ExtName(originalName)
  }

  /**
   * The shape every stored row has: keyed by its own id, with an object key
   * that starts with that id, named after its object key, and kept in the
   * evidence bucket.
   */
  predicate WellFormed(id: string, r: EvidenceRecord, bucket: string) {
    && r.id == id
    && IdPart(r.objectKey) == id
    && r.fileName == r.objectKey
    && r.bucket == bucket
  }

  /** The fields no operation after the upload changes. */
  predicate SameIdentity(before: EvidenceRecord, after: EvidenceRecord) {
    && after.id == before.id
    && after.fileName == before.fileName
    && after.objectKey == before.objectKey
    && after.bucket == before.bucket
    && after.uploadedBy == before.uploadedBy
    && after.originalName == before.originalName
    && after.mimeType == before.mimeType
    && after.fileSize == before.fileSize
    && after.createdAt == before.createdAt
  }

  /** Two different uuids never name the same object, whatever the original file names. */
  lemma DistinctIdsDistinctKeys(a: string, nameA: string, b: string, nameB: string)
    requires IsUuidV4(a) && IsUuidV4(b) && a != b
    ensures ObjectKey(a, nameA) != ObjectKey(b, nameB)
  {
    UuidHasNoDot(a);
    UuidHasNoDot(b);
    IdPartOfObjectKey(a, ExtName(nameA));
    IdPartOfObjectKey(b, ExtName(nameB));
  }

  /** The object a fresh uuid names is pointed at by no existing row. */
  lemma FreshKeyUnreferenced(records: map<string, EvidenceRecord>, bucket: string, id: string, name: string)
    requires forall i :: i in records ==> WellFormed(i, records[i], bucket)
    requires IsUuidV4(id) && id !in records
    ensures forall i :: i in records ==> BlobKeyOf(records[i]) != (bucket, ObjectKey(id, name))
    ensures IdPart(ObjectKey(id, name)) == id
  {
    UuidHasNoDot(id);
    IdPartOfObjectKey(id, ExtName(name));
  }

  /** `getEvidence`: the row with this id, or 'Evidence not found'. */
  function GetEvidence(records: map<string, EvidenceRecord>, id: string): (r: Result<EvidenceRecord>)
    ensures r.Ok? <==> id in records
    ensures r.Ok? ==> r.value == records[id]
    ensures r.Err? ==> r.error == EvidenceNotFound
  {
    if id in records then Ok(records[id]) else Err(EvidenceNotFound)
  }

  /**
   * `getFileStream`: the bytes of the object the row points at. An unknown
   * id fails as `getEvidence` does; a row whose object is missing fails the
   * way MinIO's `getObject` does.
   */
  function GetFileStream(records: map<string, EvidenceRecord>, blobs: map<BlobKey, seq<Byte>>, id: string)
    : (r: Result<seq<Byte>>)
    ensures id !in records ==> r == Err(EvidenceNotFound)
    ensures id in records ==> (r.Ok? <==> BlobKeyOf(records[id]) in blobs)
    ensures id in records && BlobKeyOf(records[id]) !in blobs ==> r == Err(NoSuchKey)
    ensures r.Ok? ==> id in records && r.value == blobs[BlobKeyOf(records[id])]
  {
    match GetEvidence(records, id)
    case Err(e) => Err(e)
    case Ok(evidence) =>
      if (evidence.bucket, evidence.objectKey) in blobs then Ok(blobs[(evidence.bucket, evidence.objectKey)])
      else Err(NoSuchKey)
  }

  /** `searchEvidence`: the matching rows, newest first. */
  ghost function SearchEvidence(records: map<string, EvidenceRecord>, filters: Filter): (rs: seq<EvidenceRecord>)
    ensures IsSearchResult(records, filters, rs)
  {
    NewestFirstList(set r | r in records.Values && Matches(r, filters))
  }

  /** `getByAssessment`: the rows of one assessment, newest first. */
  ghost function GetByAssessment(records: map<string, EvidenceRecord>, assessmentId: string): (rs: seq<EvidenceRecord>)
    ensures forall r :: r in rs <==> r in records.Values && r.assessmentId == Some(assessmentId)
    ensures Distinct(rs) && NewestFirst(rs)
  {
    NewestFirstList(set r | r in records.Values && r.assessmentId == Some(assessmentId))
  }

  /** `getByAssessment(a)` is `searchEvidence({ assessmentId: a })`. */
  lemma GetByAssessmentIsSearch(records: map<string, EvidenceRecord>, assessmentId: string)
    ensures GetByAssessment(records, assessmentId)
         == SearchEvidence(records, Filter(None, Some(assessmentId), None, None))
  {
    var f := Filter(None, Some(assessmentId), None, None);
    assert (set r | r in records.Values && r.assessmentId == Some(assessmentId))
        == (set r | r in records.Values && Matches(r, f));
  }

  class EvidenceService {
    /** `EVIDENCE_BUCKET`, fixed when the service starts. */
    const bucket: string
    /** The object store: (bucket, object key) to bytes. */
    var blobs: map<BlobKey, seq<Byte>>
    /** The `evidence` table: id to row. */
    var records: map<string, EvidenceRecord>

    /** Every row is well formed (the object key is derived once and kept). */
    ghost predicate Valid()
      reads this
    {
      forall id :: id in records ==> WellFormed(id, records[id], bucket)
    }

    /** Every row's object exists. */
    ghost predicate Consistent()
      reads this
    {
      forall id :: id in records ==> BlobKeyOf(records[id]) in blobs
    }

    /** Some row points at the object `k`. */
    ghost predicate Referenced(k: BlobKey)
      reads this
    {
      exists id :: id in records && BlobKeyOf(records[id]) == k
    }

    /** No row and no object in the evidence bucket mentions `id` yet: what a fresh uuid gives. */
    ghost predicate Unused(id: string)
      reads this
    {
      && id !in records
      && forall k :: k in blobs ==> !(k.0 == bucket && id <= k.1)
    }

    constructor (evidenceBucket: string)
      ensures bucket == evidenceBucket
      ensures blobs == map[] && records == map[]
      ensures Valid() && Consistent()
    {
      bucket := evidenceBucket;
      blobs := map[];
      records := map[];
    }

    /** MinIO `putObject`: when the call succeeds, `key` holds `bytes`. */
    method PutObject(key: BlobKey, bytes: seq<Byte>, outcome: Outcome) returns (ok: bool)
      modifies this
      ensures ok <==> outcome == Succeeds
      ensures records == old(records)
      ensures blobs == if ok then old(blobs)[key := bytes] else old(blobs)
    {
      ok := outcome == Succeeds;
      if ok {
        blobs := blobs[key := bytes];
      }
    }

    /** MinIO `removeObject`: when the call succeeds, `key` holds nothing (an absent key is no error). */
    method RemoveObject(key: BlobKey, outcome: Outcome) returns (ok: bool)
      modifies this
      ensures ok <==> outcome == Succeeds
      ensures records == old(records)
      ensures blobs == if ok then old(blobs) - {key} else old(blobs)
    {
      ok := outcome == Succeeds;
      if ok {
        blobs := blobs - {key};
      }
    }

    /** Prisma `evidence.create`: when the call succeeds, the row is stored under its id. */
    method CreateRow(row: EvidenceRecord, outcome: Outcome) returns (ok: bool)
      modifies this
      ensures ok <==> outcome == Succeeds
      ensures blobs == old(blobs)
      ensures records == if ok then old(records)[row.id := row] else old(records)
    {
      ok := outcome == Succeeds;
      if ok {
        records := records[row.id := row];
      }
    }

    /** Prisma `evidence.delete`: when the call succeeds, the row with this id is gone. */
    method DeleteRow(id: string, outcome: Outcome) returns (ok: bool)
      modifies this
      ensures ok <==> outcome == Succeeds
      ensures blobs == old(blobs)
      ensures records == if ok then old(records) - {id} else old(records)
    {
      ok := outcome == Succeeds;
      if ok {
        records := records - {id};
      }
    }

    /**
     * `uploadFile`: put the object first, then create the row. `fileId` is
     * the value `uuidv4()` produced, `now` the time the database stamps on
     * the row, `put` and `create` what the two store calls did.
     */
    method UploadFile(
      file: FileUpload, uploadedBy: string,
      organizationId: Option<string>, assessmentId: Option<string>, questionId: Option<string>,
      fileId: string, now: nat, put: Outcome, create: Outcome)
      returns (result: Result<EvidenceRecord>)
      requires Valid()
      requires IsUuidV4(fileId) && Unused(fileId)
      modifies this
      ensures Valid()
      ensures old(Consistent()) ==> Consistent()
      // the object put fails: neither store changes
      ensures put == Fails ==>
        result == Err(BlobStoreFailure) && blobs == old(blobs) && records == old(records)
      // the row create fails after the put: the only change is one new object no row points at
      ensures put == Succeeds && create == Fails ==>
        && result == Err(MetadataStoreFailure)
        && records == old(records)
        && var key := (bucket, ObjectKey(fileId, file.originalname));
           key !in old(blobs) && blobs == old(blobs)[key := file.buffer] && !Referenced(key)
      // both calls succeed: one new row and its object, everything earlier untouched
      ensures put == Succeeds && create == Succeeds ==>
        && result.Ok?
        && var r := result.value;
        && r.id == fileId
        && r.fileName == ObjectKey(fileId, file.originalname)
        && r.objectKey == ObjectKey(fileId, file.originalname)
        && r.bucket == bucket
        && r.metadata == EmptyMetadata
        && r.originalName == file.originalname
        && r.mimeType == file.mimetype
        && r.fileSize == file.size
        && r.uploadedBy == uploadedBy
        && r.organizationId == organizationId
        && r.assessmentId == assessmentId
        && r.questionId == questionId
        && r.createdAt == now
        && BlobKeyOf(r) !in old(blobs)
        && records == old(records)[fileId := r]
        && blobs == old(blobs)[BlobKeyOf(r) := file.buffer]
        && GetEvidence(records, fileId) == Ok(r)
        && GetFileStream(records, blobs, fileId) == Ok(file.buffer)
    {
      UuidHasNoDot(fileId);
      var extension := ExtName(file.originalname);
      var objectKey := fileId + extension;
      FreshKeyUnreferenced(records, bucket, fileId, file.originalname);
      assert fileId <= objectKey;

      // Upload to the object store
      var stored := PutObject((bucket, objectKey), file.buffer, put);
      if !stored {
        return Err(BlobStoreFailure);
      }

      // Save the row
      var evidence := EvidenceRecord(
        fileId, objectKey, file.originalname, file.size, file.mimetype, bucket, objectKey,
        uploadedBy, organizationId, assessmentId, questionId, EmptyMetadata, now);
      var created := CreateRow(evidence, create);
      if !created {
        return Err(MetadataStoreFailure);
      }
      return Ok(evidence);
    }

    /**
     * `updateMetadata`: replace the metadata of one row wholesale. `metadata`
     * is `None` when the caller passed `undefined`, which Prisma reads as
     * "leave the column alone". `update` is what the store call did when it
     * reached the table.
     */
    method UpdateMetadata(id: string, metadata: Option<Json>, update: Outcome) returns (result: Result<EvidenceRecord>)
      requires Valid()
      modifies this
      ensures Valid()
      ensures blobs == old(blobs)
      ensures old(Consistent()) ==> Consistent()
      ensures records.Keys == old(records).Keys
      ensures forall i :: i in old(records) ==> SameIdentity(old(records)[i], records[i])
      ensures update == Fails ==> result == Err(MetadataStoreFailure) && records == old(records)
      ensures update == Succeeds && id !in old(records) ==>
        result == Err(RecordNotFound) && records == old(records)
      // a value replaces the bag wholesale
      ensures update == Succeeds && id in old(records) && metadata.Some? ==>
        && records == old(records)[id := old(records)[id].(metadata := metadata.value)]
        && result == Ok(records[id])
        && records[id].metadata == metadata.value
      // `undefined` changes nothing and returns the row as it is
      ensures update == Succeeds && id in old(records) && metadata.None? ==>
        records == old(records) && result == Ok(old(records)[id])
    {
      if update == Fails {
        return Err(MetadataStoreFailure);
      }
      if id !in records {
        return Err(RecordNotFound);
      }
      var evidence := records[id];
      if metadata.Some? {
        evidence := evidence.(metadata := metadata.value);
        records := records[id := evidence];
      }
      return Ok(evidence);
    }

    /**
     * `deleteEvidence`: load the row, let only its uploader go on, remove
     * the object, then the row. `remove` and `delete` are what the two store
     * calls did.
     */
    method DeleteEvidence(id: string, userId: string, remove: Outcome, delete: Outcome)
      returns (result: Result<DeleteAck>)
      requires Valid()
      modifies this
      ensures Valid()
      ensures result.Ok? <==>
        id in old(records) && old(records)[id].uploadedBy == userId && remove == Succeeds && delete == Succeeds
      // unknown id: nothing is removed
      ensures id !in old(records) ==>
        result == Err(EvidenceNotFound) && blobs == old(blobs) && records == old(records)
      // not the uploader: nothing is removed
      ensures id in old(records) && old(records)[id].uploadedBy != userId ==>
        result == Err(Unauthorized) && blobs == old(blobs) && records == old(records)
      ensures id in old(records) && old(records)[id].uploadedBy == userId ==>
        var key := BlobKeyOf(old(records)[id]);
        // the object removal fails: the row is kept, and so is the object
        && (remove == Fails ==>
              result == Err(BlobStoreFailure) && blobs == old(blobs) && records == old(records))
        // the row deletion fails after the removal: the row survives without its object
        && (remove == Succeeds && delete == Fails ==>
              && result == Err(MetadataStoreFailure)
              && records == old(records) && blobs == old(blobs) - {key}
              && GetFileStream(records, blobs, id) == Err(NoSuchKey))
        // success: exactly that row and its object are gone
        && (remove == Succeeds && delete == Succeeds ==>
              && result == Ok(DeleteAck(true))
              && records == old(records) - {id} && blobs == old(blobs) - {key}
              && GetEvidence(records, id) == Err(EvidenceNotFound))
      // every other row keeps its object; only a failed row deletion breaks consistency
      ensures old(Consistent()) ==>
        forall i :: i in records && i != id ==> BlobKeyOf(records[i]) in blobs
      ensures old(Consistent()) && result != Err(MetadataStoreFailure) ==> Consistent()
    {
      var found := GetEvidence(records, id);
      if found.Err? {
        return Err(found.error);
      }
      var evidence := found.value;

      // Check permissions
      if evidence.uploadedBy != userId {
        return Err(Unauthorized);
      }

      // Delete from the object store
      var removed := RemoveObject((evidence.bucket, evidence.objectKey), remove);
      if !removed {
        return Err(BlobStoreFailure);
      }

      // Delete the row
      var deleted := DeleteRow(id, delete);
      if !deleted {
        return Err(MetadataStoreFailure);
      }
      return Ok(DeleteAck(true));
    }

    /** `linkToQuestion`: set the question of one row. */
    method LinkToQuestion(evidenceId: string, questionId: string, update: Outcome)
      returns (result: Result<EvidenceRecord>)
      requires Valid()
      modifies this
      ensures Valid()
      ensures blobs == old(blobs)
      ensures old(Consistent()) ==> Consistent()
      ensures records.Keys == old(records).Keys
      ensures forall i :: i in old(records) ==> SameIdentity(old(records)[i], records[i])
      ensures update == Fails ==> result == Err(MetadataStoreFailure) && records == old(records)
      ensures update == Succeeds && evidenceId !in old(records) ==>
        result == Err(RecordNotFound) && records == old(records)
      ensures update == Succeeds && evidenceId in old(records) ==>
        && records == old(records)[evidenceId := old(records)[evidenceId].(questionId := Some(questionId))]
        && result == Ok(records[evidenceId])
    {
      if update == Fails {
        return Err(MetadataStoreFailure);
      }
      if evidenceId !in records {
        return Err(RecordNotFound);
      }
      var evidence := records[evidenceId].(questionId := Some(questionId));
      records := records[evidenceId := evidence];
      return Ok(evidence);
    }
  }
}
