/**
 * Values exchanged by the evidence service: the uploaded file, the stored
 * evidence record, the search filter, the open JSON metadata bag, and the
 * error and outcome values of the two external stores.
 */
module EvidenceTypes {

  /** A byte of an uploaded payload. */
  type Byte = bv8

  /** Optional foreign-context fields (`organizationId?` and friends). */
  datatype Option<+T> = None | Some(value: T)

  /** The JSON value Prisma stores in the `metadata` column. */
  datatype Json =
    | JNull
    | JBool(b: bool)
    | JNumber(n: int)
    | JString(s: string)
    | JArray(items: seq<Json>)
    | JObject(fields: map<string, Json>)

  /** The empty object `{}` every new record starts with. */
  const EmptyMetadata: Json := JObject(map[])

  /** The `FileUpload` shape handed over by the multipart layer. */
  datatype FileUpload = FileUpload(
    buffer: seq<Byte>,
    originalname: string,
    mimetype: string,
    size: nat)

  /** One row of the `evidence` table. */
  datatype EvidenceRecord = EvidenceRecord(
    id: string,
    fileName: string,
    originalName: string,
    fileSize: nat,
    mimeType: string,
    bucket: string,
    objectKey: string,
    uploadedBy: string,
    organizationId: Option<string>,
    assessmentId: Option<string>,
    questionId: Option<string>,
    metadata: Json,
    createdAt: nat)

  /** Where a record's payload lives in the object store. */
  type BlobKey = (string, string)

  function BlobKeyOf(r: EvidenceRecord): BlobKey {
    (r.bucket, r.objectKey)
  }

  /** The `filters` argument of `searchEvidence`; `None` means the field was left undefined. */
  datatype Filter = Filter(
    organizationId: Option<string>,
    assessmentId: Option<string>,
    questionId: Option<string>,
    uploadedBy: Option<string>)

  const NoFilter: Filter := Filter(None, None, None, None)

  /** What one call into an external store did. */
  datatype Outcome = Succeeds | Fails

  /** The ways a service operation can reject. */
  datatype Error =
    | EvidenceNotFound    // `getEvidence` found no row: 'Evidence not found'
    | Unauthorized        // delete requested by someone other than the uploader
    | RecordNotFound      // Prisma `update` on an id that has no row
    | NoSuchKey           // MinIO `getObject` on a key that holds no object
    | BlobStoreFailure    // a MinIO call (put / remove) rejected
    | MetadataStoreFailure  // a Prisma call (create / update / delete) rejected

  datatype Result<+T> = Ok(value: T) | Err(error: Error)

  /** The `{ success: true }` object `deleteEvidence` resolves with. */
  datatype DeleteAck = DeleteAck(success: bool)
}
