# Evidence service, modelled in Dafny

The evidence service stores audit evidence files for assessments. Its one
component with logic is `EvidenceService`. It keeps two external stores in step:

- a MinIO object store, keyed by `(bucket, objectKey)` and holding bytes;
- a Prisma `evidence` table, keyed by evidence id and holding one record per upload.

The model has five modules:

- `EvidenceTypes` (`types.dfy`): the `FileUpload` shape, the evidence record,
  the open JSON metadata bag, the search filter, and the outcomes and errors
  of the store calls.
- `NodePath` (`node_path.dfy`): Node's POSIX `path.extname`, written from its
  documented behaviour.
- `ObjectKeys` (`object_keys.dfy`): the textual shape of a version-4 UUID, and
  how an object key `id + extension` gives back its id. With `path.extname`
  this fixes how an object key is named.
- `EvidenceSearch` (`search.dfy`): what `findMany` with a `where` filter and
  `orderBy: { createdAt: 'desc' }` returns. It is a specification predicate
  plus one list that meets it, and ties are left to an unspecified choice.
- `Service` (`evidence_service.dfy`): the `EvidenceService` class with
  fields `blobs` and `records`.
  - The four operations that write (`UploadFile`, `UpdateMetadata`,
    `DeleteEvidence`, `LinkToQuestion`) are methods. They change the two maps
    in the source's order.
  - Each store call gets its outcome (`Succeeds` or `Fails`) as a parameter,
    so every partial failure is stated in the contracts.
  - The four reads (`GetEvidence`, `GetFileStream`, `SearchEvidence`,
    `GetByAssessment`) are functions over the maps.
  - `Valid()` is kept by every method: each row is keyed by its own id, its
    object key begins with that id, and it lives in the evidence bucket.
  - `Consistent()` says every row's object exists. It is kept by everything
    except a row deletion that fails after its object was removed.

`Scenarios` (`scenarios.dfy`) proves properties that span several calls,
using only the methods' contracts.

Three facts about the code shape the model:

- `getFileStream` has no separate store-inconsistency error: on a row whose
  object is gone it fails with MinIO's own `NoSuchKey`.
- Search orders by `createdAt` only, with no tie-break.
- The service bumps no `updatedAt`, so the record has no such field.

## Model

| member | source | states |
|---|---|---|
| NodePath.ExtName | src/services/evidence.service.ts:24 | `path.extname` yields either nothing or a `.` followed by characters that hold no further `.` |
| NodePath.ExtNameIsSegmentExt | src/services/evidence.service.ts:24 | the extension depends only on the final path segment, trailing `/` ignored |
| NodePath.ExtNameOfFinalSegment | src/services/evidence.service.ts:24 | the extension is a suffix of the final segment with something before it, and holds no `/`. It is empty only for `..` or a segment with no `.` after its first character, so dot-files have none |
| NodePath.ExtNameOfHtml | src/services/evidence.service.ts:24 | `index.html` has extension `.html`, as Node documents |
| ObjectKeys.UuidHasNoDot | src/services/evidence.service.ts:23 | a v4 uuid holds no `.`, so the id part of the object key is unambiguous |
| ObjectKeys.IdPartOfObjectKey | src/services/evidence.service.ts:23-25 | the object key `fileId + extension` gives back `fileId` as the text before its first `.` |
| ObjectKeys.ObjectKeyDeterminesId | src/services/evidence.service.ts:25 | the concatenation `${fileId}${extension}` is injective: equal keys have equal ids and equal extensions |
| Service.DistinctIdsDistinctKeys | src/services/evidence.service.ts:23-25 | two different uuids never name the same object, whatever the original file names |
| Service.FreshKeyUnreferenced | src/services/evidence.service.ts:23-28 | the object key of a fresh uuid is pointed at by no existing row |
| Service.GetEvidence | src/services/evidence.service.ts:53-63 | succeeds exactly when the id has a row and returns that row; otherwise fails with 'Evidence not found' |
| Service.GetFileStream | src/services/evidence.service.ts:65-68 | an unknown id fails as `getEvidence` does. For a known id it succeeds exactly when the row's object exists, returning its bytes, and otherwise fails with `NoSuchKey` |
| Service.SearchEvidence | src/services/evidence.service.ts:96-106 | returns exactly the rows matching every filter field that is given, each once, with `createdAt` non-increasing |
| EvidenceSearch.NewestFirstList | src/services/evidence.service.ts:104 | any finite set of rows can be listed without repetition, newest first |
| EvidenceSearch.EmptyFilterReturnsAll | src/services/evidence.service.ts:96-106 | with no filter field given, a search result holds every row of the table, each once, and nothing else |
| Service.GetByAssessment | src/services/evidence.service.ts:115-120 | returns exactly the rows of that assessment, each once, newest first |
| Service.GetByAssessmentIsSearch | src/services/evidence.service.ts:115-120 | `getByAssessment(a)` is `searchEvidence({ assessmentId: a })` |
| Service.EvidenceService.constructor | src/services/evidence.service.ts:2-6 | a service starts over the evidence bucket with both stores empty, valid and consistent |
| Service.EvidenceService.PutObject | src/services/evidence.service.ts:28-30 | a successful put stores the bytes under the key and leaves the table alone; a failed one changes nothing |
| Service.EvidenceService.CreateRow | src/services/evidence.service.ts:33-48 | a successful create stores the row under its id and leaves the objects alone; a failed one changes nothing |
| Service.EvidenceService.RemoveObject | src/services/evidence.service.ts:86 | a successful remove leaves the key empty and the table alone; a failed one changes nothing |
| Service.EvidenceService.DeleteRow | src/services/evidence.service.ts:89-91 | a successful delete removes the row with that id and leaves the objects alone; a failed one changes nothing |
| Service.EvidenceService.UploadFile | src/services/evidence.service.ts:16-51 | the object is put before the row is created. A failed put changes nothing. A failed create leaves one new object that no row points at. Success adds one row (the fresh id, key = id + extname, evidence bucket, empty metadata, inputs copied) and its object, touching nothing earlier. `getEvidence` and `getFileStream` then return that row and exactly the uploaded bytes. Validity and consistency are kept |
| Service.EvidenceService.UpdateMetadata | src/services/evidence.service.ts:70-75 | on a known id a given value replaces the metadata wholesale, and `undefined` leaves the row as it is and returns it; every other field and all objects are kept either way. An unknown id fails as Prisma's `update` does, changing nothing |
| Service.EvidenceService.DeleteEvidence | src/services/evidence.service.ts:77-94 | succeeds exactly when the id is known, the requester is the uploader and both store calls succeed. An unknown id or another requester fails with both stores unchanged. A failed remove keeps row and object. A failed row delete leaves the row without its object (the one way consistency breaks). Success removes exactly that row and its object and returns `{ success: true }` |
| Service.EvidenceService.LinkToQuestion | src/services/evidence.service.ts:108-113 | on a known id only `questionId` changes and objects are untouched; an unknown id fails, changing nothing |
| Scenarios.MetadataIsReplacedNotMerged | src/services/evidence.service.ts:70-75 | updating with `{a: 1}` then `{b: 2}` leaves `{b: 2}`, with no `a` key |
| Scenarios.LinkingTwiceIsLinkingOnce | src/services/evidence.service.ts:108-113 | linking twice to the same question gives the same table and result as linking once |
| Scenarios.OnlyTheUploaderDeletes | src/services/evidence.service.ts:77-83 | after an upload, a delete by anyone else is refused, and the row and its bytes can still be read |
| Scenarios.DeleteThenRead | src/services/evidence.service.ts:77-94 | after a successful delete by the uploader, neither the row nor its bytes can be read |

## Left out

- `src/routes/evidence.routes.ts`, `src/config/minio.config.ts`, `src/server.ts`
  and `shared/types/index.ts` are not part of this model. They hold HTTP
  wiring and status mapping, environment parsing and the bucket bootstrap,
  app startup, and type declarations; none has service logic.
  - `EVIDENCE_BUCKET` is the constructor's parameter.
  - The fire-and-forget bucket creation is not modelled: the bucket is
    assumed to exist.
- Concurrency, cancellation and timeouts are not modelled. The model is
  sequential, as the service holds no locks.
- `uuidv4()` randomness: the id is a parameter of `UploadFile`. The
  precondition says it has the v4 uuid shape and is unused: no row has it
  and no object key in the bucket starts with it.
- The database clock that stamps `createdAt` is a parameter of `UploadFile`.
- Reads (`findUnique`, `findMany`, `getObject`) are modelled as failing only
  when the row or object is absent; backend failures of reads are not
  modelled. Only the five writes (`putObject`, `create`, `removeObject`,
  `delete`, `update`) carry an outcome.
- Service.EvidenceService.UpdateMetadata: when the `update` call fails for a
  backend reason, the model reports that before the not-found check. The
  two cannot be told apart from the service code, which only awaits Prisma.
- Service.EvidenceService.UpdateMetadata: a bare `null` is modelled as the
  JSON value `JNull` and accepted. Whether Prisma rejects it depends on the
  Prisma version and the column's nullability, which the service code does
  not show. Metadata values outside JSON, such as functions, are not modelled.
- Service.EvidenceService.LinkToQuestion: the same ordering of backend
  failure before not-found as `UpdateMetadata`.
- Service.GetFileStream: returns the object's bytes rather than a stream;
  MinIO streaming is not modelled.
- Service.EvidenceService.PutObject: the `Content-Type` and size passed to
  `putObject` are not stored with the object; the object store holds bytes
  only.
- `BigInt(file.size)` is modelled as a `nat`. `file.size` is copied as given
  and is not compared with the buffer length, as in the source.
- Service.SearchEvidence: among rows with equal `createdAt` the order is an
  unspecified choice. The contract fixes membership and the `createdAt`
  order only, as `orderBy: { createdAt: 'desc' }` does.
- JSON numbers in metadata are integers; floating point is not modelled.
