# Billing records across a hot and a cold tier: a Dafny model

The Billing Service keeps billing records in two tiers:

- **Hot tier.** A Cosmos DB container, keyed by record id, where items expire through a `ttl` attribute.
- **Cold tier.** A Blob Storage container, where each archived record is a JSON blob named `YYYY/MM/DD/<id>.json`.

Three pieces of sequential logic connect the tiers, and this project models them:

- **Archiver (`azure-functions/archiver-function/__init__.py`, module `Archiver`).**
  - It loops over the records that the age query returned.
  - For each record it derives the blob name from `createdAt` and the id.
  - It uploads the record only when no blob has that name, and counts the uploads in `archived_count`.
  - It then sets `ttl = 1` on the record and upserts it into the hot container.
  - One `try` wraps the whole loop, so the first exception ends the run.
  - The two containers are the fields `hot` and `cold` of the class `TieredStores`, both maps.
  - The method `ArchiveOldRecords` is the loop. It is proved equal to specification functions of the old state (`StopIndex`, `Writes`, `NewWrites`, `Upserts`), and the lemmas about those functions state what a run guarantees.
- **Retrieval function (`azure-functions/retriever-function/__init__.py`, module `Retriever`).**
  - It rejects a missing or empty id with 400.
  - It walks the blob listing for the first name ending in `/<id>.json`, in the method `FindBlob`, which is proved equal to `FirstMatch`.
  - It answers 200 with the blob, 404 when nothing matches or the storage service reports not-found, and 500 on any other error.
  - `Answer` is the whole response as a function, and the method `Retrieve` is proved to compute it. Both hand the search outcome to `Respond`, the one definition of the status mapping.
- **API service (`api-service/app.py`, module `ApiService`).**
  - `GetRecord` serves a hot hit directly.
  - On a hot not-found it asks the retrieval function once and translates its status: 200 stays 200, 404 stays 404, anything else becomes 500.
  - Any other hot error becomes 500.
  - As written, the module cannot load. Line 6 of `api-service/app.py` imports `CosmosResourceNotFoundError` from `azure.core.exceptions`, which does not define it, so the import raises `ImportError` and the service answers no request. `Serve` models the load, and `ServiceAsWrittenNeverAnswers` states the outcome. `GetRecord` models the handler with the class imported from `azure.cosmos.exceptions`, where the Cosmos SDK defines it. Everything below about the API service assumes that correction (see "## Findings").

The module `Tiers` connects the three pieces:

- The name the archiver writes always passes the retriever's suffix test.
- For slash-free ids, the test matches exactly the record's own id.
- A record archived by a completed run is therefore read back unchanged through the API once its hot copy has expired (with the import corrected).

Modelling choices that hold throughout:

- Storage calls become map operations.
- The exception a storage call raises is an input. For the archiver it is `FaultAt(k, ColdWriteFails | HotUpsertFails)`. For the retriever it is `ListingFails(at, err)` or `DownloadFails(err)`.
- A `createdAt` that is not a real calendar date raises in `fromisoformat`, exactly like a failing storage call.
- A blob holds the `Record` value itself. Serializing with `json.dumps` and parsing it back is taken to give the same record.

The code does not give a location index, failure isolation per record, or identical copies in both tiers during migration, and the model follows the code:

- **No location index.** The retriever searches the full listing by suffix.
- **No isolation per record.** One exception stops the whole archiver run. `ColdWriteFailureStopsRun` and `NoPrematureRetirement` state what this leaves behind.
- **Copies differ during migration.** The hot copy is upserted with `ttl = 1` after the blob was written without it. So while both copies exist, the two tiers serve different documents whenever the record's `ttl` was not already 1, as the last ensures of `ArchiveThenRead` states.

## Model

| member | source | states |
|---|---|---|
| `Archiver.DigitsRoundTrip` | azure-functions/archiver-function/__init__.py:51 | zero-padded decimal formatting of a number that fits the width reads back as that number |
| `Archiver.ColdKeyLayout` | azure-functions/archiver-function/__init__.py:51-52 | the blob name is four digits spelling the year, '/', two the month, '/', two the day, '/', the id, `.json`; its length is the id's plus 16 |
| `Archiver.StopIndex` | azure-functions/archiver-function/__init__.py:47-77 | the run stops at the first candidate whose iteration raises (unparsable date, failing exists/upload, failing upsert), and no candidate before it raised |
| `Archiver.DatesValidBeforeStop` | azure-functions/archiver-function/__init__.py:51 | every candidate the run got past had a `createdAt` that parses |
| `Archiver.WrittenUpTo` | azure-functions/archiver-function/__init__.py:59-70 | the blob step ran for exactly the candidates before the stop, plus the stopping one if and only if it raised at its upsert and not before; so it lies between the stop and the stop plus one, and every date it covers parses |
| `Archiver.NewWrites` | azure-functions/archiver-function/__init__.py:46-62 | `archived_count` never exceeds the number of candidates handled |
| `Archiver.TieredStores.constructor` | azure-functions/archiver-function/__init__.py:26-32 | the archiver starts from the given hot and cold containers |
| `Archiver.TieredStores.ArchiveOldRecords` | azure-functions/archiver-function/__init__.py:24-77 | after the loop, `completed` holds iff no candidate raised; the hot store has the TTL upserts of exactly the candidates before the stop; the cold store has the blob writes up to `WrittenUpTo`; `archived_count` is the number of those writes that created a blob |
| `Archiver.ExistingBlobsUnchanged` | azure-functions/archiver-function/__init__.py:59-64 | an existing blob is never overwritten or removed by a run |
| `Archiver.CountIsColdGrowth` | azure-functions/archiver-function/__init__.py:46-62 | the cold store grows by exactly `archived_count` blob names |
| `Archiver.WritesArchiveEachCandidate` | azure-functions/archiver-function/__init__.py:59-69 | every candidate handled has a blob at its name; a blob it created holds the record as serialized before `ttl` was set |
| `Archiver.WritesLeaveOtherNames` | azure-functions/archiver-function/__init__.py:55-62 | a blob name no handled candidate maps to keeps its previous state (present or absent, same content) |
| `Archiver.WritesComeFromCandidates` | azure-functions/archiver-function/__init__.py:59-62 | every blob after the run was there before or is a candidate stored under its own name |
| `Archiver.WritesNothingWhenArchived` | azure-functions/archiver-function/__init__.py:59-64 | when every candidate already has its blob, the run uploads nothing and counts 0 |
| `Archiver.UpsertsMarkExactlyTheProcessed` | azure-functions/archiver-function/__init__.py:66-70 | every candidate whose upsert ran ends with `ttl = 1` as one of the candidates with its id; an id no such candidate carries is untouched |
| `Archiver.UpsertsOverride` | azure-functions/archiver-function/__init__.py:69-70 | the TTL upserts of a run override the old hot store with a map that depends only on the candidates |
| `Archiver.NoPrematureRetirement` | azure-functions/archiver-function/__init__.py:59-77 | after a run that raised, no record whose id appears only from the stopping candidate on has its `ttl` set, and no blob beyond the candidates reached is written |
| `Archiver.ColdWriteFailureStopsRun` | azure-functions/archiver-function/__init__.py:59-77 | if the blob step for candidate k raises, neither k nor any later candidate is upserted or written |
| `Archiver.RerunIsIdempotent` | azure-functions/archiver-function/__init__.py:57-70 | a second run over the same candidates after a completed run uploads nothing, counts 0, and leaves both stores as they were |
| `Archiver.UpsertsSeeOnlyMarkedCopies` | azure-functions/archiver-function/__init__.py:66-70 | two candidate lists whose records agree once `ttl = 1` is set give the same hot store |
| `Archiver.RerunOverMarkedCopiesIsIdempotent` | azure-functions/archiver-function/__init__.py:46-70 | a run over the hot copies a completed run marked with `ttl = 1` also completes, uploads nothing, counts 0 and leaves both stores as they were |
| `Retriever.FirstMatch` | azure-functions/retriever-function/__init__.py:56-61 | a found name is the first listed name ending in `/<id>.json` (later matches ignored); no match iff no listed name matches and the listing did not fail; a failure surfaces only if no earlier name matched |
| `Retriever.FindBlob` | azure-functions/retriever-function/__init__.py:56-61 | the loop with its `break` computes that search outcome |
| `Retriever.Answer` | azure-functions/retriever-function/__init__.py:18-85 | status is one of 200/400/404/500; 400 iff the id is missing or empty, without looking at storage; 200 iff the search found a name whose blob downloads, with that blob's record as body; 500 iff the listing or download raised an error other than not-found |
| `Retriever.Retrieve` | azure-functions/retriever-function/__init__.py:13-85 | the handler, running the search loop, returns `Answer` of its inputs |
| `Retriever.FirstListedMatchIsServed` | azure-functions/retriever-function/__init__.py:58-72 | when the k-th listed name is the first match and its blob exists, the answer is 200 with that blob's record |
| `Retriever.NoMatchingNameIsNotFound` | azure-functions/retriever-function/__init__.py:63-78 | when no listed name ends in `/<id>.json`, the answer is 404 |
| `ApiService.GetRecord` | api-service/app.py:33-63 | hot hit: 200 with the hot record, retrieval function not called; hot not-found: exactly one call, for the same id, and 200 with its JSON body on 200, 404 on 404, 500 otherwise; other hot error: 500 with no call; 404 only when the hot store missed and the retrieval function said 404 |
| `ApiService.ServiceAsWrittenNeverAnswers` | api-service/app.py:6 | `azure.core.exceptions` defines no `CosmosResourceNotFoundError`, so the service as written answers no request, not even one the hot store could serve |
| `ApiService.ServiceWithImportFixedAnswers` | api-service/app.py:6-63 | with the class imported from `azure.cosmos.exceptions`, every request is answered by `GetRecord`, and a hot hit gets 200 |
| `Tiers.ArchivedKeyIsMatched` | azure-functions/retriever-function/__init__.py:59 | every blob name the archiver builds at azure-functions/archiver-function/__init__.py:52 passes the suffix test for the record's id |
| `Tiers.SlashesInKey` | azure-functions/archiver-function/__init__.py:52 | past the date, the only '/' in a blob name is the one before a slash-free id |
| `Tiers.MatchedKeyNamesTheRecord` | azure-functions/retriever-function/__init__.py:59 | a blob name built for a slash-free id passes the suffix test for a slash-free id only if the ids are equal |
| `Tiers.SuffixMatchIsExact` | azure-functions/retriever-function/__init__.py:59 | for slash-free ids, the suffix test on a record's blob name holds iff the ids are equal |
| `Tiers.ArchivedRecordIsRetrieved` | azure-functions/retriever-function/__init__.py:56-72 | a record stored under its own name, the only blob for its id, is returned by the retrieval function with 200 |
| `Tiers.ReadAfterMigration` | api-service/app.py:37-53 | after the hot copy has expired, `GET /records/<id>` returns the archived record with 200, the same response a hot hit on it gives |
| `Tiers.WritesKeepColdWellFormed` | azure-functions/archiver-function/__init__.py:51-62 | the archiver only adds blobs that hold a record under the name built from it |
| `Tiers.WritesKeepIdUnique` | azure-functions/archiver-function/__init__.py:59-62 | when a record's id was not archived before and each candidate with that id is that record, afterwards only its own blob holds the id |
| `Tiers.ArchiveThenRead` | azure-functions/archiver-function/__init__.py:46-70 | after a completed run, the blob named for a candidate holds it as it was before `ttl` was set, the hot copy carries `ttl = 1`, and the API returns the archived record once the hot copy has expired; while the hot copy lives, a record whose `ttl` was not 1 is served differently by the two tiers |

## Left out

- The Azure SDK clients (Cosmos, Blob Storage), Flask routing and `jsonify`, and the function-key header on the call to the retrieval function. Stores are maps and a listing; responses are status and body values.
- Environment configuration and client construction at module level, logging and `print`.
- The clock and the age threshold. The timestamp, `timedelta` and the Cosmos SQL query string are not modelled. The records the query returns are an input in their query order. The query engine is external.
- JSON formatting with `indent=2` and the UTF-8 decoding of the downloaded blob. A blob's content is the record value. A decoding failure, which would answer 500, is not modelled.
- Cosmos's background reaping of expired items. Whether the hot read hits or misses is an input (`HotRead`).
- The flat `blob_name` computed and never used in the retrieval function.
- Cosmos system properties (`_rid`, `_etag`, `_ts`) on items, and a record without an `id` field (a `KeyError`): every record has an id.
- An upload that raises after writing part or all of the blob: an upload that raises is taken to have written nothing.
- Archiver.ColdKeyLayout: years below 1000 are padded to four digits. `strftime('%Y')` pads them only on some platforms.
- Tiers.SuffixMatchIsExact: the exactness needs ids without '/'. The URL routes of both services take the id from a single path segment. An id containing '/' could match another record's blob, and that case is not modelled.
- ApiService.GetRecord: an exception raised in the not-found handler goes to the web framework's default 500 page, modelled as `ServerErrorPage`. This covers `requests.get` failing or `response.json()` rejecting the body. The handler is modelled with the import of api-service/app.py:6 corrected (see "## Findings").
- ApiService.ExceptionClasses: lists only the exception classes of the two Azure SDK modules that a Cosmos client may raise, not everything those modules define.
- The location index, failure isolation per record, retries and concurrent runs: the code has none of them.

## Findings

| source | as written | input that shows it | evidently intended | confidence | as-written member | corrected member |
|---|---|---|---|---|---|---|
| api-service/app.py:6 | `from azure.core.exceptions import CosmosResourceNotFoundError`; that module defines only the generic `ResourceNotFoundError`, so loading the service raises `ImportError` | any request, e.g. `GET /records/r1` with `r1` in the hot store: the service never starts, so it gets no answer | import the class from `azure.cosmos.exceptions`, so that a hot hit gets 200 and a hot not-found falls back to the retrieval function | high; not executed | `ApiService.ServiceAsWrittenNeverAnswers` | `ApiService.GetRecord` (with `ApiService.ServiceWithImportFixedAnswers`) |
