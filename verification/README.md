# Verification of the content service index

A Dafny model of the content service's scene index in Redis, the upload pipeline
that writes it, the endpoints that read it back and the tool that copies it, with
proofs of what they promise. `dafny verify dfyconfig.toml` checks everything.

## What is modelled

- **State.** `SceneIndex.Index` is what the service keeps in Redis, one map for
  each family of keys; `Keyspace` proves that the one flat keyspace with its
  prefixes behaves as these separate maps. `Storage.Storage` is the file store.
- **Failures.** Every Redis command, storage call, disk access and hashing call may
  fail; a failing write may or may not have taken effect. Ghost counters record
  failures, so a contract can say what holds always and what holds without them.
- **Unspecified order.** Loops over Go maps pick their next key arbitrarily, so what
  is proved holds for every iteration order.
- **The outside world.** Signature recovery and the signature contract (functions of
  the signed message, the signature and the key), the land service, the content type
  filter, the reading of `scene.json` and content hashing are parameters (`Outside`,
  `Limits`, `Hashing`). A directory CID is a function of the places and CIDs of the
  files below it; that directories of a run do not collide is asked for only where it
  is used.

| file | part of the service |
|---|---|
| `ParcelId`, `Rectangle` | coordinate text, rectangles |
| `SceneIndex`, `Redis`, `Metadata` | the Redis client |
| `SceneInvariant`, `LastWriterWins` | what runs of `SetSceneParcels` keep |
| `Keyspace` | the flat keyspace under the index |
| `Storage`, `Authorization`, `UploadRequest`, `UploadEffect`, `UploadService`, `UploadHandler` | the upload pipeline |
| `PlainTerms` | what an upload asks for and leaves, spelled out on requests, files and maps |
| `UploadRuns`, `RoundTrip`, `RoundTripBreaks`, `RootMetadata`, `CompletedUploads`, `RootScene` | what runs of uploads keep, and where they do not |
| `Mappings`, `Readers`, `Contents` | the readers |
| `CacheInterleaving` | the uploaded-content cache under concurrency |
| `Replication` | the replication tool |

## Where a promise fails

- The comment on `SetSceneParcels` asks that no parcel be in two scenes. Completed
  calls keep that (`IndexedAlways`), and so does a call that fails any number of
  times (`RetryRestores`), but an interrupted call followed by one for another scene
  breaks it (`InterruptionThenOtherScene`). `DisjointAtBoundaryIff` gives, for every
  point where a call can stop, the condition, checkable before the call, under which
  it keeps the lists disjoint.
- A failed push does not stop `SetSceneParcels` from repointing parcels, and a
  retried call can list its parcels twice; `RetryList` says exactly when, and
  `ListedTwice` exhibits a case.
- `/parcel_info` looks a root up through the first parcel of its list, which is the
  last one repointed. After an interrupted upload that parcel can map to another root
  (`InterruptedInfo`); the answer is about the root exactly if it does not
  (`InfoAgreesIff`).
- Every form key is saved as a file, but only those that a file entry of the
  manifest names are hashed. So an acceptable upload can overwrite a file that
  another root needs (`StrayFileBreaksOtherRoot`). Another root goes on rebuilding
  to its directory exactly when each file saved under a CID that it records has that
  CID (`OtherRootRebuildsIff`).
- Two file entries of a manifest may land in one place; the tree that is checked has
  only the later one, the index records both. So an acceptable upload can leave a
  root that no longer verifies (`RepeatedPlaceBreaksRoot`). With distinct names, a
  successful upload's root, if its content hash was new or agreed, rebuilds to the
  checked tree exactly if no place is claimed with two CIDs (`UploadRebuildsIff`,
  `LeavesOfTree`).
- The `/mappings` coordinate parser reads its first token for both coordinates, so
  it inverts a printed id exactly on the diagonal (`ParseQueryOfId`), and the
  rectangle asked for is listed exactly if its rows are the columns
  (`QueriedRectangleIff`).
- A form that lacks its metadata, manifest or `scene.json`, everything before it
  being in order, is answered 500, not 400; `UploadContent` says for every form that
  stands for no request which of the two it gets. A signature the contract refuses
  is answered 500 as well (`Refusal`).
- The replication tool ignores the status of `/validate`, which refuses parcels off
  the map: an answered parcel with a root gets it exactly if it is on the map, and
  is otherwise put under the empty root (`RootIsCopiedIff`, `OffMapIsMisplaced`).
- The metadata field `value` is stored as `value ` and not found again by a decoder,
  so a replica's metadata agrees exactly when that value is empty (`CopiedMetadata`).

## Model

| member | source | states |
|---|---|---|
| LastWriterWins.LastWriterWins | data/redis.go:194-226 | after any sequence of uploads, a scene's list is non-empty exactly when it was uploaded and no different overlapping scene was uploaded since, and it is then the scene's parcels, position by position from the last to the first |
| LastWriterWins.AdmitRefines | data/redis.go:194-226 | the index refines a set of live scenes from which an upload evicts what it overlaps |
| LastWriterWins.ExactFrame | data/redis.go:199-223 | an upload empties exactly the other scenes that share a parcel with it and leaves every disjoint scene's list as it was |
| LastWriterWins.UploadIsIdempotent | data/redis.go:199-223 | uploading the same scene again changes nothing |
| LastWriterWins.OwnersAreOverlapped | data/redis.go:199-215 | the lists deleted are those of the live scenes that share a parcel with the upload, no more and no fewer |
| LastWriterWins.LiveIffSurvives | data/redis.go:186-193 | a scene is live exactly when nothing different and overlapping was admitted after its last upload |
| LastWriterWins.ReplayRefines | data/redis.go:194-226 | the refinement holds after every run, also from parcels mapped before lists existed |
| LastWriterWins.LiveList | data/redis.go:217 | the list of a live scene has its parcels in reverse positions |
| LastWriterWins.NoListsRefine | data/redis.go:186-193 | every index without lists whose parcels map to roots that come with them is a start for that |
| LastWriterWins.WithoutLayout | data/redis.go:217 | a root uploaded with two parcel lists keeps both, so the content addressing premise is needed |
| SceneInvariant.IndexedAlways | data/redis.go:186-226 | from an index without lists, after every sequence of completed calls each listed parcel maps to its scene, and no parcel is in two lists; no premise on CIDs |
| SceneInvariant.CallRestores | data/redis.go:194-226 | a completed call leaves a consistent index even if its own scene listed some of its parcels without owning them |
| SceneInvariant.IndexedKept | data/redis.go:194-226 | a completed call keeps lists and parcels consistent |
| SceneInvariant.ListAtBoundary | data/redis.go:209-217 | the list of every scene at every command boundary of a call |
| SceneIndex.CompletedList | data/redis.go:199-223 | after a completed call position i of the scene's list holds parcel n-1-i of the call, followed by the old list exactly if the scene owned none of the parcels |
| SceneIndex.CompletedElsewhere | data/redis.go:199-223 | parcels of the call map to its scene, other parcels are as they were, and of the other scenes exactly those that a parcel of the call mapped to lose their list |
| SceneInvariant.ListedAtBoundary | data/redis.go:201-225 | at every command boundary a listed parcel is in the new list or still maps to its scene, and is then none of the call's parcels once anything was pushed or repointed |
| SceneInvariant.InterruptedDisjoint | data/redis.go:201-225 | wherever a call on a consistent index stops, no parcel is in two lists |
| SceneInvariant.InterruptedIndexed | data/redis.go:201-225 | however often a call is tried on a consistent index, wherever it stops, only parcels of the call listed for its scene may map elsewhere |
| SceneInvariant.RetryRestores | data/redis.go:201-225 | however often a call fails, no parcel is in two lists, and the repetition that succeeds restores consistency |
| SceneInvariant.RetryList | data/redis.go:201-225 | the list after the repeated call; parcels are listed twice exactly when the first call pushed, repointed nothing, and the scene owned none of them |
| SceneInvariant.ListedTwice | data/redis.go:217-223 | a call that fails after its push and is repeated lists its parcel twice |
| SceneInvariant.DisjointAtBoundaryIff | data/redis.go:201-225 | at every command boundary the lists are still disjoint if and only if nothing was pushed yet or that condition held before the call |
| SceneInvariant.DisjointKeptIff | data/redis.go:199-217 | a completed call keeps lists disjoint if and only if each of its parcels listed for another scene has that scene among the owners of its parcels |
| SceneInvariant.InterruptionThenOtherScene | data/redis.go:217-223 | an interrupted call and a completed one for another scene put a parcel in two lists |
| Keyspace.CommandRefines | data/redis.go:50-54 | on keys of the expected form every command has on the one keyspace the reply and effect it has on separate maps, and is never refused for its type |
| Keyspace.RunRefines | data/redis.go:50-54 | the same for every sequence of commands |
| Keyspace.KeysApart | data/redis.go:50-54 | no two addresses share a key |
| Keyspace.KeyTexts | data/redis.go:50-54 | the text of every key |
| Keyspace.PushEachReverses | data/redis.go:217 | pushing each parcel in turn at the head of a list puts them before it in reverse |
| Keyspace.SetSceneOnKeyspace | data/redis.go:194-226 | SetSceneParcels on the keyspace, deleting in any order, reads the owners the index has and leaves the keyspace holding the index after the call |
| Keyspace.SceneCommandsAreSetScene | data/redis.go:194-226 | the commands of a call amount to one transition for every order of deletion |
| Keyspace.EmptyIsRepresented | data/redis.go:56-64 | an empty keyspace holds the empty index |
| Keyspace.KeysCanCollide | data/redis.go:217 | a root CID that is also a parcel id makes the keyspace refuse what separate maps answer |
| Redis.Redis.Issue | data/redis.go:120-122 | a command succeeds, fails without effect, or takes effect and loses its reply |
| Redis.Redis.SetSceneParcels | data/redis.go:194-226 | success is exactly the complete transition, the list holding the parcels from the last to the first; any error leaves one of the command boundaries; it fails exactly on an empty parcel list or a failed command |
| Redis.Redis.ReadOwnersAndDelete | data/redis.go:199-215 | the first half of the call: all owners read before any list is deleted |
| Redis.Redis.GetParcelCID | data/redis.go:161-168 | the CID a parcel maps to, empty if none; only a failure is an error |
| Redis.Redis.GetSceneParcels | data/redis.go:233-239 | the whole list of a root, empty if none |
| Redis.Redis.ProcessedParcel | data/redis.go:170-179 | whether a parcel is flagged as processed |
| Redis.Redis.SaveRootCidSceneCid | data/redis.go:241-248 | both directions written, or a prefix of the two writes on failure |
| Redis.Redis.GetSceneCid | data/redis.go:249-255 | the linked CID; a missing link and a failure are different errors |
| Redis.Redis.GetRootCid | data/redis.go:257-263 | the same read from the other direction |
| Redis.Redis.GetParcelContent | data/redis.go:95-104 | the content hash of the root a parcel maps to; a failed read looks like an unknown parcel |
| Redis.Redis.GetParcelMetadata | data/redis.go:66-93 | the metadata of that root with its numbers converted, an error if one does not convert |
| Redis.Redis.ConvertAll | data/redis.go:79-91 | conversion succeeds exactly if every numeric field parses, for every iteration order |
| Metadata.TypedOfFields | data/redis.go:66-93 | stored metadata always converts back to the values that were stored |
| Metadata.TypedInPlainTerms | data/redis.go:79-91 | the three numeric fields are read as numbers and all others as text; reading fails exactly if one of the three is no number |
| UploadService.UploadService.ProcessUpload | internal/handlers/upload_service.go:66-117 | success means acceptable and completely written; an error means no change at all or, only after acceptance, one of the states on the way; without failures it succeeds exactly for acceptable requests and otherwise gives the error of the first phase that refuses; a short signature that does not recover to the key over root and time, and a long one its contract does not accept over value and time, are refused with their own error and no change; unauthorized exactly for a signed request whose first parcel not granted was denied |
| PlainTerms.AcceptableIff | internal/handlers/upload_service.go:66-88 | without two CIDs for one place a request is acceptable if and only if it is signed, has parcels that are all granted by their coordinates, and some files, each with the bytes of its well-formed CID, together within the limit, that form the directory of the well-formed root |
| UploadService.AcceptableInPlainTerms | internal/handlers/upload_service.go:74-88 | every acceptable request, whatever its places: its parcels are granted and its files have their CIDs |
| UploadService.UnexpectedHasNoFile | internal/handlers/upload_service.go:161-164 | only a manifest without files is refused as unexpected |
| UploadService.NoFileIsUnexpected | internal/handlers/upload_service.go:161-164 | and it is, if nothing else is wrong with the request |
| UploadService.UploadService.Validate | internal/handlers/upload_service.go:70-88 | the four phases change nothing and accept exactly the acceptable requests, the signature first |
| UploadService.UploadService.ValidateKeyAccess | internal/handlers/upload_service.go:271-282 | unauthorized exactly when the first parcel not granted was denied, an invalid argument when it could not be checked |
| UploadService.UploadService.EstimateRequestSize | internal/handlers/upload_service.go:376-394 | the byte total over the manifest from request or store, an invalid argument exactly if some file is in neither |
| UploadService.UploadService.ValidateRequestSize | internal/handlers/upload_service.go:361-374 | accepts exactly estimates within parcels times limit |
| UploadService.UploadService.FetchEntry | internal/handlers/upload_service.go:187-196 | the bytes of an entry come from the request first, then from the store |
| UploadService.UploadService.ValidateCID | internal/handlers/upload_service.go:238-258 | accepts exactly bytes that hash to the claimed CID |
| UploadService.UploadService.ConsolidateContent | internal/handlers/upload_service.go:173-203 | succeeds exactly if every file entry has a well-formed CID and fetched bytes that hash to it; it has then built the manifest's tree, in which every entry whose name does not end in a slash is in its place |
| UploadService.UploadService.ValidateContentCID | internal/handlers/upload_service.go:146-170 | accepts exactly trees whose directory CID is the root; a tree without files is an unexpected error |
| UploadService.UploadService.GroupFilePathsByCid | internal/handlers/upload_service.go:417-427 | for each CID of the manifest its names in manifest order, and nothing else |
| UploadService.UploadService.SaveFiles | internal/handlers/upload_service.go:286-313 | all uploaded files saved, or on failure some of them |
| UploadService.UploadService.PublishCid | internal/handlers/upload_service.go:316-325 | the names of one CID are recorded before the CID is marked as stored, also when it stops part way |
| UploadService.UploadService.PublishFiles | internal/handlers/upload_service.go:316-325 | all names recorded and all CIDs marked, or on failure some CIDs with all their names and some names of at most one other, for every iteration order |
| UploadService.UploadService.StoreParcelsInformation | internal/handlers/upload_service.go:341-359 | the scene placed and all its parcels flagged, or a state on the way |
| UploadService.UploadService.FindSceneCid | internal/handlers/upload_service.go:103-109 | the scene CID of the manifest |
| UploadService.UploadService.DescribeScene | internal/handlers/upload_service.go:99-112 | metadata and links written, or a prefix of the three writes |
| UploadService.UploadService.Store | internal/handlers/upload_service.go:90-116 | a complete upload or a state on the way, reported as an unexpected error |
| PlainTerms.StoredFiles | internal/handlers/upload_service.go:286-313 | after a successful upload each uploaded file is stored under its form key, and no other file changed |
| PlainTerms.StoredScene | internal/handlers/upload_service.go:341-359 | each parcel maps to the root and is flagged, the root lists them from the last to the first, and the scenes they mapped to have no list |
| PlainTerms.StoredContent | internal/handlers/upload_service.go:315-325 | each manifest name is recorded under the root with a CID the manifest has for it, each CID is marked, and nothing else is |
| PlainTerms.StoredMetadata | internal/handlers/upload_service.go:99-101 | the metadata fields under the root, name by name |
| PlainTerms.StoredLinks | internal/handlers/upload_service.go:103-112 | the root and the CID of the first entry with scene.json in its name lead to each other, and no other link changed |
| UploadEffect.SceneCidIsFirst | internal/handlers/upload_service.go:103-109 | it is the CID of the first entry whose name contains scene.json, and empty only if there is none |
| UploadEffect.ContainsIff | internal/handlers/upload_service.go:105 | a name contains a text exactly if it is something, the text and something |
| UploadEffect.SceneCidInPlainTerms | internal/handlers/upload_service.go:103-109 | an entry with scene.json anywhere in its name decides if no earlier one has it |
| UploadEffect.GroupingConserves | internal/handlers/upload_service.go:417-427 | grouping conserves the multiset of entries |
| UploadEffect.NamesInOrder | internal/handlers/upload_service.go:417-427 | the names of a CID keep their manifest order |
| UploadEffect.EntriesOfGrouping | internal/handlers/upload_service.go:417-427 | the groups hold exactly the manifest's entries |
| UploadEffect.OverwrittenByDistinctNames | internal/handlers/upload_service.go:315-325 | with distinct names the content hash is the old one overridden by the manifest, whatever the iteration order |
| UploadEffect.OutcomeIsDetermined | internal/handlers/upload_service.go:90-116 | with distinct names a successful upload has one possible outcome |
| UploadEffect.OutcomeIsReached | internal/handlers/upload_service.go:90-116 | and that outcome is one it can have |
| UploadEffect.OutcomeContent | internal/handlers/upload_service.go:315-325 | that outcome has the overridden content hash |
| UploadRequest.EstimateBoundsTree | internal/handlers/upload_service.go:173-203 | the estimate is at least the byte total of the consolidated tree, and equal to it for distinct places |
| UploadRequest.EstimateAppend | internal/handlers/upload_service.go:376-394 | each entry adds its bytes in the request or else in the store, and nothing if its name ends in a slash |
| UploadRequest.DirectoryIsSkipped | internal/handlers/upload_service.go:173-203 | a name that ends in a slash leaves tree and validity as they were |
| UploadRequest.TreeAt | internal/handlers/upload_service.go:173-203 | each place holds the bytes of the last file that lands there, from the request or else from the store |
| UploadRequest.TreeIsChecked | internal/handlers/upload_service.go:173-203 | in a valid tree every file is in its place and its bytes have its CID, and there is no place without such a file |
| UploadRuns.AcceptedTreeIsBounded | internal/handlers/upload_service.go:361-374 | the tree of an accepted upload has at most parcels times limit bytes |
| UploadRequest.LeavesOfTree | internal/handlers/upload_service.go:173-203 | the leaves of a valid tree are the places and CIDs of the manifest's files if and only if no place is claimed with two CIDs |
| UploadHandler.ParseRequest | internal/handlers/upload_handler.go:153-209 | parses exactly the forms within the limits; with one scene.json, required-value exactly if the form lacks a part and everything before it is in order, invalid-argument exactly if a part is wrong and everything before it is in order, unexpected exactly if it cannot be read; with several, the same for one of them |
| UploadHandler.ParsesIff | internal/handlers/upload_handler.go:153-209 | a form stands for a request within the limits exactly if it is readable and, with some scene.json, neither lacks a part nor has a wrong one |
| UploadHandler.FormInPlainTerms | internal/handlers/upload_handler.go:153-209 | a form stands for a request if and only if it is readable and complete, its metadata valid and in time, its types allowed, its fields no more than the manifest entries, and these within what the parcels of a scene.json allow |
| UploadHandler.ParsedInPlainTerms | internal/handlers/upload_handler.go:153-209 | the request holds the form's metadata and manifest, the first file of each field, and the parcels of a scene.json |
| UploadHandler.GetScene | internal/handlers/upload_handler.go:252-265 | the parcels of some uploaded scene.json; required exactly when there is none, invalid only if one cannot be read |
| UploadHandler.ValidateContentTypes | internal/handlers/upload_handler.go:211-220 | accepts exactly if the type of every header of every form field is allowed |
| UploadHandler.UploadContent | internal/handlers/upload_handler.go:106-149 | an answer of 400 or 401 leaves storage and index as they were; 200 means completely written; any other trace is of an acceptable request within the limits; a form that stands for no request gets 400 exactly if a part is wrong and 500 exactly if it is unreadable or lacks a part; a request with one scene.json gets 400 or 500 for a short or long signature that is not valid, 401 exactly if it is signed and its first parcel not granted was denied, and without failures 200 exactly if acceptable and else the status of the first refusal |
| UploadRuns.UploadWithin | internal/handlers/upload_service.go:284-359 | whatever becomes of an upload, it touches only parcels of its request, lists of their owners, content of its own root with CIDs of its manifest, and its own files; and the index only after all files are saved |
| UploadRuns.MarkedIsRecorded | internal/handlers/upload_service.go:316-325 | whatever becomes of an upload, every manifest entry of a CID it marked is recorded under the root |
| UploadRuns.StepIsAuthorised | internal/handlers/upload_service.go:74-97 | an attempt changes only parcels its key was granted, and empties only lists of scenes such a parcel mapped to |
| UploadRuns.AuthorisedIsGranted | data/authorization.go:52 | of a parcel given by its coordinates, the land service granted these coordinates, in this order, to the key |
| UploadRuns.ParcelChangesAreAuthorised | internal/handlers/upload_service.go:74-97 | over every run, a parcel's CID differs later only if the land service granted its coordinates to the key of an attempt in between |
| UploadRuns.EvictionsAreAuthorised | data/redis.go:201-223 | over every run, a list is emptied only by an attempt that was granted the coordinates of a parcel that mapped to the scene then |
| UploadRuns.UploadKeepsCacheSound | internal/handlers/upload_service.go:284-325 | every outcome of an upload keeps each marked CID stored or named by a directory entry |
| UploadRuns.DirectoryCidsInPlainTerms | internal/handlers/upload_service.go:316-325 | the exempt CIDs are those of entries whose name ends in a slash |
| RoundTrip.StoredScenesVerify | internal/handlers/upload_service.go:146-203 | over every run, failures included: once an unambiguous upload of a root succeeded with a content hash that was new or agreed, rebuilding the root from the stored names, CIDs and files gives that root in every later state, if no later accepted upload of another root saves a wrong file under a CID it records and those of the root are unambiguous and do not collide; nothing is asked of the store or of earlier uploads |
| RoundTrip.TidyRunSpares | internal/handlers/upload_service.go:286-313 | the condition on later uploads holds in particular if their uploaded keys are CIDs of file entries of their manifests |
| RoundTrip.UploadRebuilds | internal/handlers/upload_service.go:284-329 | after a successful unambiguous upload its root records the manifest's directory, rebuilds to it and verifies, if its content hash was new or agreed; stray files, the rest of the store and collisions play no part |
| RoundTrip.NamedFilesAreSaved | internal/handlers/upload_service.go:173-203 | after an acceptable upload has saved its files, each file entry's CID is stored with bytes that hash to it, whatever else was saved |
| RoundTrip.UploadRebuildsIff | internal/handlers/upload_service.go:173-203 | with distinct names and a content hash that was new or agreed, a successful upload's root rebuilds to the tree that was checked if and only if no place of its manifest is claimed with two CIDs |
| RoundTrip.OtherRootRebuildsIff | internal/handlers/upload_service.go:286-313 | whatever becomes of an upload, another root goes on rebuilding to its directory if and only if every file the upload saved under a CID recorded there has that CID |
| RoundTripBreaks.StrayFileBreaksOtherRoot | internal/handlers/upload_service.go:286-313 | an acceptable upload with distinct names and no more files than entries after which another root no longer verifies |
| RoundTripBreaks.RepeatedPlaceBreaksRoot | internal/handlers/upload_service.go:173-203 | an acceptable upload of a verifying root, with distinct names and no stray file, after which the root no longer verifies |
| RoundTrip.StoredScenesRebuild | internal/handlers/upload_service.go:284-329 | in the same runs, what is rebuilt is the directory of the upload's manifest, and each of its files is sound |
| RoundTrip.RebuildsForEver | internal/handlers/upload_service.go:284-329 | a root with sound files that rebuilds to its directory goes on doing so after every attempt that spares it, whatever else the store holds |
| RoundTrip.RootedAlways | internal/handlers/upload_service.go:284-329 | over every run whose accepted uploads of the root are unambiguous, every name recorded under the root belongs to it |
| RoundTrip.StoreAlwaysSound | internal/handlers/upload_service.go:286-313 | over every run whose accepted uploads save only files their manifests name, a sound store stays sound |
| RoundTrip.RootedKept | internal/handlers/upload_service.go:315-325 | what is recorded under a root stays part of a directory with that CID, also after failures, whatever uploads of other roots look like |
| RoundTrip.RootedAgrees | internal/handlers/upload_service.go:315-325 | without collisions what is recorded under a root agrees with every unambiguous manifest accepted for it |
| RoundTrip.StoreStaysSound | internal/handlers/upload_service.go:286-313 | every attempt that saves only files its manifest names keeps every stored file hashing to its name |
| RoundTrip.StoreStaysSoundIff | internal/handlers/upload_service.go:286-313 | an upload, successful or not, keeps the store sound exactly when each file it saved has its CID |
| RoundTrip.ManifestIsRoot | internal/handlers/upload_service.go:161-168 | an accepted unambiguous manifest names a directory whose CID is the root |
| RoundTrip.StillThere | internal/handlers/upload_service.go:315-325 | a name recorded under a root keeps its CID; uploads of other roots may be of any kind |
| RoundTrip.FileNamesInPlainTerms | internal/handlers/upload_service.go:177 | the names that are rebuilt are all that are recorded and do not end in a slash |
| CompletedUploads.RunIsConsistent | internal/handlers/upload_service.go:90-116 | after every run of completed uploads the index refines the live scenes and their parcels are all flagged |
| CompletedUploads.RunIsInformed | internal/handlers/upload_service.go:95-101 | if every root a parcel maps to was described by its own metadata, it is after every run of completed uploads |
| CompletedUploads.RunDescribesLists | internal/handlers/upload_service.go:95-101 | from any index without lists, after every run of completed uploads lists agree with parcels and every root with a list is described by its own metadata |
| CompletedUploads.ConsistentKept | internal/handlers/upload_service.go:341-359 | a completed upload admits its scene to the live scenes with all its parcels flagged |
| CompletedUploads.InformedKept | internal/handlers/upload_service.go:95-101 | a completed upload keeps lists consistent and all mapped roots described, without content addressing |
| RootMetadata.DescribedAfter | internal/handlers/upload_service.go:99-101 | the metadata left under a root converts and names that root |
| RootMetadata.MetadataWithin | internal/handlers/upload_service.go:99-101 | whatever becomes of an upload, it writes metadata under its own root only, and all of it or nothing |
| RootMetadata.NamedAlways | internal/handlers/upload_service.go:99-101 | over every run, failures included, metadata that can be read and names a root names the root it is stored under |
| CompletedUploads.CommittedMetadata | internal/handlers/upload_service.go:99-101 | the metadata left under the root of a completed upload is that of the upload |
| CompletedUploads.CommittedScenes | internal/handlers/upload_service.go:95-97 | the scene maps after a completed upload are those of SetSceneParcels, with the parcels flagged |
| Mappings.MappingsHandler.GetScenes | internal/handlers/mappings_handler.go:152-217 | without failures exactly the entries of lists of roots that a flagged parcel of the rectangle maps to, each with the scene CID of its root, whole lists in some order; always only entries of such lists; 400 exactly if the area exceeds 200 |
| Mappings.MappingsHandler.FindRoots | internal/handlers/mappings_handler.go:167-189 | the roots of processed parcels; failures only lose roots |
| Mappings.MappingsHandler.ListScenes | internal/handlers/mappings_handler.go:191-214 | every root's whole list once, in some order |
| Mappings.FlattenIs | internal/handlers/mappings_handler.go:191-214 | an entry is answered exactly if its parcel is in the list of its root, with the root's scene CID or none |
| Mappings.FlattenNext | internal/handlers/mappings_handler.go:207-213 | each root adds its list in the order of the list |
| Readers.ScenesAreExact | internal/handlers/mappings_handler.go:161-214 | the answer to /scenes has each entry exactly as often as the parcel is in the layout of a live scene meeting the rectangle: whole scenes only, nothing for stale parcels |
| Readers.ScenesAfterRun | internal/handlers/mappings_handler.go:161-214 | the same after every run of completed uploads, in terms of its history |
| Readers.RootsAreLiveScenes | internal/handlers/mappings_handler.go:169-189 | a live scene is found exactly when it meets the rectangle, and stale parcels lead only to roots without a list |
| Readers.OneRootForEachParcel | internal/handlers/mappings_handler.go:207-213 | no answer puts a parcel under two roots |
| Mappings.MappingsHandler.GetParcelInformation | internal/handlers/mappings_handler.go:223-240 | content and metadata joined through the parcel, and when it is missing, failed or panics |
| Mappings.InfoInPlainTerms | internal/handlers/mappings_handler.go:223-240 | nothing for an unmapped parcel, a failure on a numeric field that is no number, a panic without root or publisher, else the parcel with these and its root's content |
| Mappings.MappingsHandler.ListContent | internal/handlers/mappings_handler.go:229-233 | every pair of the hash once, in some order |
| Mappings.MappingsHandler.ResolveCid | internal/handlers/mappings_handler.go:252-285 | a CID with a list stands for itself, one without for the root it is linked to if that has a list, with itself as the scene CID; failures skip it, abort, or lose its scene CID |
| Mappings.ResolveInPlainTerms | internal/handlers/mappings_handler.go:252-285 | in terms of lists and links: which CIDs resolve, to which root, parcel and scene CID |
| Mappings.MappingsHandler.CollectPairs | internal/handlers/mappings_handler.go:251-286 | one pair for each resolved root, always through the first parcel of its list |
| Mappings.CollectedInPlainTerms | internal/handlers/mappings_handler.go:251-286 | every root that an asked CID stands for is answered through the first parcel of its list, with the scene CID of the last CID asked for it |
| Mappings.MappingsHandler.GetInfo | internal/handlers/mappings_handler.go:242-304 | without failures every root that an asked CID stands for is answered for unless its metadata cannot be read, a scene CID asked alone with itself, or a panic on metadata without root or publisher; with failures still at most one answer for each root, each for what an asked CID resolves to, with that root's content and scene CID or none |
| Mappings.MappingsHandler.GetMappings | internal/handlers/mappings_handler.go:123-142 | without failures the contents of the rectangle's known parcels in order; with failures some of them, in order, or no answer; 400 exactly if the area exceeds 200 |
| Readers.InfoAgreesWithKey | internal/handlers/mappings_handler.go:251-301 | where lists agree with parcels and roots with a list are described, /parcel_info never panics, answers for every resolved root, and reports content, root and publisher stored for that root itself |
| Readers.InfoAfterRun | internal/handlers/mappings_handler.go:251-301 | so after every run of completed uploads from any index without lists, without content addressing |
| Readers.InfoAgreesIff | internal/handlers/mappings_handler.go:289-301 | in every index, interrupted uploads included, what is found for a root with a list is its own if and only if the first parcel of the list maps to it |
| Readers.InterruptedInfo | data/redis.go:217-223 | an interrupted upload after which /parcel_info reports another root's content |
| Readers.MappedIsAnswered | internal/handlers/mappings_handler.go:223-240 | where every mapped root is described, /mappings neither fails nor panics and answers exactly for the mapped parcels |
| Readers.MappingsInOrder | internal/handlers/mappings_handler.go:129-141 | an answer of /mappings has parcels of the rectangle in its order, each at most once, with what is stored for it |
| Readers.UploadIsReadBack | internal/handlers/mappings_handler.go:223-240 | after a completed upload with distinct names each of its parcels reads back as that upload: its root, its publisher, and its manifest over what the root had |
| Readers.CollectedRoots | internal/handlers/mappings_handler.go:251-286 | a root is answered for exactly when an asked CID resolves to it, and always when it is asked for and has a list |
| Readers.AnswersAreAskedFor | internal/handlers/mappings_handler.go:287-303 | each answer of /parcel_info is for a root that an asked CID stands for |
| RootScene.SceneOfRootOfScene | data/redis.go:241-263 | from a saved scene CID to the last root saved with it and back to the scene CID |
| RootScene.SceneOfRoot | data/redis.go:241-255 | every saved root leads to its scene CID |
| RootScene.RootOfScene | data/redis.go:257-263 | every saved scene CID leads to the last root saved with it |
| RootScene.RunLinks | internal/handlers/upload_service.go:103-112 | a run of completed uploads leaves the links of its requests, and only their roots have lists |
| RootScene.OneSceneCidForEachRoot | internal/handlers/mappings_handler.go:262-285 | for every list of asked CIDs GetInfo reports for each root the scene CID it was saved with |
| RootScene.AskedInAnyOrder | internal/handlers/mappings_handler.go:251-286 | the same CIDs in another order, or repeated, get the same answers |
| RootScene.AskedByScene | internal/handlers/mappings_handler.go:262-285 | asking for the scene CID of the last root saved with it gets the answer that asking for the root gets |
| RootScene.AskedBySceneAfterRun | internal/handlers/mappings_handler.go:262-285 | so after every run of completed uploads with one scene for each root |
| Contents.ContentHandler.CheckContentStatus | internal/handlers/contents_handler.go:59-85 | true exactly for CIDs cached or stored; only stored CIDs asked for are added to the cache, also after an error |
| Contents.ContentHandler.CheckContentInStorage | internal/handlers/contents_handler.go:87-103 | asks the store and remembers what it has |
| Contents.StatusIsAboutTheStore | internal/handlers/contents_handler.go:59-85 | with a sound cache the answers are about the store, but for CIDs only directory entries named, and the cache stays sound |
| CacheInterleaving.CacheAlwaysSound | internal/handlers/upload_service.go:284-325 | under every interleaving of uploads and status requests, each stopping anywhere, every cached CID is stored or was named by a directory entry |
| CacheInterleaving.StepKeepsInvariant | internal/handlers/contents_handler.go:87-103 | what each request relies on between two of its accesses is never taken away by another |
| CacheInterleaving.ManifestIsStored | internal/handlers/upload_service.go:316-325 | when an upload starts to mark CIDs, all of them are stored or named by directory entries |
| CacheInterleaving.UploadTakesTheseSteps | internal/handlers/upload_service.go:173-329 | the effect of every upload on store and cache, wherever it stopped, is that of a sequence of the machine's steps |
| CacheInterleaving.StatusTakesTheseSteps | internal/handlers/contents_handler.go:59-103 | so is the effect of every status request, answered or not |
| Authorization.UserCanModifyParcels | data/authorization.go:28-64 | granted exactly when there are parcels and all are granted, by the land service for the coordinates each is given by; denied exactly when the first not granted was denied; for one parcel the land service's own answer |
| Authorization.CheckParcel | data/authorization.go:34-60 | the verdict on one parcel: parsed, then asked of the land service by its coordinates |
| Authorization.VerdictOfId | data/authorization.go:40-52 | a parcel given by x and y is asked for under x and y |
| Rectangle.RectToParcels | utils/misc.go:5-28 | nil exactly if the area exceeds the maximum, else the rectangle's identifiers |
| Rectangle.IdsAreExact | utils/misc.go:5-28 | as many identifiers as the area, one for each parcel inside, in strict lexicographic coordinate order, the same for every choice of corners |
| Rectangle.IdsBetween | utils/misc.go:5-28 | a parcel is listed exactly if each coordinate lies between those of the corners; as many are listed as the area |
| ParcelId.ParseOfId | data/authorization.go:34-49 | the authorization parser inverts the printed identifier |
| ParcelId.IdText | utils/misc.go:24 | an identifier is x, a comma and y, in decimal |
| ParcelId.TwoCommas | data/authorization.go:34-38 | text with two commas or more is no parcel |
| ParcelId.NoComma | data/authorization.go:34-38 | nor is text without one |
| ParcelId.IdInjective | utils/misc.go:24 | different coordinates print differently |
| ParcelId.ParseIntOfPrint | data/authorization.go:40-49 | parsing a printed 64-bit integer gives it back |
| ParcelId.ParseIntOfPrintIff | data/authorization.go:40-49 | outside the 64-bit range a printed integer is refused |
| ParcelId.OtherTextsParse | data/authorization.go:40-49 | a leading zero and a plus sign are accepted |
| ParcelId.OnlyDigitsParse | data/authorization.go:40-49 | a character other than a digit and one leading sign is not |
| ParcelId.ParseQueryOfId | internal/handlers/mappings_handler.go:86-100 | the query parser gives the first coordinate twice, so it inverts an identifier exactly on the diagonal |
| Rectangle.QueriedRectangleIff | internal/handlers/mappings_handler.go:86-133 | of two corners printed into a /mappings query, the rectangle they span is the one listed if and only if it covers the same rows as columns |
| Replication.Replicate | cmd/replication/replication.go:67-110 | the loop copies every answered parcel, or stops at the first failed write with a prefix of the parcels copied and part of the next |
| Replication.WriteParcel | cmd/replication/replication.go:82-109 | one parcel's writes, or on failure a prefix of them |
| Replication.ReplicaAgrees | cmd/replication/replication.go:67-110 | from a replica without foreign content and an unchanging source in any state uploads can leave, every answered parcel has the same root and the same content on both, shared roots included |
| Replication.RectangleIsReplicated | cmd/replication/replication.go:63-110 | the whole tool: from a replica without foreign content, for corners on the map as /mappings parsed them and any answer it can give, every parcel of the rectangle that the source maps has its root and content on the replica, and every other parcel is as it was |
| Replication.EmptyReplica | cmd/replication/replication.go:63-110 | from an empty replica, after any uploads on the source, failed ones included: the replica maps exactly what the source maps in the rectangle, with the same content |
| Replication.ReplicaIsNamed | cmd/replication/replication.go:87-90 | the replica's metadata is about its roots, so it can be copied in turn |
| Replication.StoppedCopyIsRepeatable | cmd/replication/replication.go:67-110 | a copy that stopped anywhere has put no wrong root or content on the replica, and after a repetition that succeeds every parcel agrees |
| Replication.RootIsCopiedIff | cmd/replication/replication.go:68-85 | an answered parcel gets its root on the replica if and only if it is on the map or that root is empty; off the map it gets the empty root |
| Replication.OffMapIsMisplaced | cmd/replication/replication.go:68-85 | a source with one described parcel off the map, which its replica has under the empty root |
| Replication.ValidatedRoot | cmd/replication/replication.go:68-80 | the root taken from /validate is the one the parcel maps to on the source |
| Replication.MappingsAreFromSource | internal/handlers/mappings_handler.go:129-141 | what /mappings answers is content of the source, with one for each known parcel of the rectangle |
| Replication.CopiedMetadata | cmd/replication/replication.go:87-90 | the replica's metadata is the source's with an empty value, so it agrees exactly if the value was empty |
| Storage.Storage.SaveFile | storage/s3.go:48-70 | the file is stored under its name whole, or on failure perhaps |
| Storage.Storage.FileSize | storage/local.go:73-85 | the size of a stored file; not found exactly if it is not stored |
| Storage.Storage.DownloadFile | storage/local.go:44-71 | the bytes of a stored file; a failure may be reported as not found |

## Left out

- HTTP, form and JSON decoding, logging, metrics and configuration: a parsed form is the input.
- Signature recovery (including the edit of the signature's last byte), the contract call, the land API client: parameters.
- Content hashing, CID format checks and the cleaning of file paths: uninterpreted functions of `Hashing`; conflicts between a file and a directory of one name are failures of the disk.
- Storage.Storage.SaveFile: saves are atomic, as in the object store; the local store can leave a file written half way, which is not modelled.
- Rectangle.RectToParcels: does not model 64-bit overflow of the area, which needs coordinates beyond the map.
- UploadService.UploadService.EstimateRequestSize: sizes are unbounded integers; 64-bit overflow of a byte total is not modelled.
- Interleaved calls of SetSceneParcels: its commands are not one transaction, and its guarantees are for one call at a time; concurrency is modelled for the uploaded-content cache.
- Readers.InfoAgreesWithKey: excludes the empty string among the asked CIDs, for which the handler answers under an empty root.
- Replication.ReplicaAgrees: asks for answered parcels on the map, the range /validate accepts; RootIsCopiedIff covers the others.
- Replication.Replicate: the file downloads of the tool are not modelled, since it does not check their status.
- Keyspace.SetSceneOnKeyspace: parcel ids are those the authorization parser accepts, CIDs have 46 characters and start with Qm.
- ClearScene, the start-up probe key, GetContents and the `/validate` endpoint on its own: single reads or writes.
- The temporary directory of an upload: absent before, removed after.
