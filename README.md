# Face-encoding store and matcher of Ashi SmartPix, modelled in Dafny

Ashi SmartPix lets a photographer upload an event's photos and lets guests
find the photos they appear in by submitting a selfie. This project models the
two pieces of list logic at the heart of that flow, from `ashik.py`:

- **the corpus builder** (`generate_encodings_for_event`): for every listed
  image of the event, download it, detect its faces and append one record
  `(public_id, face_index, url, encoding)` per face whose key
  `(public_id, face_index)` is not among the keys of the records loaded before
  the run; then save the list locally and upload it, but only if something was
  appended;
- **the matcher** (`upload_selfie`): take the first face of the selfie, load
  the encodings (the local cache, else the cloud copy, else nothing), compare
  every record's encoding with the selfie's, and collect the URLs of matching
  records, each once, in the order first met;
- the deterministic cache path `encodings/<event>.json` (`local_encoding_path`)
  and the local/cloud fallback used when loading.

Modules:

- `Wrappers` (wrappers.dfy): `Option`.
- `Seqs` (seqs.dfy): `Flatten`, `Distinct` (first occurrences, in order),
  `FirstIndex`, and their lemmas.
- `Records` (records.dfy): the encoding record with every JSON field optional,
  the duplicate key (a missing `face_index` reads as 0), the image listing
  entry, Python truthiness of `public_id` / `secure_url or url`.
- `EncodingStore` (encoding_store.dfy): the cache path, loading the cache,
  and the choice between the local list and the cloud copy.
- `CorpusBuilder` (corpus_builder.dfy): the merge loop as the methods `Merge`
  and `AppendFaces`, proved against the function `Appended`; the whole run
  as `GenerateEncodings`; lemmas for fresh keys, order, skipped images,
  idempotence and key uniqueness.
- `MatchEngine` (match_engine.dfy): the match loop as `CollectMatches`, proved
  against `Distinct(MatchedUrls(..))`; the selfie flow with its early exits as
  `UploadSelfie`.

Everything outside Dafny is an input. The image listing is `Option<seq<Resource>>`,
where None means listing raised. Download plus face detection is a function from a
URL to `Unavailable` or `Faces(encodings)`. The state of the cache file is a
`LocalFile`. The cloud copy download is `Option<seq<Record>>`. Writing the cache is
a success flag. The face comparison is a function from a stored encoding and the
selfie encoding to `Matched`, `NotMatched` or `Failed`.

Points of the code's behaviour that the model keeps as written:

- Key uniqueness holds only against the records loaded before the run. The key set is
  built once, before the loop, and is not extended inside it, so a listing that names
  the same image twice gets that image's new faces appended twice with the same keys
  (`RepeatedImageDuplicatesKeys`). Uniqueness is proved only for listings without a
  repeated public id (`MergeKeepsKeysUnique`).
- A comparison error is not fatal. The match loop catches any exception raised while
  comparing one record and skips that record. A record without an `encoding` field is
  skipped the same way.
- The match result is the `url` field of each matching record. That field may be
  absent, so the result holds optional strings.
- Every listed image is downloaded and examined again on each run. Whether a face is
  already stored is decided per face, by its key.

## Model

| member | source | states |
|---|---|---|
| `Records.KeyOf` | ashik.py:159 | a record's key is its public id with its face index, a missing face index reading as 0 |
| `Records.KeySet` | ashik.py:159 | the key set holds the key of every existing record and nothing else |
| `Records.ResolveUrl` | ashik.py:165 | the fetch URL is the secure URL when it is non-empty, otherwise the plain URL; it is usable exactly when one of the two is |
| `Records.Target` | ashik.py:164-167 | an image is processed exactly when its public id and its resolved URL are both present and non-empty, and then with those two values |
| `Records.FaceRecord` | ashik.py:186-191 | a new record carries the image's public id, the face's index as key, the image URL and the face encoding |
| `EncodingStore.LocalEncodingPath` | ashik.py:64-65 | the cache path ends in `<event>.json` and lies under `encodings/` unless the event name is absolute |
| `EncodingStore.LocalEncodingPathInjective` | ashik.py:64-65 | distinct event names never yield the same cache path string |
| `EncodingStore.LoadLocal` | ashik.py:67-76 | a missing or unreadable cache file loads as the empty list, a parsed one as its contents |
| `EncodingStore.AvailableEncodings` | ashik.py:323-330 | a non-empty local list is used as is; otherwise the downloaded cloud copy; the result is empty exactly when both are empty or the download failed |
| `CorpusBuilder.NewFaces` | ashik.py:181-193 | the face loop appends at most one record per detected face, each with the image's public id and URL and a key absent from the existing keys |
| `CorpusBuilder.NewFacesShape` | ashik.py:181-192 | every appended face record is face number i of the image, with face index i and that face's encoding, and indexes strictly increase (detection order) |
| `CorpusBuilder.NewFacesKeys` | ashik.py:181-185 | the face loop appends exactly the image's face keys that were not already present |
| `CorpusBuilder.NewFacesUnique` | ashik.py:181-185 | the face loop never appends two records with the same key |
| `CorpusBuilder.AppendedConcat` | ashik.py:163-198 | records are appended in listing order: a listing split in two appends the first part's records, then the second's |
| `CorpusBuilder.SkippedImageAddsNothing` | ashik.py:166-179 | an image without id or URL, whose download failed or raised, or with no face contributes no record wherever it is listed |
| `CorpusBuilder.AppendedKeys` | ashik.py:159-185 | the keys appended in a run are exactly the keys of all detected faces minus the keys present before the run |
| `CorpusBuilder.FreshKeysOnly` | ashik.py:183-192 | every appended record is complete and its key was absent before the run |
| `CorpusBuilder.NothingFreshAppendsNothing` | ashik.py:183-185 | when every detected face's key is already present, nothing is appended |
| `CorpusBuilder.MergeIdempotent` | ashik.py:159-185 | merging the same listing and detection results into a merge's output appends nothing |
| `CorpusBuilder.AppendedIds` | ashik.py:164-192 | every appended record belongs to a processed image of the listing |
| `CorpusBuilder.AppendedUnique` | ashik.py:163-193 | within one run appended keys are unique when no public id is listed twice |
| `CorpusBuilder.MergeKeepsKeysUnique` | ashik.py:158-193 | a key-unique list stays key-unique after a merge of a listing without repeated public ids |
| `CorpusBuilder.RepeatedImageDuplicatesKeys` | ashik.py:159-185 | because the key set is not extended in the loop, an image listed twice gets all its records appended twice, so any fresh face of it repeats a key |
| `CorpusBuilder.AppendFaces` | ashik.py:181-193 | the face loop's result is the list so far followed by the image's new face records, and its count is how many were added |
| `CorpusBuilder.Merge` | ashik.py:158-198 | the merged list begins with the existing records unchanged, followed by the appended records, all with fresh keys; `added` is their number |
| `CorpusBuilder.GenerateEncodings` | ashik.py:137-208 | a failed listing returns False and changes nothing; otherwise the list is merged, saved only when something was appended, and uploaded only if that save succeeded |
| `Seqs.Distinct` | ashik.py:339-342 | keeping a URL only when not yet collected leaves every URL once and loses none |
| `Seqs.DistinctFirstSeen` | ashik.py:333-342 | collected URLs keep the order in which they were first met |
| `MatchEngine.MatchedUrls` | ashik.py:334-339 | a URL is among the matching records' URLs exactly when some record with an encoding compares as a match and carries that URL |
| `MatchEngine.CollectMatches` | ashik.py:333-345 | the match loop yields the matching records' URLs without duplicates, each present exactly when some record matched with it, in first-seen order |
| `MatchEngine.MatchResult` | ashik.py:333-345 | the deduplicated match list has no repeats and holds exactly the URLs of matching records |
| `MatchEngine.MatchOrder` | ashik.py:333-345 | the deduplicated match list keeps the order in which each URL was first matched |
| `MatchEngine.UploadSelfie` | ashik.py:307-349 | no selfie face or no available encodings gives no matches; otherwise only the first selfie face is compared against the available encodings |
| `MatchEngine.TwoPicturesMatchInOrder` | ashik.py:333-345 | a picture with two faces of which one matches, then a matching picture, yields the two URLs once each, in that order |

## Left out

- The web layer: routes, session handling, login against the photographer credentials,
  template rendering, flash messages and the `/download` proxy (ashik.py:219-420). None
  of it has logic of its own.
- `upload_selfie` with no selfie file redirects back to the guest page (ashik.py:296-299).
  That is a web-layer branch and is not modelled. Storing the result in the session is
  not modelled either.
- The Cloudinary listing, upload and download, `requests.get`, and JSON file reading and
  writing are network and file I/O, so they are inputs. The 500-result cap on the listing
  is part of that input.
- A successful cloud download also writes the local cache (ashik.py:129). There is no
  file state in the model, so this side effect is not captured.
- `upload_encodings_to_cloud` is modelled only as "attempted". Its own outcome is only
  logged and does not change what the builder returns.
- `GenerateEncodings`: face detection is all-or-nothing per image. Converting an encoding
  to a list cannot fail part-way through an image's faces, so an exception after some of
  its faces were appended is not modelled.
- `MatchEngine.IsMatch`: the Euclidean distance with tolerance 0.55 over 128 floats is a
  foreign library call. It is the `compare` parameter, so the inclusive threshold is not
  modelled.
- `EncodingStore.LoadLocal`: JSON that parses to something other than a list of objects
  is not distinguished from a list of records. A JSON `null` face index is treated like a
  missing one.
- `EncodingStore.LocalEncodingPath`: follows POSIX `os.path.join`. Windows path rules are
  not modelled.
- `EncodingStore.LocalEncodingPathInjective`: speaks of path strings only. Which file a
  path names is up to the file system, so on a case-insensitive one two events whose
  names differ only in case share a cache file. File identity is not modelled.
- `UploadSelfie` and `GenerateEncodings` each model one request in isolation. The server
  runs threaded (ashik.py:425), and concurrent requests are not modelled. Every selfie
  upload writes and then reads the one file `uploads/selfie.jpg` (ashik.py:302-308), so
  under concurrent uploads the encoded selfie may be another guest's. Two builds for the
  same event each load (ashik.py:158) and then save (ashik.py:201) the same cache file,
  so one build's additions can be lost.
- QR generation, image transcoding in `event_upload`, the background thread and the
  progress stream (ashik.py:56-62, 211-216, 257-273, 412-420) are I/O or concurrency.
