/**
 * The corpus builder: brings an event's encodings list up to date with the
 * images currently listed for the event. Every face of every listed image
 * whose (public id, face index) key is not among the keys of the records
 * loaded before the run is appended; nothing already stored is removed or
 * rewritten.
 *
 * The merge loop is a method proved against the specification function
 * `Appended`; what the builder promises (fresh keys, order, skipped images,
 * idempotence) is proved about `Appended` as lemmas.
 */
module CorpusBuilder {
  import opened Wrappers
  import opened Records
  import opened EncodingStore
  import opened Seqs

  /** What downloading an image and running face detection on it produced. */
  datatype Extraction =
    | Unavailable                      // non-200 download, or an exception while processing
    | Faces(encodings: seq<Encoding>)  // one encoding per detected face, in detection order

  /** The keys of faces `0 .. n - 1` of image `publicId`. */
  function FaceKeys(publicId: string, n: nat): (keys: set<Key>)
    ensures forall k :: k in keys <==> k.0 == Some(publicId) && 0 <= k.1 < n
  {
    set i | 0 <= i < n :: (Some(publicId), i)
  }

  /**
   * The records the face loop appends for one image: face `i` yields a
   * record with face index `i` unless its key is in `keys`.
   */
  function NewFaces(keys: set<Key>, publicId: string, url: string, encs: seq<Encoding>): (out: seq<Record>)
    ensures |out| <= |encs|
    ensures forall r :: r in out ==> r.publicId == Some(publicId) && r.url == Some(url) && KeyOf(r) !in keys
  {
    if encs == [] then []
    else
      var i := |encs| - 1;
      NewFaces(keys, publicId, url, encs[..i])
        + (if (Some(publicId), i) in keys then [] else [FaceRecord(publicId, i, url, encs[i])])
  }

  /** The records appended for one listed image; a skipped image yields none. */
  function ResourceRecords(keys: set<Key>, res: Resource, extract: string -> Extraction): seq<Record> {
    match Target(res)
    case None => []
    case Some((publicId, url)) =>
      match extract(url)
      case Unavailable => []
      case Faces(encs) => NewFaces(keys, publicId, url, encs)
  }

  /** The records appended for a listing: each image's records, in listing order. */
  function Appended(keys: set<Key>, listing: seq<Resource>, extract: string -> Extraction): seq<Record> {
    Flatten(listing, (res: Resource) => ResourceRecords(keys, res, extract))
  }

  /** The keys of every face found in one listed image, before duplicate suppression. */
  function ResourceKeys(res: Resource, extract: string -> Extraction): set<Key> {
    match Target(res)
    case None => {}
    case Some((publicId, url)) =>
      match extract(url)
      case Unavailable => {}
      case Faces(encs) => FaceKeys(publicId, |encs|)
  }

  /** The keys of every face found in a listing, before duplicate suppression. */
  function CandidateKeys(listing: seq<Resource>, extract: string -> Extraction): set<Key> {
    if listing == [] then {}
    else
      var n := |listing| - 1;
      CandidateKeys(listing[..n], extract) + ResourceKeys(listing[n], extract)
  }

  // ---------------------------------------------------------------------------
  // Properties of the face loop

  /** `r` is the record of face `i` of `encs`, for some index `i` whose key is not in `keys`. */
  predicate IsNewFace(r: Record, keys: set<Key>, publicId: string, url: string, encs: seq<Encoding>) {
    r.faceIndex.Some? && 0 <= r.faceIndex.value < |encs| &&
    r == FaceRecord(publicId, r.faceIndex.value, url, encs[r.faceIndex.value]) &&
    KeyOf(r) !in keys
  }

  /** The face indexes of `records` strictly increase. */
  predicate IncreasingFaceIndexes(records: seq<Record>) {
    forall a, b :: 0 <= a < b < |records| ==> records[a].faceIndex.GetOr(0) < records[b].faceIndex.GetOr(0)
  }

  /**
   * Face records appear in detection order, each carrying its detection index,
   * the image's public id and URL, and that face's encoding, and only for
   * indices whose key was not already present.
   */
  lemma {:induction false} NewFacesShape(keys: set<Key>, publicId: string, url: string, encs: seq<Encoding>)
    ensures forall k :: 0 <= k < |NewFaces(keys, publicId, url, encs)| ==>
              IsNewFace(NewFaces(keys, publicId, url, encs)[k], keys, publicId, url, encs)
    ensures IncreasingFaceIndexes(NewFaces(keys, publicId, url, encs))
  {
    if encs != [] {
      var i := |encs| - 1;
      var prefix := encs[..i];
      NewFacesShape(keys, publicId, url, prefix);
      var prev := NewFaces(keys, publicId, url, prefix);
      var tail := if (Some(publicId), i) in keys then [] else [FaceRecord(publicId, i, url, encs[i])];
      var out := NewFaces(keys, publicId, url, encs);
      assert out == prev + tail;
      forall k | 0 <= k < |out| ensures IsNewFace(out[k], keys, publicId, url, encs) {
        if k < |prev| {
          assert out[k] == prev[k] && IsNewFace(prev[k], keys, publicId, url, prefix);
          assert prefix[prev[k].faceIndex.value] == encs[prev[k].faceIndex.value];
        }
      }
      forall a, b | 0 <= a < b < |out| ensures out[a].faceIndex.GetOr(0) < out[b].faceIndex.GetOr(0) {
        if b >= |prev| {
          assert out[a] == prev[a] && IsNewFace(prev[a], keys, publicId, url, prefix);
          assert out[b] == FaceRecord(publicId, i, url, encs[i]);
        }
      }
    }
  }

  /** The keys the face loop appends are exactly the image's face keys not already present. */
  lemma {:induction false} NewFacesKeys(keys: set<Key>, publicId: string, url: string, encs: seq<Encoding>)
    ensures KeySet(NewFaces(keys, publicId, url, encs)) == FaceKeys(publicId, |encs|) - keys
  {
    if encs != [] {
      var i := |encs| - 1;
      NewFacesKeys(keys, publicId, url, encs[..i]);
      var key := (Some(publicId), i);
      var prev := NewFaces(keys, publicId, url, encs[..i]);
      var tail := if key in keys then [] else [FaceRecord(publicId, i, url, encs[i])];
      assert NewFaces(keys, publicId, url, encs) == prev + tail;
      KeySetConcat(prev, tail);
      assert KeySet(tail) == {key} - keys;
      assert FaceKeys(publicId, |encs|) == FaceKeys(publicId, i) + {key};
      calc {
        KeySet(prev + tail);
        KeySet(prev) + KeySet(tail);
        (FaceKeys(publicId, i) - keys) + ({key} - keys);
        (FaceKeys(publicId, i) + {key}) - keys;
      }
    }
  }

  // ---------------------------------------------------------------------------
  // Properties of the whole listing

  /** The records of a listing are those of all images but the last, then the last one's. */
  lemma AppendedLast(keys: set<Key>, listing: seq<Resource>, extract: string -> Extraction)
    requires listing != []
    ensures Appended(keys, listing, extract)
         == Appended(keys, listing[..|listing| - 1], extract) + ResourceRecords(keys, listing[|listing| - 1], extract)
  {
  }

  /** Taking one more image of the listing appends that image's records. */
  lemma AppendedStep(keys: set<Key>, listing: seq<Resource>, i: nat, extract: string -> Extraction)
    requires i < |listing|
    ensures Appended(keys, listing[..i + 1], extract)
         == Appended(keys, listing[..i], extract) + ResourceRecords(keys, listing[i], extract)
  {
    AppendedLast(keys, listing[..i + 1], extract);
    assert listing[..i + 1][..i] == listing[..i];
  }

  /** The records of a listing split at any point are those of the two parts, in order. */
  lemma AppendedConcat(keys: set<Key>, first: seq<Resource>, second: seq<Resource>, extract: string -> Extraction)
    ensures Appended(keys, first + second, extract) == Appended(keys, first, extract) + Appended(keys, second, extract)
  {
    FlattenConcat(first, second, (res: Resource) => ResourceRecords(keys, res, extract));
  }

  /** A listing of one image appends exactly that image's records. */
  lemma AppendedSingle(keys: set<Key>, res: Resource, extract: string -> Extraction)
    ensures Appended(keys, [res], extract) == ResourceRecords(keys, res, extract)
  {
    AppendedLast(keys, [res], extract);
    assert [res][..0] == [];
  }

  /** An image that is skipped, unavailable or faceless contributes nothing wherever it is listed. */
  lemma SkippedImageAddsNothing(keys: set<Key>, before: seq<Resource>, res: Resource, after: seq<Resource>,
                                extract: string -> Extraction)
    requires Target(res).None? || extract(Target(res).value.1).Unavailable?
             || extract(Target(res).value.1) == Faces([])
    ensures Appended(keys, before + [res] + after, extract) == Appended(keys, before + after, extract)
  {
    AppendedConcat(keys, before + [res], after, extract);
    AppendedConcat(keys, before, [res], extract);
    AppendedSingle(keys, res, extract);
    AppendedConcat(keys, before, after, extract);
  }

  /**
   * The keys of the appended records are exactly the candidate keys that were
   * not already present: every appended key is fresh, and every fresh face is
   * appended.
   */
  lemma {:induction false} AppendedKeys(keys: set<Key>, listing: seq<Resource>, extract: string -> Extraction)
    ensures KeySet(Appended(keys, listing, extract)) == CandidateKeys(listing, extract) - keys
  {
    if listing != [] {
      var n := |listing| - 1;
      AppendedKeys(keys, listing[..n], extract);
      AppendedLast(keys, listing, extract);
      KeySetConcat(Appended(keys, listing[..n], extract), ResourceRecords(keys, listing[n], extract));
      match Target(listing[n])
      case None =>
      case Some((publicId, url)) =>
        match extract(url)
        case Unavailable =>
        case Faces(encs) => NewFacesKeys(keys, publicId, url, encs);
    }
  }

  /** Every appended record is a new face record whose key was absent before the run. */
  lemma FreshKeysOnly(keys: set<Key>, listing: seq<Resource>, extract: string -> Extraction)
    ensures forall r :: r in Appended(keys, listing, extract) ==>
              KeyOf(r) !in keys && r.publicId.Some? && r.faceIndex.Some? && r.url.Some? && r.encoding.Some?
  {
    AppendedKeys(keys, listing, extract);
    AppendedIds(keys, listing, extract);
  }

  /** Once every candidate key is present, a run appends nothing. */
  lemma NothingFreshAppendsNothing(keys: set<Key>, listing: seq<Resource>, extract: string -> Extraction)
    requires CandidateKeys(listing, extract) <= keys
    ensures Appended(keys, listing, extract) == []
  {
    var added := Appended(keys, listing, extract);
    AppendedKeys(keys, listing, extract);
    KeySetEmpty(added);
  }

  /**
   * Idempotence: merging the same listing and extraction results into the
   * list a merge produced appends nothing.
   */
  lemma MergeIdempotent(existing: seq<Record>, listing: seq<Resource>, extract: string -> Extraction)
    ensures Appended(KeySet(existing + Appended(KeySet(existing), listing, extract)), listing, extract) == []
  {
    var keys := KeySet(existing);
    var once := existing + Appended(keys, listing, extract);
    KeySetConcat(existing, Appended(keys, listing, extract));
    AppendedKeys(keys, listing, extract);
    NothingFreshAppendsNothing(KeySet(once), listing, extract);
  }

  // ---------------------------------------------------------------------------
  // Uniqueness of keys

  /** The public ids of the images a listing processes. */
  function TargetIds(listing: seq<Resource>): set<string> {
    if listing == [] then {}
    else
      var n := |listing| - 1;
      TargetIds(listing[..n]) + (if Target(listing[n]).Some? then {Target(listing[n]).value.0} else {})
  }

  /** Every appended record is a complete record of a processed image of the listing. */
  lemma {:induction false} AppendedIds(keys: set<Key>, listing: seq<Resource>, extract: string -> Extraction)
    ensures forall r :: r in Appended(keys, listing, extract) ==>
              r.publicId.Some? && r.publicId.value in TargetIds(listing) &&
              r.faceIndex.Some? && r.url.Some? && r.encoding.Some?
  {
    if listing != [] {
      var n := |listing| - 1;
      AppendedIds(keys, listing[..n], extract);
      AppendedLast(keys, listing, extract);
      match Target(listing[n])
      case None =>
      case Some((publicId, url)) =>
        match extract(url)
        case Unavailable =>
        case Faces(encs) =>
          NewFacesShape(keys, publicId, url, encs);
          var right := NewFaces(keys, publicId, url, encs);
          forall r | r in right ensures r.faceIndex.Some? && r.encoding.Some? {
            var k :| 0 <= k < |right| && right[k] == r;
            assert IsNewFace(right[k], keys, publicId, url, encs);
          }
    }
  }

  /** No two processed images of the listing share a public id. */
  predicate DistinctTargets(listing: seq<Resource>) {
    forall a, b :: 0 <= a < b < |listing| && Target(listing[a]).Some? && Target(listing[b]).Some? ==>
      Target(listing[a]).value.0 != Target(listing[b]).value.0
  }

  /** Every id in `TargetIds` comes from some processed image of the listing. */
  lemma {:induction false} TargetIdsMembers(listing: seq<Resource>)
    ensures forall id :: id in TargetIds(listing) ==>
              exists j :: 0 <= j < |listing| && Target(listing[j]).Some? && Target(listing[j]).value.0 == id
  {
    if listing != [] {
      var n := |listing| - 1;
      TargetIdsMembers(listing[..n]);
      forall id | id in TargetIds(listing)
        ensures exists j :: 0 <= j < |listing| && Target(listing[j]).Some? && Target(listing[j]).value.0 == id
      {
        if id in TargetIds(listing[..n]) {
          var j :| 0 <= j < n && Target(listing[..n][j]).Some? && Target(listing[..n][j]).value.0 == id;
          assert listing[j] == listing[..n][j];
        } else {
          assert Target(listing[n]).Some? && Target(listing[n]).value.0 == id;
        }
      }
    }
  }

  /** With distinct public ids, the last image's id is not among those before it. */
  lemma LastIdIsNew(listing: seq<Resource>)
    requires |listing| > 0 && DistinctTargets(listing)
    requires Target(listing[|listing| - 1]).Some?
    ensures Target(listing[|listing| - 1]).value.0 !in TargetIds(listing[..|listing| - 1])
  {
    var prefix := listing[..|listing| - 1];
    TargetIdsMembers(prefix);
    forall j | 0 <= j < |prefix| && Target(prefix[j]).Some?
      ensures Target(prefix[j]).value.0 != Target(listing[|listing| - 1]).value.0
    {
      assert prefix[j] == listing[j];
    }
  }

  /** Two key-unique lists with no key in common concatenate to a key-unique list. */
  lemma UniqueConcat(left: seq<Record>, right: seq<Record>)
    requires UniqueKeys(left) && UniqueKeys(right)
    requires forall r, q :: r in left && q in right ==> KeyOf(r) != KeyOf(q)
    ensures UniqueKeys(left + right)
  {
    var all := left + right;
    forall a, b | 0 <= a < b < |all| ensures KeyOf(all[a]) != KeyOf(all[b]) {
      if b < |left| {
        assert all[a] == left[a] && all[b] == left[b];
      } else if a < |left| {
        assert all[a] in left && all[b] in right;
      } else {
        assert all[a] == right[a - |left|] && all[b] == right[b - |left|];
      }
    }
  }

  /** The face loop never appends two records with the same key. */
  lemma NewFacesUnique(keys: set<Key>, publicId: string, url: string, encs: seq<Encoding>)
    ensures UniqueKeys(NewFaces(keys, publicId, url, encs))
  {
    NewFacesShape(keys, publicId, url, encs);
    var out := NewFaces(keys, publicId, url, encs);
    forall a, b | 0 <= a < b < |out| ensures KeyOf(out[a]) != KeyOf(out[b]) {
      assert IsNewFace(out[a], keys, publicId, url, encs) && IsNewFace(out[b], keys, publicId, url, encs);
    }
  }

  /** Within one run, appended keys are unique when the listing does not repeat a public id. */
  lemma {:induction false} AppendedUnique(keys: set<Key>, listing: seq<Resource>, extract: string -> Extraction)
    requires DistinctTargets(listing)
    ensures UniqueKeys(Appended(keys, listing, extract))
  {
    if listing != [] {
      var n := |listing| - 1;
      var prefix := listing[..n];
      assert DistinctTargets(prefix) by {
        forall a, b | 0 <= a < b < |prefix| ensures prefix[a] == listing[a] && prefix[b] == listing[b] { }
      }
      AppendedUnique(keys, prefix, extract);
      AppendedIds(keys, prefix, extract);
      AppendedLast(keys, listing, extract);
      var left := Appended(keys, prefix, extract);
      var right := ResourceRecords(keys, listing[n], extract);
      if right != [] {
        var (publicId, url) := Target(listing[n]).value;
        assert right == NewFaces(keys, publicId, url, extract(url).encodings);
        NewFacesUnique(keys, publicId, url, extract(url).encodings);
        LastIdIsNew(listing);
        UniqueConcat(left, right);
      } else {
        assert left + right == left;
      }
    }
  }

  /**
   * A merge keeps the list free of duplicate keys, provided the list was free
   * of them and the listing does not repeat a public id.
   */
  lemma MergeKeepsKeysUnique(existing: seq<Record>, listing: seq<Resource>, extract: string -> Extraction)
    requires UniqueKeys(existing)
    requires DistinctTargets(listing)
    ensures UniqueKeys(existing + Appended(KeySet(existing), listing, extract))
  {
    AppendedUnique(KeySet(existing), listing, extract);
    FreshKeysOnly(KeySet(existing), listing, extract);
    UniqueConcat(existing, Appended(KeySet(existing), listing, extract));
  }

  /**
   * The key set is read once, before the loop, so a listing that names the
   * same image twice gets that image's records appended twice, and as soon as
   * the image has a fresh face the merged records repeat a key.
   */
  lemma RepeatedImageDuplicatesKeys(keys: set<Key>, res: Resource, extract: string -> Extraction)
    ensures Appended(keys, [res, res], extract)
         == ResourceRecords(keys, res, extract) + ResourceRecords(keys, res, extract)
    ensures ResourceRecords(keys, res, extract) != [] ==> !UniqueKeys(Appended(keys, [res, res], extract))
  {
    var once := ResourceRecords(keys, res, extract);
    AppendedConcat(keys, [res], [res], extract);
    AppendedSingle(keys, res, extract);
    assert [res] + [res] == [res, res];
    if once != [] {
      var added := Appended(keys, [res, res], extract);
      assert added[0] == once[0] && added[|once|] == once[0];
    }
  }

  // ---------------------------------------------------------------------------
  // The merge loop and the whole build

  /**
   * The face loop for one image: appends, in detection order, the record of
   * every face whose key is not in `keys`.
   */
  method AppendFaces(updated: seq<Record>, keys: set<Key>, publicId: string, url: string, encs: seq<Encoding>)
    returns (result: seq<Record>, count: nat)
    ensures result == updated + NewFaces(keys, publicId, url, encs)
    ensures count == |result| - |updated|
  {
    result, count := updated, 0;
    for idx := 0 to |encs|
      invariant result == updated + NewFaces(keys, publicId, url, encs[..idx])
      invariant count == |result| - |updated|
    {
      assert encs[..idx + 1][..idx] == encs[..idx];
      var key := (Some(publicId), idx);
      if key !in keys {
        result := result + [FaceRecord(publicId, idx, url, encs[idx])];
        count := count + 1;
      }
    }
    assert encs[..|encs|] == encs;
  }

  /**
   * The merge loop: copies the existing list, then appends, image by image and
   * face by face, every record whose key was not among the existing keys.
   */
  method Merge(existing: seq<Record>, listing: seq<Resource>, extract: string -> Extraction)
    returns (updated: seq<Record>, added: nat)
    ensures updated == existing + Appended(KeySet(existing), listing, extract)
    ensures |updated| >= |existing| && updated[..|existing|] == existing
    ensures added == |updated| - |existing|
    ensures forall r :: r in updated[|existing|..] ==> KeyOf(r) !in KeySet(existing)
  {
    var keys := KeySet(existing);
    updated := existing;
    added := 0;
    for i := 0 to |listing|
      invariant updated == existing + Appended(keys, listing[..i], extract)
      invariant added == |updated| - |existing|
    {
      var res := listing[i];
      AppendedStep(keys, listing, i, extract);
      var publicId := res.publicId;
      var url := ResolveUrl(res);
      if Truthy(publicId) && Truthy(url) {
        var extraction := extract(url.value);
        if extraction.Faces? && extraction.encodings != [] {
          var count;
          updated, count := AppendFaces(updated, keys, publicId.value, url.value, extraction.encodings);
          added := added + count;
        } else {
          assert ResourceRecords(keys, res, extract) == [];
        }
      } else {
        assert ResourceRecords(keys, res, extract) == [];
      }
    }
    assert listing[..|listing|] == listing;
    FreshKeysOnly(keys, listing, extract);
    assert updated[|existing|..] == Appended(keys, listing, extract);
  }

  /** What one run of the builder did. */
  datatype BuildReport =
    | ListingFailed                   // the image listing raised: returns False, nothing changes
    | Built(updated: seq<Record>,     // the merged list (saved when `added > 0`)
            added: nat,               // how many records were appended
            saveAttempted: bool,      // the local cache was written
            uploadAttempted: bool)    // the cache was then uploaded to the cloud

  /**
   * `generate_encodings_for_event`: list the event's images, load the cached
   * list, merge, and, when anything was appended, save the cache and (if that
   * succeeded) upload it. `listing` is None when listing raised; `saveSucceeds`
   * is the outcome of writing the cache file.
   */
  method GenerateEncodings(listing: Option<seq<Resource>>, local: LocalFile,
                           extract: string -> Extraction, saveSucceeds: bool)
    returns (report: BuildReport)
    ensures listing.None? <==> report.ListingFailed?
    ensures listing.Some? ==>
      report.updated == LoadLocal(local) + Appended(KeySet(LoadLocal(local)), listing.value, extract) &&
      report.added == |Appended(KeySet(LoadLocal(local)), listing.value, extract)| &&
      report.saveAttempted == (report.added > 0) &&
      report.uploadAttempted == (report.added > 0 && saveSucceeds)
  {
    if listing.None? {
      return ListingFailed;
    }
    var existing := LoadLocal(local);
    var updated, added := Merge(existing, listing.value, extract);
    var saveAttempted := false;
    var uploadAttempted := false;
    if added > 0 {
      saveAttempted := true;
      if saveSucceeds {
        uploadAttempted := true;
      }
    }
    report := Built(updated, added, saveAttempted, uploadAttempted);
  }
}
