/**
 * The match engine: resolves a guest's selfie against an event's encodings
 * list and yields the URLs of the matching images, each once, in the order in
 * which matching records are first met.
 *
 * The face comparison (`compare_faces` with tolerance 0.55 over 128 floats)
 * is a parameter: for a stored encoding and the selfie encoding it reports a
 * match, no match, or an error, which the loop skips.
 */
module MatchEngine {
  import opened Wrappers
  import opened Records
  import opened EncodingStore
  import opened Seqs

  /** The outcome of comparing a stored encoding with the selfie encoding. */
  datatype Comparison = Matched | NotMatched | Failed

  /**
   * The record matches the selfie: it has an encoding (a missing one raises
   * and is skipped) and the comparison reports a match.
   */
  predicate IsMatch(r: Record, selfie: Encoding, compare: (Encoding, Encoding) -> Comparison) {
    r.encoding.Some? && compare(r.encoding.value, selfie) == Matched
  }

  /** The URLs of the matching records, one per record, in list order (repeats kept). */
  function MatchedUrls(records: seq<Record>, selfie: Encoding, compare: (Encoding, Encoding) -> Comparison)
    : (urls: seq<Option<string>>)
    ensures |urls| <= |records|
    ensures forall u :: u in urls <==>
              exists k :: 0 <= k < |records| && IsMatch(records[k], selfie, compare) && records[k].url == u
  {
    if records == [] then []
    else
      var n := |records| - 1;
      var rest := MatchedUrls(records[..n], selfie, compare);
      assert forall k :: 0 <= k < n ==> records[..n][k] == records[k];
      rest + (if IsMatch(records[n], selfie, compare) then [records[n].url] else [])
  }

  /** Taking one more record extends the URL list by that record's URL when it matches. */
  lemma MatchedUrlsStep(records: seq<Record>, i: nat, selfie: Encoding, compare: (Encoding, Encoding) -> Comparison)
    requires i < |records|
    ensures MatchedUrls(records[..i + 1], selfie, compare)
         == MatchedUrls(records[..i], selfie, compare)
            + (if IsMatch(records[i], selfie, compare) then [records[i].url] else [])
  {
    assert records[..i + 1][..i] == records[..i];
  }

  /**
   * The match loop: for every record in list order, compare; on a match, add
   * the record's URL unless it is already in the result.
   */
  method CollectMatches(records: seq<Record>, selfie: Encoding, compare: (Encoding, Encoding) -> Comparison)
    returns (matches: seq<Option<string>>)
    ensures matches == Distinct(MatchedUrls(records, selfie, compare))
    ensures NoDuplicates(matches)
    ensures forall u :: u in matches <==>
              exists k :: 0 <= k < |records| && IsMatch(records[k], selfie, compare) && records[k].url == u
    ensures forall a, b :: 0 <= a < b < |matches| ==>
              FirstIndex(MatchedUrls(records, selfie, compare), matches[a])
                < FirstIndex(MatchedUrls(records, selfie, compare), matches[b])
  {
    matches := [];
    for i := 0 to |records|
      invariant matches == Distinct(MatchedUrls(records[..i], selfie, compare))
    {
      var item := records[i];
      ghost var seen := MatchedUrls(records[..i], selfie, compare);
      MatchedUrlsStep(records, i, selfie, compare);
      if item.encoding.Some? {
        var url := item.url;
        var outcome := compare(item.encoding.value, selfie);
        if outcome == Matched {
          DistinctSnoc(seen, url);
          if url !in matches {
            matches := matches + [url];
          }
        } else {
          assert seen + [] == seen;
        }
      } else {
        assert seen + [] == seen;
      }
    }
    assert records[..|records|] == records;
    MatchResult(records, selfie, compare);
    MatchOrder(records, selfie, compare);
  }

  /**
   * The deduplicated match URLs contain no repeat and contain exactly the URLs
   * of the matching records.
   */
  lemma MatchResult(records: seq<Record>, selfie: Encoding, compare: (Encoding, Encoding) -> Comparison)
    ensures NoDuplicates(Distinct(MatchedUrls(records, selfie, compare)))
    ensures forall u :: u in Distinct(MatchedUrls(records, selfie, compare)) <==>
              exists k :: 0 <= k < |records| && IsMatch(records[k], selfie, compare) && records[k].url == u
  {
    var urls := MatchedUrls(records, selfie, compare);
    var matches := Distinct(urls);
    forall u ensures u in matches <==> u in urls {
      if u in matches {
        var k :| 0 <= k < |matches| && matches[k] == u;
      }
      if u in urls {
        var k :| 0 <= k < |urls| && urls[k] == u;
      }
    }
  }

  /** The deduplicated match URLs are listed in the order of their first match. */
  lemma MatchOrder(records: seq<Record>, selfie: Encoding, compare: (Encoding, Encoding) -> Comparison)
    ensures forall a, b :: 0 <= a < b < |Distinct(MatchedUrls(records, selfie, compare))| ==>
              FirstIndex(MatchedUrls(records, selfie, compare), Distinct(MatchedUrls(records, selfie, compare))[a])
                < FirstIndex(MatchedUrls(records, selfie, compare), Distinct(MatchedUrls(records, selfie, compare))[b])
  {
    DistinctFirstSeen(MatchedUrls(records, selfie, compare));
  }

  /**
   * `upload_selfie` after the selfie is saved: no face in the selfie (or an
   * error reading it) gives no matches; otherwise the first selfie face is
   * compared against the available encodings (the local list, or else the
   * cloud copy), and no encodings give no matches. `selfieFaces` is None when
   * reading the selfie raised; `download` is the cloud copy as fetched.
   */
  method UploadSelfie(selfieFaces: Option<seq<Encoding>>, local: LocalFile, download: Option<seq<Record>>,
                      compare: (Encoding, Encoding) -> Comparison)
    returns (matches: seq<Option<string>>)
    ensures selfieFaces.None? || selfieFaces.value == [] ==> matches == []
    ensures AvailableEncodings(local, download) == [] ==> matches == []
    ensures selfieFaces.Some? && selfieFaces.value != [] ==>
              matches == Distinct(MatchedUrls(AvailableEncodings(local, download), selfieFaces.value[0], compare))
  {
    var encs := if selfieFaces.Some? then selfieFaces.value else [];
    if encs == [] {
      return [];
    }
    var selfie := encs[0];
    var records := LoadLocal(local);
    if records == [] {
      records := download.GetOr([]);
      if records == [] {
        return [];
      }
    }
    matches := CollectMatches(records, selfie, compare);
  }

  /**
   * A picture with two faces of which only the first matches, followed by a
   * picture whose face matches, gives each picture's URL once, in that order.
   */
  lemma TwoPicturesMatchInOrder(e1: Encoding, e2: Encoding, e3: Encoding, selfie: Encoding,
                                compare: (Encoding, Encoding) -> Comparison)
    requires compare(e1, selfie) == Matched && compare(e2, selfie) == NotMatched && compare(e3, selfie) == Matched
    ensures Distinct(MatchedUrls([FaceRecord("A", 0, "urlA", e1), FaceRecord("A", 1, "urlA", e2),
                                  FaceRecord("B", 0, "urlB", e3)], selfie, compare))
         == [Some("urlA"), Some("urlB")]
  {
    var records := [FaceRecord("A", 0, "urlA", e1), FaceRecord("A", 1, "urlA", e2), FaceRecord("B", 0, "urlB", e3)];
    TwoPicturesUrls(records, selfie, compare);
    DistinctSnoc([], Some("urlA"));
    DistinctSnoc([Some("urlA")], Some("urlB"));
    assert [] + [Some("urlA")] == [Some("urlA")];
  }

  /** The match URLs of three records of which the first and the last match. */
  lemma TwoPicturesUrls(records: seq<Record>, selfie: Encoding, compare: (Encoding, Encoding) -> Comparison)
    requires |records| == 3
    requires IsMatch(records[0], selfie, compare) && !IsMatch(records[1], selfie, compare)
    requires IsMatch(records[2], selfie, compare)
    ensures MatchedUrls(records, selfie, compare) == [records[0].url, records[2].url]
  {
    assert records[..0] == [];
    MatchedUrlsStep(records, 0, selfie, compare);
    MatchedUrlsStep(records, 1, selfie, compare);
    MatchedUrlsStep(records, 2, selfie, compare);
    assert records[..3] == records;
  }
}
