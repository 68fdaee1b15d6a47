/**
 * The data model of the face-encoding store: one record per detected face,
 * the image listing entries the corpus builder scans, and the duplicate key.
 *
 * Records are read back from JSON, so every field may be absent; the model
 * keeps that absence explicit instead of assuming well-formed input.
 */
module Records {
  import opened Wrappers

  /** A face embedding: an opaque vector of floats produced by the extractor. */
  type Encoding = seq<real>

  /** One entry of the per-event encodings list (`public_id`, `face_index`, `url`, `encoding`). */
  datatype Record = Record(
    publicId: Option<string>,
    faceIndex: Option<int>,
    url: Option<string>,
    encoding: Option<Encoding>)

  /** The duplicate-suppression key: the public id and the face index. */
  type Key = (Option<string>, int)

  /** The key of a record; a missing face index reads as 0. */
  function KeyOf(r: Record): (k: Key)
    ensures k.0 == r.publicId
    ensures r.faceIndex.None? ==> k.1 == 0
    ensures r.faceIndex.Some? ==> k.1 == r.faceIndex.value
  {
    (r.publicId, r.faceIndex.GetOr(0))
  }

  /** The set of keys present in a list of records. */
  function KeySet(records: seq<Record>): (keys: set<Key>)
    ensures forall r :: r in records ==> KeyOf(r) in keys
    ensures forall k :: k in keys ==> exists r :: r in records && KeyOf(r) == k
  {
    set r | r in records :: KeyOf(r)
  }

  lemma KeySetConcat(a: seq<Record>, b: seq<Record>)
    ensures KeySet(a + b) == KeySet(a) + KeySet(b)
  {
    assert forall r :: r in a + b <==> r in a || r in b;
  }

  /** A list has no keys exactly when it is empty. */
  lemma KeySetEmpty(records: seq<Record>)
    ensures KeySet(records) == {} <==> records == []
  {
    if records != [] {
      assert KeyOf(records[0]) in KeySet(records);
    }
  }

  /** The record written for face number `index` of image `publicId`. */
  function FaceRecord(publicId: string, index: nat, url: string, enc: Encoding): (r: Record)
    ensures KeyOf(r) == (Some(publicId), index)
    ensures r.faceIndex == Some(index)
    ensures r.url == Some(url) && r.encoding == Some(enc)
  {
    Record(Some(publicId), Some(index), Some(url), Some(enc))
  }

  /** Python truthiness of an optional string: present and non-empty. */
  predicate Truthy(s: Option<string>) {
    s.Some? && s.value != ""
  }

  /** One image of the event's listing: its public id and its two URL fields. */
  datatype Resource = Resource(publicId: Option<string>, secureUrl: Option<string>, url: Option<string>)

  /** The URL an image is fetched from: the secure URL when it is truthy, else the plain one. */
  function ResolveUrl(res: Resource): (u: Option<string>)
    ensures Truthy(u) <==> Truthy(res.secureUrl) || Truthy(res.url)
    ensures Truthy(res.secureUrl) ==> u == res.secureUrl
    ensures !Truthy(res.secureUrl) ==> u == res.url
  {
    if Truthy(res.secureUrl) then res.secureUrl else res.url
  }

  /**
   * The public id and URL of an image the builder processes, or None when
   * either is missing or empty and the image is skipped.
   */
  function Target(res: Resource): (t: Option<(string, string)>)
    ensures t.Some? <==> Truthy(res.publicId) && Truthy(ResolveUrl(res))
    ensures t.Some? ==> t.value.0 != "" && t.value.1 != ""
    ensures t.Some? ==> Some(t.value.0) == res.publicId && Some(t.value.1) == ResolveUrl(res)
  {
    var u := ResolveUrl(res);
    if Truthy(res.publicId) && Truthy(u) then Some((res.publicId.value, u.value)) else None
  }

  /** No two records share a key. */
  predicate UniqueKeys(records: seq<Record>) {
    forall a, b :: 0 <= a < b < |records| ==> KeyOf(records[a]) != KeyOf(records[b])
  }
}
