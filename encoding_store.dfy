/**
 * Where an event's encodings list lives and how it is loaded: a local JSON
 * cache file, with the cloud copy as a fallback when the cache is empty.
 * File and network access are inputs: the state of the local file, and the
 * outcome of the cloud download.
 */
module EncodingStore {
  import opened Wrappers
  import opened Records

  /** Directory holding one cache file per event. */
  const EncodingsDir: string := "encodings"

  /**
   * `os.path.join(EncodingsDir, event + ".json")` with POSIX semantics: a second
   * component that starts with '/' replaces the directory.
   */
  function LocalEncodingPath(event: string): (p: string)
    ensures |p| >= |event| + 5 && p[|p| - 5..] == ".json" && p[|p| - 5 - |event|..|p| - 5] == event
    ensures |event| > 0 && event[0] == '/' ==> |p| == |event| + 5
    ensures (|event| == 0 || event[0] != '/') ==>
              |p| == |EncodingsDir| + |event| + 6 && p[..|EncodingsDir| + 1] == EncodingsDir + "/"
  {
    // event + ".json" starts with '/' exactly when the event does
    if |event| > 0 && event[0] == '/' then event + ".json" else EncodingsDir + "/" + event + ".json"
  }

  /** Distinct events never share a cache file. */
  lemma LocalEncodingPathInjective(e1: string, e2: string)
    ensures e1 != e2 ==> LocalEncodingPath(e1) != LocalEncodingPath(e2)
  {
  }

  /** The local cache file as the loader finds it. */
  datatype LocalFile =
    | Missing                          // no file at the cache path
    | Unreadable                       // opening or JSON parsing raised
    | Stored(records: seq<Record>)     // a parsed encodings list

  /** `load_local_encodings`: the cached list, or the empty list on a missing or unreadable file. */
  function LoadLocal(f: LocalFile): (records: seq<Record>)
    ensures f.Stored? ==> records == f.records
    ensures !f.Stored? ==> records == []
  {
    match f
    case Stored(rs) => rs
    case _ => []
  }

  /**
   * The encodings the matcher compares against: the local list when it is
   * non-empty; otherwise the downloaded cloud copy (`download` is None when
   * there is no cloud resource, the download is not 200, or it raised);
   * otherwise the empty list.
   */
  function AvailableEncodings(local: LocalFile, download: Option<seq<Record>>): (records: seq<Record>)
    ensures LoadLocal(local) != [] ==> records == LoadLocal(local)
    ensures records == [] <==> LoadLocal(local) == [] && (download.None? || download.value == [])
    ensures records != LoadLocal(local) ==> LoadLocal(local) == [] && download == Some(records)
  {
    var cached := LoadLocal(local);
    if cached != [] then cached else download.GetOr([])
  }
}
