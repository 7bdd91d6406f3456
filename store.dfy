/** The catalog database as the core scripts see it: the `clips`, `scans`, `tags`
    and `clip_tags` tables, with the uniqueness constraints of the schema built into
    the representation. */
module Store {
  import opened Common

  /** One row of `clips`. Metadata columns are nullable because the probe may
      report nothing; `scanId`, `needsReview` and `duplicateOf` are the columns the
      scanner and the duplicate pass write. */
  datatype Clip = Clip(
    path: string,
    filename: string,
    duration: Option<real>,
    width: Option<int>,
    height: Option<int>,
    size: Option<int>,
    codecName: Option<string>,
    thumbnailPath: Option<string>,
    phash: Option<string>,
    starred: bool,
    tags: Option<string>,
    scanId: Option<nat>,
    needsReview: bool,
    duplicateOf: Option<nat>)

  /** `order` lists every id of `ids` exactly once: the row order of a SELECT
      without ORDER BY, which SQLite does not specify. */
  ghost predicate IsListing(order: seq<nat>, ids: set<nat>)
  {
    && (forall i, j :: 0 <= i < j < |order| ==> order[i] != order[j])
    && (forall x :: x in order <==> x in ids)
  }

  /** `pathIndex` is the UNIQUE index of `clips` on `path`: it maps each path to the
      one row holding it, and every row id lies below the AUTOINCREMENT counter. */
  ghost predicate Indexed(clips: map<nat, Clip>, pathIndex: map<string, nat>, nextClipId: nat)
  {
    && (forall p :: p in pathIndex ==> pathIndex[p] in clips && clips[pathIndex[p]].path == p)
    && (forall id :: id in clips ==> clips[id].path in pathIndex && pathIndex[clips[id].path] == id)
    && (forall id :: id in clips ==> id < nextClipId)
  }

  /** The rows are indexed by path, and every `scan_id` names a scan already made. */
  ghost predicate RowsValid(clips: map<nat, Clip>, pathIndex: map<string, nat>, nextClipId: nat, nextScanId: nat)
  {
    && Indexed(clips, pathIndex, nextClipId)
    && (forall id :: id in clips && clips[id].scanId.Some? ==> clips[id].scanId.value < nextScanId)
  }

  /** Every scan id lies below the AUTOINCREMENT counter of `scans`. */
  ghost predicate ScansValid(scans: map<nat, string>, nextScanId: nat)
  {
    forall s :: s in scans ==> s < nextScanId
  }

  /** Tag ids lie below the counter of `tags` and no two names share one. */
  ghost predicate TagsValid(tagIds: map<string, nat>, nextTagId: nat)
  {
    && (forall t :: t in tagIds ==> tagIds[t] < nextTagId)
    && (forall t, u :: t in tagIds && u in tagIds && t != u ==> tagIds[t] != tagIds[u])
  }

  class Catalog {
    /** `clips`, keyed by its INTEGER PRIMARY KEY id. */
    var clips: map<nat, Clip>
    /** The UNIQUE index on `clips.path`. */
    var pathIndex: map<string, nat>
    /** AUTOINCREMENT counter of `clips`. */
    var nextClipId: nat
    /** `scans`: scan id to the scanned folder. */
    var scans: map<nat, string>
    var nextScanId: nat
    /** `tags`: the UNIQUE name to its id. */
    var tagIds: map<string, nat>
    var nextTagId: nat
    /** `clip_tags`, whose primary key is the whole (clip_id, tag_id) pair. */
    var clipTags: set<(nat, nat)>

    ghost predicate Valid()
      reads this
    {
      && RowsValid(clips, pathIndex, nextClipId, nextScanId)
      && ScansValid(scans, nextScanId)
      && TagsValid(tagIds, nextTagId)
    }

    /** A freshly created, empty database file. */
    constructor ()
      ensures Valid()
      ensures clips == map[] && pathIndex == map[] && scans == map[]
      ensures tagIds == map[] && clipTags == {}
    {
      clips, pathIndex, nextClipId := map[], map[], 1;
      scans, nextScanId := map[], 1;
      tagIds, nextTagId, clipTags := map[], 1, {};
    }
  }

  /** `clips.path NOT NULL UNIQUE`: no two rows of a valid catalog share a path. */
  lemma PathsUnique(db: Catalog, a: nat, b: nat)
    requires db.Valid()
    requires a in db.clips && b in db.clips && db.clips[a].path == db.clips[b].path
    ensures a == b
  {
    assert db.pathIndex[db.clips[a].path] == a;
    assert db.pathIndex[db.clips[b].path] == b;
  }

  /** A write that keeps every row and its `path` and `scan_id` columns keeps the
      rows valid: the UNIQUE index and the scan bound read nothing else. */
  lemma SamePathsKeepRowsValid(clips: map<nat, Clip>, clips': map<nat, Clip>, pathIndex: map<string, nat>,
                               nextClipId: nat, nextScanId: nat)
    requires RowsValid(clips, pathIndex, nextClipId, nextScanId)
    requires clips'.Keys == clips.Keys
    requires forall id :: id in clips ==> clips'[id].path == clips[id].path && clips'[id].scanId == clips[id].scanId
    ensures RowsValid(clips', pathIndex, nextClipId, nextScanId)
  {
  }
}
