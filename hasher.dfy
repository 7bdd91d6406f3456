/** `hasher.py`: the back-fill of perceptual hashes for clips that have a
    thumbnail. `calculate_phash` and the file system are oracles. */
module Hasher {
  import opened Common
  import opened Store
  import opened Schema

  /** What `calculate_phash` does for one thumbnail: return a string (possibly
      empty) or raise `HasherError`, `FileNotFoundError` or anything else. */
  datatype HashResult = Hashed(hex: string) | HashRaised

  /** The outside world of one run: whether a stored thumbnail path names an
      existing file, what hashing it gives, and whether the UPDATE for a clip id
      raises `sqlite3.Error`. */
  datatype HashEnv = HashEnv(
    thumbExists: string -> bool,
    phash: string -> HashResult,
    updateFails: nat -> bool)

  /** What happens to one selected row. */
  datatype RowOutcome =
    | MissingThumbnail
    | HashFailed
    | EmptyHash
    | UpdateFailed
    | Stored(hex: string)

  /** The candidate rows of the SELECT at lines 84-95, before LIMIT: id and
      `thumbnail_path` of every clip with a thumbnail and, unless forced, no
      fingerprint, in the order SQLite returns them. */
  function Candidates(order: seq<nat>, clips: map<nat, Clip>, force: bool): (r: seq<(nat, string)>)
    ensures |r| <= |order|
    ensures forall k :: 0 <= k < |r| ==>
      r[k].0 in order && Wanted(r[k].0, clips, force) && clips[r[k].0].thumbnailPath == Some(r[k].1)
  {
    if order == [] then []
    else
      var rest := Candidates(order[1..], clips, force);
      assert forall x :: x in order[1..] ==> x in order;
      if Wanted(order[0], clips, force) then [(order[0], clips[order[0]].thumbnailPath.value)] + rest
      else rest
  }

  /** The WHERE clause of the SELECT. */
  predicate Wanted(id: nat, clips: map<nat, Clip>, force: bool)
  {
    id in clips && clips[id].thumbnailPath.Some? && (force || clips[id].phash.None?)
  }

  /** Every row the WHERE clause accepts is selected. */
  lemma {:induction false} CandidatesComplete(order: seq<nat>, clips: map<nat, Clip>, force: bool, id: nat)
    requires id in order && Wanted(id, clips, force)
    ensures exists k :: 0 <= k < |Candidates(order, clips, force)| && Candidates(order, clips, force)[k].0 == id
  {
    var r := Candidates(order, clips, force);
    var rest := Candidates(order[1..], clips, force);
    if order[0] == id {
      assert r[0].0 == id;
    } else {
      CandidatesComplete(order[1..], clips, force, id);
      var k :| 0 <= k < |rest| && rest[k].0 == id;
      var h := |r| - |rest|;
      assert r[h + k].0 == id;
    }
  }

  /** No clip id occurs twice among `rows`. */
  predicate DistinctIds(rows: seq<(nat, string)>)
  {
    forall i, j :: 0 <= i < j < |rows| ==> rows[i].0 != rows[j].0
  }

  /** A listing with distinct ids gives candidates with distinct ids. */
  lemma {:induction false} CandidatesDistinct(order: seq<nat>, clips: map<nat, Clip>, force: bool)
    requires forall i, j :: 0 <= i < j < |order| ==> order[i] != order[j]
    ensures DistinctIds(Candidates(order, clips, force))
  {
    if order != [] {
      CandidatesDistinct(order[1..], clips, force);
      var r := Candidates(order, clips, force);
      var rest := Candidates(order[1..], clips, force);
      if Wanted(order[0], clips, force) {
        assert r == [(order[0], clips[order[0]].thumbnailPath.value)] + rest;
        forall i, j | 0 <= i < j < |r|
          ensures r[i].0 != r[j].0
        {
          if i == 0 {
            assert r[0].0 == order[0] && r[j] == rest[j - 1];
            var x := rest[j - 1].0;
            assert x in order[1..];
            var m :| 0 <= m < |order[1..]| && order[1..][m] == x;
            assert order[m + 1] == x;
          } else {
            assert r[i] == rest[i - 1] && r[j] == rest[j - 1];
          }
        }
      } else {
        assert r == rest;
      }
    }
  }

  /** The `LIMIT` clause, added only for a positive limit. */
  function Selected(cands: seq<(nat, string)>, limit: Option<int>): (r: seq<(nat, string)>)
    ensures |r| <= |cands| && r == cands[..|r|]
    ensures limit.Some? && limit.value > 0 ==> |r| == if limit.value < |cands| then limit.value else |cands|
    ensures limit.None? || limit.value <= 0 ==> r == cands
  {
    if limit.Some? && 0 < limit.value < |cands| then cands[..limit.value] else cands
  }

  /** The rows the loop reaches before a database error while fetching row
      `stopAt` ends it (lines 142-143). */
  function Reached(rows: seq<(nat, string)>, stopAt: Option<nat>): (r: seq<(nat, string)>)
    ensures |r| <= |rows| && r == rows[..|r|]
    ensures stopAt.None? ==> r == rows
  {
    if stopAt.Some? && stopAt.value < |rows| then rows[..stopAt.value] else rows
  }

  /** Lines 99-137 for one row: a missing thumbnail, a raised hash, an empty hash
      and a failed UPDATE each count as an error; otherwise the hash is stored. */
  function Outcome(id: nat, thumb: string, env: HashEnv): RowOutcome
  {
    if !env.thumbExists(thumb) then MissingThumbnail
    else match env.phash(thumb)
      case HashRaised => HashFailed
      case Hashed(h) =>
        if h == "" then EmptyHash
        else if env.updateFails(id) then UpdateFailed
        else Stored(h)
  }

  /** The `clips` table after the loop has handled `rows`: a stored hash replaces
      the `phash` of its row, nothing else is written. */
  function Backfill(clips: map<nat, Clip>, rows: seq<(nat, string)>, env: HashEnv): (r: map<nat, Clip>)
    ensures r.Keys == clips.Keys
  {
    if rows == [] then clips
    else
      var prev := Backfill(clips, rows[..|rows| - 1], env);
      var (id, thumb) := rows[|rows| - 1];
      match Outcome(id, thumb, env)
      case Stored(h) => if id in prev then prev[id := prev[id].(phash := Some(h))] else prev
      case _ => prev
  }

  /** `success_count` after `rows`. */
  function Successes(rows: seq<(nat, string)>, env: HashEnv): (n: nat)
    ensures n <= |rows|
  {
    if rows == [] then 0
    else Successes(rows[..|rows| - 1], env) + (if Outcome(rows[|rows| - 1].0, rows[|rows| - 1].1, env).Stored? then 1 else 0)
  }

  /** The back-fill keeps every row and every column but `phash`; a `phash` that
      changes was stored for a row of the selection. */
  lemma {:induction false} BackfillOnlyWritesHashes(clips: map<nat, Clip>, rows: seq<(nat, string)>, env: HashEnv)
    ensures var r := Backfill(clips, rows, env);
      && r.Keys == clips.Keys
      && (forall id :: id in clips ==> r[id] == clips[id].(phash := r[id].phash))
      && (forall id :: id in clips && r[id].phash != clips[id].phash ==>
            exists k :: 0 <= k < |rows| && rows[k].0 == id && Outcome(id, rows[k].1, env).Stored?
                        && r[id].phash == Some(Outcome(id, rows[k].1, env).hex))
  {
    if rows != [] {
      var init := rows[..|rows| - 1];
      BackfillOnlyWritesHashes(clips, init, env);
      var prev := Backfill(clips, init, env);
      var r := Backfill(clips, rows, env);
      forall id | id in clips && r[id].phash != clips[id].phash
        ensures exists k :: 0 <= k < |rows| && rows[k].0 == id && Outcome(id, rows[k].1, env).Stored?
                            && r[id].phash == Some(Outcome(id, rows[k].1, env).hex)
      {
        if r[id].phash != prev[id].phash {
          assert rows[|rows| - 1].0 == id;
        } else {
          var k :| 0 <= k < |init| && init[k].0 == id && Outcome(id, init[k].1, env).Stored?
                   && prev[id].phash == Some(Outcome(id, init[k].1, env).hex);
          assert rows[k] == init[k];
        }
      }
    }
  }

  /** The back-fill keeps the UNIQUE path index and the scan bound: it writes
      neither `path` nor `scan_id`. */
  lemma BackfillKeepsRowsValid(clips: map<nat, Clip>, rows: seq<(nat, string)>, env: HashEnv,
                               pathIndex: map<string, nat>, nextClipId: nat, nextScanId: nat)
    requires RowsValid(clips, pathIndex, nextClipId, nextScanId)
    ensures RowsValid(Backfill(clips, rows, env), pathIndex, nextClipId, nextScanId)
  {
    BackfillOnlyWritesHashes(clips, rows, env);
    SamePathsKeepRowsValid(clips, Backfill(clips, rows, env), pathIndex, nextClipId, nextScanId);
  }

  /** A row whose hash was stored ends with that hash, when the ids of `rows` are
      distinct (they are, each clip being selected once). */
  lemma {:induction false} BackfillStores(clips: map<nat, Clip>, rows: seq<(nat, string)>, env: HashEnv, k: nat)
    requires k < |rows| && rows[k].0 in clips
    requires DistinctIds(rows)
    requires Outcome(rows[k].0, rows[k].1, env).Stored?
    ensures Backfill(clips, rows, env)[rows[k].0].phash == Some(Outcome(rows[k].0, rows[k].1, env).hex)
  {
    BackfillOnlyWritesHashes(clips, rows, env);
    var init := rows[..|rows| - 1];
    if k < |rows| - 1 {
      BackfillStores(clips, init, env, k);
      BackfillOnlyWritesHashes(clips, init, env);
      assert rows[|rows| - 1].0 != rows[k].0;
    }
  }

  /** Without `force_regenerate` a clip that already has a fingerprint is never
      written. */
  lemma UnforcedKeepsExistingHashes(order: seq<nat>, clips: map<nat, Clip>, limit: Option<int>,
                                    stopAt: Option<nat>, env: HashEnv)
    ensures var rows := Reached(Selected(Candidates(order, clips, false), limit), stopAt);
      var r := Backfill(clips, rows, env);
      forall id :: id in clips && clips[id].phash.Some? ==> r[id] == clips[id]
  {
    var cands := Candidates(order, clips, false);
    var rows := Reached(Selected(cands, limit), stopAt);
    BackfillOnlyWritesHashes(clips, rows, env);
    forall k | 0 <= k < |rows|
      ensures clips[rows[k].0].phash.None?
    {
      assert rows[k] == cands[k];
    }
  }

  /** With distinct ids in the listing, every row reached whose hash was
      computed and written holds that hash afterwards. */
  lemma RunStoresHashes(order: seq<nat>, clips: map<nat, Clip>, force: bool, limit: Option<int>,
                        stopAt: Option<nat>, env: HashEnv)
    requires forall i, j :: 0 <= i < j < |order| ==> order[i] != order[j]
    ensures var rows := Reached(Selected(Candidates(order, clips, force), limit), stopAt);
      var r := Backfill(clips, rows, env);
      forall k :: 0 <= k < |rows| && Outcome(rows[k].0, rows[k].1, env).Stored? ==>
        r[rows[k].0].phash == Some(Outcome(rows[k].0, rows[k].1, env).hex)
  {
    var cands := Candidates(order, clips, force);
    var rows := Reached(Selected(cands, limit), stopAt);
    CandidatesDistinct(order, clips, force);
    assert forall k :: 0 <= k < |rows| ==> rows[k] == cands[k];
    forall k | 0 <= k < |rows| && Outcome(rows[k].0, rows[k].1, env).Stored?
      ensures Backfill(clips, rows, env)[rows[k].0].phash == Some(Outcome(rows[k].0, rows[k].1, env).hex)
    {
      BackfillStores(clips, rows, env, k);
    }
  }

  /** The loop of lines 97-140 over the selected rows, ended early by a
      database error while fetching row `stopAt`. */
  method HashRows(db: Catalog, rows: seq<(nat, string)>, env: HashEnv, stopAt: Option<nat>)
    returns (success: nat, errors: nat)
    modifies db`clips
    ensures var reached := Reached(rows, stopAt);
      && db.clips == Backfill(old(db.clips), reached, env)
      && success == Successes(reached, env)
      && success + errors == |reached|
  {
    success, errors := 0, 0;
    var i := 0;
    while i < |rows| && !(stopAt.Some? && stopAt.value == i)
      invariant 0 <= i <= |rows|
      invariant stopAt.Some? ==> i <= stopAt.value
      invariant db.clips == Backfill(old(db.clips), rows[..i], env)
      invariant success == Successes(rows[..i], env) && success + errors == i
    {
      assert rows[..i + 1][..i] == rows[..i];
      var id := rows[i].0;
      var thumb := rows[i].1;
      if !env.thumbExists(thumb) {
        errors := errors + 1;
      } else {
        var h := env.phash(thumb);
        if h.HashRaised? || h.hex == "" || env.updateFails(id) {
          errors := errors + 1;
        } else {
          if id in db.clips {
            db.clips := db.clips[id := db.clips[id].(phash := Some(h.hex))];
          }
          success := success + 1;
        }
      }
      i := i + 1;
    }
    assert Reached(rows, stopAt) == rows[..i];
  }

  /** The selection and the loop of `process_hashes` on an open connection. The
      back-fill writes only `phash`, so the catalog stays valid. */
  method BackfillSelected(db: Catalog, order: seq<nat>, limit: Option<int>, force: bool,
                          env: HashEnv, stopAt: Option<nat>)
    returns (success: nat, errors: nat)
    requires db.Valid()
    modifies db`clips
    ensures db.Valid()
    ensures var rows := Reached(Selected(Candidates(order, old(db.clips), force), limit), stopAt);
      && db.clips == Backfill(old(db.clips), rows, env)
      && success == Successes(rows, env)
      && success + errors == |rows|
  {
    var rows := Selected(Candidates(order, db.clips, force), limit);
    success, errors := HashRows(db, rows, env, stopAt);
    BackfillKeepsRowsValid(old(db.clips), Reached(rows, stopAt), env, db.pathIndex, db.nextClipId, db.nextScanId);
  }

  /** `process_hashes`: open the connection, select the rows and back-fill them;
      the two counts returned add up to the number of rows reached. */
  method ProcessHashes(schema: Database, db: Catalog, order: seq<nat>, limit: Option<int>, force: bool,
                       env: HashEnv, stopAt: Option<nat>)
    returns (success: nat, errors: nat)
    requires IsListing(order, db.clips.Keys) && db.Valid()
    modifies schema, db`clips
    ensures db.Valid()
    ensures var rows := Reached(Selected(Candidates(order, old(db.clips), force), limit), stopAt);
      && db.clips == Backfill(old(db.clips), rows, env)
      && success == Successes(rows, env)
      && success + errors == |rows|
    ensures schema.tables == Connected(old(schema.tables)) && schema.indexes == AfterCreateIndexes(old(schema.indexes))
    ensures schema.commits == old(schema.commits) + ConnectCommits(old(schema.tables))
  {
    schema.Connect();
    success, errors := BackfillSelected(db, order, limit, force, env, stopAt);
  }
}
