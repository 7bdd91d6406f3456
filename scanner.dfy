/** `scanner.py`: the directory walk that picks out video files, and the ingest
    pass that probes each one, inserts or refreshes its row, renders a thumbnail,
    reports progress and finally drops every row the scan did not stamp. */
module Scanner {
  import opened Common
  import opened Store
  import opened Schema

  // ---------------------------------------------------------------- walking

  /** One item of `start_path.rglob("*")`: its path, whether it is a regular file,
      and the absolute path it resolves to. */
  datatype Entry = Entry(path: string, isFile: bool, resolved: string)

  /** `DEFAULT_VIDEO_EXTENSIONS`. */
  const DefaultExtensions: set<string> := {".mov", ".mp4", ".avi", ".mkv"}

  /** Index of the last '.' in `s`, or -1. */
  function LastDot(s: string): (r: int)
    ensures -1 <= r < |s|
    ensures r >= 0 ==> s[r] == '.'
    ensures forall k :: r < k < |s| ==> s[k] != '.'
  {
    if |s| == 0 then -1
    else if s[|s| - 1] == '.' then |s| - 1
    else LastDot(s[..|s| - 1])
  }

  /** pathlib's `suffix` of a final path component: everything from its last dot,
      unless that dot starts the name or ends it. */
  function Suffix(name: string): (r: string)
    ensures r == [] || (|r| >= 2 && |r| < |name| && r == name[|name| - |r|..] && r[0] == '.' && '.' !in r[1..])
    ensures r == [] <==> LastDot(name) <= 0 || LastDot(name) == |name| - 1
  {
    var i := LastDot(name);
    if 0 < i < |name| - 1 then
      assert '.' !in name[i + 1..] by {
        var rest := name[i + 1..];
        forall j | 0 <= j < |rest| ensures rest[j] != '.' {
          assert rest[j] == name[i + 1 + j];
        }
      }
      assert name[i..][1..] == name[i + 1..];
      name[i..]
    else
      []
  }

  /** The test of `_scan_directory_internal`: a regular file whose lower-cased
      suffix is one of `extensions`. */
  predicate IsVideo(e: Entry, extensions: set<string>)
  {
    e.isFile && Lower(Suffix(BaseName(e.path))) in extensions
  }

  /** `_scan_directory_internal`: the resolved paths of the video files among the
      walked entries, in walk order. */
  function VideoFiles(entries: seq<Entry>, extensions: set<string>): (r: seq<string>)
    ensures |r| <= |entries|
  {
    if entries == [] then []
    else (if IsVideo(entries[0], extensions) then [entries[0].resolved] else []) + VideoFiles(entries[1..], extensions)
  }

  /** Some element of `s` passes `f`. */
  ghost predicate AnyOf<T>(s: seq<T>, f: T -> bool)
  {
    exists i :: 0 <= i < |s| && f(s[i])
  }

  lemma AnyOfCons<T>(s: seq<T>, f: T -> bool)
    requires s != []
    ensures AnyOf(s, f) <==> f(s[0]) || AnyOf(s[1..], f)
  {
    if AnyOf(s[1..], f) {
      var i :| 0 <= i < |s| - 1 && f(s[1..][i]);
      assert s[i + 1] == s[1..][i];
    }
    if AnyOf(s, f) {
      var i :| 0 <= i < |s| && f(s[i]);
      if i > 0 {
        assert s[1..][i - 1] == s[i];
      }
    }
  }

  /** Some walked entry is a video file that resolves to `p`. */
  ghost predicate Yields(entries: seq<Entry>, extensions: set<string>, p: string)
  {
    AnyOf(entries, e => IsVideo(e, extensions) && e.resolved == p)
  }

  /** The walk yields a path exactly when some walked entry is a video file
      resolving to it: nothing else reaches the catalog. */
  lemma {:induction false} VideoFilesExact(entries: seq<Entry>, extensions: set<string>, p: string)
    ensures p in VideoFiles(entries, extensions) <==> Yields(entries, extensions, p)
  {
    if entries != [] {
      var rest := entries[1..];
      VideoFilesExact(rest, extensions, p);
      AnyOfCons(entries, e => IsVideo(e, extensions) && e.resolved == p);
      var head := if IsVideo(entries[0], extensions) then [entries[0].resolved] else [];
      assert VideoFiles(entries, extensions) == head + VideoFiles(rest, extensions);
      assert p in head + VideoFiles(rest, extensions) <==> p in head || p in VideoFiles(rest, extensions);
    }
  }

  // ---------------------------------------------------------------- oracles

  /** What `get_video_metadata` reports; any key may be missing. */
  datatype Meta = Meta(
    duration: Option<real>,
    width: Option<int>,
    height: Option<int>,
    size: Option<int>,
    codecName: Option<string>)

  /** The outcome of probing one file: metadata, an `FFprobeError`, any other
      exception, or the `FileNotFoundError` raised when ffprobe itself is missing. */
  datatype ProbeResult =
    | Probed(meta: Meta)
    | ProbeFailed(message: string)
    | ProbeCrashed(message: string)
    | ToolMissing(message: string)

  /** The outcome of `generate_thumbnail`: the resolved path of the written JPEG,
      a falsy return, or an exception. */
  datatype ThumbResult = ThumbWritten(absPath: string) | NoThumb | ThumbFailed

  /** The fixed inputs of one scan: the force flag, the new scan id, the number of
      video files, the two external tools and the working directory. */
  datatype Run = Run(
    force: bool,
    scanId: nat,
    total: nat,
    probe: string -> ProbeResult,
    thumbnail: (string, real, nat) -> ThumbResult,
    cwd: string)

  // ---------------------------------------------------------------- progress

  /** The `status` field of `scan_progress.json`. */
  datatype Status = Scanning | Done | Failed

  /** One write of `scan_progress.json`. */
  datatype Progress = Progress(total: nat, done: nat, status: Status, error: Option<string>)

  /** The progress written after a file has been handled. */
  function Tick(total: nat, done: nat): Progress
  {
    Progress(total, done, Scanning, None)
  }

  /** The progress file the web UI polls: every write, oldest first. */
  class ProgressFile {
    var writes: seq<Progress>

    constructor ()
      ensures writes == []
    {
      writes := [];
    }

    /** Overwrite the file with `p`. */
    method Write(p: Progress)
      modifies this
      ensures writes == old(writes) + [p]
    {
      writes := writes + [p];
    }

    /** What a reader of the file sees now: the last write. */
    function Current(): Option<Progress>
      reads this
    {
      if writes == [] then None else Some(writes[|writes| - 1])
    }
  }

  // ---------------------------------------------------------------- rows

  /** The three counters the scan reports. */
  datatype Tally = Tally(processed: nat, skipped: nat, errors: nat)

  function Handled(t: Tally): nat
  {
    t.processed + t.skipped + t.errors
  }

  /** The row INSERTed for a path seen for the first time, before its metadata. */
  function NewClip(p: string): Clip
  {
    Clip(p, BaseName(p), None, None, None, None, None, None, None, false, None, None, false, None)
  }

  /** The metadata columns and `scan_id` that an INSERT or a forced UPDATE writes. */
  function Refresh(base: Clip, m: Meta, scanId: nat): Clip
  {
    base.(duration := m.duration, width := m.width, height := m.height, size := m.size,
          codecName := m.codecName, scanId := Some(scanId))
  }

  /** A forced rescan overwrites only what the probe reports and the scan id: the
      path, the file name, the thumbnail, the fingerprint, the star and the tags
      of the row stay as they were. */
  lemma RefreshKeepsUserColumns(base: Clip, m: Meta, scanId: nat)
    ensures var r := Refresh(base, m, scanId);
      && r.path == base.path && r.filename == base.filename && r.thumbnailPath == base.thumbnailPath
      && r.phash == base.phash && r.starred == base.starred && r.tags == base.tags
      && r.needsReview == base.needsReview && r.duplicateOf == base.duplicateOf
      && r.duration == m.duration && r.width == m.width && r.height == m.height
      && r.size == m.size && r.codecName == m.codecName && r.scanId == Some(scanId)
  {
  }

  /** `abs` lies strictly below the directory `root`. */
  predicate Below(abs: string, root: string)
  {
    |root| < |abs| && abs[..|root|] == root && ((|root| > 0 && root[|root| - 1] == '/') || abs[|root|] == '/')
  }

  /** `Path.relative_to` for an absolute path and a resolved directory: the rest of
      `abs` below `root`, "." for `root` itself, or None (the ValueError) when `abs`
      does not lie under `root`. */
  function RelativeTo(abs: string, root: string): Option<string>
  {
    if abs == root then Some(".")
    else if Below(abs, root) && |root| > 0 && root[|root| - 1] == '/' then Some(abs[|root|..])
    else if Below(abs, root) then Some(abs[|root| + 1..])
    else None
  }

  /** `relative_to` gives "." for the root itself and the rest of the path below
      the root, and fails exactly when the path is not under the root. */
  lemma RelativeToSpec(abs: string, root: string)
    ensures var r := RelativeTo(abs, root);
      && (abs == root ==> r == Some("."))
      && (r.Some? && abs != root ==> abs == root + r.value || abs == root + "/" + r.value)
      && (r.None? <==> abs != root && !Below(abs, root))
  {
    if abs != root && Below(abs, root) {
      if |root| > 0 && root[|root| - 1] == '/' {
        assert abs == root + abs[|root|..];
      } else {
        assert abs == root + "/" + abs[|root| + 1..];
      }
    }
  }

  /** The `thumbnail_path` stored for a written thumbnail. */
  function StoredThumbPath(abs: string, cwd: string): string
  {
    match RelativeTo(abs, cwd)
    case Some(rel) => rel
    case None => BaseName(abs)
  }

  /** The stored thumbnail path is relative to the working directory when the
      thumbnail lies below it, and the bare file name otherwise. */
  lemma StoredThumbPathShape(abs: string, cwd: string)
    ensures var r := StoredThumbPath(abs, cwd);
      && (abs == cwd ==> r == ".")
      && (Below(abs, cwd) ==> abs == cwd + r || abs == cwd + "/" + r)
      && (abs != cwd && !Below(abs, cwd) ==> r == BaseName(abs))
  {
    RelativeToSpec(abs, cwd);
  }

  /** The thumbnail step: attempted only for a positive duration, and stored only
      when the generator returned a path. */
  function WithThumbnail(row: Clip, p: string, id: nat, run: Run): Clip
  {
    if row.duration.Some? && row.duration.value > 0.0 then
      match run.thumbnail(p, row.duration.value, id)
      case ThumbWritten(abs) => row.(thumbnailPath := Some(StoredThumbPath(abs, run.cwd)))
      case _ => row
    else row
  }

  /** The thumbnail step changes `thumbnail_path` and nothing else; it changes it
      only for a positive duration and a generator that returned a path, and then
      stores that path relative to the working directory or as a bare name. */
  lemma ThumbnailOnlyForPositiveDuration(row: Clip, p: string, id: nat, run: Run)
    ensures var r := WithThumbnail(row, p, id, run);
      && r == row.(thumbnailPath := r.thumbnailPath)
      && (r.thumbnailPath != row.thumbnailPath ==>
            && row.duration.Some? && row.duration.value > 0.0
            && run.thumbnail(p, row.duration.value, id).ThumbWritten?
            && r.thumbnailPath == Some(StoredThumbPath(run.thumbnail(p, row.duration.value, id).absPath, run.cwd)))
      && (row.duration.Some? && row.duration.value > 0.0 && run.thumbnail(p, row.duration.value, id).ThumbWritten? ==>
            r.thumbnailPath.Some?)
  {
  }

  // ---------------------------------------------------------------- the loop

  /** Everything the ingest loop has changed so far. */
  datatype ScanState = ScanState(
    clips: map<nat, Clip>,
    pathIndex: map<string, nat>,
    nextClipId: nat,
    tally: Tally,
    writes: seq<Progress>,
    aborted: bool)

  ghost predicate Wf(st: ScanState)
  {
    Indexed(st.clips, st.pathIndex, st.nextClipId)
  }

  /** The state before the first file: the catalog as it was, zero counters and the
      initial `{"done": 0, "status": "scanning"}` write. */
  function Begin(clips: map<nat, Clip>, pathIndex: map<string, nat>, nextClipId: nat, total: nat): ScanState
  {
    ScanState(clips, pathIndex, nextClipId, Tally(0, 0, 0), [Tick(total, 0)], false)
  }

  /** `p` is either unknown or indexed to a row of `st`. */
  ghost predicate Locatable(st: ScanState, p: string)
  {
    p in st.pathIndex ==> st.pathIndex[p] in st.clips
  }

  /** The INSERT or forced UPDATE of a probed file, then its thumbnail. A known
      path keeps its id and its row; a new one gets the next id and a fresh row. */
  function Record(st: ScanState, p: string, m: Meta, idx: nat, run: Run): (r: ScanState)
  {
    var existing := p in st.pathIndex;
    var id := if existing then st.pathIndex[p] else st.nextClipId;
    var base := if id in st.clips then st.clips[id] else NewClip(p);
    var row := WithThumbnail(Refresh(base, m, run.scanId), p, id, run);
    ScanState(
      st.clips[id := row],
      st.pathIndex[p := id],
      if existing then st.nextClipId else st.nextClipId + 1,
      if existing then st.tally else st.tally.(processed := st.tally.processed + 1),
      st.writes + [Tick(run.total, idx + 1)],
      false)
  }

  /** The row written for a file keeps its path and carries the new scan id. */
  lemma RecordedRowStamped(base: Clip, m: Meta, p: string, id: nat, run: Run)
    ensures var row := WithThumbnail(Refresh(base, m, run.scanId), p, id, run);
      row.path == base.path && row.scanId == Some(run.scanId)
  {
    ThumbnailOnlyForPositiveDuration(Refresh(base, m, run.scanId), p, id, run);
  }

  /** Writing the row of `p` under its own id, or under the next id for a new
      path, keeps the path index a bijection onto the rows. */
  lemma IndexedPut(clips: map<nat, Clip>, pathIndex: map<string, nat>, next: nat, p: string, id: nat, row: Clip)
    requires Indexed(clips, pathIndex, next) && row.path == p
    requires if p in pathIndex then id == pathIndex[p] else id == next
    ensures Indexed(clips[id := row], pathIndex[p := id], if p in pathIndex then next else next + 1)
  {
    var clips', index' := clips[id := row], pathIndex[p := id];
    forall q | q in index' ensures index'[q] in clips' && clips'[index'[q]].path == q {
      if q != p {
        assert pathIndex[q] != id by {
          if p in pathIndex { assert clips[pathIndex[p]].path == p; }
        }
      }
    }
    forall k | k in clips' ensures clips'[k].path in index' && index'[clips'[k].path] == k {
      if k != id {
        assert clips[k].path != p by {
          assert pathIndex[clips[k].path] == k;
        }
      }
    }
  }

  /** Recording a file keeps the path index a bijection onto the rows, and counts
      the file in `processed_count` exactly when it is INSERTed. */
  lemma RecordWf(st: ScanState, p: string, m: Meta, idx: nat, run: Run)
    requires Wf(st)
    ensures var r := Record(st, p, m, idx, run);
      && Wf(r)
      && Handled(r.tally) == Handled(st.tally) + (if p in st.pathIndex then 0 else 1)
  {
    var existing := p in st.pathIndex;
    var id := if existing then st.pathIndex[p] else st.nextClipId;
    var base := if id in st.clips then st.clips[id] else NewClip(p);
    RecordedRowStamped(base, m, p, id, run);
    IndexedPut(st.clips, st.pathIndex, st.nextClipId, p, id, WithThumbnail(Refresh(base, m, run.scanId), p, id, run));
  }

  /** A path seen for the first time is INSERTed under the next id with its base
      name, the probed metadata and the new scan id; it has no fingerprint, no
      star, no tags and no review flag, and it has a thumbnail exactly when the
      duration is positive and the generator returned a file. */
  lemma InsertedRow(st: ScanState, p: string, m: Meta, idx: nat, run: Run)
    requires p !in st.pathIndex && st.nextClipId !in st.clips
    ensures var r := Record(st, p, m, idx, run);
      var row := r.clips[st.nextClipId];
      && r.pathIndex == st.pathIndex[p := st.nextClipId] && r.nextClipId == st.nextClipId + 1
      && row.path == p && row.filename == BaseName(p)
      && row.duration == m.duration && row.width == m.width && row.height == m.height
      && row.size == m.size && row.codecName == m.codecName && row.scanId == Some(run.scanId)
      && row.phash.None? && !row.starred && row.tags.None? && !row.needsReview && row.duplicateOf.None?
      && (row.thumbnailPath.Some? <==>
            m.duration.Some? && m.duration.value > 0.0 && run.thumbnail(p, m.duration.value, st.nextClipId).ThumbWritten?)
  {
    var base := Refresh(NewClip(p), m, run.scanId);
    ThumbnailOnlyForPositiveDuration(base, p, st.nextClipId, run);
  }

  /** Recording a file writes one "scanning" progress and counts the file in
      `processed_count` exactly when it is INSERTed. */
  lemma RecordCounts(st: ScanState, p: string, m: Meta, idx: nat, run: Run)
    ensures var r := Record(st, p, m, idx, run);
      && r.tally == (if p in st.pathIndex then st.tally else st.tally.(processed := st.tally.processed + 1))
      && r.writes == st.writes + [Tick(run.total, idx + 1)] && !r.aborted
  {
  }

  /** The one outcome that moves no counter: a known path re-probed under `force_rescan`. */
  predicate ForcedUpdate(st: ScanState, p: string, run: Run)
  {
    p in st.pathIndex && run.force && run.probe(p).Probed?
  }

  /** One iteration of the ingest loop for the file at position `idx`: skip a known
      path unless forced, count a probe error, abort on a missing ffprobe, or record
      the file. Each outcome writes progress once and bumps one counter, except a
      forced update, which bumps none. */
  function Visit(st: ScanState, p: string, idx: nat, run: Run): (r: ScanState)
    requires !st.aborted
    ensures Handled(r.tally) == Handled(st.tally) + (if ForcedUpdate(st, p, run) then 0 else 1)
    ensures |r.writes| == |st.writes| + 1 && r.writes[..|st.writes|] == st.writes
    ensures r.writes[|st.writes|] ==
      if r.aborted then Progress(run.total, idx, Failed, r.writes[|st.writes|].error) else Tick(run.total, idx + 1)
  {
    if p in st.pathIndex && !run.force then
      st.(tally := st.tally.(skipped := st.tally.skipped + 1),
          writes := st.writes + [Tick(run.total, idx + 1)])
    else
      match run.probe(p)
      case Probed(m) => RecordCounts(st, p, m, idx, run); Record(st, p, m, idx, run)
      case ToolMissing(msg) =>
        st.(tally := st.tally.(errors := st.tally.errors + 1),
            writes := st.writes + [Progress(run.total, idx, Failed, Some(msg))],
            aborted := true)
      case _ =>
        st.(tally := st.tally.(errors := st.tally.errors + 1),
            writes := st.writes + [Tick(run.total, idx + 1)])
  }

  /** The loop over `files`, stopped by the first abort. */
  function Scan(files: seq<string>, init: ScanState, run: Run): ScanState
  {
    if files == [] then init
    else
      var prev := Scan(files[..|files| - 1], init, run);
      if prev.aborted then prev else Visit(prev, files[|files| - 1], |files| - 1, run)
  }

  /** Handling one file keeps the path index a bijection onto the rows. */
  lemma VisitWf(st: ScanState, p: string, idx: nat, run: Run)
    requires Wf(st) && !st.aborted
    ensures Wf(Visit(st, p, idx, run))
  {
    if !(p in st.pathIndex && !run.force) && run.probe(p).Probed? {
      RecordWf(st, p, run.probe(p).meta, idx, run);
    }
  }

  /** The whole loop keeps the path index a bijection onto the rows. */
  lemma {:induction false} ScanWf(files: seq<string>, init: ScanState, run: Run)
    requires Wf(init)
    ensures Wf(Scan(files, init, run))
  {
    if files != [] {
      ScanWf(files[..|files| - 1], init, run);
      var prev := Scan(files[..|files| - 1], init, run);
      if !prev.aborted {
        VisitWf(prev, files[|files| - 1], |files| - 1, run);
      }
    }
  }

  /** `DELETE FROM clips WHERE scan_id != ? OR scan_id IS NULL`. */
  function Prune(clips: map<nat, Clip>, scanId: nat): (r: map<nat, Clip>)
    ensures forall id :: id in r <==> id in clips && clips[id].scanId == Some(scanId)
    ensures forall id :: id in r ==> r[id] == clips[id]
  {
    map id | id in clips && clips[id].scanId == Some(scanId) :: clips[id]
  }

  /** The path index after the same DELETE. */
  function PruneIndex(pathIndex: map<string, nat>, clips: map<nat, Clip>, scanId: nat): (r: map<string, nat>)
    ensures forall p :: p in r <==> p in pathIndex && pathIndex[p] in clips && clips[pathIndex[p]].scanId == Some(scanId)
    ensures forall p :: p in r ==> r[p] == pathIndex[p]
  {
    map p | p in pathIndex && pathIndex[p] in clips && clips[pathIndex[p]].scanId == Some(scanId) :: pathIndex[p]
  }

  // ---------------------------------------------------------------- properties of the loop

  /** The progress writes of the loop: the i-th file handled writes `done = i + 1`
      with status "scanning", except an abort, which is the last write and has
      `done = i` and status "error". Without an abort there is one write per file. */
  lemma {:induction false} ScanProgress(files: seq<string>, init: ScanState, run: Run)
    requires Wf(init) && !init.aborted
    ensures var r := Scan(files, init, run);
      && |init.writes| <= |r.writes| <= |init.writes| + |files|
      && r.writes[..|init.writes|] == init.writes
      && (!r.aborted ==> |r.writes| == |init.writes| + |files|)
      && (r.aborted ==> |init.writes| < |r.writes| && r.writes[|r.writes| - 1].status == Failed)
      && (forall j | |init.writes| <= j < |r.writes| ::
            r.writes[j] == Tick(run.total, j - |init.writes| + 1)
            || (j == |r.writes| - 1 && r.aborted
                && r.writes[j] == Progress(run.total, j - |init.writes|, Failed, r.writes[j].error)))
  {
    if files != [] {
      var init' := files[..|files| - 1];
      ScanProgress(init', init, run);
      var prev := Scan(init', init, run);
      if !prev.aborted {
        var r := Visit(prev, files[|files| - 1], |files| - 1, run);
        assert r.writes[..|prev.writes|] == prev.writes;
        assert r.writes[..|init.writes|] == prev.writes[..|init.writes|];
        forall j | |init.writes| <= j < |r.writes| - 1
          ensures r.writes[j] == Tick(run.total, j - |init.writes| + 1)
        {
          assert r.writes[j] == prev.writes[j];
        }
      }
    }
  }

  /** Every value of `done` the loop writes lies between 0 and `total`, and they
      never decrease. */
  lemma ProgressBounded(files: seq<string>, init: ScanState, run: Run)
    requires Wf(init) && !init.aborted && init.writes == [Tick(run.total, 0)]
    requires |files| <= run.total
    ensures var w := Scan(files, init, run).writes;
      forall i, j | 0 <= i <= j < |w| :: w[i].done <= w[j].done <= run.total
  {
    ScanProgress(files, init, run);
    var w := Scan(files, init, run).writes;
    forall j | 0 <= j < |w|
      ensures w[j].done <= j && (j < |w| - 1 ==> w[j].done == j) && j <= |files|
    {
      if j == 0 {
        assert w[..1] == [Tick(run.total, 0)];
        assert w[0] == w[..1][0];
      }
    }
  }

  /** A missing ffprobe (line 132) writes an "error" progress with `done` equal
      to the number of files handled before it, fewer than `total`; the write
      that follows it, after the DELETE and the commit, is "done" with
      `done == total`, so a poller that reads late never sees the error. */
  lemma AbortEndsDone(files: seq<string>, clips: map<nat, Clip>, pathIndex: map<string, nat>, nextClipId: nat, run: Run)
    requires Indexed(clips, pathIndex, nextClipId) && run.total == |files|
    ensures var fin := Scan(files, Begin(clips, pathIndex, nextClipId, |files|), run);
      var w := fin.writes + [Progress(|files|, |files|, Done, None)];
      && |w| >= 2
      && w[|w| - 1] == Progress(run.total, run.total, Done, None)
      && (fin.aborted ==>
            && w[|w| - 2].status == Failed
            && w[|w| - 2].done == |fin.writes| - 2 < run.total)
  {
    var init := Begin(clips, pathIndex, nextClipId, |files|);
    ScanProgress(files, init, run);
  }

  /** Each file handled moves exactly one of the three counters, except a forced
      update, which moves none; so the counters add up to the number of files
      handled exactly when the scan is not forced. */
  lemma {:induction false} ScanTally(files: seq<string>, init: ScanState, run: Run)
    requires Wf(init) && !init.aborted
    ensures var r := Scan(files, init, run);
      && |init.writes| <= |r.writes|
      && Handled(r.tally) <= Handled(init.tally) + (|r.writes| - |init.writes|)
      && (!run.force ==> Handled(r.tally) == Handled(init.tally) + (|r.writes| - |init.writes|))
  {
    if files != [] {
      ScanTally(files[..|files| - 1], init, run);
    }
  }

  /** Once a missing ffprobe has aborted the loop, no later file is probed or
      written: the outcome is the state at the abort. */
  lemma {:induction false} AbortIsFinal(files: seq<string>, k: nat, init: ScanState, run: Run)
    requires Wf(init) && k <= |files|
    requires Scan(files[..k], init, run).aborted
    ensures Scan(files, init, run) == Scan(files[..k], init, run)
  {
    if k < |files| {
      var init' := files[..|files| - 1];
      assert init'[..k] == files[..k];
      AbortIsFinal(init', k, init, run);
    } else {
      assert files[..k] == files;
    }
  }

  /** One file: known paths keep their ids, no row disappears, and a row that
      changes carries the new scan id and belongs to this file. */
  lemma VisitRows(st: ScanState, p: string, idx: nat, run: Run)
    requires Wf(st) && !st.aborted
    ensures var r := Visit(st, p, idx, run);
      && st.nextClipId <= r.nextClipId
      && (forall q :: q in st.pathIndex ==> q in r.pathIndex && r.pathIndex[q] == st.pathIndex[q])
      && (forall id :: id in st.clips ==> id in r.clips)
      && (forall id :: id in r.clips ==>
            (id in st.clips && r.clips[id] == st.clips[id]) || (r.clips[id].scanId == Some(run.scanId) && r.clips[id].path == p))
  {
    if p in st.pathIndex && !run.force {
    } else if run.probe(p).Probed? {
      RecordRows(st, p, run.probe(p).meta, idx, run);
    }
  }

  lemma RecordRows(st: ScanState, p: string, m: Meta, idx: nat, run: Run)
    requires Locatable(st, p) && (p in st.pathIndex ==> st.clips[st.pathIndex[p]].path == p)
    requires p !in st.pathIndex ==> st.nextClipId !in st.clips
    ensures var r := Record(st, p, m, idx, run);
      && st.nextClipId <= r.nextClipId
      && (forall q :: q in st.pathIndex ==> q in r.pathIndex && r.pathIndex[q] == st.pathIndex[q])
      && (forall id :: id in st.clips ==> id in r.clips)
      && (forall id :: id in r.clips ==>
            (id in st.clips && r.clips[id] == st.clips[id]) || (r.clips[id].scanId == Some(run.scanId) && r.clips[id].path == p))
  {
    var existing := p in st.pathIndex;
    var id := if existing then st.pathIndex[p] else st.nextClipId;
    var base := if id in st.clips then st.clips[id] else NewClip(p);
    var row := WithThumbnail(Refresh(base, m, run.scanId), p, id, run);
    RecordedRowStamped(base, m, p, id, run);
    var r := Record(st, p, m, idx, run);
    assert r.clips == st.clips[id := row] && r.pathIndex == st.pathIndex[p := id];
    forall k | k in r.clips
      ensures (k in st.clips && r.clips[k] == st.clips[k]) || (r.clips[k].scanId == Some(run.scanId) && r.clips[k].path == p)
    {
      if k == id {
        assert r.clips[k] == row;
      }
    }
  }

  /** One file: either the key set of `clips` and `processed_count` stay, or the
      file is INSERTed under the next id and counted. */
  lemma VisitInserts(st: ScanState, p: string, idx: nat, run: Run)
    requires Wf(st) && !st.aborted
    ensures var r := Visit(st, p, idx, run);
      || (r.clips.Keys == st.clips.Keys && r.tally.processed == st.tally.processed)
      || (r.clips.Keys == st.clips.Keys + {st.nextClipId} && st.nextClipId !in st.clips
          && r.tally.processed == st.tally.processed + 1)
  {
  }

  /** Known paths keep their ids and the id counter never goes down. */
  lemma {:induction false} ScanKeepsPaths(files: seq<string>, init: ScanState, run: Run)
    requires Wf(init)
    ensures var r := Scan(files, init, run);
      && init.nextClipId <= r.nextClipId
      && (forall p :: p in init.pathIndex ==> p in r.pathIndex && r.pathIndex[p] == init.pathIndex[p])
  {
    if files != [] {
      var init' := files[..|files| - 1];
      ScanKeepsPaths(init', init, run);
      ScanWf(init', init, run);
      var prev := Scan(init', init, run);
      if !prev.aborted {
        VisitRows(prev, files[|files| - 1], |files| - 1, run);
      }
    }
  }

  /** No row disappears during the loop, and a row the loop writes carries the
      new scan id and the path of a file of this scan. */
  lemma {:induction false} ScanKeepsRows(files: seq<string>, init: ScanState, run: Run)
    requires Wf(init)
    ensures var r := Scan(files, init, run);
      && (forall id :: id in init.clips ==> id in r.clips)
      && (forall id :: id in r.clips ==>
            (id in init.clips && r.clips[id] == init.clips[id])
            || (r.clips[id].scanId == Some(run.scanId) && r.clips[id].path in files))
  {
    if files != [] {
      var init', p := files[..|files| - 1], files[|files| - 1];
      ScanKeepsRows(init', init, run);
      ScanWf(init', init, run);
      var prev := Scan(init', init, run);
      var r := Scan(files, init, run);
      if !prev.aborted {
        VisitRows(prev, p, |files| - 1, run);
      }
      forall id | id in r.clips && !(id in init.clips && r.clips[id] == init.clips[id])
        ensures r.clips[id].scanId == Some(run.scanId) && r.clips[id].path in files
      {
        if id in prev.clips && r.clips[id] == prev.clips[id] {
          assert prev.clips[id].path in init';
          PrefixMember(files, |files| - 1, prev.clips[id].path);
        } else {
          assert r.clips[id].path == p == files[|files| - 1];
        }
      }
    }
  }

  /** Known paths keep their ids, no row disappears during the loop, and a row the
      loop writes carries the new scan id and the path of a file of this scan. */
  lemma ScanKeepsIds(files: seq<string>, init: ScanState, run: Run)
    requires Wf(init)
    ensures var r := Scan(files, init, run);
      && init.nextClipId <= r.nextClipId
      && (forall p :: p in init.pathIndex ==> p in r.pathIndex && r.pathIndex[p] == init.pathIndex[p])
      && (forall id :: id in init.clips ==> id in r.clips)
      && (forall id :: id in r.clips ==>
            (id in init.clips && r.clips[id] == init.clips[id])
            || (r.clips[id].scanId == Some(run.scanId) && r.clips[id].path in files))
  {
    ScanKeepsPaths(files, init, run);
    ScanKeepsRows(files, init, run);
  }

  /** An element of a prefix is an element of the whole sequence. */
  lemma PrefixMember<T>(s: seq<T>, n: nat, x: T)
    requires n <= |s| && x in s[..n]
    ensures x in s
  {
    var k :| 0 <= k < n && s[..n][k] == x;
    assert s[k] == x;
  }

  /** The id counter never goes down. */
  lemma {:induction false} ScanIdsGrow(files: seq<string>, init: ScanState, run: Run)
    ensures init.nextClipId <= Scan(files, init, run).nextClipId
  {
    if files != [] {
      ScanIdsGrow(files[..|files| - 1], init, run);
    }
  }

  /** A new row is one INSERT for a path of this scan, under an id above every old
      one, and the inserts are what `processed_count` counts. */
  lemma {:induction false} ScanInserts(files: seq<string>, init: ScanState, run: Run)
    requires Wf(init)
    ensures var r := Scan(files, init, run);
      && init.tally.processed <= r.tally.processed
      && |r.clips.Keys| == |init.clips.Keys| + (r.tally.processed - init.tally.processed)
      && (forall id :: id in r.clips && id !in init.clips ==> init.nextClipId <= id)
  {
    if files != [] {
      var init' := files[..|files| - 1];
      ScanInserts(init', init, run);
      ScanIdsGrow(init', init, run);
      ScanWf(init', init, run);
      var prev := Scan(init', init, run);
      if !prev.aborted {
        VisitInserts(prev, files[|files| - 1], |files| - 1, run);
      }
    }
  }

  /** Without `force_rescan` the loop never touches a row that was already there:
      a known path is skipped, so its `scan_id` keeps its old value. */
  lemma {:induction false} UnforcedScanKeepsOldRows(files: seq<string>, init: ScanState, run: Run)
    requires Wf(init) && !run.force
    ensures var r := Scan(files, init, run);
      forall id :: id in init.clips ==> id in r.clips && r.clips[id] == init.clips[id]
  {
    if files != [] {
      var init' := files[..|files| - 1];
      UnforcedScanKeepsOldRows(init', init, run);
      ScanKeepsIds(init', init, run);
      var prev := Scan(init', init, run);
      if !prev.aborted {
        var p := files[|files| - 1];
        if p !in prev.pathIndex && run.probe(p).Probed? {
          assert prev.nextClipId !in init.clips;
        }
      }
    }
  }

  /** The consequence of the skip at lines 107-112 and the DELETE at line 195:
      after a rescan without `force_rescan`, every path that was catalogued before
      is gone from the catalog, whether or not the file is still on disk. */
  lemma UnforcedRescanDropsCatalogued(files: seq<string>, init: ScanState, run: Run)
    requires Wf(init) && !run.force
    requires forall id :: id in init.clips ==> init.clips[id].scanId != Some(run.scanId)
    ensures var r := Scan(files, init, run);
      forall p :: p in init.pathIndex ==> p !in PruneIndex(r.pathIndex, r.clips, run.scanId)
  {
    UnforcedScanKeepsOldRows(files, init, run);
    ScanKeepsIds(files, init, run);
  }

  /** After the DELETE the catalog holds only rows this scan inserted or
      refreshed, and each of them is a video file found by this scan. */
  lemma PrunedRowsAreScanned(files: seq<string>, init: ScanState, run: Run)
    requires Wf(init)
    requires forall id :: id in init.clips ==> init.clips[id].scanId != Some(run.scanId)
    ensures var r := Scan(files, init, run);
      forall id :: id in Prune(r.clips, run.scanId) ==> r.clips[id].path in files
  {
    ScanKeepsIds(files, init, run);
  }

  // ---------------------------------------------------------------- the statements

  /** The INSERT of line 147: a new row under the next id, stamped with the scan. */
  method InsertClip(db: Catalog, p: string, m: Meta, scanId: nat) returns (id: nat)
    requires p !in db.pathIndex
    modifies db`clips, db`pathIndex, db`nextClipId
    ensures id == old(db.nextClipId)
    ensures db.clips == old(db.clips)[id := Refresh(NewClip(p), m, scanId)]
    ensures db.pathIndex == old(db.pathIndex)[p := id]
    ensures db.nextClipId == id + 1
  {
    id := db.nextClipId;
    db.clips := db.clips[id := Refresh(NewClip(p), m, scanId)];
    db.pathIndex := db.pathIndex[p := id];
    db.nextClipId := id + 1;
  }

  /** The forced UPDATE of line 142: new metadata and scan id for an existing row. */
  method UpdateClip(db: Catalog, id: nat, m: Meta, scanId: nat)
    requires id in db.clips
    modifies db`clips
    ensures db.clips == old(db.clips)[id := Refresh(old(db.clips)[id], m, scanId)]
  {
    db.clips := db.clips[id := Refresh(db.clips[id], m, scanId)];
  }

  /** `UPDATE clips SET thumbnail_path = ? WHERE id = ?`. */
  method SetThumbnail(db: Catalog, id: nat, path: string)
    requires id in db.clips
    modifies db`clips
    ensures db.clips == old(db.clips)[id := old(db.clips)[id].(thumbnailPath := Some(path))]
  {
    db.clips := db.clips[id := db.clips[id].(thumbnailPath := Some(path))];
  }

  /** The body of the ingest loop for the file `p` at position `idx`; `st` is the
      state so far and `w0` what the progress file held before the scan. */
  method HandleFile(db: Catalog, pf: ProgressFile, p: string, idx: nat, run: Run, tally: Tally,
                    ghost st: ScanState, ghost w0: seq<Progress>)
    returns (tally': Tally, aborted: bool)
    requires Wf(st) && !st.aborted
    requires db.clips == st.clips && db.pathIndex == st.pathIndex && db.nextClipId == st.nextClipId
    requires tally == st.tally && pf.writes == w0 + st.writes
    modifies db`clips, db`pathIndex, db`nextClipId, pf
    ensures var r := Visit(st, p, idx, run);
      && db.clips == r.clips && db.pathIndex == r.pathIndex && db.nextClipId == r.nextClipId
      && tally' == r.tally && aborted == r.aborted && pf.writes == w0 + r.writes
  {
    tally', aborted := tally, false;
    var existing := p in db.pathIndex;
    if existing && !run.force {
      tally' := tally'.(skipped := tally'.skipped + 1);
      pf.Write(Tick(run.total, idx + 1));
      return;
    }
    var probed := run.probe(p);
    match probed {
      case ToolMissing(msg) =>
        tally' := tally'.(errors := tally'.errors + 1);
        pf.Write(Progress(run.total, idx, Failed, Some(msg)));
        aborted := true;
      case ProbeFailed(_) =>
        tally' := tally'.(errors := tally'.errors + 1);
        pf.Write(Tick(run.total, idx + 1));
      case ProbeCrashed(_) =>
        tally' := tally'.(errors := tally'.errors + 1);
        pf.Write(Tick(run.total, idx + 1));
      case Probed(m) =>
        tally' := RecordFile(db, pf, p, m, idx, run, tally', st, w0);
    }
  }

  /** The INSERT or forced UPDATE of a probed file, its thumbnail and its progress write. */
  method RecordFile(db: Catalog, pf: ProgressFile, p: string, m: Meta, idx: nat, run: Run, tally: Tally,
                    ghost st: ScanState, ghost w0: seq<Progress>)
    returns (tally': Tally)
    requires Locatable(st, p) && (p !in st.pathIndex ==> st.nextClipId !in st.clips)
    requires db.clips == st.clips && db.pathIndex == st.pathIndex && db.nextClipId == st.nextClipId
    requires tally == st.tally && pf.writes == w0 + st.writes
    modifies db`clips, db`pathIndex, db`nextClipId, pf
    ensures var r := Record(st, p, m, idx, run);
      && db.clips == r.clips && db.pathIndex == r.pathIndex && db.nextClipId == r.nextClipId
      && tally' == r.tally && pf.writes == w0 + r.writes
  {
    var id: nat;
    tally' := tally;
    ghost var existing := p in st.pathIndex;
    ghost var id0 := if existing then st.pathIndex[p] else st.nextClipId;
    ghost var refreshed := Refresh(if existing then st.clips[id0] else NewClip(p), m, run.scanId);
    ghost var row := WithThumbnail(refreshed, p, id0, run);
    assert Record(st, p, m, idx, run).clips == st.clips[id0 := row];
    if p in db.pathIndex {
      id := db.pathIndex[p];
      UpdateClip(db, id, m, run.scanId);
    } else {
      id := InsertClip(db, p, m, run.scanId);
      tally' := tally'.(processed := tally'.processed + 1);
    }
    assert id == id0 && db.clips == st.clips[id0 := refreshed] && db.clips[id0] == refreshed;
    Thumbnail(db, p, id, run);
    assert db.clips == st.clips[id0 := refreshed][id0 := row] == st.clips[id0 := row];
    pf.Write(Tick(run.total, idx + 1));
  }

  /** Lines 158-179: a thumbnail for a positive duration, its path stored when the
      generator returned one; every failure leaves the row as it was. */
  method Thumbnail(db: Catalog, p: string, id: nat, run: Run)
    requires id in db.clips
    modifies db`clips
    ensures db.clips == old(db.clips)[id := WithThumbnail(old(db.clips)[id], p, id, run)]
  {
    var duration := db.clips[id].duration;
    if duration.Some? && duration.value > 0.0 {
      var thumb := run.thumbnail(p, duration.value, id);
      if thumb.ThumbWritten? {
        SetThumbnail(db, id, StoredThumbPath(thumb.absPath, run.cwd));
      } else {
        assert db.clips == db.clips[id := db.clips[id]];
      }
    } else {
      assert db.clips == db.clips[id := db.clips[id]];
    }
  }

  /** The table the scan writes besides `clips`. */
  predicate HasScansTable(tables: map<TableName, TableDef>)
  {
    OtherTable("scans") in tables
  }

  /** The column the scan stamps every row it writes with. */
  predicate HasScanId(tables: map<TableName, TableDef>)
  {
    Clips in tables && "scan_id" in Names(tables[Clips].columns)
  }

  /** The error SQLite reports for the INSERT INTO scans of line 83 on a schema
      built by `get_db_connection` alone. */
  const NoScansTable := "no such table: scans"

  /** The error SQLite reports for the DELETE of line 195 when `clips` has no
      `scan_id` column. */
  const NoScanIdColumn := "no such column: scan_id"

  /** The error of the INSERT of line 147 when `clips` has no `scan_id` column. */
  const NoScanIdInsert := "table clips has no column named scan_id"

  /** The loop as it runs on a `clips` table without `scan_id`: the INSERT or
      forced UPDATE of every probed file raises, and the handler of lines 185-192
      counts it and writes its progress exactly as it does for a probe that
      raises; no thumbnail is made. */
  function FailingWrites(run: Run): Run
  {
    run.(probe := p => if run.probe(p).Probed? then ProbeCrashed(NoScanIdInsert) else run.probe(p))
  }

  /** When every write raises, the loop changes no row, no path and no id, and
      counts nothing as processed. */
  lemma {:induction false} FailingWritesKeepRows(files: seq<string>, init: ScanState, run: Run)
    ensures var r := Scan(files, init, FailingWrites(run));
      && r.clips == init.clips && r.pathIndex == init.pathIndex && r.nextClipId == init.nextClipId
      && r.tally.processed == init.tally.processed
  {
    if files != [] {
      FailingWritesKeepRows(files[..|files| - 1], init, run);
      assert !FailingWrites(run).probe(files[|files| - 1]).Probed?;
    }
  }

  /** `ingest_directory`. Nothing happens unless `start_path` is a directory. The
      connection runs `create_table` and `migrate_clips_table`, whose effect on the
      schema lasts whatever happens next. A database without the `scans` table
      ends with an "error" progress and no change. A `clips` table without
      `scan_id` runs the loop with every write failing, then the DELETE raises:
      the progress of every file, then an "error", and no change. Otherwise the
      loop over the video files is `Scan`, the DELETE keeps only the rows stamped
      with the new scan id, and the last progress write is "done" with
      `done == total`, also after an abort. */
  method Ingest(schema: Database, db: Catalog, pf: ProgressFile, startPath: string, startIsDir: bool,
                entries: seq<Entry>, extensions: set<string>, force: bool,
                probe: string -> ProbeResult, thumbnail: (string, real, nat) -> ThumbResult, cwd: string)
    returns (counts: Option<Tally>)
    requires db.Valid()
    modifies schema, db, pf
    ensures db.Valid()
    ensures db.tagIds == old(db.tagIds) && db.nextTagId == old(db.nextTagId) && db.clipTags == old(db.clipTags)
    ensures !startIsDir ==> counts.None? && unchanged(schema, db, pf)
    ensures startIsDir ==>
      && schema.tables == Connected(old(schema.tables)) && schema.indexes == AfterCreateIndexes(old(schema.indexes))
      && schema.commits == old(schema.commits) + ConnectCommits(old(schema.tables))
    ensures startIsDir && !HasScansTable(schema.tables) ==>
      && counts.None? && unchanged(db)
      && pf.writes == old(pf.writes) + [Progress(0, 0, Failed, Some(NoScansTable))]
    ensures startIsDir && HasScansTable(schema.tables) && !HasScanId(schema.tables) ==>
      var files := VideoFiles(entries, extensions);
      var run := Run(force, old(db.nextScanId), |files|, probe, thumbnail, cwd);
      var fin := Scan(files, Begin(old(db.clips), old(db.pathIndex), old(db.nextClipId), |files|), FailingWrites(run));
      && counts.None? && unchanged(db)
      && pf.writes == old(pf.writes) + fin.writes + [Progress(0, 0, Failed, Some(NoScanIdColumn))]
    ensures !HasScansTable(old(schema.tables)) || !HasScanId(old(schema.tables)) ==> counts.None? && unchanged(db)
    ensures startIsDir ==> pf.Current().Some? && (counts.Some? <==> pf.Current().value.status == Done)
    ensures startIsDir && HasScansTable(schema.tables) && HasScanId(schema.tables) ==>
      var files := VideoFiles(entries, extensions);
      var s := old(db.nextScanId);
      var run := Run(force, s, |files|, probe, thumbnail, cwd);
      var fin := Scan(files, Begin(old(db.clips), old(db.pathIndex), old(db.nextClipId), |files|), run);
      && counts == Some(fin.tally)
      && db.clips == Prune(fin.clips, s)
      && db.pathIndex == PruneIndex(fin.pathIndex, fin.clips, s)
      && db.nextClipId == fin.nextClipId
      && db.scans == old(db.scans)[s := startPath] && db.nextScanId == s + 1
      && pf.writes == old(pf.writes) + fin.writes + [Progress(|files|, |files|, Done, None)]
      && pf.Current() == Some(Progress(|files|, |files|, Done, None))
  {
    counts := None;
    if !startIsDir {
      return;
    }
    ghost var t0 := schema.tables;
    schema.Connect();
    ConnectKeepsScanId(t0);
    if !HasScansTable(schema.tables) {
      pf.Write(Progress(0, 0, Failed, Some(NoScansTable)));
      return;
    }
    var files := VideoFiles(entries, extensions);
    var run := Run(force, db.nextScanId, |files|, probe, thumbnail, cwd);
    if !HasScanId(schema.tables) {
      ScanFailing(db, pf, files, run);
      return;
    }
    counts := ScanFolder(db, pf, startPath, files, run);
  }

  /** Lines 83-211 when `clips` has no `scan_id`: the loop runs with every write
      failing, the DELETE of line 195 raises and nothing is committed, so the
      catalog is as it was and the last progress write is the error. */
  method ScanFailing(db: Catalog, pf: ProgressFile, files: seq<string>, run: Run)
    requires db.Valid() && run.total == |files|
    modifies db`clips, db`pathIndex, db`nextClipId, pf
    ensures unchanged(db)
    ensures var fin := Scan(files, Begin(old(db.clips), old(db.pathIndex), old(db.nextClipId), |files|), FailingWrites(run));
      pf.writes == old(pf.writes) + fin.writes + [Progress(0, 0, Failed, Some(NoScanIdColumn))]
    ensures pf.Current() == Some(Progress(0, 0, Failed, Some(NoScanIdColumn)))
  {
    ghost var init := Begin(db.clips, db.pathIndex, db.nextClipId, |files|);
    var _ := ScanLoop(db, pf, files, FailingWrites(run));
    FailingWritesKeepRows(files, init, run);
    assert db.clips == init.clips && db.pathIndex == init.pathIndex && db.nextClipId == init.nextClipId;
    pf.Write(Progress(0, 0, Failed, Some(NoScanIdColumn)));
  }

  /** Lines 83-205 once the connection is open: the new `scans` row, the initial
      progress write, the loop, the DELETE, the commit and the "done" write. */
  method ScanFolder(db: Catalog, pf: ProgressFile, startPath: string, files: seq<string>, run: Run)
    returns (counts: Option<Tally>)
    requires db.Valid() && run.scanId == db.nextScanId && run.total == |files|
    modifies db, pf
    ensures db.Valid()
    ensures db.tagIds == old(db.tagIds) && db.nextTagId == old(db.nextTagId) && db.clipTags == old(db.clipTags)
    ensures var s := run.scanId;
      var fin := Scan(files, Begin(old(db.clips), old(db.pathIndex), old(db.nextClipId), |files|), run);
      && counts == Some(fin.tally)
      && db.clips == Prune(fin.clips, s)
      && db.pathIndex == PruneIndex(fin.pathIndex, fin.clips, s)
      && db.nextClipId == fin.nextClipId
      && db.scans == old(db.scans)[s := startPath] && db.nextScanId == s + 1
      && pf.writes == old(pf.writes) + fin.writes + [Progress(|files|, |files|, Done, None)]
    ensures pf.Current() == Some(Progress(|files|, |files|, Done, None))
  {
    ghost var fin := Scan(files, Begin(db.clips, db.pathIndex, db.nextClipId, |files|), run);
    ghost var w0, tagIds, nextTagId, clipTags := pf.writes, db.tagIds, db.nextTagId, db.clipTags;
    var s := InsertScan(db, startPath);
    NewScanValid(old(db.scans), s, startPath);
    ghost var scans := db.scans;
    var tally := ScanLoop(db, pf, files, run);
    assert tally == fin.tally && pf.writes == w0 + fin.writes;
    assert db.clips == fin.clips && db.pathIndex == fin.pathIndex && db.nextClipId == fin.nextClipId;
    assert db.tagIds == tagIds && db.nextTagId == nextTagId && db.clipTags == clipTags;
    assert db.scans == scans && db.nextScanId == s + 1;
    DeleteUnstamped(db, s);
    pf.Write(Progress(|files|, |files|, Done, None));
    counts := Some(tally);
  }

  /** `INSERT INTO scans (folder_path)`, returning the new row id. */
  method InsertScan(db: Catalog, folder: string) returns (s: nat)
    modifies db`scans, db`nextScanId
    ensures s == old(db.nextScanId) && db.scans == old(db.scans)[s := folder] && db.nextScanId == s + 1
  {
    s := db.nextScanId;
    db.scans := db.scans[s := folder];
    db.nextScanId := s + 1;
  }

  /** `DELETE FROM clips WHERE scan_id != ? OR scan_id IS NULL`. */
  method DeleteUnstamped(db: Catalog, s: nat)
    modifies db`clips, db`pathIndex
    ensures db.clips == Prune(old(db.clips), s)
    ensures db.pathIndex == PruneIndex(old(db.pathIndex), old(db.clips), s)
  {
    var kept := PruneIndex(db.pathIndex, db.clips, s);
    db.clips := Prune(db.clips, s);
    db.pathIndex := kept;
  }

  /** The initial progress write and the `for` loop of lines 99-192, left by
      the `break` of an abort. */
  method ScanLoop(db: Catalog, pf: ProgressFile, files: seq<string>, run: Run)
    returns (tally: Tally)
    requires Indexed(db.clips, db.pathIndex, db.nextClipId) && run.total == |files|
    modifies db`clips, db`pathIndex, db`nextClipId, pf
    ensures var fin := Scan(files, Begin(old(db.clips), old(db.pathIndex), old(db.nextClipId), |files|), run);
      && db.clips == fin.clips && db.pathIndex == fin.pathIndex && db.nextClipId == fin.nextClipId
      && tally == fin.tally && pf.writes == old(pf.writes) + fin.writes
    ensures RowsValid(Prune(db.clips, run.scanId), PruneIndex(db.pathIndex, db.clips, run.scanId),
                      db.nextClipId, run.scanId + 1)
  {
    ghost var w0 := pf.writes;
    ghost var init := Begin(db.clips, db.pathIndex, db.nextClipId, |files|);
    pf.Write(Tick(|files|, 0));
    var aborted;
    tally, aborted := Tally(0, 0, 0), false;
    var i := 0;
    ghost var st := init;
    assert files[..0] == [];
    while i < |files| && !aborted
      invariant 0 <= i <= |files|
      invariant Wf(st) && st == Scan(files[..i], init, run) && aborted == st.aborted
      invariant db.clips == st.clips && db.pathIndex == st.pathIndex && db.nextClipId == st.nextClipId
      invariant tally == st.tally && pf.writes == w0 + st.writes
    {
      assert files[..i + 1][..i] == files[..i];
      tally, aborted := HandleFile(db, pf, files[i], i, run, tally, st, w0);
      VisitWf(st, files[i], i, run);
      st := Visit(st, files[i], i, run);
      i := i + 1;
    }
    if aborted {
      AbortIsFinal(files, i, init, run);
    } else {
      assert files[..i] == files;
    }
    PruneKeepsCatalogValid(files, init, run);
  }

  /** After the DELETE the path index is still a bijection onto the rows, and
      every remaining row carries the new scan id. */
  lemma PruneKeepsCatalogValid(files: seq<string>, init: ScanState, run: Run)
    requires Wf(init)
    ensures var r := Scan(files, init, run);
      var clips := Prune(r.clips, run.scanId);
      && RowsValid(clips, PruneIndex(r.pathIndex, r.clips, run.scanId), r.nextClipId, run.scanId + 1)
      && forall id :: id in clips ==> clips[id].scanId == Some(run.scanId)
  {
    ScanWf(files, init, run);
  }

  /** Recording a new scan keeps every scan id below the counter. */
  lemma NewScanValid(scans: map<nat, string>, s: nat, folder: string)
    requires ScansValid(scans, s)
    ensures ScansValid(scans[s := folder], s + 1)
  {
  }
}
