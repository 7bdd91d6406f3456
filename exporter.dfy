/** `export_starred_clips` of `exporter.py`: the paths of the starred clips, in
    ascending path order, are written one per line to a text file, and the
    caller gets back a success flag with a message carrying the count, or the
    failure as a message. */
module Exporter {
  import opened Common
  import opened Store
  import opened Schema

  /** SQLite's BINARY collation on text: character by character, a proper
      prefix first. Comparing code points orders strings as comparing their
      UTF-8 bytes does. */
  predicate LexLe(a: string, b: string)
  {
    a == [] || (b != [] && (a[0] < b[0] || (a[0] == b[0] && LexLe(a[1..], b[1..]))))
  }

  lemma {:induction false} LexLeTotal(a: string, b: string)
    ensures LexLe(a, b) || LexLe(b, a)
  {
    if a != [] && b != [] && a[0] == b[0] {
      LexLeTotal(a[1..], b[1..]);
    }
  }

  lemma {:induction false} LexLeAntisymmetric(a: string, b: string)
    requires LexLe(a, b) && LexLe(b, a)
    ensures a == b
  {
    if a != [] {
      LexLeAntisymmetric(a[1..], b[1..]);
      assert a == [a[0]] + a[1..] && b == [b[0]] + b[1..];
    }
  }

  lemma {:induction false} LexLeTransitive(a: string, b: string, c: string)
    requires LexLe(a, b) && LexLe(b, c)
    ensures LexLe(a, c)
  {
    if a != [] && a[0] == b[0] && b[0] == c[0] {
      LexLeTransitive(a[1..], b[1..], c[1..]);
    }
  }

  /** Ascending under the collation. */
  predicate Sorted(s: seq<string>)
  {
    forall i, j :: 0 <= i < j < |s| ==> LexLe(s[i], s[j])
  }

  /** `x` put in front of the first element above it. */
  function Insert(x: string, s: seq<string>): (r: seq<string>)
    ensures multiset(r) == multiset(s) + multiset{x}
  {
    if s == [] || LexLe(x, s[0]) then [x] + s
    else
      assert s == [s[0]] + s[1..];
      [s[0]] + Insert(x, s[1..])
  }

  lemma {:induction false} InsertSorted(x: string, s: seq<string>)
    requires Sorted(s)
    ensures Sorted(Insert(x, s))
  {
    if s == [] {
    } else if LexLe(x, s[0]) {
      var q := [x] + s;
      forall i, j | 0 <= i < j < |q|
        ensures LexLe(q[i], q[j])
      {
        if i > 0 {
          assert q[i] == s[i - 1] && q[j] == s[j - 1];
        } else if j > 1 {
          assert q[j] == s[j - 1];
          LexLeTransitive(x, s[0], s[j - 1]);
        }
      }
    } else {
      InsertSorted(x, s[1..]);
      LexLeTotal(x, s[0]);
      var r := Insert(x, s[1..]);
      forall k | 0 <= k < |r|
        ensures LexLe(s[0], r[k])
      {
        assert r[k] in multiset(r);
        if r[k] != x {
          assert r[k] in multiset(s[1..]);
          var m :| 0 <= m < |s[1..]| && s[1..][m] == r[k];
          assert s[m + 1] == r[k];
        }
      }
      var q := [s[0]] + r;
      assert Insert(x, s) == q;
      forall i, j | 0 <= i < j < |q|
        ensures LexLe(q[i], q[j])
      {
        if i > 0 {
          assert q[i] == r[i - 1] && q[j] == r[j - 1];
        } else {
          assert q[j] == r[j - 1];
        }
      }
    }
  }

  /** `ORDER BY path ASC`: the rows' paths in ascending order. */
  function Sort(s: seq<string>): (r: seq<string>)
    ensures multiset(r) == multiset(s)
  {
    if s == [] then []
    else
      assert s == [s[0]] + s[1..];
      Insert(s[0], Sort(s[1..]))
  }

  lemma {:induction false} SortSorted(s: seq<string>)
    ensures Sorted(Sort(s))
  {
    if s != [] {
      SortSorted(s[1..]);
      InsertSorted(s[0], Sort(s[1..]));
    }
  }

  /** An ascending order is unique: two ascending sequences of the same paths
      are the same sequence. */
  lemma {:induction false} SortedUnique(s: seq<string>, t: seq<string>)
    requires Sorted(s) && Sorted(t) && multiset(s) == multiset(t)
    ensures s == t
  {
    if s == [] {
      assert |t| == |multiset(t)| == 0;
    } else {
      assert s[0] in multiset(t);
      assert t != [] && t[0] in multiset(s);
      var k :| 0 <= k < |t| && t[k] == s[0];
      var m :| 0 <= m < |s| && s[m] == t[0];
      assert LexLe(s[0], s[m]) || m == 0;
      assert LexLe(t[0], t[k]) || k == 0;
      if m != 0 && k != 0 {
        LexLeAntisymmetric(s[0], t[0]);
      }
      assert s[0] == t[0];
      ConsMultiset(s);
      ConsMultiset(t);
      assert multiset(s[1..]) == multiset(s) - multiset{s[0]};
      assert multiset(t[1..]) == multiset(t) - multiset{t[0]};
      SortedTail(s);
      SortedTail(t);
      SortedUnique(s[1..], t[1..]);
    }
  }

  lemma ConsMultiset(s: seq<string>)
    requires s != []
    ensures multiset(s) == multiset{s[0]} + multiset(s[1..])
  {
    assert s == [s[0]] + s[1..];
  }

  lemma SortedTail(s: seq<string>)
    requires s != [] && Sorted(s)
    ensures Sorted(s[1..])
  {
    forall i, j | 0 <= i < j < |s[1..]|
      ensures LexLe(s[1..][i], s[1..][j])
    {
      assert s[1..][i] == s[i + 1] && s[1..][j] == s[j + 1];
    }
  }

  /** `SELECT path FROM clips WHERE starred = 1`, before the ordering. */
  function StarredPaths(order: seq<nat>, clips: map<nat, Clip>): (r: seq<string>)
  {
    if order == [] then []
    else
      var rest := StarredPaths(order[1..], clips);
      if order[0] in clips && clips[order[0]].starred then [clips[order[0]].path] + rest else rest
  }

  /** The full query, lines 37-40. */
  function ExportedPaths(order: seq<nat>, clips: map<nat, Clip>): seq<string>
  {
    Sort(StarredPaths(order, clips))
  }

  /** Exactly the paths of starred clips are exported. */
  lemma {:induction false} StarredPathsExact(order: seq<nat>, clips: map<nat, Clip>, p: string)
    ensures p in StarredPaths(order, clips) <==>
      exists k :: 0 <= k < |order| && order[k] in clips && clips[order[k]].starred && clips[order[k]].path == p
  {
    if order != [] {
      StarredPathsExact(order[1..], clips, p);
      if exists k :: 0 <= k < |order| && order[k] in clips && clips[order[k]].starred && clips[order[k]].path == p {
        var k :| 0 <= k < |order| && order[k] in clips && clips[order[k]].starred && clips[order[k]].path == p;
        if k > 0 {
          assert order[1..][k - 1] == order[k];
        }
      }
      if p in StarredPaths(order[1..], clips) {
        var k :| 0 <= k < |order[1..]| && order[1..][k] in clips && clips[order[1..][k]].starred && clips[order[1..][k]].path == p;
        assert order[k + 1] == order[1..][k];
      }
    }
  }

  /** The exported list is ascending, and a path is in it exactly when some
      starred clip of the catalog has it (the test's one starred, one unstarred
      clip exports one path). */
  lemma ExportedPathsSpec(order: seq<nat>, clips: map<nat, Clip>, p: string)
    requires IsListing(order, clips.Keys)
    ensures Sorted(ExportedPaths(order, clips))
    ensures p in ExportedPaths(order, clips) <==> exists id :: id in clips && clips[id].starred && clips[id].path == p
  {
    SortSorted(StarredPaths(order, clips));
    StarredPathsExact(order, clips, p);
    assert p in ExportedPaths(order, clips) <==> p in multiset(StarredPaths(order, clips));
    if exists id :: id in clips && clips[id].starred && clips[id].path == p {
      var id :| id in clips && clips[id].starred && clips[id].path == p;
      var k :| 0 <= k < |order| && order[k] == id;
    }
  }

  /** With no two clips sharing a path (the UNIQUE constraint), no path is
      written twice. */
  lemma {:induction false} StarredPathsDistinct(order: seq<nat>, clips: map<nat, Clip>)
    requires forall i, j :: 0 <= i < j < |order| ==> order[i] != order[j]
    requires forall a, b :: a in clips && b in clips && a != b ==> clips[a].path != clips[b].path
    ensures forall i, j :: 0 <= i < j < |StarredPaths(order, clips)| ==>
      StarredPaths(order, clips)[i] != StarredPaths(order, clips)[j]
  {
    if order != [] {
      var rest := StarredPaths(order[1..], clips);
      StarredPathsDistinct(order[1..], clips);
      if order[0] in clips && clips[order[0]].starred {
        var p := clips[order[0]].path;
        StarredPathsExact(order[1..], clips, p);
        forall i, j | 0 <= i < j < |[p] + rest|
          ensures ([p] + rest)[i] != ([p] + rest)[j]
        {
          if i == 0 {
            assert ([p] + rest)[j] == rest[j - 1];
          }
        }
      }
    }
  }

  /** In a sequence without repeats every element occurs once. */
  lemma {:induction false} DistinctOnce(s: seq<string>, x: string)
    requires forall i, j :: 0 <= i < j < |s| ==> s[i] != s[j]
    ensures multiset(s)[x] == if x in s then 1 else 0
  {
    if s != [] {
      ConsMultiset(s);
      DistinctOnce(s[1..], x);
      if x == s[0] {
        assert x !in s[1..] by {
          forall k | 0 <= k < |s[1..]|
            ensures s[1..][k] != x
          {
            assert s[1..][k] == s[k + 1];
          }
        }
      }
    }
  }

  /** With paths unique, the exported list does not depend on the order in
      which SQLite happens to list the rows. */
  lemma ExportIgnoresListingOrder(order1: seq<nat>, order2: seq<nat>, clips: map<nat, Clip>)
    requires IsListing(order1, clips.Keys) && IsListing(order2, clips.Keys)
    requires forall a, b :: a in clips && b in clips && a != b ==> clips[a].path != clips[b].path
    ensures ExportedPaths(order1, clips) == ExportedPaths(order2, clips)
  {
    var s1, s2 := StarredPaths(order1, clips), StarredPaths(order2, clips);
    StarredPathsDistinct(order1, clips);
    StarredPathsDistinct(order2, clips);
    forall x
      ensures multiset(s1)[x] == multiset(s2)[x]
    {
      DistinctOnce(s1, x);
      DistinctOnce(s2, x);
      ExportedPathsSpec(order1, clips, x);
      ExportedPathsSpec(order2, clips, x);
      assert x in s1 <==> x in multiset(ExportedPaths(order1, clips));
      assert x in s2 <==> x in multiset(ExportedPaths(order2, clips));
    }
    assert multiset(s1) == multiset(s2);
    SortSorted(s1);
    SortSorted(s2);
    SortedUnique(Sort(s1), Sort(s2));
  }

  /** What lines 46-48 write: every path followed by one newline. */
  function Render(paths: seq<string>): string
  {
    if paths == [] then "" else paths[0] + "\n" + Render(paths[1..])
  }

  lemma {:induction false} RenderSnoc(paths: seq<string>, p: string)
    ensures Render(paths + [p]) == Render(paths) + p + "\n"
  {
    if paths == [] {
      assert [p] + [] == [p];
    } else {
      assert (paths + [p])[1..] == paths[1..] + [p];
      RenderSnoc(paths[1..], p);
    }
  }

  /** Where the first line of `s` ends: its first newline, or its end. */
  function LineEnd(s: string): (i: nat)
    ensures i <= |s| && '\n' !in s[..i]
    ensures i < |s| ==> s[i] == '\n'
  {
    if s == [] || s[0] == '\n' then 0
    else
      var i := LineEnd(s[1..]);
      assert s[..i + 1] == [s[0]] + s[1..][..i];
      i + 1
  }

  /** `str.splitlines()` on a text whose only line break is `\n`: the pieces
      between newlines, with no empty piece after a final newline. */
  function Lines(s: string): seq<string>
    decreases |s|
  {
    if s == [] then []
    else
      var i := LineEnd(s);
      [s[..i]] + (if i < |s| then Lines(s[i + 1..]) else [])
  }

  /** The first line of a path written with its newline is the path. */
  lemma FirstLine(p: string, rest: string)
    requires '\n' !in p
    ensures LineEnd(p + "\n" + rest) == |p|
  {
    if p != [] {
      assert (p + "\n" + rest)[1..] == p[1..] + "\n" + rest;
      assert p[0] in p;
      FirstLine(p[1..], rest);
    }
  }

  /** Reading the file back line by line gives exactly the exported paths, as
      long as no path itself holds a newline. */
  lemma {:induction false} LinesRender(paths: seq<string>)
    requires forall k :: 0 <= k < |paths| ==> '\n' !in paths[k]
    ensures Lines(Render(paths)) == paths
  {
    if paths != [] {
      var s := Render(paths);
      var rest := Render(paths[1..]);
      FirstLine(paths[0], rest);
      assert s[..|paths[0]|] == paths[0];
      assert s[|paths[0]| + 1..] == rest;
      LinesRender(paths[1..]);
      assert paths == [paths[0]] + paths[1..];
    }
  }

  /** A path holding a newline reads back as two lines. */
  lemma NewlineInPathSplits()
    ensures Lines(Render(["a\nb"])) == ["a", "b"]
  {
    var s := Render(["a\nb"]);
    assert s == "a\nb\n";
    assert LineEnd(s) == 1;
    assert s[2..] == "b\n";
    assert LineEnd("b\n") == 1;
    assert s[..1] == "a";
    assert Lines(s) == [s[..1]] + Lines(s[2..]);
    assert "b\n"[..1] == "b" && "b\n"[2..] == [];
    assert Lines("b\n") == ["b"] + Lines([]);
  }

  /** Python's `str(n)` for a count: decimal digits, no leading zero. */
  function Decimal(n: nat): (r: string)
    ensures |r| >= 1 && forall k :: 0 <= k < |r| ==> '0' <= r[k] <= '9'
    ensures n >= 10 ==> r[0] != '0'
  {
    var d := ['0' + (n % 10) as char];
    if n < 10 then d else Decimal(n / 10) + d
  }

  function DigitsValue(s: string): nat
    requires forall k :: 0 <= k < |s| ==> '0' <= s[k] <= '9'
  {
    if s == [] then 0 else DigitsValue(s[..|s| - 1]) * 10 + (s[|s| - 1] - '0') as nat
  }

  /** The digits of the message read back as the count. */
  lemma {:induction false} DecimalValue(n: nat)
    ensures DigitsValue(Decimal(n)) == n
  {
    var r := Decimal(n);
    if n >= 10 {
      DecimalValue(n / 10);
      assert r[..|r| - 1] == Decimal(n / 10);
    }
  }

  /** Line 50's message. */
  function Message(count: nat, fileName: string): string
  {
    "Exported " + Decimal(count) + " starred clip paths to " + fileName
  }

  /** The message names the count in decimal right after "Exported ". */
  lemma MessageCount(count: nat, fileName: string)
    ensures var m := Message(count, fileName);
      && m[..9] == "Exported "
      && m[9..9 + |Decimal(count)|] == Decimal(count)
      && DigitsValue(m[9..9 + |Decimal(count)|]) == count
      && m[9 + |Decimal(count)|] == ' '
  {
    DecimalValue(count);
  }

  /** The class of an exception raised inside the `try` of lines 34-50. */
  datatype Raised = SqliteError(detail: string) | OsError(detail: string) | OtherError(detail: string)

  /** Lines 52-57: each class of exception becomes its own message. */
  function FailureMessage(e: Raised): string
  {
    match e
    case SqliteError(d) => "Database error during export: " + d
    case OsError(d) => "File system error writing export file: " + d
    case OtherError(d) => "An unexpected error occurred during export: " + d
  }

  /** Where the environment raises: while connecting (`get_db_connection`),
      while querying, or while creating the directory and writing the file. */
  datatype ExportEnv = ExportEnv(connectRaises: Option<Raised>, queryRaises: Option<Raised>, writeRaises: Option<Raised>)

  /** What the function returns and what the file holds afterwards, when the
      run got as far as writing it completely. */
  datatype Exported = Exported(success: bool, message: string, file: Option<string>)

  /** The whole of `export_starred_clips`, as a value. */
  function Export(order: seq<nat>, clips: map<nat, Clip>, outputPath: string, env: ExportEnv): Exported
  {
    if env.connectRaises.Some? then Exported(false, FailureMessage(env.connectRaises.value), None)
    else if env.queryRaises.Some? then Exported(false, FailureMessage(env.queryRaises.value), None)
    else if env.writeRaises.Some? then Exported(false, FailureMessage(env.writeRaises.value), None)
    else
      var paths := ExportedPaths(order, clips);
      Exported(true, Message(|paths|, BaseName(outputPath)), Some(Render(paths)))
  }

  /** A successful export: the file lists the starred paths in ascending order,
      one per line, and the message counts exactly the lines written; with no
      starred clip the file is empty and the count is 0. */
  lemma ExportSucceeds(order: seq<nat>, clips: map<nat, Clip>, outputPath: string, env: ExportEnv)
    requires IsListing(order, clips.Keys)
    requires forall id :: id in clips ==> '\n' !in clips[id].path
    requires env.connectRaises.None? && env.queryRaises.None? && env.writeRaises.None?
    ensures var r := Export(order, clips, outputPath, env);
      && r.success && r.file.Some?
      && Lines(r.file.value) == ExportedPaths(order, clips)
      && r.message == Message(|Lines(r.file.value)|, BaseName(outputPath))
      && ((forall id :: id in clips ==> !clips[id].starred) ==> r.file.value == "" && r.message == Message(0, BaseName(outputPath)))
  {
    var paths := ExportedPaths(order, clips);
    forall k | 0 <= k < |paths|
      ensures '\n' !in paths[k]
    {
      assert paths[k] in paths;
      ExportedPathsSpec(order, clips, paths[k]);
    }
    LinesRender(paths);
    if forall id :: id in clips ==> !clips[id].starred {
      if paths != [] {
        ExportedPathsSpec(order, clips, paths[0]);
      }
    }
  }

  /** Every failure is returned, not raised: the flag is false and the message
      is that of the first exception raised. */
  lemma ExportFails(order: seq<nat>, clips: map<nat, Clip>, outputPath: string, env: ExportEnv)
    requires env.connectRaises.Some? || env.queryRaises.Some? || env.writeRaises.Some?
    ensures var r := Export(order, clips, outputPath, env);
      var e := if env.connectRaises.Some? then env.connectRaises.value
        else if env.queryRaises.Some? then env.queryRaises.value
        else env.writeRaises.value;
      !r.success && r.message == FailureMessage(e)
  {
  }

  /** Lines 46-48: one write per path. */
  method WriteLines(paths: seq<string>) returns (content: string)
    ensures content == Render(paths)
  {
    content := "";
    var i := 0;
    while i < |paths|
      invariant i <= |paths| && content == Render(paths[..i])
    {
      RenderSnoc(paths[..i], paths[i]);
      assert paths[..i + 1] == paths[..i] + [paths[i]];
      content := content + paths[i] + "\n";
      i := i + 1;
    }
    assert paths[..i] == paths;
  }

  /** `export_starred_clips(db_path, output_file)`. The connection runs the
      schema set-up of `get_db_connection` before the query. */
  method ExportStarredClips(schema: Database, db: Catalog, order: seq<nat>, outputPath: string, env: ExportEnv)
    returns (success: bool, message: string, file: Option<string>)
    requires IsListing(order, db.clips.Keys)
    modifies schema
    ensures Exported(success, message, file) == Export(order, db.clips, outputPath, env)
    ensures env.connectRaises.Some? ==> unchanged(schema)
    ensures env.connectRaises.None? ==>
      && schema.tables == Connected(old(schema.tables)) && schema.indexes == AfterCreateIndexes(old(schema.indexes))
      && schema.commits == old(schema.commits) + ConnectCommits(old(schema.tables))
  {
    if env.connectRaises.Some? {
      return false, FailureMessage(env.connectRaises.value), None;
    }
    schema.Connect();
    if env.queryRaises.Some? {
      return false, FailureMessage(env.queryRaises.value), None;
    }
    var paths := ExportedPaths(order, db.clips);
    var count := |paths|;
    if env.writeRaises.Some? {
      return false, FailureMessage(env.writeRaises.value), None;
    }
    var content := WriteLines(paths);
    success, message, file := true, Message(count, BaseName(outputPath)), Some(content);
  }
}
