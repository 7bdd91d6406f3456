/** The DDL side of the database module: `create_table`, `migrate_clips_table` and
    `get_db_connection`. The schema maps each table to its columns and uniqueness
    keys; every statement is CREATE ... IF NOT EXISTS or a guarded ALTER. */
module Schema {

  /** The tables the module declares; `OtherTable` stands for any table some other
      code created (the scanner's `scans` table is one). */
  datatype TableName = Clips | Tags | ClipTags | Playlists | PlaylistClips | OtherTable(name: string)

  datatype IndexName = IdxClipsPath | IdxClipsStarred | IdxClipsPhash | OtherIndex(name: string)

  datatype ColumnDef = ColumnDef(name: string, sqlType: string)

  /** Columns in declaration order and the column lists that are UNIQUE or a
      PRIMARY KEY. */
  datatype TableDef = TableDef(columns: seq<ColumnDef>, keys: set<seq<string>>)

  datatype IndexDef = IndexDef(table: TableName, column: string)

  /** What `PRAGMA table_info` reports as column names. */
  function Names(cols: seq<ColumnDef>): seq<string>
  {
    seq(|cols|, i requires 0 <= i < |cols| => cols[i].name)
  }

  const ClipsTable := TableDef(
    [ColumnDef("id", "INTEGER"), ColumnDef("path", "TEXT"), ColumnDef("filename", "TEXT"),
     ColumnDef("duration", "REAL"), ColumnDef("thumbnail_path", "TEXT"), ColumnDef("phash", "TEXT"),
     ColumnDef("starred", "BOOLEAN"), ColumnDef("tags", "TEXT"),
     ColumnDef("scanned_at", "TIMESTAMP"), ColumnDef("modified_at", "TIMESTAMP")],
    {["id"], ["path"]})

  const TagsTable := TableDef([ColumnDef("id", "INTEGER"), ColumnDef("name", "TEXT")], {["id"], ["name"]})

  const ClipTagsTable := TableDef(
    [ColumnDef("clip_id", "INTEGER"), ColumnDef("tag_id", "INTEGER")],
    {["clip_id", "tag_id"]})

  const PlaylistsTable := TableDef(
    [ColumnDef("id", "INTEGER"), ColumnDef("name", "TEXT"), ColumnDef("created_at", "TIMESTAMP")],
    {["id"]})

  const PlaylistClipsTable := TableDef(
    [ColumnDef("playlist_id", "INTEGER"), ColumnDef("clip_id", "INTEGER"), ColumnDef("position", "INTEGER")],
    {["playlist_id", "clip_id"]})

  /** The definition `create_table` gives each table it declares. */
  function DeclaredTable(n: TableName): TableDef
    requires !n.OtherTable?
  {
    match n
    case Clips => ClipsTable
    case Tags => TagsTable
    case ClipTags => ClipTagsTable
    case Playlists => PlaylistsTable
    case PlaylistClips => PlaylistClipsTable
  }

  /** The definition `create_table` gives each index it declares. */
  function DeclaredIndex(n: IndexName): IndexDef
    requires !n.OtherIndex?
  {
    match n
    case IdxClipsPath => IndexDef(Clips, "path")
    case IdxClipsStarred => IndexDef(Clips, "starred")
    case IdxClipsPhash => IndexDef(Clips, "phash")
  }

  /** Every declared table and index exists. */
  ghost predicate Created(t: map<TableName, TableDef>, ix: map<IndexName, IndexDef>)
  {
    (forall n: TableName :: !n.OtherTable? ==> n in t) && (forall n: IndexName :: !n.OtherIndex? ==> n in ix)
  }

  /** `CREATE TABLE IF NOT EXISTS` on the current tables. */
  function EnsureTable(t: map<TableName, TableDef>, n: TableName, d: TableDef): map<TableName, TableDef>
  {
    if n in t then t else t[n := d]
  }

  /** `CREATE INDEX IF NOT EXISTS` on the current indexes. */
  function EnsureIndex(ix: map<IndexName, IndexDef>, n: IndexName, d: IndexDef): map<IndexName, IndexDef>
  {
    if n in ix then ix else ix[n := d]
  }

  /** The tables after the five CREATE TABLE statements of `create_table`. */
  function AfterCreate(t: map<TableName, TableDef>): map<TableName, TableDef>
  {
    var t1 := EnsureTable(t, Clips, ClipsTable);
    var t2 := EnsureTable(t1, Tags, TagsTable);
    var t3 := EnsureTable(t2, ClipTags, ClipTagsTable);
    var t4 := EnsureTable(t3, Playlists, PlaylistsTable);
    EnsureTable(t4, PlaylistClips, PlaylistClipsTable)
  }

  /** The indexes after the three CREATE INDEX statements of `create_table`. */
  function AfterCreateIndexes(ix: map<IndexName, IndexDef>): map<IndexName, IndexDef>
  {
    var ix1 := EnsureIndex(ix, IdxClipsPath, IndexDef(Clips, "path"));
    var ix2 := EnsureIndex(ix1, IdxClipsStarred, IndexDef(Clips, "starred"));
    EnsureIndex(ix2, IdxClipsPhash, IndexDef(Clips, "phash"))
  }

  /** The columns `migrate_clips_table` adds when they are absent, in the order it checks them. */
  const MigratedColumns: seq<ColumnDef> :=
    [ColumnDef("width", "INTEGER"), ColumnDef("height", "INTEGER"),
     ColumnDef("size", "INTEGER"), ColumnDef("codec_name", "TEXT")]

  /** The members of `wanted` whose name `present` lacks, in the order of `wanted`. */
  function Absent(wanted: seq<ColumnDef>, present: seq<ColumnDef>): seq<ColumnDef>
  {
    if wanted == [] then []
    else
      var last := wanted[|wanted| - 1];
      Absent(wanted[..|wanted| - 1], present) + (if last.name in Names(present) then [] else [last])
  }

  /** The ALTER statements `migrate_clips_table` issues for a clips table with `cols`. */
  function MissingColumns(cols: seq<ColumnDef>): seq<ColumnDef>
  {
    Absent(MigratedColumns, cols)
  }

  /** The schema after a migration has added what the clips table lacked. */
  function MigrateClips(t: map<TableName, TableDef>): map<TableName, TableDef>
    requires Clips in t
  {
    t[Clips := TableDef(t[Clips].columns + MissingColumns(t[Clips].columns), t[Clips].keys)]
  }

  /** The tables `get_db_connection` leaves: `create_table`, then the migration. */
  function Connected(t: map<TableName, TableDef>): map<TableName, TableDef>
  {
    MigrateClips(AfterCreate(t))
  }

  /** The commits of `get_db_connection`: one after `create_table`, and one more
      when the migration ran an ALTER. */
  function ConnectCommits(t: map<TableName, TableDef>): nat
  {
    1 + if MissingColumns(AfterCreate(t)[Clips].columns) == [] then 0 else 1
  }

  /** A column is ALTERed in exactly when it is wanted and absent, and in the order wanted. */
  lemma {:induction false} AbsentIsFilter(wanted: seq<ColumnDef>, present: seq<ColumnDef>)
    ensures |Absent(wanted, present)| <= |wanted|
    ensures forall c :: c in Absent(wanted, present) <==> c in wanted && c.name !in Names(present)
  {
    if wanted != [] {
      var init := wanted[..|wanted| - 1];
      AbsentIsFilter(init, present);
      assert wanted == init + [wanted[|wanted| - 1]];
    }
  }

  /** After the migration every migrated column is present, and the columns the
      table had come first, unchanged. */
  lemma MigrationAddsAll(cols: seq<ColumnDef>)
    ensures forall c :: c in MigratedColumns ==> c.name in Names(cols + MissingColumns(cols))
    ensures (cols + MissingColumns(cols))[..|cols|] == cols
  {
    AbsentFills(MigratedColumns, cols);
  }

  /** Appending what is absent makes every wanted name present. */
  lemma AbsentFills(wanted: seq<ColumnDef>, cols: seq<ColumnDef>)
    ensures forall c :: c in wanted ==> c.name in Names(cols + Absent(wanted, cols))
  {
    var extra := Absent(wanted, cols);
    var after := cols + extra;
    AbsentIsFilter(wanted, cols);
    forall c | c in wanted
      ensures c.name in Names(after)
    {
      if c.name in Names(cols) {
        var i :| 0 <= i < |cols| && Names(cols)[i] == c.name;
        assert Names(after)[i] == c.name;
      } else {
        var i :| 0 <= i < |extra| && extra[i] == c;
        assert Names(after)[|cols| + i] == c.name;
      }
    }
  }

  /** A second migration finds nothing to add, so it issues no ALTER and no commit. */
  lemma MigrationIdempotent(cols: seq<ColumnDef>)
    ensures MissingColumns(cols + MissingColumns(cols)) == []
  {
    MigrationAddsAll(cols);
    AbsentNone(MigratedColumns, cols + MissingColumns(cols));
  }

  lemma {:induction false} AbsentNone(wanted: seq<ColumnDef>, present: seq<ColumnDef>)
    requires forall c :: c in wanted ==> c.name in Names(present)
    ensures Absent(wanted, present) == []
  {
    if wanted != [] {
      assert wanted[|wanted| - 1] in wanted;
      AbsentNone(wanted[..|wanted| - 1], present);
    }
  }

  lemma {:induction false} AbsentAll(wanted: seq<ColumnDef>, present: seq<ColumnDef>)
    requires forall c :: c in wanted ==> c.name !in Names(present)
    ensures Absent(wanted, present) == wanted
  {
    if wanted != [] {
      assert wanted[|wanted| - 1] in wanted;
      AbsentAll(wanted[..|wanted| - 1], present);
    }
  }

  /** The columns the scanner and the duplicate pass write but the schema never declares. */
  predicate ScanColumn(n: string)
  {
    n == "scan_id" || n == "needs_review" || n == "duplicate_of"
  }

  /** A database opened for the first time ends up without a `scan_id`,
      `needs_review` or `duplicate_of` column, all of which the scanner and the
      duplicate pass write. */
  lemma FreshSchemaLacksScanColumns()
    ensures forall n :: n in Names(ClipsTable.columns + MissingColumns(ClipsTable.columns)) ==> !ScanColumn(n)
  {
    var cols := ClipsTable.columns;
    forall i | 0 <= i < |cols|
      ensures !ScanColumn(cols[i].name)
    {
    }
    NoScanColumnAfterMigration(cols);
  }

  lemma NoScanColumnAfterMigration(base: seq<ColumnDef>)
    requires forall c :: c in base ==> !ScanColumn(c.name)
    ensures forall n :: n in Names(base + MissingColumns(base)) ==> !ScanColumn(n)
  {
    var all := base + MissingColumns(base);
    AbsentIsFilter(MigratedColumns, base);
    forall i | 0 <= i < |all|
      ensures !ScanColumn(Names(all)[i])
    {
      assert all[i] in base || all[i] in MigratedColumns;
    }
  }

  /** The migration never adds `scan_id`. */
  lemma MigrationAddsNoScanId(cols: seq<ColumnDef>)
    ensures "scan_id" in Names(cols + MissingColumns(cols)) ==> "scan_id" in Names(cols)
  {
    var all := cols + MissingColumns(cols);
    if "scan_id" in Names(all) {
      var i :| 0 <= i < |all| && Names(all)[i] == "scan_id";
      AbsentIsFilter(MigratedColumns, cols);
      assert i < |cols|;
      assert Names(cols)[i] == "scan_id";
    }
  }

  /** The declared clips table has no `scan_id`. */
  lemma ClipsTableLacksScanId()
    ensures "scan_id" !in Names(ClipsTable.columns)
  {
    assert Names(ClipsTable.columns) ==
      ["id", "path", "filename", "duration", "thumbnail_path", "phash", "starred", "tags",
       "scanned_at", "modified_at"];
  }

  /** Connecting never adds `scan_id`: the clips table has it afterwards only if
      it had it before. */
  lemma ConnectKeepsScanId(t: map<TableName, TableDef>)
    ensures "scan_id" in Names(Connected(t)[Clips].columns) ==> Clips in t && "scan_id" in Names(t[Clips].columns)
  {
    var before := AfterCreate(t)[Clips];
    assert Connected(t)[Clips].columns == before.columns + MissingColumns(before.columns);
    MigrationAddsNoScanId(before.columns);
    if Clips !in t {
      ClipsTableLacksScanId();
    }
  }

  /** `create_table` only fills in what is missing: on a database that already has
      every declared table and index, it leaves the schema as it was. */
  lemma CreateTableIdempotent(t: map<TableName, TableDef>, ix: map<IndexName, IndexDef>)
    requires Created(t, ix)
    ensures AfterCreate(t) == t && AfterCreateIndexes(ix) == ix
  {
    assert Clips in t && Tags in t && ClipTags in t && Playlists in t && PlaylistClips in t;
    assert IdxClipsPath in ix && IdxClipsStarred in ix && IdxClipsPhash in ix;
  }

  /** None of the migrated columns is part of the declared clips table, so the
      first connection to a new database issues all four ALTERs. */
  lemma FreshTableGetsAllAlters()
    ensures MissingColumns(ClipsTable.columns) == MigratedColumns
  {
    assert Names(ClipsTable.columns) ==
      ["id", "path", "filename", "duration", "thumbnail_path", "phash", "starred", "tags",
       "scanned_at", "modified_at"];
    AbsentAll(MigratedColumns, ClipsTable.columns);
  }

  /** `create_table` declares every table, keeps the definition of one that
      exists already, gives a missing one the declared definition, and adds no
      other table. */
  lemma AfterCreateSpec(t: map<TableName, TableDef>)
    ensures forall n :: n in AfterCreate(t) <==> n in t || !n.OtherTable?
    ensures forall n :: n in AfterCreate(t) ==> AfterCreate(t)[n] == if n in t then t[n] else DeclaredTable(n)
  {
    forall n ensures n in AfterCreate(t) <==> n in t || !n.OtherTable? {
    }
  }

  /** The same for the three indexes. */
  lemma AfterCreateIndexesSpec(ix: map<IndexName, IndexDef>)
    ensures forall n :: n in AfterCreateIndexes(ix) <==> n in ix || !n.OtherIndex?
    ensures forall n :: n in AfterCreateIndexes(ix) ==>
      AfterCreateIndexes(ix)[n] == if n in ix then ix[n] else DeclaredIndex(n)
  {
  }

  /** Connecting a second time leaves every table and index as the first
      connection left it, and commits once (the `create_table` commit). */
  lemma ConnectIdempotent(t: map<TableName, TableDef>, ix: map<IndexName, IndexDef>)
    ensures Connected(Connected(t)) == Connected(t)
    ensures AfterCreateIndexes(AfterCreateIndexes(ix)) == AfterCreateIndexes(ix)
    ensures ConnectCommits(Connected(t)) == 1
  {
    var c := Connected(t);
    assert AfterCreate(c) == c;
    MigrationIdempotent(AfterCreate(t)[Clips].columns);
    assert c[Clips].columns == AfterCreate(t)[Clips].columns + MissingColumns(AfterCreate(t)[Clips].columns);
    var cl := c[Clips];
    assert MissingColumns(cl.columns) == [] && cl.columns + [] == cl.columns;
    assert TableDef(cl.columns + MissingColumns(cl.columns), cl.keys) == cl;
    assert MigrateClips(c) == c[Clips := cl] == c;
  }

  class Database {
    var tables: map<TableName, TableDef>
    var indexes: map<IndexName, IndexDef>
    var commits: nat

    /** `sqlite3.connect` on a file that does not exist yet. */
    constructor ()
      ensures tables == map[] && indexes == map[] && commits == 0
    {
      tables, indexes, commits := map[], map[], 0;
    }

    method CreateTableIfNotExists(name: TableName, def: TableDef)
      modifies this`tables
      ensures tables == EnsureTable(old(tables), name, def)
      ensures forall n :: n in tables <==> n in old(tables) || n == name
      ensures forall n :: n in tables ==> tables[n] == if n in old(tables) then old(tables)[n] else def
    {
      if name !in tables {
        tables := tables[name := def];
      }
    }

    method CreateIndexIfNotExists(name: IndexName, def: IndexDef)
      modifies this`indexes
      ensures indexes == EnsureIndex(old(indexes), name, def)
      ensures forall n :: n in indexes <==> n in old(indexes) || n == name
      ensures forall n :: n in indexes ==> indexes[n] == if n in old(indexes) then old(indexes)[n] else def
    {
      if name !in indexes {
        indexes := indexes[name := def];
      }
    }

    /** `create_table`: a table or index that already exists keeps its definition,
        a missing one gets the declared one, and nothing else is touched; the
        connection commits once. Run on a schema that has them all, it changes no
        table and no index. */
    method CreateTable()
      modifies this`tables, this`indexes, this`commits
      ensures tables == AfterCreate(old(tables)) && indexes == AfterCreateIndexes(old(indexes))
      ensures commits == old(commits) + 1
    {
      CreateTableIfNotExists(Clips, ClipsTable);
      CreateIndexIfNotExists(IdxClipsPath, IndexDef(Clips, "path"));
      CreateIndexIfNotExists(IdxClipsStarred, IndexDef(Clips, "starred"));
      CreateIndexIfNotExists(IdxClipsPhash, IndexDef(Clips, "phash"));
      CreateTableIfNotExists(Tags, TagsTable);
      CreateTableIfNotExists(ClipTags, ClipTagsTable);
      CreateTableIfNotExists(Playlists, PlaylistsTable);
      CreateTableIfNotExists(PlaylistClips, PlaylistClipsTable);
      commits := commits + 1;
    }

    /** One `ALTER TABLE clips ADD COLUMN`. */
    method AddClipsColumn(c: ColumnDef)
      requires Clips in tables
      modifies this`tables
      ensures tables == old(tables)[Clips := TableDef(old(tables)[Clips].columns + [c], old(tables)[Clips].keys)]
    {
      tables := tables[Clips := TableDef(tables[Clips].columns + [c], tables[Clips].keys)];
    }

    /** The PRAGMA-driven checks of `migrate_clips_table`: which ALTERs to issue
        for a clips table with `cols`. */
    static method PlanAlters(cols0: seq<ColumnDef>) returns (alters: seq<ColumnDef>)
      ensures alters == MissingColumns(cols0)
    {
      var columns := Names(cols0);
      alters := [];
      if "width" !in columns {
        alters := alters + [ColumnDef("width", "INTEGER")];
      }
      assert MigratedColumns[..1][..0] == [];
      assert alters == Absent(MigratedColumns[..1], cols0);
      if "height" !in columns {
        alters := alters + [ColumnDef("height", "INTEGER")];
      }
      assert MigratedColumns[..2][..1] == MigratedColumns[..1];
      assert alters == Absent(MigratedColumns[..2], cols0);
      if "size" !in columns {
        alters := alters + [ColumnDef("size", "INTEGER")];
      }
      assert MigratedColumns[..3][..2] == MigratedColumns[..2];
      assert alters == Absent(MigratedColumns[..3], cols0);
      if "codec_name" !in columns {
        alters := alters + [ColumnDef("codec_name", "TEXT")];
      }
      assert MigratedColumns[..4][..3] == MigratedColumns[..3] && MigratedColumns[..4] == MigratedColumns;
    }

    /** `migrate_clips_table`: one ALTER per migrated column the clips table lacks,
        appended in order, and a commit only when some ALTER ran. */
    method MigrateClipsTable() returns (alters: seq<ColumnDef>)
      requires Clips in tables
      modifies this`tables, this`commits
      ensures alters == MissingColumns(old(tables)[Clips].columns)
      ensures tables == MigrateClips(old(tables))
      ensures commits == old(commits) + (if alters == [] then 0 else 1)
    {
      var cols0, keys0 := tables[Clips].columns, tables[Clips].keys;
      alters := PlanAlters(cols0);
      assert tables[Clips] == TableDef(cols0, keys0) && cols0 + alters[..0] == cols0;
      assert tables == tables[Clips := TableDef(cols0 + alters[..0], keys0)];
      var k := 0;
      while k < |alters|
        invariant 0 <= k <= |alters|
        invariant tables == old(tables)[Clips := TableDef(cols0 + alters[..k], keys0)]
        invariant commits == old(commits)
      {
        AddClipsColumn(alters[k]);
        assert cols0 + alters[..k + 1] == cols0 + alters[..k] + [alters[k]];
        k := k + 1;
      }
      assert alters[..k] == alters;
      if alters != [] {
        commits := commits + 1;
      }
    }

    /** `get_db_connection`: `create_table` and then `migrate_clips_table`, always
        in that order, before the connection is handed out. */
    method Connect()
      modifies this
      ensures Created(tables, indexes)
      ensures var before := if Clips in old(tables) then old(tables)[Clips] else ClipsTable;
        tables[Clips] == TableDef(before.columns + MissingColumns(before.columns), before.keys)
      ensures forall n :: n != Clips ==> (n in tables <==> n in old(tables) || !n.OtherTable?)
      ensures forall n :: n != Clips && n in tables ==> tables[n] == if n in old(tables) then old(tables)[n] else DeclaredTable(n)
      ensures forall c :: c in MigratedColumns ==> c.name in Names(tables[Clips].columns)
      ensures tables == Connected(old(tables)) && indexes == AfterCreateIndexes(old(indexes))
      ensures commits == old(commits) + ConnectCommits(old(tables))
    {
      ghost var before := if Clips in tables then tables[Clips] else ClipsTable;
      ghost var t0, ix0 := tables, indexes;
      CreateTable();
      AfterCreateSpec(t0);
      AfterCreateIndexesSpec(ix0);
      var _ := MigrateClipsTable();
      MigrationAddsAll(before.columns);
    }
  }
}
