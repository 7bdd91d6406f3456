/** `migrate_tags` of `db_migrate_tags.py`: the legacy comma-separated
    `clips.tags` strings are parsed, every distinct tag name gets a row in
    `tags` (an existing row is reused), and every clip is linked to each of its
    tags in `clip_tags`. A dry run writes nothing. */
module TagMigration {
  import opened Common
  import opened Store
  import opened TagParse

  /** One row of `SELECT id, tags FROM clips`. */
  datatype TagRow = TagRow(id: nat, tags: Option<string>)

  /** The rows of the SELECT, in the order SQLite lists the clips. */
  function TagRows(order: seq<nat>, clips: map<nat, Clip>): (rows: seq<TagRow>)
    ensures |rows| <= |order|
    ensures forall k :: 0 <= k < |rows| ==> rows[k].id in clips && rows[k].tags == clips[rows[k].id].tags
  {
    if order == [] then []
    else
      var rest := TagRows(order[1..], clips);
      if order[0] in clips then [TagRow(order[0], clips[order[0]].tags)] + rest else rest
  }

  /** Every clip of the listing is fetched by the SELECT. */
  lemma {:induction false} TagRowsComplete(order: seq<nat>, clips: map<nat, Clip>, id: nat) returns (k: nat)
    requires id in order && id in clips
    ensures k < |TagRows(order, clips)| && TagRows(order, clips)[k] == TagRow(id, clips[id].tags)
  {
    if order[0] == id {
      k := 0;
    } else {
      assert id in order[1..];
      var k' := TagRowsComplete(order[1..], clips, id);
      k := if order[0] in clips then k' + 1 else k';
    }
  }

  /** `clip_to_tags` after step 2: the parsed tag list of every clip that has at
      least one tag, in row order. */
  function ClipToTags(rows: seq<TagRow>): (r: seq<(nat, seq<string>)>)
    ensures |r| <= |rows|
  {
    if rows == [] then []
    else
      var prev := ClipToTags(rows[..|rows| - 1]);
      var row := rows[|rows| - 1];
      var tags := ParseTags(row.tags);
      if tags == [] then prev else prev + [(row.id, tags)]
  }

  /** `tag_set` after step 2. */
  function TagSet(rows: seq<TagRow>): set<string>
  {
    if rows == [] then {}
    else
      var tags := ParseTags(rows[|rows| - 1].tags);
      TagSet(rows[..|rows| - 1]) + set t | t in tags
  }

  /** `tag_set` is exactly the union of the parsed tags of all clips. */
  lemma {:induction false} TagSetExact(rows: seq<TagRow>, t: string)
    ensures t in TagSet(rows) <==> exists k :: 0 <= k < |rows| && t in ParseTags(rows[k].tags)
  {
    if rows != [] {
      var init := rows[..|rows| - 1];
      TagSetExact(init, t);
      if t in TagSet(init) {
        var k :| 0 <= k < |init| && t in ParseTags(init[k].tags);
        assert rows[k] == init[k];
      }
      if exists k :: 0 <= k < |rows| && t in ParseTags(rows[k].tags) {
        var k :| 0 <= k < |rows| && t in ParseTags(rows[k].tags);
        if k < |init| {
          assert rows[k] == init[k];
        }
      }
    }
  }

  /** One more row adds its list, when it has tags. */
  lemma ClipToTagsStep(rows: seq<TagRow>)
    requires rows != []
    ensures var init, row := rows[..|rows| - 1], rows[|rows| - 1];
      ClipToTags(rows) == ClipToTags(init) + (if ParseTags(row.tags) == [] then [] else [(row.id, ParseTags(row.tags))])
  {
  }

  /** Where a row with tags sits in `clip_to_tags`. */
  lemma {:induction false} ClipToTagsIndex(rows: seq<TagRow>, k: nat) returns (j: nat)
    requires k < |rows| && ParseTags(rows[k].tags) != []
    ensures j < |ClipToTags(rows)| && ClipToTags(rows)[j] == (rows[k].id, ParseTags(rows[k].tags))
  {
    var init := rows[..|rows| - 1];
    ClipToTagsStep(rows);
    if k == |rows| - 1 {
      j := |ClipToTags(init)|;
    } else {
      assert init[k] == rows[k];
      j := ClipToTagsIndex(init, k);
    }
  }

  /** Which row an entry of `clip_to_tags` comes from. */
  lemma {:induction false} ClipToTagsRow(rows: seq<TagRow>, j: nat) returns (k: nat)
    requires j < |ClipToTags(rows)|
    ensures k < |rows| && ClipToTags(rows)[j] == (rows[k].id, ParseTags(rows[k].tags))
  {
    var init := rows[..|rows| - 1];
    if j < |ClipToTags(init)| {
      k := ClipToTagsRow(init, j);
      assert init[k] == rows[k];
    } else {
      k := |rows| - 1;
    }
  }

  /** Every name in `clip_to_tags` is in `tag_set`. */
  lemma ClipToTagsNamed(rows: seq<TagRow>, j: nat, t: string)
    requires j < |ClipToTags(rows)| && t in ClipToTags(rows)[j].1
    ensures t in TagSet(rows)
  {
    var k := ClipToTagsRow(rows, j);
    TagSetExact(rows, t);
  }

  /** Step 3 in apply mode (lines 36-47): each name, in the order the set is
      iterated, keeps the id of its existing `tags` row or is inserted under the
      next AUTOINCREMENT id. */
  function Assign(tagIds: map<string, nat>, next: nat, names: seq<string>): (r: (map<string, nat>, nat))
    ensures next <= r.1
  {
    if names == [] then (tagIds, next)
    else
      var prev := Assign(tagIds, next, names[..|names| - 1]);
      var t := names[|names| - 1];
      if t in prev.0 then prev else (prev.0[t := prev.1], prev.1 + 1)
  }

  /** After step 3 exactly the old names and the iterated names have ids. */
  lemma {:induction false} AssignKeys(tagIds: map<string, nat>, next: nat, names: seq<string>)
    ensures forall t :: t in Assign(tagIds, next, names).0 <==> t in tagIds || t in names
  {
    if names != [] {
      AssignKeys(tagIds, next, names[..|names| - 1]);
      assert forall u :: u in names <==> u in names[..|names| - 1] || u == names[|names| - 1];
    }
  }

  /** One more name, as the loop of step 3 takes it. */
  lemma AssignStep(tagIds: map<string, nat>, next: nat, names: seq<string>, i: nat)
    requires i < |names|
    ensures var prev := Assign(tagIds, next, names[..i]);
      Assign(tagIds, next, names[..i + 1])
        == if names[i] in prev.0 then prev else (prev.0[names[i] := prev.1], prev.1 + 1)
  {
    assert names[..i + 1][..i] == names[..i];
  }

  /** Existing names keep their ids, a new name gets an id the counter had not
      reached, and the `tags` table stays valid (ids below the counter and
      distinct). */
  lemma {:induction false} AssignFacts(tagIds: map<string, nat>, next: nat, names: seq<string>)
    requires TagsValid(tagIds, next)
    ensures var r := Assign(tagIds, next, names);
      && (forall t :: t in tagIds ==> t in r.0 && r.0[t] == tagIds[t])
      && (forall t :: t in r.0 && t !in tagIds ==> next <= r.0[t])
      && TagsValid(r.0, r.1)
  {
    if names != [] {
      AssignFacts(tagIds, next, names[..|names| - 1]);
    }
  }

  /** With every name already present nothing is inserted. */
  lemma {:induction false} AssignKnown(tagIds: map<string, nat>, next: nat, names: seq<string>)
    requires forall t :: t in names ==> t in tagIds
    ensures Assign(tagIds, next, names) == (tagIds, next)
  {
    if names != [] {
      assert forall t :: t in names[..|names| - 1] ==> t in names;
      AssignKnown(tagIds, next, names[..|names| - 1]);
    }
  }

  predicate Named(lists: seq<(nat, seq<string>)>, ids: map<string, nat>)
  {
    forall k, t :: 0 <= k < |lists| && t in lists[k].1 ==> t in ids
  }

  /** The links one clip's list asks for. */
  function ClipLinks(c: nat, tags: seq<string>, ids: map<string, nat>): set<(nat, nat)>
    requires forall t :: t in tags ==> t in ids
  {
    set t | t in tags :: (c, ids[t])
  }

  /** Step 4 (lines 52-63): the (clip, tag) pairs INSERT OR IGNORE writes. */
  function Links(lists: seq<(nat, seq<string>)>, ids: map<string, nat>): set<(nat, nat)>
    requires Named(lists, ids)
  {
    if lists == [] then {}
    else
      var init := lists[..|lists| - 1];
      assert forall k :: 0 <= k < |init| ==> init[k] == lists[k];
      Links(init, ids) + ClipLinks(lists[|lists| - 1].0, lists[|lists| - 1].1, ids)
  }

  /** Every name of every list is linked to its clip. */
  lemma {:induction false} LinksComplete(lists: seq<(nat, seq<string>)>, ids: map<string, nat>, k: nat, t: string)
    requires Named(lists, ids)
    requires k < |lists| && t in lists[k].1
    ensures (lists[k].0, ids[t]) in Links(lists, ids)
  {
    var init := lists[..|lists| - 1];
    if k < |init| {
      assert init[k] == lists[k];
      LinksComplete(init, ids, k, t);
    }
  }

  /** Every link comes from a name of some list. */
  lemma {:induction false} LinksSound(lists: seq<(nat, seq<string>)>, ids: map<string, nat>, c: nat, i: nat)
    returns (k: nat, t: string)
    requires Named(lists, ids)
    requires (c, i) in Links(lists, ids)
    ensures k < |lists| && t in lists[k].1 && c == lists[k].0 && ids[t] == i
  {
    var init := lists[..|lists| - 1];
    assert forall j :: 0 <= j < |init| ==> init[j] == lists[j];
    if (c, i) in Links(init, ids) {
      k, t := LinksSound(init, ids, c, i);
    } else {
      k := |lists| - 1;
      t :| t in lists[k].1 && (c, i) == (lists[k].0, ids[t]);
    }
  }

  /** `clip_to_tags` only names tags the apply mode has given an id. */
  lemma NamedAfterAssign(rows: seq<TagRow>, names: seq<string>, tagIds: map<string, nat>, next: nat)
    requires forall t :: t in names <==> t in TagSet(rows)
    ensures Named(ClipToTags(rows), Assign(tagIds, next, names).0)
  {
    AssignKeys(tagIds, next, names);
    forall j, t | 0 <= j < |ClipToTags(rows)| && t in ClipToTags(rows)[j].1
      ensures t in Assign(tagIds, next, names).0
    {
      ClipToTagsNamed(rows, j, t);
    }
  }

  /** The `tags` table, its counter and `clip_tags` after an apply run over
      `rows`, with the tag set iterated in the order `names`. */
  function Applied(rows: seq<TagRow>, names: seq<string>, tagIds: map<string, nat>, next: nat,
                   clipTags: set<(nat, nat)>): (r: (map<string, nat>, nat, set<(nat, nat)>))
    requires forall t :: t in names <==> t in TagSet(rows)
  {
    NamedAfterAssign(rows, names, tagIds, next);
    var (ids, n) := Assign(tagIds, next, names);
    (ids, n, clipTags + Links(ClipToTags(rows), ids))
  }

  /** After an apply run every (clip, parsed tag) pair is linked to the tag's
      id. */
  lemma AppliedLinksEveryTag(rows: seq<TagRow>, names: seq<string>, tagIds: map<string, nat>, next: nat,
                             clipTags: set<(nat, nat)>, k: nat, t: string)
    requires forall t :: t in names <==> t in TagSet(rows)
    requires k < |rows| && t in ParseTags(rows[k].tags)
    ensures var r := Applied(rows, names, tagIds, next, clipTags);
      t in r.0 && (rows[k].id, r.0[t]) in r.2
  {
    var ids := Assign(tagIds, next, names).0;
    NamedAfterAssign(rows, names, tagIds, next);
    var j := ClipToTagsIndex(rows, k);
    LinksComplete(ClipToTags(rows), ids, j, t);
  }

  /** Over a listing of the whole catalog, an apply run links every clip to
      each tag parsed from its `tags` column. */
  lemma CatalogLinksEveryTag(order: seq<nat>, clips: map<nat, Clip>, names: seq<string>, tagIds: map<string, nat>,
                             next: nat, clipTags: set<(nat, nat)>, id: nat, t: string)
    requires IsListing(order, clips.Keys)
    requires forall t :: t in names <==> t in TagSet(TagRows(order, clips))
    requires id in clips && t in ParseTags(clips[id].tags)
    ensures var r := Applied(TagRows(order, clips), names, tagIds, next, clipTags);
      t in r.0 && (id, r.0[t]) in r.2
  {
    var k := TagRowsComplete(order, clips, id);
    AppliedLinksEveryTag(TagRows(order, clips), names, tagIds, next, clipTags, k, t);
  }

  /** Every link an apply run adds pairs a clip with one of its parsed tags. */
  lemma AppliedLinksOnlyTags(rows: seq<TagRow>, names: seq<string>, tagIds: map<string, nat>, next: nat,
                             clipTags: set<(nat, nat)>, c: nat, i: nat)
    requires forall t :: t in names <==> t in TagSet(rows)
    requires var r := Applied(rows, names, tagIds, next, clipTags);
      (c, i) in r.2 && (c, i) !in clipTags
    ensures var r := Applied(rows, names, tagIds, next, clipTags);
      exists k, t :: 0 <= k < |rows| && t in ParseTags(rows[k].tags) && t in r.0 && c == rows[k].id && r.0[t] == i
  {
    var ids := Assign(tagIds, next, names).0;
    NamedAfterAssign(rows, names, tagIds, next);
    var j, t := LinksSound(ClipToTags(rows), ids, c, i);
    var k := ClipToTagsRow(rows, j);
    assert 0 <= k < |rows| && t in ParseTags(rows[k].tags) && c == rows[k].id && ids[t] == i;
  }

  /** Running the apply mode a second time, with the set iterated in any order,
      leaves `tags` and `clip_tags` as the first run left them. */
  lemma ApplyIdempotent(rows: seq<TagRow>, names: seq<string>, names2: seq<string>, tagIds: map<string, nat>,
                        next: nat, clipTags: set<(nat, nat)>)
    requires forall t :: t in names <==> t in TagSet(rows)
    requires forall t :: t in names2 <==> t in TagSet(rows)
    ensures var once := Applied(rows, names, tagIds, next, clipTags);
      Applied(rows, names2, once.0, once.1, once.2) == once
  {
    var once := Applied(rows, names, tagIds, next, clipTags);
    AssignKeys(tagIds, next, names);
    AssignKnown(once.0, once.1, names2);
  }

  /** Step 2 (lines 22-30): collect `tag_set` and `clip_to_tags`. */
  method CollectTags(rows: seq<TagRow>) returns (tagSet: set<string>, clipToTags: seq<(nat, seq<string>)>)
    ensures tagSet == TagSet(rows) && clipToTags == ClipToTags(rows)
  {
    tagSet, clipToTags := {}, [];
    var i := 0;
    while i < |rows|
      invariant i <= |rows|
      invariant tagSet == TagSet(rows[..i]) && clipToTags == ClipToTags(rows[..i])
    {
      var tagList := ParseTags(rows[i].tags);
      var added: seq<string> := [];
      var j := 0;
      while j < |tagList|
        invariant j <= |tagList| && added == tagList[..j]
        invariant tagSet == TagSet(rows[..i]) + set t | t in added
      {
        tagSet := tagSet + {tagList[j]};
        added := added + [tagList[j]];
        j := j + 1;
      }
      assert added == tagList;
      if added != [] {
        clipToTags := clipToTags + [(rows[i].id, added)];
      }
      assert rows[..i + 1][..i] == rows[..i];
      i := i + 1;
    }
    assert rows[..i] == rows;
  }

  /** Step 3 (lines 35-49): look every name up in `tags`; in apply mode insert
      the missing ones, in a dry run record them as unknown. */
  method AssignIds(db: Catalog, names: seq<string>, dryRun: bool) returns (nameToId: map<string, Option<nat>>)
    modifies db`tagIds, db`nextTagId
    ensures nameToId.Keys == set t | t in names
    ensures dryRun ==> db.tagIds == old(db.tagIds) && db.nextTagId == old(db.nextTagId)
    ensures dryRun ==> forall t :: t in nameToId ==> nameToId[t] == if t in db.tagIds then Some(db.tagIds[t]) else None
    ensures !dryRun ==> (db.tagIds, db.nextTagId) == Assign(old(db.tagIds), old(db.nextTagId), names)
    ensures !dryRun ==> forall t :: t in nameToId ==> t in db.tagIds && nameToId[t] == Some(db.tagIds[t])
  {
    nameToId := map[];
    var i := 0;
    while i < |names|
      invariant i <= |names|
      invariant nameToId.Keys == set t | t in names[..i]
      invariant dryRun ==> db.tagIds == old(db.tagIds) && db.nextTagId == old(db.nextTagId)
      invariant dryRun ==> forall t :: t in nameToId ==> nameToId[t] == if t in db.tagIds then Some(db.tagIds[t]) else None
      invariant !dryRun ==> (db.tagIds, db.nextTagId) == Assign(old(db.tagIds), old(db.nextTagId), names[..i])
      invariant !dryRun ==> forall t :: t in nameToId ==> t in db.tagIds && nameToId[t] == Some(db.tagIds[t])
    {
      var tag := names[i];
      var tagId: Option<nat>;
      if tag in db.tagIds {
        tagId := Some(db.tagIds[tag]);
      } else if !dryRun {
        db.tagIds := db.tagIds[tag := db.nextTagId];
        tagId := Some(db.nextTagId);
        db.nextTagId := db.nextTagId + 1;
      } else {
        tagId := None;
      }
      nameToId := nameToId[tag := tagId];
      AssignStep(old(db.tagIds), old(db.nextTagId), names, i);
      assert forall u :: u in names[..i + 1] <==> u in names[..i] || u == tag;
      i := i + 1;
    }
    assert names[..i] == names;
  }

  /** Step 4 (lines 52-65): in apply mode INSERT OR IGNORE one link per listed
      tag, falling back to a lookup in `tags` for a name without an id; a dry
      run writes nothing. */
  method LinkAll(db: Catalog, lists: seq<(nat, seq<string>)>, nameToId: map<string, Option<nat>>, dryRun: bool)
    requires forall k, t :: 0 <= k < |lists| && t in lists[k].1 ==> t in nameToId
    requires !dryRun ==> Named(lists, db.tagIds)
    requires !dryRun ==> forall t :: t in nameToId && nameToId[t].Some? ==> t in db.tagIds && nameToId[t].value == db.tagIds[t]
    modifies db`clipTags
    ensures dryRun ==> db.clipTags == old(db.clipTags)
    ensures !dryRun ==> db.clipTags == old(db.clipTags) + Links(lists, db.tagIds)
  {
    var i := 0;
    while i < |lists|
      invariant i <= |lists|
      invariant dryRun ==> db.clipTags == old(db.clipTags)
      invariant !dryRun ==> Named(lists[..i], db.tagIds) && db.clipTags == old(db.clipTags) + Links(lists[..i], db.tagIds)
    {
      var (clipId, tags) := lists[i];
      var j := 0;
      while j < |tags|
        invariant j <= |tags|
        invariant dryRun ==> db.clipTags == old(db.clipTags)
        invariant !dryRun ==> db.clipTags == old(db.clipTags) + Links(lists[..i], db.tagIds) + ClipLinks(clipId, tags[..j], db.tagIds)
      {
        var tag := tags[j];
        var tagId := nameToId[tag];
        if !dryRun {
          var id := match tagId case Some(v) => v case None => db.tagIds[tag];
          db.clipTags := db.clipTags + {(clipId, id)};
          assert forall u :: u in tags[..j + 1] <==> u in tags[..j] || u == tag;
        }
        j := j + 1;
      }
      assert tags[..j] == tags;
      assert lists[..i + 1][..i] == lists[..i];
      i := i + 1;
    }
    assert lists[..i] == lists;
  }

  /** `migrate_tags(dry_run)` over the clips listed in `order`, with the tag set
      iterated in the order `names`. */
  method MigrateTags(db: Catalog, order: seq<nat>, names: seq<string>, dryRun: bool)
    requires db.Valid()
    requires IsListing(order, db.clips.Keys)
    requires forall t :: t in names <==> t in TagSet(TagRows(order, db.clips))
    modifies db`tagIds, db`nextTagId, db`clipTags
    ensures db.Valid()
    ensures dryRun ==> db.tagIds == old(db.tagIds) && db.nextTagId == old(db.nextTagId) && db.clipTags == old(db.clipTags)
    ensures !dryRun ==>
      (db.tagIds, db.nextTagId, db.clipTags) == Applied(TagRows(order, db.clips), names, old(db.tagIds), old(db.nextTagId), old(db.clipTags))
  {
    var rows := TagRows(order, db.clips);
    var tagSet, clipToTags := CollectTags(rows);
    AssignFacts(db.tagIds, db.nextTagId, names);
    var nameToId := AssignIds(db, names, dryRun);
    if !dryRun {
      NamedAfterAssign(rows, names, old(db.tagIds), old(db.nextTagId));
    }
    forall k, t | 0 <= k < |clipToTags| && t in clipToTags[k].1
      ensures t in nameToId
    {
      ClipToTagsNamed(rows, k, t);
    }
    LinkAll(db, clipToTags, nameToId, dryRun);
  }
}
