/** `main` of `retro_flag_duplicates.py`: a greedy pass groups the clips whose
    fingerprints lie within `THRESHOLD` of a group's first clip, clears every
    duplicate flag, and flags each group member but the lowest id as a
    duplicate of that id. */
module RetroFlag {
  import opened Common
  import opened Store
  import opened Hamming

  /** One row of `SELECT id, phash FROM clips WHERE phash IS NOT NULL`. */
  datatype HashedRow = HashedRow(id: nat, phash: string)

  /** The rows of the SELECT, in the order SQLite lists the clips. */
  function Loaded(order: seq<nat>, clips: map<nat, Clip>): (rows: seq<HashedRow>)
    ensures |rows| <= |order|
    ensures forall k :: 0 <= k < |rows| ==>
      rows[k].id in order && rows[k].id in clips && clips[rows[k].id].phash == Some(rows[k].phash)
  {
    if order == [] then []
    else
      var rest := Loaded(order[1..], clips);
      assert forall x :: x in order[1..] ==> x in order;
      if order[0] in clips && clips[order[0]].phash.Some? then [HashedRow(order[0], clips[order[0]].phash.value)] + rest
      else rest
  }

  /** Every clip with a fingerprint is loaded. */
  lemma {:induction false} LoadedComplete(order: seq<nat>, clips: map<nat, Clip>, id: nat)
    requires id in order && id in clips && clips[id].phash.Some?
    ensures exists k :: 0 <= k < |Loaded(order, clips)| && Loaded(order, clips)[k].id == id
  {
    var rows := Loaded(order, clips);
    var rest := Loaded(order[1..], clips);
    if order[0] == id {
      assert rows[0].id == id;
    } else {
      LoadedComplete(order[1..], clips, id);
      var k :| 0 <= k < |rest| && rest[k].id == id;
      assert rows[|rows| - |rest| + k] == rest[k];
    }
  }

  predicate DistinctRows(rows: seq<HashedRow>)
  {
    forall i, j :: 0 <= i < j < |rows| ==> rows[i].id != rows[j].id
  }

  predicate AllHex(rows: seq<HashedRow>)
  {
    forall k :: 0 <= k < |rows| ==> IsHex(rows[k].phash)
  }

  /** A listing with distinct ids loads rows with distinct ids. */
  lemma {:induction false} LoadedDistinct(order: seq<nat>, clips: map<nat, Clip>)
    requires forall i, j :: 0 <= i < j < |order| ==> order[i] != order[j]
    ensures DistinctRows(Loaded(order, clips))
  {
    if order != [] {
      LoadedDistinct(order[1..], clips);
      var rows := Loaded(order, clips);
      var rest := Loaded(order[1..], clips);
      if order[0] in clips && clips[order[0]].phash.Some? {
        assert rows == [HashedRow(order[0], clips[order[0]].phash.value)] + rest;
        forall i, j | 0 <= i < j < |rows|
          ensures rows[i].id != rows[j].id
        {
          if i == 0 {
            assert rows[0].id == order[0] && rows[j] == rest[j - 1];
            var x := rest[j - 1].id;
            assert x in order[1..];
            var m :| 0 <= m < |order[1..]| && order[1..][m] == x;
            assert order[m + 1] == x;
          } else {
            assert rows[i] == rest[i - 1] && rows[j] == rest[j - 1];
          }
        }
      } else {
        assert rows == rest;
      }
    }
  }

  /** Some row after the anchor `i` holds `id` and a fingerprint within
      `THRESHOLD` of the anchor's. */
  ghost predicate Near(rows: seq<HashedRow>, i: nat, id: nat)
    requires AllHex(rows) && i < |rows|
  {
    exists b :: i < b < |rows| && rows[b].id == id && Distance(rows[i].phash, rows[b].phash) <= THRESHOLD
  }

  /** The inner loop (lines 30-37) for anchor `i`, from row `j` on: every row not
      yet seen whose fingerprint lies within `THRESHOLD` of the anchor's joins
      the group and is marked seen. */
  function Gather(rows: seq<HashedRow>, i: nat, j: nat, group: seq<nat>, seen: set<nat>): (r: (seq<nat>, set<nat>))
    requires AllHex(rows) && i < j <= |rows|
    ensures |r.0| >= |group| && r.0[..|group|] == group
    decreases |rows| - j
  {
    if j == |rows| then (group, seen)
    else
      var other := rows[j];
      if other.id in seen then Gather(rows, i, j + 1, group, seen)
      else if Distance(rows[i].phash, other.phash) <= THRESHOLD then
        var r := Gather(rows, i, j + 1, group + [other.id], seen + {other.id});
        assert r.0[..|group|] == (group + [other.id])[..|group|];
        r
      else Gather(rows, i, j + 1, group, seen)
  }

  /** The ids of `g` from position `n` on are not in `seen`, lie within
      `THRESHOLD` of the anchor `i`, and are pairwise distinct. */
  ghost predicate FreshNear(rows: seq<HashedRow>, i: nat, g: seq<nat>, n: nat, seen: set<nat>)
    requires AllHex(rows) && i < |rows|
  {
    && (forall k :: n <= k < |g| ==> g[k] !in seen && Near(rows, i, g[k]))
    && (forall k, l :: n <= k < l < |g| ==> g[k] != g[l])
  }

  /** The inner loop appends only rows not yet seen and within `THRESHOLD` of the
      anchor, and each id once. */
  lemma {:induction false} GatherSound(rows: seq<HashedRow>, i: nat, j: nat, group: seq<nat>, seen: set<nat>)
    requires AllHex(rows) && i < j <= |rows|
    ensures FreshNear(rows, i, Gather(rows, i, j, group, seen).0, |group|, seen)
    decreases |rows| - j
  {
    if j < |rows| {
      var other := rows[j];
      if other.id !in seen && Distance(rows[i].phash, other.phash) <= THRESHOLD {
        var r := Gather(rows, i, j + 1, group + [other.id], seen + {other.id});
        assert Gather(rows, i, j, group, seen) == r;
        GatherSound(rows, i, j + 1, group + [other.id], seen + {other.id});
        var g := r.0;
        assert FreshNear(rows, i, g, |group| + 1, seen + {other.id});
        assert g[|group|] == g[..|group| + 1][|group|] == other.id;
        assert Near(rows, i, other.id) by {
          assert i < j < |rows| && rows[j].id == other.id;
        }
        forall k | |group| < k < |g|
          ensures g[k] !in seen && Near(rows, i, g[k])
        {
          assert g[k] !in seen + {other.id};
        }
        forall k, l | |group| <= k < l < |g|
          ensures g[k] != g[l]
        {
          assert g[l] !in seen + {other.id};
        }
        assert FreshNear(rows, i, g, |group|, seen);
      } else {
        assert Gather(rows, i, j, group, seen) == Gather(rows, i, j + 1, group, seen);
        GatherSound(rows, i, j + 1, group, seen);
      }
    }
  }

  /** The inner loop marks as seen exactly the ids it appends. */
  lemma {:induction false} GatherMarks(rows: seq<HashedRow>, i: nat, j: nat, group: seq<nat>, seen: set<nat>)
    requires AllHex(rows) && i < j <= |rows|
    ensures var r := Gather(rows, i, j, group, seen);
      r.1 == seen + set k | |group| <= k < |r.0| :: r.0[k]
    decreases |rows| - j
  {
    if j < |rows| {
      var other := rows[j];
      if other.id !in seen && Distance(rows[i].phash, other.phash) <= THRESHOLD {
        var r := Gather(rows, i, j + 1, group + [other.id], seen + {other.id});
        assert Gather(rows, i, j, group, seen) == r;
        GatherMarks(rows, i, j + 1, group + [other.id], seen + {other.id});
        assert r.0[|group|] == r.0[..|group| + 1][|group|] == other.id;
      } else {
        assert Gather(rows, i, j, group, seen) == Gather(rows, i, j + 1, group, seen);
        GatherMarks(rows, i, j + 1, group, seen);
      }
    }
  }

  /** The ids of a group, as `seen.update(group)` adds them. */
  function Members(g: seq<nat>): set<nat>
  {
    set x | x in g
  }

  predicate Distinct(g: seq<nat>)
  {
    forall k, l :: 0 <= k < l < |g| ==> g[k] != g[l]
  }

  /** No id belongs to two groups. */
  predicate Disjoint(groups: seq<seq<nat>>)
  {
    forall p, q, x :: 0 <= p < q < |groups| && x in groups[p] ==> x !in groups[q]
  }

  /** The group's first id is the anchor row `a`, and every later id is near it. */
  ghost predicate Anchored(rows: seq<HashedRow>, g: seq<nat>)
    requires AllHex(rows)
  {
    |g| > 0 && exists a :: 0 <= a < |rows| && rows[a].id == g[0] && forall k :: 1 <= k < |g| ==> Near(rows, a, g[k])
  }

  /** Every group has at least two distinct members anchored at its first. */
  ghost predicate WellFormed(rows: seq<HashedRow>, groups: seq<seq<nat>>)
    requires AllHex(rows)
  {
    forall p :: 0 <= p < |groups| ==> |groups[p]| >= 2 && Distinct(groups[p]) && Anchored(rows, groups[p])
  }

  predicate Covered(groups: seq<seq<nat>>, seen: set<nat>)
  {
    forall p, x :: 0 <= p < |groups| && x in groups[p] ==> x in seen
  }

  /** The outer loop (lines 26-40) from row `i` on: a row not yet seen anchors a
      candidate group; one with more than one member is recorded and all its
      members are marked seen. */
  function Sweep(rows: seq<HashedRow>, i: nat, groups: seq<seq<nat>>, seen: set<nat>): (r: seq<seq<nat>>)
    requires AllHex(rows) && i <= |rows|
    ensures |r| >= |groups| && r[..|groups|] == groups
    decreases |rows| - i
  {
    if i == |rows| then groups
    else if rows[i].id in seen then Sweep(rows, i + 1, groups, seen)
    else
      var (g, s) := Gather(rows, i, i + 1, [rows[i].id], seen);
      if |g| > 1 then
        var r := Sweep(rows, i + 1, groups + [g], s + Members(g));
        assert r[..|groups|] == (groups + [g])[..|groups|];
        r
      else Sweep(rows, i + 1, groups, s)
  }

  /** The outer loop keeps its groups anchored and pairwise disjoint: each group
      it records was gathered around an unseen anchor from unseen rows. */
  lemma {:induction false} SweepSound(rows: seq<HashedRow>, i: nat, groups: seq<seq<nat>>, seen: set<nat>)
    requires AllHex(rows) && DistinctRows(rows) && i <= |rows|
    requires WellFormed(rows, groups) && Disjoint(groups) && Covered(groups, seen)
    ensures WellFormed(rows, Sweep(rows, i, groups, seen)) && Disjoint(Sweep(rows, i, groups, seen))
    decreases |rows| - i
  {
    if i < |rows| {
      if rows[i].id in seen {
        SweepSound(rows, i + 1, groups, seen);
      } else {
        var (g, s) := Gather(rows, i, i + 1, [rows[i].id], seen);
        if |g| > 1 {
          NewGroupFits(rows, i, groups, seen, g);
          SweepSound(rows, i + 1, groups + [g], s + Members(g));
        } else {
          GatherMarks(rows, i, i + 1, [rows[i].id], seen);
          assert s == seen;
          SweepSound(rows, i + 1, groups, s);
        }
      }
    }
  }

  /** The group gathered around an unseen anchor has distinct members, all
      near the anchor, none of them seen before. */
  lemma GatheredGroup(rows: seq<HashedRow>, i: nat, seen: set<nat>, g: seq<nat>)
    requires AllHex(rows) && DistinctRows(rows) && i < |rows| && rows[i].id !in seen
    requires g == Gather(rows, i, i + 1, [rows[i].id], seen).0
    ensures Distinct(g) && Anchored(rows, g)
    ensures forall x :: x in g ==> x !in seen
  {
    var r := Gather(rows, i, i + 1, [rows[i].id], seen);
    GatherSound(rows, i, i + 1, [rows[i].id], seen);
    assert FreshNear(rows, i, g, 1, seen);
    assert g[..1] == [rows[i].id];
    assert g[0] == g[..1][0];
    forall k | 1 <= k < |g|
      ensures g[k] != g[0] && g[k] !in seen && Near(rows, i, g[k])
    {
      var b :| i < b < |rows| && rows[b].id == g[k] && Distance(rows[i].phash, rows[b].phash) <= THRESHOLD;
    }
    assert Anchored(rows, g) by {
      assert 0 <= i < |rows| && rows[i].id == g[0];
    }
    DistinctFromHead(g);
    forall x | x in g
      ensures x !in seen
    {
      var k :| 0 <= k < |g| && g[k] == x;
    }
  }

  lemma DistinctFromHead(g: seq<nat>)
    requires forall k :: 1 <= k < |g| ==> g[k] != g[0]
    requires forall k, l :: 1 <= k < l < |g| ==> g[k] != g[l]
    ensures Distinct(g)
  {
  }

  /** A group of ids none of which were seen keeps the recorded groups disjoint. */
  lemma DisjointExtend(groups: seq<seq<nat>>, seen: set<nat>, g: seq<nat>)
    requires Disjoint(groups) && Covered(groups, seen)
    requires forall x :: x in g ==> x !in seen
    ensures Disjoint(groups + [g])
  {
    forall p, q, x | 0 <= p < q < |groups + [g]| && x in (groups + [g])[p]
      ensures x !in (groups + [g])[q]
    {
      if q == |groups| {
        assert x in seen;
      }
    }
  }

  /** The group gathered around an unseen anchor extends the invariant. */
  lemma NewGroupFits(rows: seq<HashedRow>, i: nat, groups: seq<seq<nat>>, seen: set<nat>, g: seq<nat>)
    requires AllHex(rows) && DistinctRows(rows) && i < |rows| && rows[i].id !in seen
    requires WellFormed(rows, groups) && Disjoint(groups) && Covered(groups, seen)
    requires g == Gather(rows, i, i + 1, [rows[i].id], seen).0 && |g| > 1
    ensures WellFormed(rows, groups + [g]) && Disjoint(groups + [g])
    ensures Covered(groups + [g], Gather(rows, i, i + 1, [rows[i].id], seen).1 + Members(g))
  {
    GatherMarks(rows, i, i + 1, [rows[i].id], seen);
    GatheredGroup(rows, i, seen, g);
    DisjointExtend(groups, seen, g);
  }

  /** The groups of lines 24-40. */
  function Groups(rows: seq<HashedRow>): (r: seq<seq<nat>>)
    requires AllHex(rows) && DistinctRows(rows)
    ensures WellFormed(rows, r) && Disjoint(r)
  {
    SweepSound(rows, 0, [], {});
    Sweep(rows, 0, [], {})
  }

  /** The inner loop misses no row: every row from `j` on that is not yet seen
      and lies within `THRESHOLD` of the anchor joins the group. */
  lemma {:induction false} GatherComplete(rows: seq<HashedRow>, i: nat, j: nat, group: seq<nat>, seen: set<nat>, b: nat)
    returns (k: nat)
    requires AllHex(rows) && i < j <= b < |rows|
    requires rows[b].id !in seen && Distance(rows[i].phash, rows[b].phash) <= THRESHOLD
    ensures var g := Gather(rows, i, j, group, seen).0;
      |group| <= k < |g| && g[k] == rows[b].id
    decreases |rows| - j
  {
    var other := rows[j];
    if other.id !in seen && Distance(rows[i].phash, other.phash) <= THRESHOLD {
      var r := Gather(rows, i, j + 1, group + [other.id], seen + {other.id});
      assert Gather(rows, i, j, group, seen) == r;
      if other.id == rows[b].id {
        k := |group|;
        assert r.0[..|group| + 1][|group|] == other.id;
      } else {
        k := GatherComplete(rows, i, j + 1, group + [other.id], seen + {other.id}, b);
      }
    } else {
      assert Gather(rows, i, j, group, seen) == Gather(rows, i, j + 1, group, seen);
      k := GatherComplete(rows, i, j + 1, group, seen, b);
    }
  }

  /** Every id marked seen belongs to a recorded group: the inner loop marks only
      the ids it appends, and a group of one is dropped with nothing marked. */
  predicate SeenGrouped(groups: seq<seq<nat>>, seen: set<nat>)
  {
    forall x :: x in seen ==> InGroups(groups, x)
  }

  /** Some group holds `x` or `y`. */
  predicate EitherGrouped(groups: seq<seq<nat>>, x: nat, y: nat)
  {
    InGroups(groups, x) || InGroups(groups, y)
  }

  /** Some group holds `x`. */
  predicate InGroups(groups: seq<seq<nat>>, x: nat)
  {
    exists p :: 0 <= p < |groups| && x in groups[p]
  }

  /** One step of the outer loop, as the groups and the seen set it hands on. */
  lemma {:induction false} SweepStep(rows: seq<HashedRow>, i: nat, groups: seq<seq<nat>>, seen: set<nat>)
    returns (groups': seq<seq<nat>>, seen': set<nat>)
    requires AllHex(rows) && i < |rows| && SeenGrouped(groups, seen)
    ensures SeenGrouped(groups', seen')
    ensures Sweep(rows, i, groups, seen) == Sweep(rows, i + 1, groups', seen')
  {
    if rows[i].id in seen {
      groups', seen' := groups, seen;
    } else {
      var (g, s) := Gather(rows, i, i + 1, [rows[i].id], seen);
      GatherMarks(rows, i, i + 1, [rows[i].id], seen);
      if |g| > 1 {
        GroupedExtend(groups, seen, g, s);
        groups', seen' := groups + [g], s + Members(g);
      } else {
        assert s == seen;
        groups', seen' := groups, s;
      }
    }
  }

  /** A group once recorded stays recorded: the outer loop only appends. */
  lemma GroupedStays(rows: seq<HashedRow>, i: nat, groups: seq<seq<nat>>, seen: set<nat>, x: nat)
    requires AllHex(rows) && i <= |rows| && InGroups(groups, x)
    ensures InGroups(Sweep(rows, i, groups, seen), x)
  {
    var r := Sweep(rows, i, groups, seen);
    var p :| 0 <= p < |groups| && x in groups[p];
    assert r[p] == r[..|groups|][p];
  }

  /** At the step of an unseen anchor whose group has more than one member, that
      group is recorded next. */
  lemma SweepRecords(rows: seq<HashedRow>, a: nat, groups: seq<seq<nat>>, seen: set<nat>)
    requires AllHex(rows) && a < |rows| && rows[a].id !in seen
    requires |Gather(rows, a, a + 1, [rows[a].id], seen).0| > 1
    ensures |Sweep(rows, a, groups, seen)| > |groups|
    ensures Sweep(rows, a, groups, seen)[|groups|] == Gather(rows, a, a + 1, [rows[a].id], seen).0
  {
    var (g, s) := Gather(rows, a, a + 1, [rows[a].id], seen);
    var r := Sweep(rows, a + 1, groups + [g], s + Members(g));
    assert r[|groups|] == r[..|groups| + 1][|groups|];
  }

  /** At the step of an unseen anchor `a`, an unseen partner `b` within
      `THRESHOLD` is gathered, so the group is recorded with both. */
  lemma GatheredPair(rows: seq<HashedRow>, a: nat, groups: seq<seq<nat>>, seen: set<nat>, b: nat)
    requires AllHex(rows) && a < b < |rows| && rows[a].id !in seen && rows[b].id !in seen
    requires Distance(rows[a].phash, rows[b].phash) <= THRESHOLD
    ensures InGroups(Sweep(rows, a, groups, seen), rows[b].id)
  {
    var k := GatherComplete(rows, a, a + 1, [rows[a].id], seen, b);
    SweepRecords(rows, a, groups, seen);
    assert rows[b].id in Sweep(rows, a, groups, seen)[|groups|];
  }

  /** The row pair `(a, b)` at the outer loop's step `a`: the anchor is already
      grouped, or the partner is, or the inner loop gathers the partner into a
      group that is then recorded. */
  lemma {:induction false} SweepCompleteAt(rows: seq<HashedRow>, a: nat, groups: seq<seq<nat>>, seen: set<nat>, b: nat)
    requires AllHex(rows) && a < b < |rows| && SeenGrouped(groups, seen)
    requires Distance(rows[a].phash, rows[b].phash) <= THRESHOLD
    ensures EitherGrouped(Sweep(rows, a, groups, seen), rows[a].id, rows[b].id)
  {
    if rows[a].id in seen {
      GroupedStays(rows, a, groups, seen, rows[a].id);
    } else if rows[b].id in seen {
      GroupedStays(rows, a, groups, seen, rows[b].id);
    } else {
      GatheredPair(rows, a, groups, seen, b);
    }
  }

  /** The outer loop misses no pair: of two rows from `i` on within `THRESHOLD`
      of each other, at least one ends up in a group. */
  lemma {:induction false} SweepComplete(rows: seq<HashedRow>, i: nat, groups: seq<seq<nat>>, seen: set<nat>, a: nat, b: nat)
    requires AllHex(rows) && i <= a < b < |rows| && SeenGrouped(groups, seen)
    requires Distance(rows[a].phash, rows[b].phash) <= THRESHOLD
    ensures EitherGrouped(Sweep(rows, i, groups, seen), rows[a].id, rows[b].id)
    decreases |rows| - i
  {
    if i == a {
      SweepCompleteAt(rows, a, groups, seen, b);
    } else {
      var groups', seen' := SweepStep(rows, i, groups, seen);
      SweepComplete(rows, i + 1, groups', seen', a, b);
      assert Sweep(rows, i, groups, seen) == Sweep(rows, i + 1, groups', seen');
    }
  }

  /** Recording a group and marking its members seen keeps every seen id grouped. */
  lemma GroupedExtend(groups: seq<seq<nat>>, seen: set<nat>, g: seq<nat>, s: set<nat>)
    requires SeenGrouped(groups, seen)
    requires forall x :: x in s ==> x in seen || x in g
    ensures SeenGrouped(groups + [g], s + Members(g))
  {
    forall x | x in s + Members(g)
      ensures InGroups(groups + [g], x)
    {
      if x in seen {
        var p :| 0 <= p < |groups| && x in groups[p];
        assert (groups + [g])[p] == groups[p];
      } else {
        assert (groups + [g])[|groups|] == g;
      }
    }
  }

  /** The groups miss no pair of rows: of two loaded rows within `THRESHOLD` of
      each other, at least one is in some group. */
  lemma GroupsComplete(rows: seq<HashedRow>, a: nat, b: nat)
    requires AllHex(rows) && DistinctRows(rows) && a < b < |rows|
    requires Distance(rows[a].phash, rows[b].phash) <= THRESHOLD
    ensures EitherGrouped(Groups(rows), rows[a].id, rows[b].id)
  {
    SweepComplete(rows, 0, [], {}, a, b);
  }

  /** The nested loops of lines 24-40, building `groups` and `seen` in place. */
  method BuildGroups(rows: seq<HashedRow>) returns (groups: seq<seq<nat>>)
    requires AllHex(rows) && DistinctRows(rows)
    ensures groups == Groups(rows)
  {
    groups := [];
    var seen: set<nat> := {};
    var i := 0;
    while i < |rows|
      invariant i <= |rows|
      invariant Sweep(rows, i, groups, seen) == Groups(rows)
    {
      if rows[i].id !in seen {
        ghost var seen0 := seen;
        var group := [rows[i].id];
        var j := i + 1;
        while j < |rows|
          invariant i < j <= |rows|
          invariant Gather(rows, i, j, group, seen) == Gather(rows, i, i + 1, [rows[i].id], seen0)
        {
          var other := rows[j];
          if other.id !in seen {
            if Distance(rows[i].phash, other.phash) <= THRESHOLD {
              group := group + [other.id];
              seen := seen + {other.id};
            }
          }
          j := j + 1;
        }
        if |group| > 1 {
          groups := groups + [group];
          seen := seen + Members(group);
        }
      }
      i := i + 1;
    }
  }

  /** `min(group)`, the canonical id of a group. */
  function Min(g: seq<nat>): (m: nat)
    requires |g| > 0
    ensures m in g && forall x :: x in g ==> m <= x
  {
    if |g| == 1 then g[0]
    else
      var m := Min(g[1..]);
      assert forall x :: x in g ==> x == g[0] || x in g[1..];
      if g[0] <= m then g[0] else m
  }

  /** `UPDATE clips SET needs_review = 0, duplicate_of = NULL` (line 45). */
  function Cleared(clips: map<nat, Clip>): (r: map<nat, Clip>)
  {
    map id | id in clips :: clips[id].(needsReview := false, duplicateOf := None)
  }

  /** The inner flagging loop (lines 51-57) over `ids`. */
  function Mark(clips: map<nat, Clip>, ids: seq<nat>, canon: nat): (r: map<nat, Clip>)
  {
    if ids == [] then clips
    else
      var prev := Mark(clips, ids[..|ids| - 1], canon);
      var dup := ids[|ids| - 1];
      if dup == canon || dup !in prev then prev
      else prev[dup := prev[dup].(needsReview := true, duplicateOf := Some(canon))]
  }

  predicate NonEmpty(groups: seq<seq<nat>>)
  {
    forall p :: 0 <= p < |groups| ==> |groups[p]| > 0
  }

  /** The outer flagging loop (lines 49-58). */
  function MarkAll(clips: map<nat, Clip>, groups: seq<seq<nat>>): map<nat, Clip>
    requires NonEmpty(groups)
  {
    if groups == [] then clips
    else
      var g := groups[|groups| - 1];
      Mark(MarkAll(clips, groups[..|groups| - 1]), g, Min(g))
  }

  /** The flags after the reset and the flagging loop. */
  function Flagged(clips: map<nat, Clip>, groups: seq<seq<nat>>): map<nat, Clip>
    requires NonEmpty(groups)
  {
    MarkAll(Cleared(clips), groups)
  }

  /** The id a clip ends up marked a duplicate of: the canonical id of the last
      group that holds it as a non-canonical member. */
  function CanonOf(groups: seq<seq<nat>>, id: nat): Option<nat>
    requires NonEmpty(groups)
  {
    if groups == [] then None
    else
      var g := groups[|groups| - 1];
      if id in g && id != Min(g) then Some(Min(g)) else CanonOf(groups[..|groups| - 1], id)
  }

  lemma {:induction false} MarkEffect(clips: map<nat, Clip>, ids: seq<nat>, canon: nat)
    ensures var r := Mark(clips, ids, canon);
      && r.Keys == clips.Keys
      && forall id :: id in clips ==>
           r[id] == if id in ids && id != canon then clips[id].(needsReview := true, duplicateOf := Some(canon)) else clips[id]
  {
    if ids != [] {
      var init := ids[..|ids| - 1];
      MarkEffect(clips, init, canon);
      assert forall x :: x in ids <==> x in init || x == ids[|ids| - 1];
    }
  }

  lemma {:induction false} MarkAllEffect(clips: map<nat, Clip>, groups: seq<seq<nat>>)
    requires NonEmpty(groups)
    ensures var r := MarkAll(clips, groups);
      && r.Keys == clips.Keys
      && forall id :: id in clips ==>
           r[id] == if CanonOf(groups, id).Some? then clips[id].(needsReview := true, duplicateOf := CanonOf(groups, id)) else clips[id]
  {
    if groups != [] {
      var g := groups[|groups| - 1];
      MarkAllEffect(clips, groups[..|groups| - 1]);
      MarkEffect(MarkAll(clips, groups[..|groups| - 1]), g, Min(g));
    }
  }

  /** After a pass every clip keeps all its columns but the two flags, and the
      flags say exactly which group, if any, names it a duplicate. */
  lemma FlaggedCharacterised(clips: map<nat, Clip>, groups: seq<seq<nat>>)
    requires NonEmpty(groups)
    ensures var r := Flagged(clips, groups);
      && r.Keys == clips.Keys
      && forall id :: id in clips ==>
           r[id] == clips[id].(needsReview := CanonOf(groups, id).Some?, duplicateOf := CanonOf(groups, id))
  {
    MarkAllEffect(Cleared(clips), groups);
  }

  /** With disjoint groups every member but the lowest id of a group points to
      that id; the lowest id and every clip outside all groups point nowhere, so
      no clip points to itself. */
  lemma {:induction false} CanonOfDisjoint(groups: seq<seq<nat>>, id: nat)
    requires NonEmpty(groups) && Disjoint(groups)
    ensures forall p :: 0 <= p < |groups| && id in groups[p] ==>
      CanonOf(groups, id) == if id == Min(groups[p]) then None else Some(Min(groups[p]))
    ensures (forall p :: 0 <= p < |groups| ==> id !in groups[p]) ==> CanonOf(groups, id) == None
    ensures CanonOf(groups, id) != Some(id)
  {
    if groups != [] {
      var init := groups[..|groups| - 1];
      assert Disjoint(init);
      CanonOfDisjoint(init, id);
      assert forall p :: 0 <= p < |init| ==> init[p] == groups[p];
    }
  }

  /** Every stored fingerprint is a hexadecimal string, as `calculate_phash`
      writes them. */
  predicate HexHashes(clips: map<nat, Clip>)
  {
    forall id :: id in clips && clips[id].phash.Some? ==> IsHex(clips[id].phash.value)
  }

  /** The groups the pass finds in the catalog. */
  function GroupsOf(order: seq<nat>, clips: map<nat, Clip>): (r: seq<seq<nat>>)
    requires forall i, j :: 0 <= i < j < |order| ==> order[i] != order[j]
    requires HexHashes(clips)
    ensures NonEmpty(r) && Disjoint(r)
  {
    LoadedDistinct(order, clips);
    Groups(Loaded(order, clips))
  }

  /** The catalog after one run of the script. */
  function Pass(order: seq<nat>, clips: map<nat, Clip>): map<nat, Clip>
    requires forall i, j :: 0 <= i < j < |order| ==> order[i] != order[j]
    requires HexHashes(clips)
  {
    Flagged(clips, GroupsOf(order, clips))
  }

  /** Each group has two or more distinct clips of the catalog, all with a
      fingerprint, and every member after the first lies within `THRESHOLD` of
      the first member's fingerprint. */
  lemma GroupsInCatalog(order: seq<nat>, clips: map<nat, Clip>)
    requires forall i, j :: 0 <= i < j < |order| ==> order[i] != order[j]
    requires HexHashes(clips)
    ensures var groups := GroupsOf(order, clips);
      forall p :: 0 <= p < |groups| ==>
        && |groups[p]| >= 2 && Distinct(groups[p])
        && (forall x :: x in groups[p] ==> x in clips && clips[x].phash.Some?)
        && forall k :: 1 <= k < |groups[p]| ==>
             Distance(clips[groups[p][0]].phash.value, clips[groups[p][k]].phash.value) <= THRESHOLD
  {
    LoadedDistinct(order, clips);
    var rows := Loaded(order, clips);
    var groups := GroupsOf(order, clips);
    forall p | 0 <= p < |groups|
      ensures (forall x :: x in groups[p] ==> x in clips && clips[x].phash.Some?)
      ensures forall k :: 1 <= k < |groups[p]| ==>
             Distance(clips[groups[p][0]].phash.value, clips[groups[p][k]].phash.value) <= THRESHOLD
    {
      var g := groups[p];
      assert Anchored(rows, g);
      var a :| 0 <= a < |rows| && rows[a].id == g[0] && forall k :: 1 <= k < |g| ==> Near(rows, a, g[k]);
      forall x | x in g
        ensures x in clips && clips[x].phash.Some?
      {
        var k :| 0 <= k < |g| && g[k] == x;
        if k > 0 {
          assert Near(rows, a, g[k]);
        }
      }
      forall k | 1 <= k < |g|
        ensures Distance(clips[g[0]].phash.value, clips[g[k]].phash.value) <= THRESHOLD
      {
        assert Near(rows, a, g[k]);
      }
    }
  }

  /** Of two fingerprinted clips within `THRESHOLD` of each other, at least one
      is in a group of the catalog. */
  lemma GroupsOfComplete(order: seq<nat>, clips: map<nat, Clip>, x: nat, y: nat)
    requires forall i, j :: 0 <= i < j < |order| ==> order[i] != order[j]
    requires HexHashes(clips)
    requires x in order && y in order && x != y
    requires x in clips && y in clips && clips[x].phash.Some? && clips[y].phash.Some?
    requires Distance(clips[x].phash.value, clips[y].phash.value) <= THRESHOLD
    ensures EitherGrouped(GroupsOf(order, clips), x, y)
  {
    LoadedDistinct(order, clips);
    var rows := Loaded(order, clips);
    LoadedComplete(order, clips, x);
    LoadedComplete(order, clips, y);
    var kx :| 0 <= kx < |rows| && rows[kx].id == x;
    var ky :| 0 <= ky < |rows| && rows[ky].id == y;
    if kx < ky {
      GroupsComplete(rows, kx, ky);
    } else {
      DistanceSymmetric(rows[kx].phash, rows[ky].phash);
      GroupsComplete(rows, ky, kx);
    }
  }

  /** A run changes only the two flag columns of a clip, and leaves them saying
      exactly which group, if any, names it a duplicate of its lowest id; no
      clip ends up pointing to itself. */
  lemma PassFlags(order: seq<nat>, clips: map<nat, Clip>, id: nat)
    requires forall i, j :: 0 <= i < j < |order| ==> order[i] != order[j]
    requires HexHashes(clips) && id in clips
    ensures var groups := GroupsOf(order, clips);
      var r := Pass(order, clips);
      && r.Keys == clips.Keys
      && r[id].(needsReview := clips[id].needsReview, duplicateOf := clips[id].duplicateOf) == clips[id]
      && (forall p :: 0 <= p < |groups| && id in groups[p] ==>
            if id == Min(groups[p]) then !r[id].needsReview && r[id].duplicateOf.None?
            else r[id].needsReview && r[id].duplicateOf == Some(Min(groups[p])))
      && ((forall p :: 0 <= p < |groups| ==> id !in groups[p]) ==> !r[id].needsReview && r[id].duplicateOf.None?)
      && r[id].duplicateOf != Some(id)
  {
    var groups := GroupsOf(order, clips);
    FlaggedCharacterised(clips, groups);
    CanonOfDisjoint(groups, id);
  }

  /** A run misses no near pair: of two fingerprinted clips within `THRESHOLD`
      of each other, one is flagged, or some flagged clip points at one of them. */
  lemma PassCoversNearPair(order: seq<nat>, clips: map<nat, Clip>, x: nat, y: nat)
    requires forall i, j :: 0 <= i < j < |order| ==> order[i] != order[j]
    requires HexHashes(clips)
    requires x in order && y in order && x != y
    requires x in clips && y in clips && clips[x].phash.Some? && clips[y].phash.Some?
    requires Distance(clips[x].phash.value, clips[y].phash.value) <= THRESHOLD
    ensures var r := Pass(order, clips);
      exists z :: z in r && r[z].needsReview &&
        (z == x || z == y || r[z].duplicateOf == Some(x) || r[z].duplicateOf == Some(y))
  {
    var groups := GroupsOf(order, clips);
    var r := Pass(order, clips);
    GroupsOfComplete(order, clips, x, y);
    var p :| 0 <= p < |groups| && (x in groups[p] || y in groups[p]);
    var u := if x in groups[p] then x else y;
    var g := groups[p];
    GroupsInCatalog(order, clips);
    var z := if u != Min(g) then u else if g[0] != u then g[0] else g[1];
    assert z in g && z in clips;
    PassFlags(order, clips, z);
  }

  /** Two catalogs with the same ids and fingerprints load the same rows. */
  lemma {:induction false} LoadedSameHashes(order: seq<nat>, c1: map<nat, Clip>, c2: map<nat, Clip>)
    requires c1.Keys == c2.Keys
    requires forall id :: id in c1 ==> c1[id].phash == c2[id].phash
    ensures Loaded(order, c1) == Loaded(order, c2)
  {
    if order != [] {
      LoadedSameHashes(order[1..], c1, c2);
    }
  }

  /** Running the script twice leaves the same flags as running it once: the
      flags are cleared first and the grouping reads only ids and fingerprints. */
  lemma PassIdempotent(order: seq<nat>, clips: map<nat, Clip>)
    requires forall i, j :: 0 <= i < j < |order| ==> order[i] != order[j]
    requires HexHashes(clips)
    ensures HexHashes(Pass(order, clips))
    ensures Pass(order, Pass(order, clips)) == Pass(order, clips)
  {
    var groups := GroupsOf(order, clips);
    var once := Pass(order, clips);
    FlaggedCharacterised(clips, groups);
    LoadedSameHashes(order, clips, once);
    assert GroupsOf(order, once) == groups;
    FlaggedCharacterised(once, groups);
    var twice := Pass(order, once);
    assert forall id :: id in once ==> twice[id] == once[id];
  }

  /** The flagging loops of lines 49-58 after the reset of line 45. */
  method FlagGroups(db: Catalog, groups: seq<seq<nat>>)
    requires NonEmpty(groups)
    modifies db`clips
    ensures db.clips == Flagged(old(db.clips), groups)
  {
    db.clips := Cleared(db.clips);
    var p := 0;
    while p < |groups|
      invariant p <= |groups|
      invariant db.clips == MarkAll(Cleared(old(db.clips)), groups[..p])
    {
      var group := groups[p];
      var canonical := Min(group);
      var q := 0;
      while q < |group|
        invariant q <= |group|
        invariant db.clips == Mark(MarkAll(Cleared(old(db.clips)), groups[..p]), group[..q], canonical)
      {
        var dup := group[q];
        if dup != canonical && dup in db.clips {
          db.clips := db.clips[dup := db.clips[dup].(needsReview := true, duplicateOf := Some(canonical))];
        }
        assert group[..q + 1][..q] == group[..q];
        q := q + 1;
      }
      assert groups[..p + 1][..p] == groups[..p];
      assert group[..q] == group;
      p := p + 1;
    }
    assert groups[..p] == groups;
  }

  /** `main`: load the fingerprinted clips, group them, clear every flag, and
      flag each non-canonical member of each group. */
  method FlagDuplicates(db: Catalog, order: seq<nat>) returns (groups: seq<seq<nat>>)
    requires IsListing(order, db.clips.Keys) && HexHashes(db.clips) && db.Valid()
    modifies db`clips
    ensures db.Valid()
    ensures groups == GroupsOf(order, old(db.clips))
    ensures db.clips == Pass(order, old(db.clips))
  {
    var rows := Loaded(order, db.clips);
    LoadedDistinct(order, db.clips);
    groups := BuildGroups(rows);
    FlagGroups(db, groups);
    FlaggedCharacterised(old(db.clips), groups);
    SamePathsKeepRowsValid(old(db.clips), db.clips, db.pathIndex, db.nextClipId, db.nextScanId);
  }
}
