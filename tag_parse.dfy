/** The parsing step of `db_migrate_tags.py` (line 27): a legacy `clips.tags`
    value is split at every comma, each piece is stripped of surrounding
    whitespace, and empty pieces are dropped. */
module TagParse {
  import opened Common

  /** `str.split(',')`: the pieces between commas, one more than there are
      commas, so the empty string gives one empty piece. */
  function Split(s: string): (r: seq<string>)
    ensures |r| >= 1
  {
    if s == [] then [[]]
    else
      var prev := Split(s[..|s| - 1]);
      var c := s[|s| - 1];
      if c == ',' then prev + [[]]
      else prev[..|prev| - 1] + [prev[|prev| - 1] + [c]]
  }

  /** No piece holds a comma. */
  lemma {:induction false} SplitNoComma(s: string)
    ensures forall k :: 0 <= k < |Split(s)| ==> ',' !in Split(s)[k]
  {
    if s != [] {
      SplitNoComma(s[..|s| - 1]);
      var prev := Split(s[..|s| - 1]);
      var c := s[|s| - 1];
      if c != ',' {
        var last := prev[|prev| - 1];
        assert forall k :: 0 <= k < |last + [c]| ==> (last + [c])[k] != ',';
      }
    }
  }

  /** `','.join(pieces)`. */
  function Join(pieces: seq<string>): string
    requires |pieces| >= 1
  {
    if |pieces| == 1 then pieces[0] else Join(pieces[..|pieces| - 1]) + [','] + pieces[|pieces| - 1]
  }

  /** Joining the pieces with commas gives back the original value. */
  lemma {:induction false} JoinSplit(s: string)
    ensures Join(Split(s)) == s
  {
    if s != [] {
      var init := s[..|s| - 1];
      var c := s[|s| - 1];
      assert s == init + [c];
      JoinSplit(init);
      if c == ',' {
        SplitComma(init);
        JoinComma(Split(init));
      } else {
        SplitSnoc(init, c);
        JoinSnoc(Split(init), c);
      }
    }
  }

  /** One character that is not a comma extends the last piece. */
  lemma SplitSnoc(s: string, c: char)
    requires c != ','
    ensures var p := Split(s);
      Split(s + [c]) == p[..|p| - 1] + [p[|p| - 1] + [c]]
  {
    assert (s + [c])[..|s|] == s;
  }

  /** A comma starts a new, empty piece. */
  lemma SplitComma(s: string)
    ensures Split(s + [',']) == Split(s) + [[]]
  {
    assert (s + [','])[..|s|] == s;
  }

  lemma JoinSnoc(p: seq<string>, c: char)
    requires |p| >= 1
    ensures Join(p[..|p| - 1] + [p[|p| - 1] + [c]]) == Join(p) + [c]
  {
    var q := p[..|p| - 1] + [p[|p| - 1] + [c]];
    if |p| > 1 {
      assert q[..|q| - 1] == p[..|p| - 1];
    }
  }

  lemma JoinComma(p: seq<string>)
    requires |p| >= 1
    ensures Join(p + [[]]) == Join(p) + [',']
  {
    assert (p + [[]])[..|p|] == p;
  }

  /** Splitting after appending a comma-free word extends the last piece. */
  lemma {:induction false} SplitAppendWord(s: string, w: string)
    requires ',' !in w
    ensures var p := Split(s);
      Split(s + w) == p[..|p| - 1] + [p[|p| - 1] + w]
  {
    var p := Split(s);
    var last := p[|p| - 1];
    if w == [] {
      assert s + w == s;
      assert last + w == last;
      assert p[..|p| - 1] + [last] == p;
    } else {
      var w' := w[..|w| - 1];
      var c := w[|w| - 1];
      assert c in w;
      assert s + w == (s + w') + [c] by { assert w == w' + [c]; }
      SplitAppendWord(s, w');
      SplitSnoc(s + w', c);
      assert (last + w') + [c] == last + w by { assert w == w' + [c]; }
    }
  }

  /** Splitting a join of comma-free pieces gives back the pieces. */
  lemma {:induction false} SplitJoin(pieces: seq<string>)
    requires |pieces| >= 1
    requires forall k :: 0 <= k < |pieces| ==> ',' !in pieces[k]
    ensures Split(Join(pieces)) == pieces
  {
    if |pieces| == 1 {
      SplitAppendWord([], pieces[0]);
      assert [] + pieces[0] == pieces[0];
    } else {
      var init := pieces[..|pieces| - 1];
      var last := pieces[|pieces| - 1];
      SplitJoin(init);
      var prefix := Join(init) + [','];
      SplitComma(Join(init));
      SplitAppendWord(prefix, last);
      assert Join(pieces) == prefix + last;
      SnocParts(init, []);
      assert [] + last == last;
      InitLast(pieces);
    }
  }

  lemma SnocParts<T>(s: seq<T>, x: T)
    ensures (s + [x])[..|s|] == s && (s + [x])[|s|] == x
  {
  }

  lemma InitLast<T>(s: seq<T>)
    requires |s| >= 1
    ensures s[..|s| - 1] + [s[|s| - 1]] == s
  {
  }

  /** Whitespace as `str.isspace` sees it on ASCII: space, tab, line feed,
      vertical tab, form feed, carriage return and the four separators
      0x1C to 0x1F. */
  predicate IsSpace(c: char)
  {
    c == ' ' || '\t' <= c <= '\r' || '\U{1c}' <= c <= '\U{1f}'
  }

  /** Whitespace only. */
  predicate AllSpace(t: string)
  {
    forall k :: 0 <= k < |t| ==> IsSpace(t[k])
  }

  function StripLeft(s: string): string
  {
    if s != [] && IsSpace(s[0]) then StripLeft(s[1..]) else s
  }

  function StripRight(s: string): string
  {
    if s != [] && IsSpace(s[|s| - 1]) then StripRight(s[..|s| - 1]) else s
  }

  /** `lstrip` removes a whitespace prefix and stops at the first other character. */
  lemma {:induction false} StripLeftSpec(s: string)
    ensures var r := StripLeft(s);
      && |r| <= |s| && r == s[|s| - |r|..]
      && AllSpace(s[..|s| - |r|])
      && (r != [] ==> !IsSpace(r[0]))
  {
    if s != [] && IsSpace(s[0]) {
      StripLeftSpec(s[1..]);
      var r := StripLeft(s[1..]);
      assert s[1..][|s| - 1 - |r|..] == s[|s| - |r|..];
      assert s[..|s| - |r|] == [s[0]] + s[1..][..|s| - 1 - |r|];
    }
  }

  /** `rstrip` removes a whitespace suffix and stops at the last other character. */
  lemma {:induction false} StripRightSpec(s: string)
    ensures var r := StripRight(s);
      && |r| <= |s| && r == s[..|r|]
      && AllSpace(s[|r|..])
      && (r != [] ==> !IsSpace(r[|r| - 1]))
  {
    if s != [] && IsSpace(s[|s| - 1]) {
      StripRightSpec(s[..|s| - 1]);
      var r := StripRight(s[..|s| - 1]);
      assert s[..|s| - 1][..|r|] == s[..|r|];
      assert s[|r|..] == s[..|s| - 1][|r|..] + [s[|s| - 1]];
    }
  }

  /** `str.strip()`: neither end of the result is whitespace. */
  function Strip(s: string): (r: string)
    ensures r != [] ==> !IsSpace(r[0]) && !IsSpace(r[|r| - 1])
  {
    StripLeftSpec(s);
    StripRightSpec(StripLeft(s));
    var l := StripLeft(s);
    var r := StripRight(l);
    assert r != [] ==> r[0] == l[0];
    r
  }

  /** The stripped value is the middle of `s`, and everything cut from either
      end is whitespace. */
  lemma StripIsTrim(s: string)
    ensures |StripLeft(s)| <= |s|
    ensures var r, i := Strip(s), |s| - |StripLeft(s)|;
      && i + |r| <= |s| && r == s[i..i + |r|]
      && AllSpace(s[..i]) && AllSpace(s[i + |r|..])
  {
    var l := StripLeft(s);
    StripLeftSpec(s);
    var r := StripRight(l);
    StripRightSpec(l);
    assert r == Strip(s);
    var i := |s| - |l|;
    Middle(s, i, l, r);
    assert s[i + |r|..] == l[|r|..];
  }

  lemma Middle(s: string, i: nat, l: string, r: string)
    requires i <= |s| && l == s[i..] && |r| <= |l| && r == l[..|r|]
    ensures r == s[i..i + |r|]
    ensures s[i + |r|..] == l[|r|..]
  {
  }

  /** Stripping keeps only characters of the piece. */
  lemma StripSub(s: string)
    ensures forall c :: c in Strip(s) ==> c in s
  {
    var l := StripLeft(s);
    StripLeftSpec(s);
    StripRightSpec(l);
    assert forall c :: c in l ==> c in s;
    assert forall c :: c in StripRight(l) ==> c in l;
  }

  /** A stripped, non-empty tag name. */
  predicate IsTag(t: string)
  {
    t != [] && !IsSpace(t[0]) && !IsSpace(t[|t| - 1]) && ',' !in t
  }

  /** `[t.strip() for t in pieces if t.strip()]`. */
  function Keep(pieces: seq<string>): (r: seq<string>)
    requires forall k :: 0 <= k < |pieces| ==> ',' !in pieces[k]
    ensures |r| <= |pieces|
    ensures forall k :: 0 <= k < |r| ==> IsTag(r[k])
  {
    if pieces == [] then []
    else
      var rest := Keep(pieces[1..]);
      var t := Strip(pieces[0]);
      StripSub(pieces[0]);
      if t != [] then [t] + rest else rest
  }

  /** Lines 26-27: the tags of one clip. */
  function ParseTags(tags: Option<string>): (r: seq<string>)
    ensures tags.None? ==> r == []
    ensures forall k :: 0 <= k < |r| ==> IsTag(r[k])
  {
    match tags
    case None => []
    case Some(s) =>
      SplitNoComma(s);
      Keep(Split(s))
  }

  /** A NULL `tags` column reads as the empty string, which has no tags. */
  lemma NullIsEmpty()
    ensures ParseTags(None) == ParseTags(Some("")) == []
  {
    assert Split("") == [[]];
    assert Strip("") == [];
  }

  /** Every piece that strips to something non-empty yields its tag. */
  lemma {:induction false} KeepComplete(pieces: seq<string>, k: nat)
    requires forall j :: 0 <= j < |pieces| ==> ',' !in pieces[j]
    requires k < |pieces| && Strip(pieces[k]) != []
    ensures Strip(pieces[k]) in Keep(pieces)
  {
    var head, rest := Strip(pieces[0]), pieces[1..];
    assert Keep(pieces) == (if head != [] then [head] else []) + Keep(rest);
    if k > 0 {
      assert rest[k - 1] == pieces[k];
      KeepComplete(rest, k - 1);
    }
  }

  /** A tag parsed out of a value is the stripped form of one of its pieces. */
  lemma {:induction false} KeepSound(pieces: seq<string>, t: string)
    requires forall j :: 0 <= j < |pieces| ==> ',' !in pieces[j]
    requires t in Keep(pieces)
    ensures exists k :: 0 <= k < |pieces| && Strip(pieces[k]) == t
  {
    var head, rest := Strip(pieces[0]), pieces[1..];
    assert Keep(pieces) == (if head != [] then [head] else []) + Keep(rest);
    if head != t {
      assert t in Keep(rest);
      KeepSound(rest, t);
      var k :| 0 <= k < |rest| && Strip(rest[k]) == t;
      assert pieces[k + 1] == rest[k];
    }
  }
}
