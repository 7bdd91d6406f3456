/** Small value types and string helpers shared by the catalog modules. */
module Common {

  /** A nullable value: a SQL NULL column or a Python `None`. */
  datatype Option<+T> = None | Some(value: T)

  /** The final component of a '/'-separated path, as pathlib's `name` gives it:
      the longest suffix that holds no separator. */
  function BaseName(p: string): string
  {
    if |p| == 0 || p[|p| - 1] == '/' then ""
    else BaseName(p[..|p| - 1]) + [p[|p| - 1]]
  }

  /** The base name is a tail of the path, holds no '/', and is preceded by a
      '/' unless it is the whole path. */
  lemma {:induction false} BaseNameIsLastComponent(p: string)
    ensures var r := BaseName(p);
      && |r| <= |p| && r == p[|p| - |r|..]
      && '/' !in r
      && (|r| < |p| ==> p[|p| - |r| - 1] == '/')
  {
    if |p| > 0 && p[|p| - 1] != '/' {
      var q, c := p[..|p| - 1], p[|p| - 1];
      BaseNameIsLastComponent(q);
      var r' := BaseName(q);
      assert BaseName(p) == r' + [c];
      var k := |q| - |r'|;
      assert p[k..] == q[k..] + [c];
      assert '/' !in r' + [c];
      if |r'| < |q| {
        assert p[k - 1] == q[k - 1];
      }
    }
  }

  /** ASCII case folding of one character (Python's `str.lower` on ASCII). */
  function LowerChar(c: char): char
  {
    if 'A' <= c <= 'Z' then (c as int + 32) as char else c
  }

  function Lower(s: string): string
  {
    seq(|s|, i requires 0 <= i < |s| => LowerChar(s[i]))
  }
}
