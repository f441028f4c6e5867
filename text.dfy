/**
 * Substring containment on strings, the meaning of Python's `kw in s` when
 * both operands are `str`.
 */
module Text {

  /** `kw` occurs in `s` at some position (the empty string occurs everywhere). */
  ghost predicate Occurs(kw: string, s: string)
  {
    exists i :: 0 <= i <= |s| && kw <= s[i..]
  }

  /** Python's `kw in s`: scans `s` from the left for a position where `kw` starts. */
  function Contains(s: string, kw: string): (r: bool)
    ensures r <==> Occurs(kw, s)
    decreases |s|
  {
    if kw <= s then
      assert s[0..] == s;
      true
    else if s == [] then
      assert s[0..] == s;
      false
    else
      OccursStep(kw, s);
      Contains(s[1..], kw)
  }

  /** When `kw` is not a prefix of a non-empty `s`, it occurs in `s` iff it occurs in `s[1..]`. */
  lemma OccursStep(kw: string, s: string)
    requires s != [] && !(kw <= s)
    ensures Occurs(kw, s) <==> Occurs(kw, s[1..])
  {
    if Occurs(kw, s) {
      var i :| 0 <= i <= |s| && kw <= s[i..];
      assert s[0..] == s;
      assert s[1..][i - 1..] == s[i..];
    }
    if Occurs(kw, s[1..]) {
      var j :| 0 <= j <= |s[1..]| && kw <= s[1..][j..];
      assert s[1..][j..] == s[j + 1..];
    }
  }

  /** A string that occurs in `s` is no longer than `s`; in particular only "" occurs in "". */
  lemma OccursNoLonger(kw: string, s: string)
    requires Occurs(kw, s)
    ensures |kw| <= |s|
    ensures s == [] ==> kw == []
  {
  }

  /** The empty string occurs in every string, so `"" in s` is always true. */
  lemma EmptyOccurs(s: string)
    ensures Contains(s, "")
  {
  }
}
