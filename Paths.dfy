/** `string.Replace(oldValue, newValue)` as the move uses it to turn a source
    path into a destination path: ordinal, left to right, every
    non-overlapping occurrence. */
module Paths {

  /** Whether `pat` occurs in `s` starting at position `i`. */
  predicate OccursAt(s: string, pat: string, i: int)
  {
    0 <= i && i + |pat| <= |s| && s[i..i + |pat|] == pat
  }

  predicate Occurs(s: string, pat: string)
  {
    exists i :: 0 <= i <= |s| && OccursAt(s, pat, i)
  }

  /** Every occurrence of `pat` in `s` replaced by `rep`, scanning from the
      left and resuming after each replaced occurrence.  .NET throws on an
      empty `pat`; that case is handled by the caller.  Replacing a path by
      itself leaves every string unchanged. */
  function ReplaceAll(s: string, pat: string, rep: string): (r: string)
    requires pat != []
    ensures rep == pat ==> r == s
    decreases |s|
  {
    if |s| < |pat| then s
    else if s[..|pat|] == pat then
      assert s == s[..|pat|] + s[|pat|..];
      rep + ReplaceAll(s[|pat|..], pat, rep)
    else [s[0]] + ReplaceAll(s[1..], pat, rep)
  }

  /** A string in which the pattern does not occur is left unchanged. */
  lemma {:induction false} ReplaceAllAbsent(s: string, pat: string, rep: string)
    requires pat != [] && !Occurs(s, pat)
    ensures ReplaceAll(s, pat, rep) == s
    decreases |s|
  {
    if |s| >= |pat| {
      assert !OccursAt(s, pat, 0);
      forall i | OccursAt(s[1..], pat, i) ensures false {
        assert s[1..][i..i + |pat|] == s[i + 1..i + 1 + |pat|];
        assert OccursAt(s, pat, i + 1);
      }
      ReplaceAllAbsent(s[1..], pat, rep);
    }
  }

  /** The case the move is written for: a full name that is the source path
      followed by a remainder in which the source path does not occur again
      becomes the destination path followed by that same remainder. */
  lemma {:induction false} ReplaceAllRebases(src: string, rest: string, dst: string)
    requires src != [] && !Occurs(rest, src)
    ensures ReplaceAll(src + rest, src, dst) == dst + rest
  {
    var s := src + rest;
    assert s[..|src|] == src && s[|src|..] == rest;
    ReplaceAllAbsent(rest, src, dst);
  }

  /** Every occurrence is replaced, not only the leading one: a directory
      `/a/a` moved from `/a` to `/x` is recreated as `/x/x`, not `/x/a`. */
  lemma ReplaceAllRewritesInnerOccurrence()
    ensures ReplaceAll("/a/a", "/a", "/x") == "/x/x"
    ensures "/x/x" != "/x" + "/a"
  {
    var s := "/a/a";
    assert s[..2] == "/a" && s[2..] == "/a";
    var t := s[2..];
    assert t[..2] == "/a" && t[2..] == [];
    assert ("/x" + "/a")[3] == 'a' != "/x/x"[3];
  }
}
