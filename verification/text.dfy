/** Substring search as the store's `contains` string filter performs it
    (case-sensitive, on the raw characters). */
module Text {

  /** `t` is a prefix of `s`. */
  predicate StartsWith(s: string, t: string) {
    |t| <= |s| && s[..|t|] == t
  }

  /** `t` occurs in `s` at some position. */
  ghost predicate Occurs(s: string, t: string) {
    exists k :: 0 <= k <= |s| && StartsWith(s[k..], t)
  }

  /** Whether `t` occurs in `s`, scanning start positions left to right. */
  function Contains(s: string, t: string): (b: bool)
    ensures b <==> Occurs(s, t)
    decreases |s|
  {
    if StartsWith(s, t) then
      assert s[0..] == s;
      true
    else if |s| == 0 then
      false
    else
      var b := Contains(s[1..], t);
      if b then
        var k :| 0 <= k <= |s[1..]| && StartsWith(s[1..][k..], t);
        assert s[1..][k..] == s[k + 1..];
        b
      else
        forall k | 1 <= k <= |s|
          ensures !StartsWith(s[k..], t)
        {
          assert s[k..] == s[1..][k - 1..];
        }
        assert s[0..] == s;
        b
  }

  /** A text occurs in any text made by putting something around it. */
  lemma OccursInContext(a: string, t: string, b: string)
    ensures Occurs(a + t + b, t)
  {
    var s := a + t + b;
    assert s[|a|..][..|t|] == t;
  }
}
