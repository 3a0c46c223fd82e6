/** The two string primitives the viewer relies on: `endsWith` and `find_first_of`. */
module Strings {
  import opened Wrappers

  /** Reference notion of a suffix: `t` is what is left of `s` after dropping some prefix. */
  ghost predicate IsSuffix(t: string, s: string)
  {
    exists k :: 0 <= k <= |s| && s[k..] == t
  }

  /** Reference notion of a prefix: `s` is `p` followed by something. */
  ghost predicate IsPrefix(p: string, s: string)
  {
    exists t :: s == p + t
  }

  /**
   * `endsWith(subject, str)`: false when `str` is longer than `subject`,
   * otherwise an element-wise comparison of `str` against the tail of `subject`.
   */
  function EndsWith(subject: string, str: string): (b: bool)
    ensures b <==> IsSuffix(str, subject)
    ensures |str| > |subject| ==> !b
  {
    if |str| > |subject| then
      false
    else
      var b := forall j :: 0 <= j < |str| ==> subject[|subject| - |str| + j] == str[j];
      assert b ==> subject[|subject| - |str|..] == str;
      assert IsSuffix(str, subject) ==> b by {
        if IsSuffix(str, subject) {
          var k :| 0 <= k <= |subject| && subject[k..] == str;
          assert k == |subject| - |str|;
        }
      }
      b
  }

  /**
   * `s.find_first_of(c)` for a one-character set: the position of the first `c`
   * in `s`, or `None` where the C++ call returns `npos`.
   */
  function FindFirst(s: string, c: char): (r: Option<nat>)
    ensures r.None? <==> c !in s
    ensures r.Some? ==> r.value < |s| && s[r.value] == c
    ensures r.Some? ==> forall j :: 0 <= j < r.value ==> s[j] != c
  {
    if |s| == 0 then
      None
    else if s[0] == c then
      Some(0)
    else
      match FindFirst(s[1..], c)
      case None => None
      case Some(i) => Some(i + 1)
  }
}
