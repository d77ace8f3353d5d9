/**
 * String helpers shared by every component: the JavaScript string operations the
 * plugin relies on (`startsWith`, `slice`, `indexOf`), stated over `seq<char>`.
 */
module Text {

  datatype Option<T> = None | Some(value: T)

  function Min(a: nat, b: nat): nat {
    if a <= b then a else b
  }

  /** `s.startsWith(prefix)` */
  predicate StartsWith(s: string, prefix: string) {
    |prefix| <= |s| && s[..|prefix|] == prefix
  }

  /**
   * `s.slice(begin, end)` for non-negative offsets: both offsets are clamped to the
   * length of `s`, and a reversed range gives the empty string.
   */
  function Slice(s: string, begin: nat, end: nat): (r: string)
    ensures begin <= end <= |s| ==> r == s[begin..end]
    ensures |r| <= |s|
  {
    var b := Min(begin, |s|);
    var e := Min(end, |s|);
    if b < e then s[b..e] else ""
  }

  /** `s.slice(begin)` for a non-negative offset. */
  function SliceFrom(s: string, begin: nat): (r: string)
    ensures begin <= |s| ==> r == s[begin..]
    ensures begin >= |s| ==> r == ""
  {
    s[Min(begin, |s|)..]
  }

  /**
   * `s.indexOf(needle, from)`: the first position at or after `from` where `needle`
   * occurs, or -1. The only fact the callers need is when the answer is `from` itself.
   */
  function IndexOf(s: string, needle: string, from: nat): (r: int)
    ensures r == from <==> from + |needle| <= |s| && s[from..from + |needle|] == needle
    ensures needle != [] ==> r == -1 || from <= r
    decreases |s| - from
  {
    if from + |needle| > |s| then
      (if needle == [] then |s| else -1)
    else if s[from..from + |needle|] == needle then
      from
    else
      IndexOf(s, needle, from + 1)
  }
}
