/** The part of Python's `posixpath` the media renaming needs. */
module Paths {

  /** Python's `s.rfind(c)`: the index of the last `c` in `s`, or -1. */
  function RFind(s: string, c: char): (k: int)
    ensures -1 <= k < |s|
    ensures k >= 0 ==> s[k] == c
    ensures forall i :: k < i < |s| ==> s[i] != c
    decreases |s|
  {
    if |s| == 0 then -1
    else if s[|s| - 1] == c then |s| - 1
    else RFind(s[..|s| - 1], c)
  }

  /** The second half of Python's `os.path.splitext(p)`: the text from the last
      '.' of the last path component, unless that component has only dots
      before it (a leading-dot name such as ".profile" has no extension). */
  function Extension(p: string): (e: string)
    ensures |e| <= |p| && e == p[|p| - |e|..]
    ensures e == "" || (e[0] == '.' && forall i :: 1 <= i < |e| ==> e[i] != '.' && e[i] != '/')
    ensures e == "" ==>
      forall k :: RFind(p, '/') < k < |p| && p[k] == '.' ==>
        forall j :: RFind(p, '/') < j < k ==> p[j] == '.'
    ensures e != "" ==> exists j :: RFind(p, '/') < j < |p| - |e| && p[j] != '.'
  {
    var slash := RFind(p, '/');
    var dot := RFind(p, '.');
    if dot > slash && exists j :: slash < j < dot && p[j] != '.' then p[dot..] else ""
  }
}
