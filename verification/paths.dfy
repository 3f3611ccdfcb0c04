/** File URLs as slash-separated path strings: the two `URL` operations the
    controller uses, `appendingPathComponent` and `lastPathComponent`. */
module Paths {

  type Path = string

  /** The path with one more component: a separating '/' is inserted unless
      the directory already ends with one, so only the directory and at most
      one '/' come before the name. */
  function AppendPathComponent(dir: Path, name: string): (p: Path)
    ensures |p| > |name| && |p| >= |dir| && p[..|dir|] == dir
    ensures p[|p| - |name|..] == name
    ensures p[|p| - |name| - 1] == '/'
    ensures p[..|p| - |name|] == dir || p[..|p| - |name|] == dir + "/"
  {
    if |dir| > 0 && dir[|dir| - 1] == '/' then dir + name else dir + "/" + name
  }

  /** The text after the last '/', i.e. the longest suffix free of '/'. */
  function LastPathComponent(p: Path): (r: string)
    ensures |r| <= |p| && p[|p| - |r|..] == r
    ensures '/' !in r
    ensures |r| < |p| ==> p[|p| - |r| - 1] == '/'
  {
    if |p| == 0 || p[|p| - 1] == '/' then ""
    else LastPathComponent(p[..|p| - 1]) + [p[|p| - 1]]
  }

  /** A component appended to any directory is read back as the last component. */
  lemma LastOfAppend(dir: Path, name: string)
    requires '/' !in name
    ensures LastPathComponent(AppendPathComponent(dir, name)) == name
  {
  }
}
