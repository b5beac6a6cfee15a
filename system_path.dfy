/** The parts of `System.IO.Path` that the drawer calls, under a POSIX-style path
    model: `/` is the directory separator, `\` the alternate separator, and a
    path is rooted when it starts with `/`. */
module SystemPath {

  /** `Path.DirectorySeparatorChar`. */
  const DirectorySeparatorChar: char := '/'

  /** `Path.AltDirectorySeparatorChar`. */
  const AltDirectorySeparatorChar: char := '\\'

  predicate IsSeparator(c: char) {
    c == DirectorySeparatorChar || c == AltDirectorySeparatorChar
  }

  /** `Path.IsPathRooted`. */
  predicate IsPathRooted(path: string) {
    |path| > 0 && path[0] == DirectorySeparatorChar
  }

  predicate EndsWithSeparator(path: string) {
    |path| > 0 && IsSeparator(path[|path| - 1])
  }

  /** `Path.Combine(path1, path2)` for a `path2` that is not rooted: an empty side
      yields the other side, and exactly one separator stands between the two
      unless `path1` already ends with one. */
  function Combine(path1: string, path2: string): (r: string)
    requires !IsPathRooted(path2)
    ensures |r| == |path1| + |path2| || |r| == |path1| + |path2| + 1
    ensures r[..|path1|] == path1 && r[|r| - |path2|..] == path2
    ensures |r| == |path1| + |path2| + 1 <==>
              |path1| > 0 && |path2| > 0 && !EndsWithSeparator(path1)
    ensures |r| == |path1| + |path2| + 1 ==> r[|path1|] == DirectorySeparatorChar
  {
    if |path2| == 0 then path1
    else if |path1| == 0 then path2
    else if EndsWithSeparator(path1) then path1 + path2
    else path1 + [DirectorySeparatorChar] + path2
  }
}
