/**
 * The two System.IO.Path operations the toolkit relies on, for a relative second
 * argument: Combine joins a directory and a name, GetFileName strips the directory.
 */
module Paths {

  /** The separator Path.Combine inserts on Windows, the platform the toolkit targets. */
  const DirectorySeparator: char := '\\'

  /** Both separators Windows accepts in a path. */
  predicate IsSeparator(c: char) {
    c == '\\' || c == '/'
  }

  predicate HasNoSeparator(s: string) {
    forall i :: 0 <= i < |s| ==> !IsSeparator(s[i])
  }

  predicate EndsWith(s: string, suffix: string) {
    |suffix| <= |s| && s[|s| - |suffix|..] == suffix
  }

  /**
   * Path.Combine(directory, name): an empty argument yields the other one; otherwise the
   * directory is kept as a prefix, one separator is inserted unless the directory already
   * ends in one, and the name follows.
   */
  function Combine(directory: string, name: string): (r: string)
    ensures EndsWith(r, name)
    ensures name == "" ==> r == directory
    ensures |directory| <= |r| - |name| <= |directory| + 1
    ensures r[..|directory|] == directory
    ensures name != "" ==> |r| - |name| == 0 || IsSeparator(r[|r| - |name| - 1])
  {
    if name == "" then directory
    else if directory == "" then name
    else if IsSeparator(directory[|directory| - 1]) then directory + name
    else directory + [DirectorySeparator] + name
  }

  /**
   * The separator is inserted only where one is missing: an empty directory yields the name
   * alone, and a directory that already ends in a separator is joined to the name directly.
   */
  lemma CombineJoins(directory: string, name: string)
    ensures directory == "" ==> Combine(directory, name) == name
    ensures name != "" && directory != "" && IsSeparator(directory[|directory| - 1]) ==>
      Combine(directory, name) == directory + name
  {
  }

  /**
   * Path.GetFileName(path): the longest separator-free suffix of the path, that is, the
   * text after the last separator (the whole path when it has none).
   */
  function GetFileName(path: string): string {
    if path == "" then ""
    else if IsSeparator(path[|path| - 1]) then ""
    else GetFileName(path[..|path| - 1]) + [path[|path| - 1]]
  }

  /**
   * GetFileName returns a suffix of the path without separators that is either the whole
   * path or preceded by a separator.
   */
  lemma {:induction false} GetFileNameProperties(path: string)
    ensures var r := GetFileName(path);
      EndsWith(path, r) && HasNoSeparator(r) && (|r| == |path| || IsSeparator(path[|path| - |r| - 1]))
  {
    if path != "" && !IsSeparator(path[|path| - 1]) {
      var init := path[..|path| - 1];
      GetFileNameProperties(init);
      var r0 := GetFileName(init);
      var r := GetFileName(path);
      assert r == r0 + [path[|path| - 1]];
      assert path[|path| - |r|..] == init[|init| - |r0|..] + [path[|path| - 1]];
      if |r| < |path| {
        assert path[|path| - |r| - 1] == init[|init| - |r0| - 1];
      }
    }
  }

  /** The three properties of GetFileName determine its result. */
  lemma FileNameUnique(path: string, name: string)
    requires EndsWith(path, name) && HasNoSeparator(name)
    requires |name| == |path| || IsSeparator(path[|path| - |name| - 1])
    ensures GetFileName(path) == name
  {
    GetFileNameProperties(path);
    var r := GetFileName(path);
    assert |r| == |name|;
  }

  /** Combining a directory with a non-empty separator-free name and taking the file name gives the name back. */
  lemma FileNameOfCombine(directory: string, name: string)
    requires name != "" && HasNoSeparator(name)
    ensures GetFileName(Combine(directory, name)) == name
  {
    FileNameUnique(Combine(directory, name), name);
  }

  lemma EndsWithTransitive(s: string, t: string, u: string)
    requires EndsWith(s, t) && EndsWith(t, u)
    ensures EndsWith(s, u)
  {
    assert s[|s| - |u|..] == s[|s| - |t|..][|t| - |u|..];
  }
}
