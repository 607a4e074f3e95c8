/**
 * The string arithmetic that `UploadFileToSharePoint` and `CopyDocument` do
 * before handing a path to the store: taking the file name off a local
 * Windows path, and joining a site's server-relative URL, a library name and
 * a file name into the server-relative path of the file to be written.
 */
module FilePaths {

  /** The separator of local Windows paths. */
  const Backslash: char := '\\'

  /** The separator of server-relative URLs. */
  const Slash: char := '/'

  /**
   * Position of the last occurrence of `c` in `s`, or -1 when `c` does not
   * occur (the -1 convention of .NET's `String.LastIndexOf`), found by an
   * ordinal character search.
   */
  function LastIndexOf(s: string, c: char): (r: int)
    ensures -1 <= r < |s|
    ensures r == -1 <==> c !in s
    ensures r >= 0 ==> s[r] == c
    ensures forall j :: r < j < |s| ==> s[j] != c
  {
    if |s| == 0 then -1
    else if s[|s| - 1] == c then |s| - 1
    else LastIndexOf(s[..|s| - 1], c)
  }

  /**
   * The file name of a local path: everything after the last backslash,
   * or the whole path when it has none (LastIndexOf gives -1 and the
   * substring then starts at 0).
   */
  function FileName(filePath: string): (name: string)
    ensures |name| <= |filePath|
    ensures name == filePath[|filePath| - |name|..]
    ensures Backslash !in name
    ensures |name| < |filePath| ==> filePath[|filePath| - |name| - 1] == Backslash
    ensures Backslash !in filePath ==> name == filePath
  {
    var lastSlash := LastIndexOf(filePath, Backslash) + 1;
    var relativeLength := |filePath| - lastSlash;
    filePath[lastSlash..lastSlash + relativeLength]
  }

  /** The file name of `dir + "\" + name` is `name` whenever `name` holds no backslash. */
  lemma FileNameOfJoin(dir: string, name: string)
    requires Backslash !in name
    ensures FileName(dir + [Backslash] + name) == name
  {
    var path := dir + [Backslash] + name;
    assert path[|dir|] == Backslash;
    assert forall j :: |dir| < j < |path| ==> path[j] == name[j - |dir| - 1];
    assert LastIndexOf(path, Backslash) == |dir|;
    assert path[|dir| + 1..] == name;
  }

  /** Taking the file name twice changes nothing. */
  lemma FileNameIdempotent(filePath: string)
    ensures FileName(FileName(filePath)) == FileName(filePath)
  {
  }

  /**
   * `s` without its trailing run of `c` (.NET's `String.TrimEnd(char)`,
   * which removes every trailing occurrence, not just one).
   */
  function TrimEnd(s: string, c: char): (r: string)
    ensures |r| <= |s|
    ensures r == s[..|r|]
    ensures |r| == 0 || r[|r| - 1] != c
    ensures forall j :: |r| <= j < |s| ==> s[j] == c
  {
    if |s| == 0 || s[|s| - 1] != c then s
    else TrimEnd(s[..|s| - 1], c)
  }

  /** Appending trailing separators to `s` does not change `TrimEnd(s, c)`. */
  lemma {:induction false} TrimEndIgnoresTrailing(s: string, c: char, tail: string)
    requires forall j :: 0 <= j < |tail| ==> tail[j] == c
    ensures TrimEnd(s + tail, c) == TrimEnd(s, c)
  {
    if |tail| > 0 {
      var shorter := tail[..|tail| - 1];
      assert (s + tail)[..|s + tail| - 1] == s + shorter;
      TrimEndIgnoresTrailing(s, c, shorter);
    } else {
      assert s + tail == s;
    }
  }

  /**
   * The server-relative path of a file in a library:
   * `TrimEnd(serverRelativeUrl, '/') + "/" + library + "/" + name`.
   */
  function RelativePath(serverRelativeUrl: string, library: string, name: string): (path: string)
    ensures var k := |path| - |library| - |name| - 2;
      && 0 <= k <= |serverRelativeUrl|
      && path[..k] == serverRelativeUrl[..k]
      && (k == 0 || path[k - 1] != Slash)
      && (forall j :: k <= j < |serverRelativeUrl| ==> serverRelativeUrl[j] == Slash)
      && path[k..] == [Slash] + library + [Slash] + name
  {
    TrimEnd(serverRelativeUrl, Slash) + [Slash] + library + [Slash] + name
  }

  /**
   * However many slashes end the site's URL, the path has exactly one
   * separator between the site and the library.
   */
  lemma RelativePathIgnoresTrailingSlashes(serverRelativeUrl: string, slashes: string, library: string, name: string)
    requires forall j :: 0 <= j < |slashes| ==> slashes[j] == Slash
    ensures RelativePath(serverRelativeUrl + slashes, library, name) == RelativePath(serverRelativeUrl, library, name)
  {
    TrimEndIgnoresTrailing(serverRelativeUrl, Slash, slashes);
  }

  /** The destination of `UploadFileToSharePoint`: the file name of the local path, placed in the library. */
  function UploadPath(serverRelativeUrl: string, library: string, filePath: string): (path: string)
    ensures |FileName(filePath)| < |path|
    ensures path[|path| - |FileName(filePath)| - 1..] == [Slash] + FileName(filePath)
  {
    RelativePath(serverRelativeUrl, library, FileName(filePath))
  }

  /** Uploading `dir\name` writes to the path a copy of a file called `name` is written to. */
  lemma UploadPathOfLocalFile(serverRelativeUrl: string, library: string, dir: string, name: string)
    requires Backslash !in name
    ensures UploadPath(serverRelativeUrl, library, dir + [Backslash] + name) == RelativePath(serverRelativeUrl, library, name)
  {
    FileNameOfJoin(dir, name);
  }
}
