// Path and file-name helpers of VfxEnc.cpp: suffix classification of
// shader and video files, quoting, and splitting/joining Windows paths
// on either separator.

module Paths {
  import opened Strings

  predicate IsSeparator(c: char) { c == '\\' || c == '/' }

  predicate NoSeparator(s: string)
  {
    forall i :: 0 <= i < |s| ==> !IsSeparator(s[i])
  }

  /** find_last_of(L"\\/"): the index of the last separator, if any. */
  function LastSeparator(p: string): (r: Option<nat>)
    ensures r.None? ==> NoSeparator(p)
    ensures r.Some? ==> r.value < |p| && IsSeparator(p[r.value]) && NoSeparator(p[r.value + 1..])
  {
    if p == [] then None
    else if IsSeparator(p[|p| - 1]) then Some(|p| - 1)
    else
      var r := LastSeparator(p[..|p| - 1]);
      assert r.Some? ==> p[r.value + 1..] == p[..|p| - 1][r.value + 1..] + [p[|p| - 1]];
      r
  }

  /** find_last_of(L'.'): the index of the last dot, if any. */
  function LastDot(s: string): (r: Option<nat>)
    ensures r.None? ==> '.' !in s
    ensures r.Some? ==> r.value < |s| && s[r.value] == '.' && '.' !in s[r.value + 1..]
  {
    if s == [] then None
    else if s[|s| - 1] == '.' then Some(|s| - 1)
    else
      var r := LastDot(s[..|s| - 1]);
      assert r.Some? ==> s[r.value + 1..] == s[..|s| - 1][r.value + 1..] + [s[|s| - 1]];
      r
  }

  /** Quote: wraps a command-line argument in double quotes. */
  function Quote(s: string): (r: string)
    ensures |r| == |s| + 2 && r[0] == '"' && r[|r| - 1] == '"' && r[1..|r| - 1] == s
  {
    "\"" + s + "\""
  }

  /** FilenameOnly: everything after the last separator. */
  function FilenameOnly(path: string): string
  {
    match LastSeparator(path)
    case None => path
    case Some(k) => path[k + 1..]
  }

  /** Dirname: everything before the last separator, "." without one. */
  function Dirname(path: string): string
  {
    match LastSeparator(path)
    case None => "."
    case Some(k) => path[..k]
  }

  /** BasenameNoExt: the file name without its last extension. */
  function BasenameNoExt(path: string): string
  {
    var file := FilenameOnly(path);
    match LastDot(file)
    case None => file
    case Some(d) => file[..d]
  }

  /** JoinPath: inserts a backslash unless `a` is empty or already ends in
      a separator. */
  function JoinPath(a: string, b: string): (r: string)
    ensures StartsWith(r, a) && EndsWith(r, b)
    ensures |r| == |a| + |b| || |r| == |a| + |b| + 1
    ensures |r| == |a| + |b| + 1 <==> a != [] && !IsSeparator(a[|a| - 1])
    ensures |r| == |a| + |b| + 1 ==> r[|a|] == '\\'
  {
    if a == [] then b
    else if IsSeparator(a[|a| - 1]) then a + b
    else a + "\\" + b
  }

  /** IsShaderFile: the shader suffixes mpv and libplacebo accept. */
  predicate IsShaderFile(p: string)
  {
    || EndsWithIgnoringCase(p, ".glsl")
    || EndsWithIgnoringCase(p, ".hook.glsl")
    || EndsWithIgnoringCase(p, ".hook")
    || EndsWithIgnoringCase(p, ".frag")
    || EndsWithIgnoringCase(p, ".fs")
  }

  /** IsLikelyVideo: the container suffixes offered for preview. */
  predicate IsLikelyVideo(p: string)
  {
    || EndsWithIgnoringCase(p, ".mp4")
    || EndsWithIgnoringCase(p, ".mkv")
    || EndsWithIgnoringCase(p, ".mov")
    || EndsWithIgnoringCase(p, ".avi")
    || EndsWithIgnoringCase(p, ".ts")
    || EndsWithIgnoringCase(p, ".m2ts")
    || EndsWithIgnoringCase(p, ".webm")
    || EndsWithIgnoringCase(p, ".m4v")
  }

  // ---------------------------------------------------------------
  // Properties
  // ---------------------------------------------------------------

  /** ".hook.glsl" is already covered by ".glsl": the shader test is the
      four suffixes .glsl, .hook, .frag and .fs. */
  lemma ShaderSuffixes(p: string)
    ensures IsShaderFile(p) <==>
      || EndsWithIgnoringCase(p, ".glsl")
      || EndsWithIgnoringCase(p, ".hook")
      || EndsWithIgnoringCase(p, ".frag")
      || EndsWithIgnoringCase(p, ".fs")
  {
    if EndsWithIgnoringCase(p, ".hook.glsl") {
      EndsWithTail(p, ".hook.glsl", 5);
      assert ".hook.glsl"[5..] == ".glsl";
    }
  }

  lemma LastCharsAgree(p: string, suf: string)
    requires |suf| >= 2 && EndsWithIgnoringCase(p, suf)
    ensures Lower(p[|p| - 1]) == Lower(suf[|suf| - 1])
    ensures Lower(p[|p| - 2]) == Lower(suf[|suf| - 2])
  {
    assert Lower(p[|p| - |suf| + (|suf| - 1)]) == Lower(suf[|suf| - 1]);
    assert Lower(p[|p| - |suf| + (|suf| - 2)]) == Lower(suf[|suf| - 2]);
  }

  /** The last two characters a shader file can end in, folding case. */
  lemma ShaderEnding(p: string)
    requires IsShaderFile(p)
    ensures |p| >= 2
    ensures var l, m := Lower(p[|p| - 1]), Lower(p[|p| - 2]);
      l == 'l' || l == 'k' || l == 'g' || (l == 's' && m == 'f')
  {
    ShaderSuffixes(p);
    if EndsWithIgnoringCase(p, ".glsl") {
      LastCharsAgree(p, ".glsl");
    } else if EndsWithIgnoringCase(p, ".hook") {
      LastCharsAgree(p, ".hook");
    } else if EndsWithIgnoringCase(p, ".frag") {
      LastCharsAgree(p, ".frag");
    } else {
      LastCharsAgree(p, ".fs");
    }
  }

  /** The last two characters a likely video can end in, folding case. */
  lemma VideoEnding(p: string)
    requires IsLikelyVideo(p)
    ensures |p| >= 2
    ensures var l, m := Lower(p[|p| - 1]), Lower(p[|p| - 2]);
      l == '4' || l == 'v' || l == 'i' || l == 'm' || (l == 's' && m == 't')
  {
    if EndsWithIgnoringCase(p, ".mp4") {
      LastCharsAgree(p, ".mp4");
    } else if EndsWithIgnoringCase(p, ".mkv") {
      LastCharsAgree(p, ".mkv");
    } else if EndsWithIgnoringCase(p, ".mov") {
      LastCharsAgree(p, ".mov");
    } else if EndsWithIgnoringCase(p, ".avi") {
      LastCharsAgree(p, ".avi");
    } else if EndsWithIgnoringCase(p, ".ts") {
      LastCharsAgree(p, ".ts");
    } else if EndsWithIgnoringCase(p, ".m2ts") {
      LastCharsAgree(p, ".m2ts");
    } else if EndsWithIgnoringCase(p, ".webm") {
      LastCharsAgree(p, ".webm");
    } else {
      LastCharsAgree(p, ".m4v");
    }
  }

  /** No file is both a shader and a likely video, so a dropped file is
      never treated as both. */
  lemma ShaderIsNeverVideo(p: string)
    ensures IsShaderFile(p) ==> !IsLikelyVideo(p)
  {
    if IsShaderFile(p) && IsLikelyVideo(p) {
      ShaderEnding(p);
      VideoEnding(p);
    }
  }

  /** A path splits at its last separator into Dirname, the separator and
      FilenameOnly, and FilenameOnly holds no separator. */
  lemma PathSplits(p: string)
    ensures NoSeparator(FilenameOnly(p))
    ensures LastSeparator(p).None? ==> FilenameOnly(p) == p && Dirname(p) == "."
    ensures LastSeparator(p).Some? ==>
      p == Dirname(p) + [p[LastSeparator(p).value]] + FilenameOnly(p)
  {
  }

  /** Joining a directory and a plain file name, then splitting, gives the
      file name back and the directory without its trailing separator. */
  lemma {:induction false} SplitJoinedPath(a: string, b: string)
    requires NoSeparator(b)
    ensures FilenameOnly(JoinPath(a, b)) == b
    ensures Dirname(JoinPath(a, b)) ==
      if a == [] then "." else if IsSeparator(a[|a| - 1]) then a[..|a| - 1] else a
  {
    var j := JoinPath(a, b);
    if a == [] {
    } else {
      var k := if IsSeparator(a[|a| - 1]) then |a| - 1 else |a|;
      assert IsSeparator(j[k]);
      assert j[k + 1..] == b;
      LastSeparatorOfSplit(j, k);
      assert j[..k] == if IsSeparator(a[|a| - 1]) then a[..|a| - 1] else a;
    }
  }

  lemma LastSeparatorOfSplit(j: string, k: nat)
    requires k < |j| && IsSeparator(j[k]) && NoSeparator(j[k + 1..])
    ensures LastSeparator(j) == Some(k)
  {
    var r := LastSeparator(j);
    assert r.Some?;
  }

  /** Splitting a path at a backslash and joining the halves again gives the
      path back, when the directory part is non-empty and does not itself
      end in a separator. */
  lemma JoinSplitPath(p: string)
    requires LastSeparator(p).Some?
    requires var k := LastSeparator(p).value; k > 0 && p[k] == '\\' && !IsSeparator(p[k - 1])
    ensures JoinPath(Dirname(p), FilenameOnly(p)) == p
  {
    var k := LastSeparator(p).value;
    assert p == p[..k] + "\\" + p[k + 1..];
  }

  /** The file name is the base name followed by its last extension, which
      is empty or a dot followed by no further dot. */
  lemma BasenameAndExtension(p: string)
    ensures exists ext ::
      FilenameOnly(p) == BasenameNoExt(p) + ext && (ext == [] || (ext[0] == '.' && '.' !in ext[1..]))
  {
    var file := FilenameOnly(p);
    match LastDot(file)
    case None =>
      assert file == BasenameNoExt(p) + [];
    case Some(d) =>
      var ext := file[d..];
      assert file == BasenameNoExt(p) + ext;
      assert ext[1..] == file[d + 1..];
  }

  /** The base name of a joined path is the name given without its
      extension, when that name has no separator and one final extension. */
  lemma BasenameOfJoined(dir: string, name: string, ext: string)
    requires NoSeparator(name + ext)
    requires |ext| >= 1 && ext[0] == '.' && '.' !in ext[1..]
    ensures BasenameNoExt(JoinPath(dir, name + ext)) == name
  {
    SplitJoinedPath(dir, name + ext);
    var file := name + ext;
    var r := LastDot(file);
    assert file[|name|] == '.';
    assert r == Some(|name|);
  }
}
