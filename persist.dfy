// The two text files VfxEnc keeps in its application-data directory:
// shaders.txt, one `<0|1>|path` line per chain entry, and settings.txt,
// `key=value` lines for the last-used directories. A file that cannot be
// opened reads like an empty one (both loaders clear their state first).

module Persist {
  import opened Strings
  import opened Paths

  datatype Entry = Entry(path: string, bypassed: bool)

  // ---------------------------------------------------------------
  // shaders.txt
  // ---------------------------------------------------------------

  /** The line SaveShaders writes for one entry: the bypass flag, a bar,
      the path. */
  function EntryLine(path: string, bypassed: bool): string
  {
    (if bypassed then "1|" else "0|") + path
  }

  /** The flag SaveShaders and GetActiveShaders read for index i: an index
      with no flag entry counts as not bypassed. */
  function FlagAt(bypass: seq<bool>, i: nat): bool
  {
    i < |bypass| && bypass[i]
  }

  /** SaveShaders: one line per path, in chain order. */
  function ShaderLines(shaders: seq<string>, bypass: seq<bool>): (ls: seq<string>)
    ensures |ls| == |shaders|
  {
    seq(|shaders|, i requires 0 <= i < |shaders| => EntryLine(shaders[i], FlagAt(bypass, i)))
  }

  /** The whole text SaveShaders writes. */
  function ShaderFileText(shaders: seq<string>, bypass: seq<bool>): string
  {
    JoinLines(ShaderLines(shaders, bypass))
  }

  /** One line of LoadShaders: empty lines are skipped; a line of more than
      two characters starting with `0|` or `1|` carries a flag, any other
      line is taken whole as an active path; paths that are not shader files
      are dropped. */
  function ParseShaderLine(line: string): (r: Option<Entry>)
    ensures r.Some? ==> r.value.path != [] && IsShaderFile(r.value.path)
    ensures r.Some? && r.value.bypassed ==> line == EntryLine(r.value.path, true)
    ensures r.Some? ==> line == EntryLine(r.value.path, r.value.bypassed) || line == r.value.path
  {
    if line == [] then None
    else
      var prefixed := |line| > 2 && (line[0] == '0' || line[0] == '1') && line[1] == '|';
      var path := if prefixed then line[2..] else line;
      var bypassed := prefixed && line[0] == '1';
      if path == [] then None
      else if IsShaderFile(path) then Some(Entry(path, bypassed))
      else None
  }

  /** LoadShaders over the lines of the file, in file order; no
      de-duplication. */
  function LoadEntries(lines: seq<string>): (es: seq<Entry>)
    ensures |es| <= |lines|
  {
    if lines == [] then []
    else
      var es := LoadEntries(lines[..|lines| - 1]);
      match ParseShaderLine(lines[|lines| - 1])
      case Some(e) => es + [e]
      case None => es
  }

  function PathsOf(es: seq<Entry>): (ps: seq<string>)
    ensures |ps| == |es|
  {
    seq(|es|, i requires 0 <= i < |es| => es[i].path)
  }

  function FlagsOf(es: seq<Entry>): (fs: seq<bool>)
    ensures |fs| == |es|
  {
    seq(|es|, i requires 0 <= i < |es| => es[i].bypassed)
  }

  predicate AllShaderFiles(shaders: seq<string>)
  {
    forall i :: 0 <= i < |shaders| ==> IsShaderFile(shaders[i])
  }

  /** Every saved line reads back as the entry it was written from. */
  lemma EntryLineRoundTrip(path: string, bypassed: bool)
    requires IsShaderFile(path)
    ensures ParseShaderLine(EntryLine(path, bypassed)) == Some(Entry(path, bypassed))
  {
    var line := EntryLine(path, bypassed);
    assert |path| > 0;
    assert line[2..] == path;
  }

  /** Loading the saved lines gives back the same chain, paths and flags,
      when every path passes the shader-file test. */
  lemma {:induction false} LoadSavedLines(shaders: seq<string>, bypass: seq<bool>)
    requires |shaders| == |bypass|
    requires AllShaderFiles(shaders)
    ensures PathsOf(LoadEntries(ShaderLines(shaders, bypass))) == shaders
    ensures FlagsOf(LoadEntries(ShaderLines(shaders, bypass))) == bypass
  {
    if shaders != [] {
      var n := |shaders| - 1;
      var e := Entry(shaders[n], bypass[n]);
      var prefix := LoadEntries(ShaderLines(shaders[..n], bypass[..n]));
      LoadSavedLines(shaders[..n], bypass[..n]);
      ShaderLinesSnoc(shaders, bypass);
      EntryLineRoundTrip(shaders[n], bypass[n]);
      assert LoadEntries(ShaderLines(shaders, bypass)) == prefix + [e];
      PathsAndFlagsAppend(prefix, e);
      assert shaders == shaders[..n] + [shaders[n]];
      assert bypass == bypass[..n] + [bypass[n]];
    }
  }

  lemma ShaderLinesSnoc(shaders: seq<string>, bypass: seq<bool>)
    requires |shaders| == |bypass| && shaders != []
    ensures var n := |shaders| - 1;
      ShaderLines(shaders, bypass)
        == ShaderLines(shaders[..n], bypass[..n]) + [EntryLine(shaders[n], bypass[n])]
  {
  }

  lemma PathsAndFlagsAppend(es: seq<Entry>, e: Entry)
    ensures PathsOf(es + [e]) == PathsOf(es) + [e.path]
    ensures FlagsOf(es + [e]) == FlagsOf(es) + [e.bypassed]
  {
  }

  /** The file round trip: reading what SaveShaders wrote restores the
      chain, when every path is a shader file without a line break. */
  lemma ShaderFileRoundTrip(shaders: seq<string>, bypass: seq<bool>)
    requires |shaders| == |bypass|
    requires AllShaderFiles(shaders)
    requires forall i :: 0 <= i < |shaders| ==> NoNewline(shaders[i])
    ensures PathsOf(LoadEntries(GetLines(ShaderFileText(shaders, bypass)))) == shaders
    ensures FlagsOf(LoadEntries(GetLines(ShaderFileText(shaders, bypass)))) == bypass
  {
    var ls := ShaderLines(shaders, bypass);
    forall i | 0 <= i < |ls| ensures NoNewline(ls[i]) {
      assert ls[i] == EntryLine(shaders[i], FlagAt(bypass, i));
      assert ls[i][2..] == shaders[i];
    }
    GetLinesOfJoinLines(ls);
    LoadSavedLines(shaders, bypass);
  }

  /** A line without a valid flag prefix is taken whole, as an active
      entry, when it names a shader file. */
  lemma UnprefixedLineIsActive(line: string)
    requires !(|line| > 2 && (line[0] == '0' || line[0] == '1') && line[1] == '|')
    requires IsShaderFile(line)
    ensures ParseShaderLine(line) == Some(Entry(line, false))
  {
  }

  /** Loading keeps duplicates: the same line twice gives two entries. */
  lemma LoadKeepsDuplicates(line: string, e: Entry)
    requires ParseShaderLine(line) == Some(e)
    ensures LoadEntries([line, line]) == [e, e]
  {
    assert [line, line][..1] == [line];
    assert [line][..0] == [];
  }

  // ---------------------------------------------------------------
  // settings.txt
  // ---------------------------------------------------------------

  datatype Settings = Settings(videoDir: string, shaderDir: string)

  /** SaveSettings: a `video=` line and a `shader=` line, each only when
      its directory is known. */
  function SettingsLines(st: Settings): seq<string>
  {
    (if st.videoDir != [] then ["video=" + st.videoDir] else [])
    + (if st.shaderDir != [] then ["shader=" + st.shaderDir] else [])
  }

  function SettingsFileText(st: Settings): string
  {
    JoinLines(SettingsLines(st))
  }

  /** One line of LoadSettings: a recognised key replaces its value, any
      other line is ignored. */
  function ApplySettingsLine(st: Settings, line: string): (r: Settings)
    ensures r.videoDir == st.videoDir || r.shaderDir == st.shaderDir
    ensures r != st ==> StartsWith(line, "video=") || StartsWith(line, "shader=")
  {
    if StartsWith(line, "video=") then st.(videoDir := line[6..])
    else if StartsWith(line, "shader=") then st.(shaderDir := line[7..])
    else st
  }

  /** LoadSettings: both directories start empty and the lines are applied
      in file order. */
  function LoadSettingsLines(lines: seq<string>): Settings
  {
    if lines == [] then Settings([], [])
    else ApplySettingsLine(LoadSettingsLines(lines[..|lines| - 1]), lines[|lines| - 1])
  }

  /** Without a `video=` line the video directory stays empty. */
  lemma {:induction false} NoVideoLine(lines: seq<string>)
    requires forall i :: 0 <= i < |lines| ==> !StartsWith(lines[i], "video=")
    ensures LoadSettingsLines(lines).videoDir == []
  {
    if lines != [] {
      NoVideoLine(lines[..|lines| - 1]);
    }
  }

  /** The last `video=` line decides the video directory. */
  lemma {:induction false} LastVideoLineWins(lines: seq<string>, k: nat)
    requires k < |lines| && StartsWith(lines[k], "video=")
    requires forall j :: k < j < |lines| ==> !StartsWith(lines[j], "video=")
    ensures LoadSettingsLines(lines).videoDir == lines[k][6..]
  {
    var n := |lines| - 1;
    if k < n {
      LastVideoLineWins(lines[..n], k);
    }
  }

  /** Without a `shader=` line the shader directory stays empty. */
  lemma {:induction false} NoShaderLine(lines: seq<string>)
    requires forall i :: 0 <= i < |lines| ==> !StartsWith(lines[i], "shader=")
    ensures LoadSettingsLines(lines).shaderDir == []
  {
    if lines != [] {
      NoShaderLine(lines[..|lines| - 1]);
    }
  }

  /** The last `shader=` line decides the shader directory. */
  lemma {:induction false} LastShaderLineWins(lines: seq<string>, k: nat)
    requires k < |lines| && StartsWith(lines[k], "shader=")
    requires forall j :: k < j < |lines| ==> !StartsWith(lines[j], "shader=")
    ensures LoadSettingsLines(lines).shaderDir == lines[k][7..]
  {
    var n := |lines| - 1;
    KeysExclusive(lines[k]);
    if k < n {
      LastShaderLineWins(lines[..n], k);
    }
  }

  /** A line never carries both keys. */
  lemma KeysExclusive(line: string)
    ensures !(StartsWith(line, "shader=") && StartsWith(line, "video="))
  {
    if StartsWith(line, "shader=") {
      assert line[0] == line[..7][0] == 's';
    }
  }

  /** Reading what SaveSettings wrote gives both directories back, when
      neither holds a line break. */
  lemma SettingsFileRoundTrip(st: Settings)
    requires NoNewline(st.videoDir) && NoNewline(st.shaderDir)
    ensures LoadSettingsLines(GetLines(SettingsFileText(st))) == st
  {
    var ls := SettingsLines(st);
    forall i | 0 <= i < |ls| ensures NoNewline(ls[i]) {
    }
    GetLinesOfJoinLines(ls);
    var v := "video=" + st.videoDir;
    var s := "shader=" + st.shaderDir;
    assert StartsWith(v, "video=") && v[6..] == st.videoDir;
    KeysExclusive(s);
    assert StartsWith(s, "shader=") && s[7..] == st.shaderDir;
    if st.videoDir != [] && st.shaderDir != [] {
      assert ls == [v, s] && ls[..1] == [v];
      assert [v][..0] == ls[..0];
    } else if st.videoDir != [] {
      assert ls == [v] && ls[..0] == [];
    } else if st.shaderDir != [] {
      assert ls == [s] && ls[..0] == [];
    }
  }

  /** UpdateLastVideoDir / UpdateLastShaderDir: the directory of the chosen
      file replaces the remembered one unless it is empty. */
  function UpdatedDir(current: string, path: string): (d: string)
    ensures LastSeparator(path).None? ==> d == "."
    ensures LastSeparator(path).Some? && LastSeparator(path).value == 0 ==> d == current
    ensures LastSeparator(path).Some? && LastSeparator(path).value > 0 ==> d == path[..LastSeparator(path).value]
  {
    var dir := Dirname(path);
    if dir != [] then dir else current
  }
}
