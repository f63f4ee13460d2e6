# VfxEnc core, modelled in Dafny

VfxEnc is a Windows tool that previews a video in mpv with a chain of GLSL
shaders and then re-encodes it with ffmpeg, running the same shaders through
libplacebo. This project models the sequential core of `VfxEnc.cpp` and
proves properties of it. Every window, mpv, process and file-system call
becomes a parameter or a recorded result.

- **Shader chain** (`chain.dfy`, module `Chain`).
  - The class `ShaderChain` holds the two parallel vectors `g_shaders` and
    `g_shaderBypass` as sequence fields.
  - It also keeps the text of `shaders.txt` (`stored`), the list last handed
    to the player (`preview`) and the remembered shader directory.
  - Its methods are add, remove, clear, move, move up/down, bypass toggle,
    drag reorder and load. Each method states the whole new state.
  - Lemmas about the specification functions `MoveItem` and `ActivePaths`
    state what the moves and the active list keep.
- **Persistence** (`persist.dfy`, module `Persist`).
  - The `0|path` / `1|path` line codec of `shaders.txt`.
  - The `key=value` codec of `settings.txt`.
  - Both are pure functions between the state and its lines, with round trips
    and the "last key wins" rule.
- **Output parsers** (`parsers.dfy`, module `Parsers`).
  - `ParseBitrateKbps` and `ParseOutTimeMs` are loop methods, each proved equal
    to a recursive specification.
  - Lemmas state what those specifications accept.
- **Progress reading** (`progress.dfy`, module `Progress`).
  - The chunk buffer is cut into `\n`-terminated lines, and the line cutter is
    proved to invert line joining.
  - One trailing `\r` is stripped, and the percentage is computed and capped.
  - The half-point throttle is proved to report strictly increasing values.
    Because the cutting is independent of where the chunks end, so are the
    reports.
- **Job planning** (`plan.dfy`, module `Plan`). It covers:
  - `BuildEncoderArgs`;
  - the candidate list and the two combo boxes;
  - the input-bitrate rounding and the target choice;
  - `FfmpegEscapeFilterValue`, with backslash (option-level) unescaping as
    its partner;
  - the temp-script name and text;
  - the filter graph and the 1440p width;
  - the output and log names and the command line.
- **Encode worker** (`worker.dfy`, module `Worker`).
  - The fallback loop over the candidates, with the outcome of each attempt
    given as `PipeFailed`, `SpawnFailed` or `Exited(output, exitCode)`.
  - `RunEncode`, which plans the job and runs the worker.
  - The status messages the worker posts are collected in order.
- **Helpers** (`strings.dfy`, module `Strings`, and `paths.dfy`, module `Paths`).
  - Digits, case folding, `getline` splitting.
  - The path helpers `EndsWithI`, `IsShaderFile`, `IsLikelyVideo`, `Quote`,
    `BasenameNoExt`, `FilenameOnly`, `Dirname` and `JoinPath`.

Five behaviours of the code that may surprise. The first three are
modelled as written. The last two are modelled both as written and as
evidently intended, and are listed under "## Findings":

- `ParseBitrateKbps` returns 0 as soon as any marker it examines is followed
  by `N/A` (`VfxEnc.cpp:280`). So `"bitrate:  N/A"` followed by
  `"bitrate: 4500kb/s"` gives 0, not 4500 (`Parsers.NotAvailableEndsScan`).
- The filter graph uses `custom_shader_path=` whenever the temp script could
  be opened, even when no shader is active and the script is empty
  (`VfxEnc.cpp:405-410, 855-861`). It falls back to plain `libplacebo` only
  when the file cannot be created (`Plan.FilterUsesTempScript`,
  `Plan.FilterWithoutTempScript`, `Plan.NoReadableShaderEmptyScript`).
- The 1440p width is rounded half up and only then made even by clearing the
  low bit (`VfxEnc.cpp:870-871`). An odd rounded width therefore loses one
  pixel (`Plan.OddWidthLosesAPixel`).
- Each attempt reads the input path again from the loaded-video state
  (`VfxEnc.cpp:937`), while the output path was fixed when the encode started.
  A video opened or dropped during the encode is therefore encoded into the
  old video's output (`Worker.ReplacedVideoKeepsOldOutput`). The rest of the
  model keeps the video the job was planned for (`Worker.Job`).
- The pipe is handed to ffmpeg as its standard output and error at every
  attempt (`VfxEnc.cpp:958-961`), but the flag that makes `CreateProcessW`
  use those handles is set only when the log file was created
  (`VfxEnc.cpp:925-930`). Without a log, ffmpeg's output never reaches the
  pipe and no percentage is shown (`Worker.PipeChunks`,
  `Worker.NoLogNoProgress`, `Worker.ProgressLostWithoutLog`). The model's
  attempts follow the code; `Worker.WiredAttemptMessages` is the intended
  behaviour.

## Model

| member | source | states |
|---|---|---|
| Strings.FormatInt | VfxEnc.cpp:255-256 | `%d` prints a non-negative number as its digits and a negative one with a minus sign |
| Strings.DecimalValueOfFormatNat | VfxEnc.cpp:283-287 | the digit loop reads back exactly the number `%d` printed |
| Strings.LeadingDigits | VfxEnc.cpp:300-305 | the longest prefix of digits, which a non-digit (or the end) follows |
| Strings.LeadingDigitsOfRun | VfxEnc.cpp:300-305 | a digit run followed by a non-digit is exactly the leading run |
| Strings.EndsWithI | VfxEnc.cpp:161-172 | true exactly when the last characters equal the suffix after case folding, false when the text is shorter |
| Strings.EndsWithIgnoringCaseFolds | VfxEnc.cpp:161-172 | the test ignores case: two strings that fold alike give the same answer |
| Strings.EndsWithTail | VfxEnc.cpp:174-178 | ending with a suffix implies ending with every shorter suffix of it |
| Strings.FirstIndex | VfxEnc.cpp:487 | the first occurrence of a character, every earlier one differs |
| Strings.GetLinesOfJoinLines | VfxEnc.cpp:470-501 | `getline` reads back the lines the save functions wrote, when none holds a line break |
| Strings.GetLines | VfxEnc.cpp:443 | the lines `getline` returns: the pieces between newlines, the newline dropped, and no empty piece after a final newline; its partner is JoinLines, through GetLinesOfJoinLines |
| Strings.JoinLines | VfxEnc.cpp:470-478 | every line written followed by `\n`, as both save functions write them; GetLines reads them back (GetLinesOfJoinLines) |
| Paths.LastSeparator | VfxEnc.cpp:214 | `find_last_of("\\/")`: a separator with none after it, or none at all |
| Paths.LastDot | VfxEnc.cpp:216-217 | `find_last_of('.')`: a dot with none after it, or none at all |
| Paths.Quote | VfxEnc.cpp:204-210 | the argument between two double quotes |
| Paths.FilenameOnly | VfxEnc.cpp:221-225 | everything after the last `\` or `/`, the whole path without one; holds no separator (PathSplits) |
| Paths.Dirname | VfxEnc.cpp:227-231 | everything before the last separator, `.` without one; with the separator and FilenameOnly it rebuilds the path (PathSplits) |
| Paths.BasenameNoExt | VfxEnc.cpp:212-219 | the file name without its last extension; with the extension it rebuilds the file name (BasenameAndExtension) |
| Paths.JoinPath | VfxEnc.cpp:233-239 | starts with the directory and ends with the name; one character is inserted between them exactly when the directory is non-empty and does not end with a separator, and that character is a backslash |
| Paths.IsShaderFile | VfxEnc.cpp:174-178 | the five shader suffixes, folding case; exactly .glsl, .hook, .frag or .fs at the end (ShaderSuffixes) |
| Paths.IsLikelyVideo | VfxEnc.cpp:180-185 | the eight container suffixes, folding case; never true of a shader file (ShaderIsNeverVideo) |
| Paths.ShaderSuffixes | VfxEnc.cpp:174-178 | the shader test is exactly the four suffixes .glsl, .hook, .frag, .fs (.hook.glsl is subsumed) |
| Paths.ShaderEnding | VfxEnc.cpp:174-178 | a shader path ends in l, k, g or "fs", folding case |
| Paths.VideoEnding | VfxEnc.cpp:180-185 | a likely video ends in 4, v, i, m or "ts", folding case |
| Paths.ShaderIsNeverVideo | VfxEnc.cpp:174-185 | no path is both a shader file and a likely video |
| Paths.PathSplits | VfxEnc.cpp:221-231 | a path is Dirname, its last separator and FilenameOnly; without a separator FilenameOnly is the path and Dirname is "." |
| Paths.SplitJoinedPath | VfxEnc.cpp:221-239 | FilenameOnly of JoinPath(a, b) is b, and Dirname is a without its trailing separator (or ".") |
| Paths.JoinSplitPath | VfxEnc.cpp:221-239 | joining Dirname and FilenameOnly of a path split at a backslash gives the path back |
| Paths.BasenameAndExtension | VfxEnc.cpp:212-225 | the file name is the base name followed by an empty or single-dot extension |
| Paths.BasenameOfJoined | VfxEnc.cpp:212-239 | the base name of dir joined with name+ext is name |
| Persist.ParseShaderLine | VfxEnc.cpp:488-499 | an accepted line gives a non-empty shader path; a bypassed entry comes only from a `1\|` line; the line is the saved form of the entry or the bare path |
| Persist.LoadEntries | VfxEnc.cpp:480-501 | loading gives at most one entry per line |
| Persist.ShaderLines | VfxEnc.cpp:470-478 | one saved line per chain entry |
| Persist.EntryLineRoundTrip | VfxEnc.cpp:474-499 | a saved line reads back as the same path and flag |
| Persist.LoadSavedLines | VfxEnc.cpp:470-501 | loading the saved lines restores both vectors when every path is a shader file |
| Persist.ShaderFileRoundTrip | VfxEnc.cpp:470-501 | reading back the saved file restores both vectors when every path is a shader file without a line break |
| Persist.UnprefixedLineIsActive | VfxEnc.cpp:488-499 | a line without a valid flag prefix is taken whole as an active path |
| Persist.LoadKeepsDuplicates | VfxEnc.cpp:480-501 | loading does not de-duplicate |
| Persist.NoVideoLine | VfxEnc.cpp:436-450 | without a `video=` line the video directory stays empty |
| Persist.LastVideoLineWins | VfxEnc.cpp:444-445 | the last `video=` line decides the video directory |
| Persist.NoShaderLine | VfxEnc.cpp:436-450 | without a `shader=` line the shader directory stays empty |
| Persist.LastShaderLineWins | VfxEnc.cpp:446-447 | the last `shader=` line decides the shader directory |
| Persist.KeysExclusive | VfxEnc.cpp:444-447 | no line carries both keys |
| Persist.SettingsLines | VfxEnc.cpp:424-434 | a `video=` and a `shader=` line, each only when its directory is known; read back by SettingsFileRoundTrip |
| Persist.ApplySettingsLine | VfxEnc.cpp:443-448 | one loaded line changes at most one directory, and only when it starts with `video=` or `shader=` |
| Persist.LoadSettingsLines | VfxEnc.cpp:436-450 | both directories start empty and the lines apply in file order, so the last line of each key wins (LastVideoLineWins, LastShaderLineWins) |
| Persist.SettingsFileRoundTrip | VfxEnc.cpp:424-450 | reading back the saved settings restores both directories |
| Persist.UpdatedDir | VfxEnc.cpp:452-468 | the remembered directory becomes "." without a separator, stays when the separator is at index 0, else becomes the prefix before the last separator |
| Chain.MoveItem | VfxEnc.cpp:503-511 | erase-then-insert keeps length and multiset, puts the moved item at `to`, and leaves the others in order |
| Chain.MoveItemAt | VfxEnc.cpp:503-511 | which original index each index of the moved sequence holds |
| Chain.ActiveIndices | VfxEnc.cpp:769-778 | the increasing indices of exactly the non-bypassed entries |
| Chain.ActiveOfSelects | VfxEnc.cpp:769-778 | the active list is the paths at those indices, in order |
| Chain.ActivePathsMembers | VfxEnc.cpp:769-778 | a path is active iff some entry holding it is not bypassed; an index with no flag counts as active |
| Chain.ActiveOfAppend | VfxEnc.cpp:769-778 | the active list of a concatenation is the concatenation of the active lists |
| Chain.AddedPathIsActive | VfxEnc.cpp:736-738 | adding a path with flag false appends it to the active list |
| Chain.MoveBothMovesEntries | VfxEnc.cpp:503-511 | moving the same index in both vectors moves the (path, flag) entry |
| Chain.ActiveWithoutEntry | VfxEnc.cpp:751-754 | removing one entry removes exactly its own contribution to the active list |
| Chain.MoveKeepsActive | VfxEnc.cpp:503-511 | a move keeps the multiset of active paths |
| Chain.MoveKeepsActivePaths | VfxEnc.cpp:503-511 | moving path and flag together keeps the same multiset of active paths |
| Chain.MoveItemInverse | VfxEnc.cpp:503-511 | moving back undoes a move |
| Chain.MoveFirstToLast | VfxEnc.cpp:503-511 | [A,B,C] moved from 0 to 2 is [B,C,A] |
| Chain.MoveToNeighbourSwaps | VfxEnc.cpp:1489-1498 | moving to a neighbour swaps the two entries |
| Chain.MoveInPlace | VfxEnc.cpp:503-511 | a move onto the same index changes nothing |
| Chain.ShaderChain.constructor | VfxEnc.cpp:1325-1330 | the chain is loaded from the saved file, and the player gets the active list only when the chain is not empty |
| Chain.ShaderChain.Load | VfxEnc.cpp:480-501 | both vectors are rebuilt from the lines of the saved file |
| Chain.ShaderChain.Publish | VfxEnc.cpp:470-478 | the file text becomes the saved lines and the player gets the active paths; the vectors are unchanged |
| Chain.ShaderChain.GetActiveShaders | VfxEnc.cpp:769-778 | returns the paths whose flag is not set, in order, leaving the state alone |
| Chain.ShaderChain.Add | VfxEnc.cpp:733-744 | a present path changes nothing; a new one is appended with flag false, its directory remembered, the file and player updated; no duplicate is created |
| Chain.ShaderChain.RemoveSelected | VfxEnc.cpp:746-758 | nothing without a selection; otherwise the selected entry leaves both vectors |
| Chain.ShaderChain.Clear | VfxEnc.cpp:760-767 | both vectors, the file and the player list become empty |
| Chain.ShaderChain.Move | VfxEnc.cpp:503-516 | out-of-range indices change nothing; otherwise both vectors are moved by MoveItem together |
| Chain.ShaderChain.MoveUp | VfxEnc.cpp:1489-1493 | swaps the selection with the entry above; at index 0 or without a selection nothing changes |
| Chain.ShaderChain.MoveDown | VfxEnc.cpp:1494-1498 | swaps the selection with the entry below; at the last index nothing changes |
| Chain.ShaderChain.ToggleBypass | VfxEnc.cpp:1504-1512 | flips exactly the selected flag when it exists, else nothing changes |
| Chain.ShaderChain.DragReorder | VfxEnc.cpp:1084-1096 | moves only the paths; the flags stay where they were |
| Chain.DragReorderSwapsBypassState | VfxEnc.cpp:1086-1089 | dragging a bypassed shader below an active one makes it active and the other bypassed |
| Parsers.FindFrom | VfxEnc.cpp:276-289 | `find(marker, pos)`: the first occurrence at or after pos, or none |
| Parsers.SkipBlanks | VfxEnc.cpp:279 | skips exactly the spaces and tabs |
| Parsers.DigitsEnd | VfxEnc.cpp:283-287 | the end of the digit run |
| Parsers.ReadAfterMarker | VfxEnc.cpp:278-287 | what follows one marker ends within the text |
| Parsers.ReadMarker | VfxEnc.cpp:278-287 | the blank skip, N/A test and digit loop compute ReadAfterMarker |
| Parsers.ReadDigits | VfxEnc.cpp:283-287 | the digit loop's value and end position |
| Parsers.ParseBitrateKbps | VfxEnc.cpp:274-292 | the loop computes the marker-by-marker scan |
| Parsers.PositiveBitrateIsReported | VfxEnc.cpp:274-292 | a positive result is the number written after some marker |
| Parsers.ScanFindsFirstPositive | VfxEnc.cpp:274-292 | the result is v > 0 exactly when some marker reads v and every earlier marker reads 0 (none reads N/A) |
| Parsers.ScanIsFirstPositive | VfxEnc.cpp:274-292 | a positive result comes from the first marker that reads a positive value; every marker before it reads 0 |
| Parsers.FirstPositiveIsScanned | VfxEnc.cpp:274-292 | when every marker before m reads 0 and m reads v > 0, the result is v |
| Parsers.NoMarkerInsideReading | VfxEnc.cpp:276-289 | no marker starts inside another marker or the blanks and digits read after it, so the search that resumes after the digits skips none |
| Parsers.NoMarkerNoBitrate | VfxEnc.cpp:274-292 | no marker gives 0 |
| Parsers.BitrateOfReport | VfxEnc.cpp:274-292 | `bitrate: <n>` with n > 0 gives n |
| Parsers.NotAvailableEndsScan | VfxEnc.cpp:280 | N/A after the first marker gives 0 whatever follows |
| Parsers.ScanBitrateAt | VfxEnc.cpp:276-290 | at each marker: N/A gives 0, a positive value is the answer, otherwise the scan goes on after the digits |
| Parsers.ZeroBitrateIsSkipped | VfxEnc.cpp:288-289 | a zero value does not end the scan |
| Parsers.OutTimeMs | VfxEnc.cpp:294-307 | -1 exactly for lines without the key followed by a digit |
| Parsers.ParseOutTimeMs | VfxEnc.cpp:294-307 | the loop computes OutTimeMs |
| Parsers.OutTimeRoundTrip | VfxEnc.cpp:294-307 | key, digits of n and any non-digit tail read back as n |
| Progress.NextNewline | VfxEnc.cpp:997 | `find('\n', pos)`: the first newline at or after pos, or the end |
| Progress.BufferSplits | VfxEnc.cpp:994-1016 | the buffer is its complete lines, each re-terminated, then the kept tail |
| Progress.CutLinesHaveNoNewline | VfxEnc.cpp:997-998 | no cut line and no tail holds a newline |
| Progress.CutJoinedLines | VfxEnc.cpp:994-1016 | written lines and a tail are cut back into exactly those lines and that tail |
| Progress.CutAppended | VfxEnc.cpp:989-1016 | appending a chunk keeps the old lines and cuts the new ones from the old tail plus the chunk |
| Progress.StripCR | VfxEnc.cpp:1000 | removes one trailing `\r` or nothing |
| Progress.LinePercent | VfxEnc.cpp:1001-1004 | a value exists iff the line is a progress line and the duration is positive, and lies in [0, 100] |
| Progress.LinePercentOf | VfxEnc.cpp:1000-1004 | the per-line computation equals LinePercent |
| Progress.ProgressLineReads | VfxEnc.cpp:1000-1001 | a progress line for n reads back as n, with or without `\r` |
| Progress.PercentOfProgressLine | VfxEnc.cpp:1003-1004 | n microseconds against d seconds is n/(d·10^6)·100, capped at 100 |
| Progress.Percent | VfxEnc.cpp:1003-1004 | microseconds against seconds as a percentage, before the cap; PercentOfProgressLine states the capped value |
| Progress.HalfwayIsFifty | VfxEnc.cpp:1003 | half the duration gives 50 |
| Progress.RunAppend | VfxEnc.cpp:994-1013 | feeding two stretches of lines is feeding them in turn |
| Progress.StepKeepsMonotone | VfxEnc.cpp:1005-1009 | one line keeps the throttle invariant |
| Progress.Step | VfxEnc.cpp:1005-1009 | a line with a reading is reported when it is the first or at least 0.5 above the last report; StepKeepsMonotone and SmallRiseNotReported state it |
| Progress.Run | VfxEnc.cpp:994-1013 | the throttle over the lines in order; RunAppend, RunKeepsMonotone and RunIsMonotone state it |
| Progress.RunKeepsMonotone | VfxEnc.cpp:994-1013 | any run keeps the throttle invariant |
| Progress.RunIsMonotone | VfxEnc.cpp:987-1013 | reports lie in [0, 100] and rise by at least 0.5 each |
| Progress.RunWithoutReadings | VfxEnc.cpp:1002 | lines without a value leave the throttle as it was |
| Progress.UnknownDurationReportsNothing | VfxEnc.cpp:1002 | no report without a known duration |
| Progress.EmittedIncrease | VfxEnc.cpp:1005-1009 | reported values strictly increase |
| Progress.FirstPercentReported | VfxEnc.cpp:1005 | the first value is always reported |
| Progress.SmallRiseNotReported | VfxEnc.cpp:1005 | a rise under 0.5 is not reported |
| Progress.CloseUpdatesReportOnce | VfxEnc.cpp:1005-1009 | two values 0.3 apart give one report |
| Progress.TrackLine | VfxEnc.cpp:1001-1010 | the per-line code performs exactly one throttle Step |
| Progress.DrainLines | VfxEnc.cpp:994-1016 | the inner loop runs the throttle over the complete lines and keeps the tail |
| Progress.ReadProgress | VfxEnc.cpp:987-1017 | the reports are those of the whole output's complete lines, and the buffer is its unterminated tail |
| Plan.CodecName | VfxEnc.cpp:258-271 | the named encoder when it is one of the five, else libx265 |
| Plan.BuildEncoderArgs | VfxEnc.cpp:251-272 | the codec options, then the rate options; EncoderArgsSpelledOut and ArgsCarryTarget state what each encoder gets |
| Plan.EncoderArgsSpelledOut | VfxEnc.cpp:258-271 | each of the five encoders gets exactly its source string: `-rc cbr` for hevc_amf, `-preset p5 -rc vbr -cq 23` for hevc_nvenc, only `-b:v` for hevc_mf, and `-b:v` and `-maxrate` at the target and `-bufsize` at twice it for the others |
| Plan.ArgsCarryTarget | VfxEnc.cpp:255-271 | after the codec options come `-b:v` and the rate, then `-maxrate` and the same rate for every encoder but hevc_mf, which stops after `-b:v`; the rate reads back as the target |
| Plan.ArgsSelectEncoder | VfxEnc.cpp:251-272 | the arguments start with `-c:v` and the selected encoder |
| Plan.UnknownEncoderIsSoftware | VfxEnc.cpp:270-271 | an unknown name gets the software encoder's arguments |
| Plan.RateReadsBack | VfxEnc.cpp:255-256 | `%dM` reads back as the number followed by M |
| Plan.BufferIsTwiceRate | VfxEnc.cpp:256-271 | every encoder but hevc_mf ends with a buffer size of twice the target |
| Plan.Candidates | VfxEnc.cpp:878-889 | auto gives the five encoders in order, any other choice only itself |
| Plan.BitrateForCombo | VfxEnc.cpp:1450-1467 | entry 1 is 5, entries 2..11 are 10..100, anything else 0 |
| Plan.EncoderForCombo | VfxEnc.cpp:1469-1480 | entries 1..5 are the five encoders in auto's order, anything else auto |
| Plan.ComboCandidatesAreKnown | VfxEnc.cpp:1469-1480 | every candidate from the combo is one of the five encoders |
| Plan.RoundToUnit | VfxEnc.cpp:799-826 | rounds to the nearest unit, never below 1 |
| Plan.MbpsOfBps | VfxEnc.cpp:799-800 | at least 1 Mbps |
| Plan.MbpsOfKbps | VfxEnc.cpp:824-825 | at least 1 Mbps |
| Plan.InputBitrateMbps | VfxEnc.cpp:794-831 | the first known source wins: mpv's bitrate rounded to Mbps, else the size-over-duration estimate raised to 1, else ffmpeg's kb/s rounded to Mbps; the result is 0 exactly when no source knows a bitrate |
| Plan.TargetMbps | VfxEnc.cpp:891-895 | the chosen rate, else the input rate, else 20 |
| Plan.TargetFromCombo | VfxEnc.cpp:891-895 | a fixed combo entry gives 5..100; Auto follows the input or falls back to 20 |
| Plan.FfmpegEscapeFilterValue | VfxEnc.cpp:364-382 | the loop computes EscapeFilterValue |
| Plan.UnescapeEscape | VfxEnc.cpp:364-382 | backslash (option-level) unescaping reads the escaped value back, with backslashes turned into slashes |
| Plan.EscapedIsWellEscaped | VfxEnc.cpp:364-382 | the escaped value leaves no separator bare |
| Plan.EscapeFilterValue | VfxEnc.cpp:364-382 | each backslash becomes a slash and each `:`, `,` and `=` gets a backslash before it; its partner is UnescapeFilterValue (UnescapeEscape) |
| Plan.PlainNeedsNoEscaping | VfxEnc.cpp:364-382 | lower-case letters, digits, `_` and `.` pass through the escaping unchanged |
| Plan.TempNameNeedsNoEscaping | VfxEnc.cpp:855-858 | the escaped value is always the temp-script name, which is plain and holds no quote, so the quoting and graph-level escaping the model leaves out have nothing to act on |
| Plan.ScaledWidth | VfxEnc.cpp:865-871 | w is even and w ≤ iw·1440/ih + 0.5 < w + 2; 2560 (the 1920x1080 fallback) without a known size |
| Plan.EvenQuotientBounds | VfxEnc.cpp:870-871 | clearing the low bit keeps the quotient within two steps |
| Plan.OddWidthLosesAPixel | VfxEnc.cpp:870-871 | 854x480 gives 2562, 853x480 gives 2558 |
| Plan.ZeroPad | VfxEnc.cpp:402-403 | `%0Nu`: digits, at least N of them, exactly N when the number fits |
| Plan.ZeroPadValue | VfxEnc.cpp:402-403 | the padding does not change the value |
| Plan.TempScriptNameIsPlain | VfxEnc.cpp:402-407 | the temp name is a shader file name without separators, found again in its directory |
| Plan.TempScriptNameLength | VfxEnc.cpp:402-403 | every in-range timestamp gives a 37-character name |
| Plan.TempScriptName | VfxEnc.cpp:401-403 | `combined_shaders_`, the zero-padded date and time, `.glsl`; TempScriptNameIsPlain and TempScriptNameLength state it |
| Plan.WriteCombinedShaderTemp | VfxEnc.cpp:394-421 | the name is always set; the path is non-empty exactly when the file could be created |
| Plan.NoReadableShaderEmptyScript | VfxEnc.cpp:412-419 | no readable shader gives an empty script |
| Plan.ReadableShaderAppends | VfxEnc.cpp:412-419 | a readable shader appends its framed path and text after what came before |
| Plan.CombinedScriptText | VfxEnc.cpp:412-419 | each readable shader's text between its BEGIN and END lines, in chain order; NoReadableShaderEmptyScript and ReadableShaderAppends state it |
| Plan.ShaderFilter | VfxEnc.cpp:855-861 | libplacebo with the escaped temp-script name when the script could be opened, plain libplacebo otherwise (FilterUsesTempScript, FilterWithoutTempScript) |
| Plan.ScaleFilter | VfxEnc.cpp:875 | the libplacebo stage with the computed width and height 1440 (FilterGraph) |
| Plan.FilterGraph | VfxEnc.cpp:854-876 | with 1440p the graph is the shader stage followed directly by the scaling stage; otherwise the shader stage alone |
| Plan.FilterUsesTempScript | VfxEnc.cpp:855-858 | an opened temp script is loaded by its escaped name, which backslash unescaping reads back |
| Plan.FilterWithoutTempScript | VfxEnc.cpp:855-861 | without the temp script the graph is plain libplacebo |
| Plan.OutputNamedAfterInput | VfxEnc.cpp:849-851 | the output name is the input's base name, the stem and .mp4 |
| Plan.OutputBesideInput | VfxEnc.cpp:849-851 | the output lies in the input's directory |
| Plan.LogNamedAfterInput | VfxEnc.cpp:898 | the log is named after the input, with .log |
| Plan.OutputPath | VfxEnc.cpp:849-851 | the input's directory joined with its base name, the stem and `.mp4` (OutputNamedAfterInput, OutputBesideInput) |
| Plan.LogPath | VfxEnc.cpp:898 | the program's directory joined with the output's base name and `.log` (LogNamedAfterInput) |
| Plan.EncodeCommand | VfxEnc.cpp:936-943 | quoted ffmpeg, the input, filter and encoder options, the progress options when the duration is known, the quoted output (CommandShape, ProgressOptionsOnlyWithDuration) |
| Plan.CommandShape | VfxEnc.cpp:936-943 | the command starts with the quoted ffmpeg and ends with the quoted output |
| Plan.ProgressOptionsOnlyWithDuration | VfxEnc.cpp:940-943 | a known duration only inserts the progress options before the output |
| Worker.RunAttempt | VfxEnc.cpp:936-1030 | one attempt's messages, log and success are AttemptMessages (progress only from the chunks that reach the pipe, PipeChunks), AttemptLog and exit code 0 |
| Worker.AttemptMessages | VfxEnc.cpp:951-1017 | the announcement, then one percentage per report of the throttle over the chunks read; NoLogNoProgress, AttemptWithoutDuration, AttemptAnnouncesOnce and AttemptPercentsRise state it |
| Worker.PipeChunks | VfxEnc.cpp:925-930 | ffmpeg's output reaches the pipe only when the log was created (NoLogNoProgress) |
| Worker.NoLogNoProgress | VfxEnc.cpp:925-930 | without a log file an attempt posts only its announcement, whatever ffmpeg wrote |
| Worker.ProgressLostWithoutLog | VfxEnc.cpp:925-961 | a halfway progress line posts nothing without a log, where the wired pipe posts 50% |
| Worker.OneLineReported | VfxEnc.cpp:989-1010 | a chunk holding one complete progress line reports that line's percentage |
| Worker.WiredAttemptMessages | VfxEnc.cpp:958-961 | the attempt's messages when the pipe is always ffmpeg's output (WiredProgressIgnoresLog) |
| Worker.WiredProgressIgnoresLog | VfxEnc.cpp:958-961 | with the pipe always wired the messages do not depend on the log, and equal the source's when the log was created |
| Worker.MessageText | VfxEnc.cpp:836-1042 | the text of each status line the encode shows, the percentage line aside |
| Worker.Attempts | VfxEnc.cpp:935-1031 | the candidates in order until the first exit code 0; AttemptsMade, AttemptsInOrder and AttemptsSucceedIff state it |
| Worker.WorkerOutcome | VfxEnc.cpp:905-1043 | the attempts, then Done or Failed and the temp-script deletion; WorkerReports and WorkerFailsAfterAll state it |
| Worker.AttemptCommand | VfxEnc.cpp:936-943 | the command line of one attempt, from the job's video, filter, encoder, target, duration and output |
| Worker.LiveAttemptCommand | VfxEnc.cpp:936-943 | the command line as the source builds it, from whatever video is loaded when the attempt starts |
| Worker.ReplacedVideoKeepsOldOutput | VfxEnc.cpp:936-943 | a video loaded during the encode is encoded into the output named after the earlier video, a path that differs from the new video's own output |
| Worker.SnapshotPairsInputAndOutput | VfxEnc.cpp:849-851 | every attempt of the planned job encodes the planned video into the output named after it, and equals the source's command while the loaded video is unchanged |
| Worker.EncodeWorker | VfxEnc.cpp:905-1043 | the worker loop computes WorkerOutcome |
| Worker.AttemptsMade | VfxEnc.cpp:935-1031 | attempts stop right after the first success; all earlier ones failed |
| Worker.AttemptAnnouncesOnce | VfxEnc.cpp:951-952 | each attempt announces its encoder exactly once |
| Worker.AttemptsInOrder | VfxEnc.cpp:935-1031 | the announced encoders are the candidates up to the first success, in order |
| Worker.AttemptsSucceedIff | VfxEnc.cpp:1027-1030 | the trial succeeds iff some attempt exited with 0 |
| Worker.NoSuccessTriesAll | VfxEnc.cpp:956-981 | without a success every candidate is tried |
| Worker.WorkerReports | VfxEnc.cpp:1033-1043 | the last message is Done(out) iff some attempt succeeded, else Failed(logPath); the temp script is deleted iff it exists |
| Worker.WorkerFailsAfterAll | VfxEnc.cpp:935-1043 | with no success every candidate is announced and the failure is reported |
| Worker.LogOnlyWhenCreated | VfxEnc.cpp:945-949 | no log without a log file; otherwise the log opens with the first attempt's header |
| Worker.AttemptWithoutDuration | VfxEnc.cpp:1002 | without a duration an attempt only announces itself |
| Worker.WithoutDurationOnlyStatuses | VfxEnc.cpp:925-1010 | without a duration, or without a log file, the trial posts one announcement per attempt and nothing else |
| Worker.AttemptPercentsRise | VfxEnc.cpp:1005-1009 | within an attempt the percentages strictly rise |
| Worker.PlanJob | VfxEnc.cpp:843-898 | the job's candidates come from the encoder choice and its target is positive |
| Worker.RunEncode | VfxEnc.cpp:833-905 | no video gives only "No video loaded."; otherwise "Encoding..." and then the worker's messages |
| Worker.RunEncodeReports | VfxEnc.cpp:1033-1043 | ends with Done and the output beside the input iff an attempt succeeded, else points at the log; the temp script is deleted iff it was created |
| Worker.AutoTriesEveryEncoder | VfxEnc.cpp:935-1043 | auto with no working encoder tries all five in order and reports failure |

## Left out

- Win32 UI: layout, painting, list refresh, the selection set after a move, menus and message routing are not modelled. Only the state changes that handlers trigger are modelled.
- mpv: the player is modelled by the `preview` field, which receives the active list. Initialisation, playback and the on-screen text are left out.
- Process, pipe and file plumbing: each attempt's outcome is an input (`Worker.Outcome`).
- The bitrate probe's own ffmpeg run (`ProbeBitrateKbpsWithFfmpeg`) is left out; its kb/s result is an input.
- `FindFfmpeg`, `GetExeDir`, the clock, the video size, the duration and whether the temp script and the log file could be created are inputs (`Worker.Env`).
- `GetMpvVideoSize` reads the 64-bit width and height into `int` variables. The sizes are taken as given, so that overwrite is not modelled.
- Threads and `PostMessageW`: the worker is a sequential method, and its posted strings are collected in order.
- Worker.MessageText: the `%.1f` formatting of the percentage message is not modelled; the value is carried as a real.
- Progress.Percent: double arithmetic is modelled as exact reals.
- Plan.InputBitrateMbps: the size-over-duration estimate is floating point, so it is an input, already rounded. Only the integer roundings are modelled.
- Plan.InputBitrateMbps: the early 0 without a player is not modelled. A video is loaded only through the player (VfxEnc.cpp:605-607), so RunEncode gets past its no-video check only when there is one.
- Plan.UnescapeFilterValue: only option-level backslash escaping is modelled, not ffmpeg's `'` quoting or the second, graph-level escaping. The escaped value is always the plain temp-script name, which neither touches (Plan.TempNameNeedsNoEscaping).
- Worker.Job: the source's worker reads the loaded video again at each attempt. The job keeps the video it was planned for, and Worker.LiveAttemptCommand models the source's command (see "## Findings").
- Plan.ScaledWidth: the double expression `iw * 1440 / ih + 0.5` is modelled by exact integer rounding.
- Parsers.ParseBitrateKbps: `int` overflow on very long digit runs is not modelled; values are unbounded.
- Parsers.ParseOutTimeMs: `int64_t` overflow on very long digit runs is not modelled; values are unbounded.
- UTF-8/wide conversion is left out; strings are character sequences and case folding is ASCII only.
- A file that cannot be opened reads like an empty one; both loaders clear their state first.
- Plan.CombinedScriptText is stated on its own. Only the temp script's name and existence reach the job, because the graph uses nothing else.
- Worker.RunEncode: it takes one outcome per candidate. Outcomes after the first success are never looked at.
- A final output line without `\n` is never cut, so it never reaches the throttle. The model keeps it as the unprocessed tail, as the code does.
- Settings are saved after a directory update in the source. The model remembers only the shader directory in the chain; its file write is not modelled.
- `EditShaderInNotepad`, `HandleDrop` and the open dialogs are left out; only their directory update (`Persist.UpdatedDir`) is modelled.
- The narrowing conversion of the shader path in the temp script's BEGIN line is not modelled.

## Findings

| source | as written | input that shows it | evidently intended | confidence | as-written member | corrected member |
|---|---|---|---|---|---|---|
| VfxEnc.cpp:1086-1089 | drag reorder erases and re-inserts only `g_shaders`; `g_shaderBypass` keeps its order | chain [a, b] with flags [bypassed, active]; drag a (index 0) onto index 1: paths become [b, a] with flags unchanged, so b turns bypassed and a active | the flag travels with its path, as `MoveShader` moves both vectors | not executed; high | Chain.ShaderChain.DragReorder, Chain.DragReorderSwapsBypassState | Chain.ShaderChain.Move, Chain.MoveKeepsActivePaths |
| VfxEnc.cpp:936-943 | each attempt quotes the global loaded-video path, which the worker thread does not capture (VfxEnc.cpp:905) and which opening or dropping a file replaces during the encode (VfxEnc.cpp:607); the output path was captured when the encode started | start an encode of `C:\v\a.mp4`, drop `C:\v\b.mp4` on the window while the first encoder runs; when that encoder fails the next attempt reads `b.mp4` and writes `C:\v\a_shaded.mp4` | the video is captured with the output path, so every attempt encodes the video the encode was started for | not executed; high that the path is read again, medium that users hit it | Worker.LiveAttemptCommand, Worker.ReplacedVideoKeepsOldOutput | Worker.AttemptCommand, Worker.SnapshotPairsInputAndOutput |
| VfxEnc.cpp:925-930 | `STARTF_USESTDHANDLES` is set only when the log file opened, so `CreateProcessW` ignores the pipe handles put into `si` at VfxEnc.cpp:959-960 when there is no log | the log file cannot be created (say the program's directory is read-only); ffmpeg writes `out_time_ms=5000000` with a 10-second duration, and no "50.0%" line is posted | the pipe is ffmpeg's standard output and error at every attempt, and the log only receives a copy | not executed; high that the handles are ignored without the flag, as CreateProcessW documents | Worker.PipeChunks, Worker.NoLogNoProgress, Worker.ProgressLostWithoutLog | Worker.WiredAttemptMessages, Worker.WiredProgressIgnoresLog |
