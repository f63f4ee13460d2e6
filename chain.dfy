// The shader chain: the two parallel vectors g_shaders and g_shaderBypass
// of VfxEnc.cpp and the operations the UI applies to them. After every
// change the source rewrites shaders.txt and hands the active paths to the
// player; the class keeps both as fields (`stored`, `preview`).

module Chain {
  import opened Strings
  import opened Paths
  import opened Persist

  // ---------------------------------------------------------------
  // Specification functions
  // ---------------------------------------------------------------

  /** erase at `from`, then insert the erased element at `to` of the
      shortened sequence. */
  function MoveItem<T>(s: seq<T>, from: nat, to: nat): (r: seq<T>)
    requires from < |s| && to < |s|
    ensures |r| == |s| && multiset(r) == multiset(s)
    ensures r[to] == s[from]
    ensures r[..to] + r[to + 1..] == s[..from] + s[from + 1..]
  {
    var rest := s[..from] + s[from + 1..];
    assert s == s[..from] + [s[from]] + s[from + 1..];
    assert rest == rest[..to] + rest[to..];
    var r := rest[..to] + [s[from]] + rest[to..];
    assert r[..to] == rest[..to] && r[to + 1..] == rest[to..];
    assert multiset(r) == multiset(rest[..to]) + multiset{s[from]} + multiset(rest[to..]);
    assert multiset(s) == multiset(s[..from]) + multiset{s[from]} + multiset(s[from + 1..]);
    assert multiset(rest) == multiset(rest[..to]) + multiset(rest[to..]);
    assert multiset(rest) == multiset(s[..from]) + multiset(s[from + 1..]);
    assert multiset(r) == multiset(rest) + multiset{s[from]};
    assert multiset(s) == multiset(rest) + multiset{s[from]};
    r
  }

  /** The index of `s` whose element MoveItem places at index i. */
  function MovedFrom(from: nat, to: nat, i: nat): nat
  {
    if i == to then from
    else
      var j := if i < to then i else i - 1;
      if j < from then j else j + 1
  }

  /** MoveItem one index at a time. */
  lemma MoveItemAt<T>(s: seq<T>, from: nat, to: nat, i: nat)
    requires from < |s| && to < |s| && i < |s|
    ensures MovedFrom(from, to, i) < |s|
    ensures MoveItem(s, from, to)[i] == s[MovedFrom(from, to, i)]
  {
    var rest := s[..from] + s[from + 1..];
    var r := MoveItem(s, from, to);
    assert r == rest[..to] + [s[from]] + rest[to..];
    if i != to {
      var j := if i < to then i else i - 1;
      assert r[i] == rest[j];
    }
  }

  /** The chain as (path, flag) entries; an index without a flag is not
      bypassed. */
  function EntriesOf(shaders: seq<string>, bypass: seq<bool>): (es: seq<Entry>)
    ensures |es| == |shaders|
  {
    seq(|shaders|, i requires 0 <= i < |shaders| => Entry(shaders[i], FlagAt(bypass, i)))
  }

  /** The paths of the entries that are not bypassed, in order. */
  function ActiveOf(es: seq<Entry>): seq<string>
  {
    if es == [] then []
    else
      var last := es[|es| - 1];
      ActiveOf(es[..|es| - 1]) + (if last.bypassed then [] else [last.path])
  }

  /** What GetActiveShaders returns for the chain. */
  function ActivePaths(shaders: seq<string>, bypass: seq<bool>): seq<string>
  {
    ActiveOf(EntriesOf(shaders, bypass))
  }

  /** The indices of the entries that are not bypassed, increasing. */
  function ActiveIndices(es: seq<Entry>): (idx: seq<nat>)
    ensures forall k :: 0 <= k < |idx| ==> idx[k] < |es| && !es[idx[k]].bypassed
    ensures forall k, l :: 0 <= k < l < |idx| ==> idx[k] < idx[l]
    ensures forall i :: 0 <= i < |es| && !es[i].bypassed ==> i in idx
  {
    if es == [] then []
    else
      var n := |es| - 1;
      var prev := ActiveIndices(es[..n]);
      prev + (if es[n].bypassed then [] else [n])
  }

  predicate NoDuplicates(s: seq<string>)
  {
    forall i, j :: 0 <= i < j < |s| ==> s[i] != s[j]
  }

  // ---------------------------------------------------------------
  // Properties of the specification functions
  // ---------------------------------------------------------------

  /** The active paths are exactly the non-bypassed entries' paths, taken
      in chain order. */
  lemma {:induction false} ActiveOfSelects(es: seq<Entry>)
    ensures var idx := ActiveIndices(es);
      |ActiveOf(es)| == |idx| && forall k :: 0 <= k < |idx| ==> ActiveOf(es)[k] == es[idx[k]].path
  {
    if es != [] {
      var n := |es| - 1;
      ActiveOfSelects(es[..n]);
    }
  }

  /** A path is active exactly when some entry holding it is not bypassed;
      an index beyond the flag vector counts as active. */
  lemma ActivePathsMembers(shaders: seq<string>, bypass: seq<bool>, p: string)
    ensures p in ActivePaths(shaders, bypass) <==>
      exists i :: 0 <= i < |shaders| && shaders[i] == p && !FlagAt(bypass, i)
  {
    var es := EntriesOf(shaders, bypass);
    var idx := ActiveIndices(es);
    ActiveOfSelects(es);
    if p in ActivePaths(shaders, bypass) {
      var k :| 0 <= k < |idx| && ActiveOf(es)[k] == p;
      assert shaders[idx[k]] == p && !FlagAt(bypass, idx[k]);
    }
    if exists i :: 0 <= i < |shaders| && shaders[i] == p && !FlagAt(bypass, i) {
      var i :| 0 <= i < |shaders| && shaders[i] == p && !FlagAt(bypass, i);
      assert !es[i].bypassed;
      var k :| 0 <= k < |idx| && idx[k] == i;
      assert ActiveOf(es)[k] == p;
    }
  }

  /** Filtering distributes over concatenation. */
  lemma {:induction false} ActiveOfAppend(a: seq<Entry>, b: seq<Entry>)
    ensures ActiveOf(a + b) == ActiveOf(a) + ActiveOf(b)
  {
    if b != [] {
      var n := |b| - 1;
      assert (a + b)[..|a + b| - 1] == a + b[..n];
      ActiveOfAppend(a, b[..n]);
    } else {
      assert a + b == a;
    }
  }

  /** Adding a new entry (flag false) appends its path to the active list. */
  lemma AddedPathIsActive(shaders: seq<string>, bypass: seq<bool>, p: string)
    requires |shaders| == |bypass|
    ensures ActivePaths(shaders + [p], bypass + [false]) == ActivePaths(shaders, bypass) + [p]
  {
    var es := EntriesOf(shaders + [p], bypass + [false]);
    assert es == EntriesOf(shaders, bypass) + [Entry(p, false)];
    ActiveOfAppend(EntriesOf(shaders, bypass), [Entry(p, false)]);
    assert ActiveOf([Entry(p, false)]) == ActiveOf([]) + [p];
  }

  /** Moving the same index in both vectors moves the whole entry. */
  lemma MoveBothMovesEntries(shaders: seq<string>, bypass: seq<bool>, from: nat, to: nat)
    requires |shaders| == |bypass| && from < |shaders| && to < |shaders|
    ensures EntriesOf(MoveItem(shaders, from, to), MoveItem(bypass, from, to))
         == MoveItem(EntriesOf(shaders, bypass), from, to)
  {
    var es := EntriesOf(shaders, bypass);
    var moved := EntriesOf(MoveItem(shaders, from, to), MoveItem(bypass, from, to));
    var expected := MoveItem(es, from, to);
    forall i | 0 <= i < |shaders| ensures moved[i] == expected[i] {
      MoveItemAt(shaders, from, to, i);
      MoveItemAt(bypass, from, to, i);
      MoveItemAt(es, from, to, i);
    }
  }

  /** The active paths of a sequence split around one entry. */
  lemma ActiveOfAround(a: seq<Entry>, x: Entry, b: seq<Entry>)
    ensures ActiveOf(a + [x] + b) == ActiveOf(a) + ActiveOf([x]) + ActiveOf(b)
  {
    ActiveOfAppend(a + [x], b);
    ActiveOfAppend(a, [x]);
  }

  /** Taking one entry out removes exactly its own contribution. */
  lemma ActiveWithoutEntry(es: seq<Entry>, i: nat)
    requires i < |es|
    ensures multiset(ActiveOf(es))
         == multiset(ActiveOf(es[..i] + es[i + 1..])) + multiset(ActiveOf([es[i]]))
  {
    var a, x, b := es[..i], es[i], es[i + 1..];
    SplitAround(es, i);
    ActiveWithoutMiddle(a, x, b);
  }

  lemma SplitAround<T>(s: seq<T>, i: nat)
    requires i < |s|
    ensures s[..i] + [s[i]] + s[i + 1..] == s
  {
  }

  lemma ActiveWithoutMiddle(a: seq<Entry>, x: Entry, b: seq<Entry>)
    ensures multiset(ActiveOf(a + [x] + b)) == multiset(ActiveOf(a + b)) + multiset(ActiveOf([x]))
  {
    ActiveOfAround(a, x, b);
    ActiveOfAppend(a, b);
    MultisetOfThree(ActiveOf(a), ActiveOf([x]), ActiveOf(b));
  }

  lemma MultisetOfThree(p: seq<string>, q: seq<string>, r: seq<string>)
    ensures multiset(p + q + r) == multiset(p + r) + multiset(q)
  {
    calc {
      multiset(p + q + r);
      multiset(p + q) + multiset(r);
      multiset(p) + multiset(q) + multiset(r);
      multiset(p + r) + multiset(q);
    }
  }

  /** Moving an entry keeps the multiset of active paths: a bypassed
      shader stays bypassed wherever it goes. */
  lemma MoveKeepsActive(es: seq<Entry>, from: nat, to: nat)
    requires from < |es| && to < |es|
    ensures multiset(ActiveOf(MoveItem(es, from, to))) == multiset(ActiveOf(es))
  {
    var r := MoveItem(es, from, to);
    ActiveWithoutEntry(es, from);
    ActiveWithoutEntry(r, to);
  }

  /** The corrected reorder: moving path and flag together keeps the same
      shaders active, only their order changes. */
  lemma MoveKeepsActivePaths(shaders: seq<string>, bypass: seq<bool>, from: nat, to: nat)
    requires |shaders| == |bypass| && from < |shaders| && to < |shaders|
    ensures multiset(ActivePaths(MoveItem(shaders, from, to), MoveItem(bypass, from, to)))
         == multiset(ActivePaths(shaders, bypass))
  {
    MoveBothMovesEntries(shaders, bypass, from, to);
    MoveKeepsActive(EntriesOf(shaders, bypass), from, to);
  }

  /** Moving back undoes a move. */
  lemma MoveItemInverse<T>(s: seq<T>, from: nat, to: nat)
    requires from < |s| && to < |s|
    ensures MoveItem(MoveItem(s, from, to), to, from) == s
  {
    var r := MoveItem(s, from, to);
    var back := MoveItem(r, to, from);
    forall i | 0 <= i < |s| ensures back[i] == s[i] {
      MoveItemAt(r, to, from, i);
      MoveItemAt(s, from, to, MovedFrom(to, from, i));
    }
  }

  /** Extract-and-reinsert, not a swap: [A,B,C] moving 0 to 2 is [B,C,A]. */
  lemma MoveFirstToLast<T>(a: T, b: T, c: T)
    ensures MoveItem([a, b, c], 0, 2) == [b, c, a]
  {
  }

  /** Moving an entry one place down (or up) swaps it with its neighbour. */
  lemma MoveToNeighbourSwaps<T>(s: seq<T>, i: nat)
    requires i + 1 < |s|
    ensures MoveItem(s, i, i + 1) == s[..i] + [s[i + 1], s[i]] + s[i + 2..]
    ensures MoveItem(s, i + 1, i) == s[..i] + [s[i + 1], s[i]] + s[i + 2..]
  {
    var swapped := s[..i] + [s[i + 1], s[i]] + s[i + 2..];
    var down := MoveItem(s, i, i + 1);
    var up := MoveItem(s, i + 1, i);
    forall k | 0 <= k < |s| ensures down[k] == swapped[k] && up[k] == swapped[k] {
      MoveItemAt(s, i, i + 1, k);
      MoveItemAt(s, i + 1, i, k);
    }
  }

  /** A move onto the same index changes nothing. */
  lemma MoveInPlace<T>(s: seq<T>, i: nat)
    requires i < |s|
    ensures MoveItem(s, i, i) == s
  {
    assert s == s[..i] + [s[i]] + s[i + 1..];
  }

  // ---------------------------------------------------------------
  // The chain object
  // ---------------------------------------------------------------

  /** LB_ERR, the selection index of a list box with nothing selected. */
  const NoSelection: int := -1

  class ShaderChain {
    /** g_shaders: the shader paths in application order. */
    var shaders: seq<string>
    /** g_shaderBypass: one flag per path. */
    var bypass: seq<bool>
    /** The contents of shaders.txt. */
    var stored: string
    /** The glsl-shaders list last handed to the player. */
    var preview: seq<string>
    /** g_lastShaderDir. */
    var lastShaderDir: string

    /** Every operation keeps one flag per path. */
    ghost predicate Valid()
      reads this
    {
      |shaders| == |bypass|
    }

    /** Window creation: LoadShaders from the saved file, and hand the
        list to the player only when it is not empty. */
    constructor (savedFile: string, shaderDir: string)
      ensures Valid()
      ensures stored == savedFile && lastShaderDir == shaderDir
      ensures shaders == PathsOf(LoadEntries(GetLines(savedFile)))
      ensures bypass == FlagsOf(LoadEntries(GetLines(savedFile)))
      ensures preview == if shaders == [] then [] else ActivePaths(shaders, bypass)
    {
      shaders := [];
      bypass := [];
      stored := savedFile;
      preview := [];
      lastShaderDir := shaderDir;
      new;
      Load();
      if shaders != [] {
        preview := ActivePaths(shaders, bypass);
      }
    }

    /** LoadShaders: rebuild both vectors from the saved file. */
    method Load()
      modifies this
      ensures Valid()
      ensures shaders == PathsOf(LoadEntries(GetLines(stored)))
      ensures bypass == FlagsOf(LoadEntries(GetLines(stored)))
      ensures stored == old(stored) && preview == old(preview) && lastShaderDir == old(lastShaderDir)
    {
      shaders := [];
      bypass := [];
      var lines := GetLines(stored);
      var i := 0;
      while i < |lines|
        invariant 0 <= i <= |lines|
        invariant shaders == PathsOf(LoadEntries(lines[..i]))
        invariant bypass == FlagsOf(LoadEntries(lines[..i]))
        invariant stored == old(stored) && preview == old(preview) && lastShaderDir == old(lastShaderDir)
      {
        ghost var es := LoadEntries(lines[..i]);
        assert lines[..i + 1][..i] == lines[..i];
        var line := lines[i];
        ghost var parsed := ParseShaderLine(line);
        if line != [] {
          var bypassed := false;
          if |line| > 2 && (line[0] == '0' || line[0] == '1') && line[1] == '|' {
            bypassed := line[0] == '1';
            line := line[2..];
          }
          if line != [] && IsShaderFile(line) {
            assert parsed == Some(Entry(line, bypassed));
            assert LoadEntries(lines[..i + 1]) == es + [Entry(line, bypassed)];
            PathsAndFlagsAppend(es, Entry(line, bypassed));
            shaders := shaders + [line];
            bypass := bypass + [bypassed];
          } else {
            assert parsed == None;
          }
        }
        i := i + 1;
      }
      assert lines[..i] == lines;
    }

    /** The file write and the player update that follow every change. */
    method Publish()
      modifies this
      ensures shaders == old(shaders) && bypass == old(bypass) && lastShaderDir == old(lastShaderDir)
      ensures stored == ShaderFileText(shaders, bypass)
      ensures preview == ActivePaths(shaders, bypass)
    {
      stored := ShaderFileText(shaders, bypass);
      preview := GetActiveShaders();
    }

    /** GetActiveShaders: the paths whose flag is not set, in chain order. */
    method GetActiveShaders() returns (out: seq<string>)
      ensures out == ActivePaths(shaders, bypass)
    {
      var es := EntriesOf(shaders, bypass);
      out := [];
      for i := 0 to |shaders|
        invariant out == ActiveOf(es[..i])
      {
        assert es[..i + 1][..i] == es[..i];
        if i < |bypass| && bypass[i] {
          continue;
        }
        out := out + [shaders[i]];
      }
      assert es[..|shaders|] == es;
    }

    /** AddShaderPath: a path already in the chain is ignored; otherwise it
        is appended, not bypassed, and its directory is remembered. */
    method Add(path: string)
      requires Valid()
      modifies this
      ensures Valid()
      ensures path in old(shaders) ==>
        shaders == old(shaders) && bypass == old(bypass) && stored == old(stored)
        && preview == old(preview) && lastShaderDir == old(lastShaderDir)
      ensures path !in old(shaders) ==>
        shaders == old(shaders) + [path] && bypass == old(bypass) + [false]
        && lastShaderDir == UpdatedDir(old(lastShaderDir), path)
        && stored == ShaderFileText(shaders, bypass)
        && preview == old(ActivePaths(shaders, bypass)) + [path]
      ensures NoDuplicates(old(shaders)) ==> NoDuplicates(shaders)
    {
      if path in shaders {
        return;
      }
      AddedPathIsActive(shaders, bypass, path);
      shaders := shaders + [path];
      bypass := bypass + [false];
      lastShaderDir := UpdatedDir(lastShaderDir, path);
      Publish();
    }

    /** RemoveSelectedShader: nothing when no item is selected, otherwise
        the selected entry leaves both vectors. */
    method RemoveSelected(sel: int)
      requires Valid()
      requires sel == NoSelection || 0 <= sel < |shaders|
      modifies this
      ensures Valid()
      ensures sel == NoSelection ==> unchanged(this)
      ensures sel != NoSelection ==>
        shaders == old(shaders[..sel] + shaders[sel + 1..])
        && bypass == old(bypass[..sel] + bypass[sel + 1..])
        && lastShaderDir == old(lastShaderDir)
        && stored == ShaderFileText(shaders, bypass)
        && preview == ActivePaths(shaders, bypass)
    {
      if sel == NoSelection {
        return;
      }
      shaders := shaders[..sel] + shaders[sel + 1..];
      if 0 <= sel < |bypass| {
        bypass := bypass[..sel] + bypass[sel + 1..];
      }
      Publish();
    }

    /** ClearShaders. */
    method Clear()
      modifies this
      ensures Valid()
      ensures shaders == [] && bypass == [] && lastShaderDir == old(lastShaderDir)
      ensures stored == [] && preview == []
    {
      shaders := [];
      bypass := [];
      Publish();
    }

    /** MoveShader: nothing unless both indices are in range; otherwise the
        entry at `from` is taken out of both vectors and reinserted at `to`. */
    method Move(from: int, to: int)
      requires Valid()
      modifies this
      ensures Valid()
      ensures !(0 <= from < |old(shaders)| && 0 <= to < |old(shaders)|) ==> unchanged(this)
      ensures 0 <= from < |old(shaders)| && 0 <= to < |old(shaders)| ==>
        shaders == MoveItem(old(shaders), from, to)
        && bypass == MoveItem(old(bypass), from, to)
        && lastShaderDir == old(lastShaderDir)
        && stored == ShaderFileText(shaders, bypass)
        && preview == ActivePaths(shaders, bypass)
    {
      if from < 0 || to < 0 || from >= |shaders| || to >= |shaders| {
        return;
      }
      var item := shaders[from];
      shaders := shaders[..from] + shaders[from + 1..];
      shaders := shaders[..to] + [item] + shaders[to..];
      var b := bypass[from];
      bypass := bypass[..from] + bypass[from + 1..];
      bypass := bypass[..to] + [b] + bypass[to..];
      Publish();
    }

    /** The "Move Up" menu entry: MoveShader(sel, sel - 1). */
    method MoveUp(sel: int)
      requires Valid()
      modifies this
      ensures Valid()
      ensures sel <= 0 || sel >= |old(shaders)| ==> unchanged(this)
      ensures 0 < sel < |old(shaders)| ==>
        shaders == old(shaders[..sel - 1] + [shaders[sel], shaders[sel - 1]] + shaders[sel + 1..])
        && bypass == old(bypass[..sel - 1] + [bypass[sel], bypass[sel - 1]] + bypass[sel + 1..])
        && lastShaderDir == old(lastShaderDir)
        && stored == ShaderFileText(shaders, bypass)
        && preview == ActivePaths(shaders, bypass)
    {
      if 0 < sel < |shaders| {
        MoveToNeighbourSwaps(shaders, sel - 1);
        MoveToNeighbourSwaps(bypass, sel - 1);
      }
      Move(sel, sel - 1);
    }

    /** The "Move Down" menu entry: MoveShader(sel, sel + 1). */
    method MoveDown(sel: int)
      requires Valid()
      modifies this
      ensures Valid()
      ensures sel < 0 || sel + 1 >= |old(shaders)| ==> unchanged(this)
      ensures 0 <= sel && sel + 1 < |old(shaders)| ==>
        shaders == old(shaders[..sel] + [shaders[sel + 1], shaders[sel]] + shaders[sel + 2..])
        && bypass == old(bypass[..sel] + [bypass[sel + 1], bypass[sel]] + bypass[sel + 2..])
        && lastShaderDir == old(lastShaderDir)
        && stored == ShaderFileText(shaders, bypass)
        && preview == ActivePaths(shaders, bypass)
    {
      if 0 <= sel && sel + 1 < |shaders| {
        MoveToNeighbourSwaps(shaders, sel);
        MoveToNeighbourSwaps(bypass, sel);
      }
      Move(sel, sel + 1);
    }

    /** The "Bypass" menu entry: flips the selected entry's flag. */
    method ToggleBypass(sel: int)
      requires Valid()
      modifies this
      ensures Valid()
      ensures !(0 <= sel < |old(bypass)|) ==> unchanged(this)
      ensures 0 <= sel < |old(bypass)| ==>
        shaders == old(shaders) && bypass == old(bypass)[sel := !old(bypass)[sel]]
        && lastShaderDir == old(lastShaderDir)
        && stored == ShaderFileText(shaders, bypass)
        && preview == ActivePaths(shaders, bypass)
    {
      if 0 <= sel < |bypass| {
        bypass := bypass[sel := !bypass[sel]];
        Publish();
      }
    }

    /** Releasing a drag in the list: the dragged path is moved to the drop
        index, but the flags stay where they were. */
    method DragReorder(dragIndex: int, drop: int)
      requires Valid()
      modifies this
      ensures Valid()
      ensures !(0 <= drop < |old(shaders)| && 0 <= dragIndex < |old(shaders)| && drop != dragIndex)
        ==> unchanged(this)
      ensures 0 <= drop < |old(shaders)| && 0 <= dragIndex < |old(shaders)| && drop != dragIndex ==>
        shaders == MoveItem(old(shaders), dragIndex, drop)
        && bypass == old(bypass)
        && lastShaderDir == old(lastShaderDir)
        && stored == ShaderFileText(shaders, bypass)
        && preview == ActivePaths(shaders, bypass)
    {
      if 0 <= drop < |shaders| && 0 <= dragIndex < |shaders| && drop != dragIndex {
        var item := shaders[dragIndex];
        shaders := shaders[..dragIndex] + shaders[dragIndex + 1..];
        shaders := shaders[..drop] + [item] + shaders[drop..];
        Publish();
      }
    }
  }

  /** Drag reorder leaves the flags in place, so a bypassed shader `a`
      dragged below an active shader `b` becomes active and `b` bypassed. */
  lemma DragReorderSwapsBypassState(a: string, b: string)
    ensures ActivePaths([a, b], [true, false]) == [b]
    ensures MoveItem([a, b], 0, 1) == [b, a]
    ensures ActivePaths([b, a], [true, false]) == [a]
  {
    SecondOfTwoActive(a, b);
    SecondOfTwoActive(b, a);
    var moved := MoveItem([a, b], 0, 1);
    MoveItemAt([a, b], 0, 1, 0);
    MoveItemAt([a, b], 0, 1, 1);
    assert moved == [moved[0], moved[1]];
  }

  lemma SecondOfTwoActive(a: string, b: string)
    ensures ActivePaths([a, b], [true, false]) == [b]
  {
    assert EntriesOf([a, b], [true, false]) == [Entry(a, true), Entry(b, false)];
    ActiveOfTwo(Entry(a, true), Entry(b, false));
  }

  lemma ActiveOfTwo(x: Entry, y: Entry)
    ensures ActiveOf([x, y]) == (if x.bypassed then [] else [x.path]) + (if y.bypassed then [] else [y.path])
  {
    assert [x][..0] == [];
    assert ActiveOf([x]) == (if x.bypassed then [] else [x.path]);
    assert [x, y][..1] == [x];
  }
}
