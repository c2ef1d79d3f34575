/**
 * Discovery of Inkscape executables on the search path (`findInkscapeBinaries`).
 *
 * The process environment, the platform name reported by the OS and the
 * file system are inputs: the file system is a map from a path to the kind
 * of thing found there once symbolic links are followed.
 */
module BinaryResolver {
  import opened Wrappers

  /** The environment variables the resolver reads. */
  datatype Env = Env(path: Option<string>, pathExt: Option<string>)

  datatype FileKind = RegularFile | Directory | OtherKind

  type FileSystem = map<string, FileKind>

  const ToolName: string := "inkscape"

  /** `path.delimiter` of the running platform. */
  function Delimiter(platform: string): char {
    if platform == "win32" then ';' else ':'
  }

  /** The separator `path.join` puts between two segments. */
  function Separator(platform: string): char {
    if platform == "win32" then '\\' else '/'
  }

  /** `fs.existsSync(p) && fs.statSync(p).isFile()` */
  predicate IsRegularFile(fs: FileSystem, p: string) {
    p in fs && fs[p] == RegularFile
  }

  // ---------------------------------------------------------------------
  // String.prototype.split with a one-character separator

  /** The first position of `x` in `xs`. */
  function FirstIndex<T(==)>(xs: seq<T>, x: T): (i: nat)
    requires x in xs
    ensures i < |xs| && xs[i] == x && x !in xs[..i]
  {
    if xs[0] == x then 0 else 1 + FirstIndex(xs[1..], x)
  }

  /** The parts joined back with the separator between consecutive parts. */
  function JoinWith(parts: seq<string>, d: char): string
    requires |parts| >= 1
    decreases |parts|
  {
    if |parts| == 1 then parts[0] else parts[0] + [d] + JoinWith(parts[1..], d)
  }

  /**
   * `s.split(d)`: the maximal runs between separators, empty runs included,
   * so that the empty string splits into one empty part.
   */
  function Split(s: string, d: char): (parts: seq<string>)
    ensures |parts| >= 1
    ensures forall k :: 0 <= k < |parts| ==> d !in parts[k]
    ensures JoinWith(parts, d) == s
    decreases |s|
  {
    if d !in s then [s]
    else
      var i := FirstIndex(s, d);
      [s[..i]] + Split(s[i + 1..], d)
  }

  /** Splitting undoes joining, so no information in the variable is lost. */
  lemma {:induction false} SplitJoin(parts: seq<string>, d: char)
    requires |parts| >= 1
    requires forall k :: 0 <= k < |parts| ==> d !in parts[k]
    ensures Split(JoinWith(parts, d), d) == parts
    decreases |parts|
  {
    if |parts| == 1 {
    } else {
      var s := JoinWith(parts, d);
      var rest := JoinWith(parts[1..], d);
      assert s == parts[0] + [d] + rest;
      assert s[|parts[0]|] == d;
      FirstIndexAfterPrefix(parts[0], d, rest);
      assert s[..|parts[0]|] == parts[0];
      assert s[|parts[0]| + 1..] == rest;
      SplitJoin(parts[1..], d);
    }
  }

  lemma FirstIndexAfterPrefix(a: string, d: char, b: string)
    requires d !in a
    ensures d in a + [d] + b && FirstIndex(a + [d] + b, d) == |a|
  {
    var s := a + [d] + b;
    assert s[|a|] == d;
    assert s[..|a|] == a;
  }

  // ---------------------------------------------------------------------
  // Array.from(new Set(xs)): duplicates removed, first occurrences kept

  function Dedupe<T(==)>(xs: seq<T>): (r: seq<T>)
    ensures |r| <= |xs|
    ensures xs != [] ==> r != [] && r[0] == xs[0]
    decreases |xs|
  {
    if xs == [] then []
    else
      var r := Dedupe(xs[..|xs| - 1]);
      if xs[|xs| - 1] in r then r else r + [xs[|xs| - 1]]
  }

  predicate NoDuplicates<T(==)>(xs: seq<T>) {
    forall i, j :: 0 <= i < j < |xs| ==> xs[i] != xs[j]
  }

  lemma {:induction false} FirstIndexInPrefix<T>(xs: seq<T>, ys: seq<T>, x: T)
    requires x in xs
    ensures FirstIndex(xs + ys, x) == FirstIndex(xs, x)
  {
    if xs[0] != x {
      assert (xs + ys)[1..] == xs[1..] + ys;
      FirstIndexInPrefix(xs[1..], ys, x);
    }
  }

  /** Deduplication neither loses nor invents an element. */
  lemma {:induction false} DedupeMembers<T>(xs: seq<T>)
    ensures forall x :: x in Dedupe(xs) <==> x in xs
    decreases |xs|
  {
    if xs != [] {
      var n := |xs| - 1;
      DedupeMembers(xs[..n]);
      assert xs == xs[..n] + [xs[n]];
    }
  }

  lemma DedupeMember<T>(xs: seq<T>, y: T)
    ensures y in Dedupe(xs) <==> y in xs
  {
    DedupeMembers(xs);
  }

  lemma {:induction false} DedupeNoDuplicates<T>(xs: seq<T>)
    ensures NoDuplicates(Dedupe(xs))
    decreases |xs|
  {
    if xs != [] {
      var init, x := xs[..|xs| - 1], xs[|xs| - 1];
      var r := Dedupe(init);
      DedupeNoDuplicates(init);
      if x !in r {
        var r' := r + [x];
        forall i, j | 0 <= i < j < |r'|
          ensures r'[i] != r'[j]
        {
          assert r'[i] == r[i];
          if j < |r| {
            assert r'[j] == r[j];
          }
        }
      }
    }
  }

  lemma {:induction false} DedupeFirstOccurrence<T>(xs: seq<T>)
    ensures forall x :: x in Dedupe(xs) <==> x in xs
    ensures forall i, j :: 0 <= i < j < |Dedupe(xs)| ==>
      FirstIndex(xs, Dedupe(xs)[i]) < FirstIndex(xs, Dedupe(xs)[j])
    decreases |xs|
  {
    DedupeMembers(xs);
    if xs != [] {
      var n := |xs| - 1;
      var init, x := xs[..n], xs[n];
      var r := Dedupe(init);
      DedupeFirstOccurrence(init);
      assert xs == init + [x];
      var r' := Dedupe(xs);
      assert r' == (if x in r then r else r + [x]);
      forall i, j | 0 <= i < j < |r'|
        ensures FirstIndex(xs, r'[i]) < FirstIndex(xs, r'[j])
      {
        assert r'[i] == r[i] && r[i] in r;
        DedupeMember(init, r[i]);
        FirstIndexInPrefix(init, [x], r[i]);
        if j < |r| {
          assert r'[j] == r[j] && r[j] in r;
          DedupeMember(init, r[j]);
          FirstIndexInPrefix(init, [x], r[j]);
        } else {
          DedupeMember(init, x);
          assert r'[j] == x && x !in init;
          assert FirstIndex(xs, x) == n by {
            assert xs[..n] == init;
          }
        }
      }
    }
  }

  /**
   * The deduplicated list holds each element exactly once, in the order of
   * first occurrence in the input.
   */
  lemma DedupeSpec<T>(xs: seq<T>)
    ensures forall x :: x in Dedupe(xs) <==> x in xs
    ensures NoDuplicates(Dedupe(xs))
    ensures forall i, j :: 0 <= i < j < |Dedupe(xs)| ==>
      FirstIndex(xs, Dedupe(xs)[i]) < FirstIndex(xs, Dedupe(xs)[j])
  {
    DedupeMembers(xs);
    DedupeNoDuplicates(xs);
    DedupeFirstOccurrence(xs);
  }

  // ---------------------------------------------------------------------
  // Candidate paths and the file filter

  /** `path.join(dir, name)`: an empty directory contributes no segment. */
  function JoinPath(dir: string, name: string, sep: char): string {
    if dir == "" then name else dir + [sep] + name
  }

  /** `exts.map(ext => path.join(dir, "inkscape" + ext))` */
  function Row(dir: string, exts: seq<string>, sep: char): (row: seq<string>)
    ensures |row| == |exts|
  {
    seq(|exts|, j requires 0 <= j < |exts| => JoinPath(dir, ToolName + exts[j], sep))
  }


  /** `dirs.flatMap(dir => Row(dir))`, before any filtering. */
  function Candidates(dirs: seq<string>, exts: seq<string>, sep: char): (cands: seq<string>)
    ensures |cands| == |dirs| * |exts|
    decreases |dirs|
  {
    if dirs == [] then []
    else
      assert |dirs| * |exts| == |exts| + (|dirs| - 1) * |exts|;
      Row(dirs[0], exts, sep) + Candidates(dirs[1..], exts, sep)
  }

  /** Every directory joined with every extension is a candidate. */
  lemma {:induction false} CandidateIn(dirs: seq<string>, exts: seq<string>, sep: char, i: nat, j: nat)
    requires i < |dirs| && j < |exts|
    ensures JoinPath(dirs[i], ToolName + exts[j], sep) in Candidates(dirs, exts, sep)
    decreases |dirs|
  {
    if i == 0 {
      assert Row(dirs[0], exts, sep)[j] == JoinPath(dirs[0], ToolName + exts[j], sep);
    } else {
      CandidateIn(dirs[1..], exts, sep, i - 1, j);
    }
  }

  /** Every candidate is some directory joined with some extension. */
  lemma {:induction false} CandidateFrom(dirs: seq<string>, exts: seq<string>, sep: char, k: nat)
    returns (i: nat, j: nat)
    requires k < |Candidates(dirs, exts, sep)|
    ensures i < |dirs| && j < |exts|
    ensures Candidates(dirs, exts, sep)[k] == JoinPath(dirs[i], ToolName + exts[j], sep)
    decreases |dirs|
  {
    var row := Row(dirs[0], exts, sep);
    if k < |row| {
      i, j := 0, k;
    } else {
      var i', j' := CandidateFrom(dirs[1..], exts, sep, k - |row|);
      i, j := i' + 1, j';
    }
  }

  /**
   * The candidate list is directory-major: of two positions, the earlier
   * holds an earlier directory, or the same directory with an earlier
   * extension.
   */
  lemma {:induction false} CandidateOrder(dirs: seq<string>, exts: seq<string>, sep: char, k1: nat, k2: nat)
    returns (i: nat, j: nat, i': nat, j': nat)
    requires k1 < k2 < |Candidates(dirs, exts, sep)|
    ensures i < |dirs| && j < |exts| && i' < |dirs| && j' < |exts|
    ensures i < i' || (i == i' && j < j')
    ensures Candidates(dirs, exts, sep)[k1] == JoinPath(dirs[i], ToolName + exts[j], sep)
    ensures Candidates(dirs, exts, sep)[k2] == JoinPath(dirs[i'], ToolName + exts[j'], sep)
    decreases |dirs|
  {
    var row := Row(dirs[0], exts, sep);
    var rest := Candidates(dirs[1..], exts, sep);
    assert Candidates(dirs, exts, sep) == row + rest;
    if k2 < |row| {
      i, j, i', j' := 0, k1, 0, k2;
    } else if k1 < |row| {
      assert Candidates(dirs, exts, sep)[k2] == rest[k2 - |row|];
      var r, c := CandidateFrom(dirs[1..], exts, sep, k2 - |row|);
      i, j, i', j' := 0, k1, r + 1, c;
    } else {
      assert Candidates(dirs, exts, sep)[k1] == rest[k1 - |row|];
      assert Candidates(dirs, exts, sep)[k2] == rest[k2 - |row|];
      var a, b, a', b' := CandidateOrder(dirs[1..], exts, sep, k1 - |row|, k2 - |row|);
      i, j, i', j' := a + 1, b, a' + 1, b';
    }
  }

  /** `.filter(fullPath => fs.existsSync(fullPath) && fs.statSync(fullPath).isFile())` */
  function KeepRegularFiles(paths: seq<string>, fs: FileSystem): (kept: seq<string>)
    ensures |kept| <= |paths|
    ensures forall x :: x in kept <==> x in paths && IsRegularFile(fs, x)
    decreases |paths|
  {
    if paths == [] then []
    else if IsRegularFile(fs, paths[0]) then [paths[0]] + KeepRegularFiles(paths[1..], fs)
    else KeepRegularFiles(paths[1..], fs)
  }

  /** The ascending positions, from `from` on, of the paths that are regular files. */
  function KeptPositions(paths: seq<string>, fs: FileSystem, from: nat): seq<nat>
    requires from <= |paths|
    decreases |paths| - from
  {
    if from == |paths| then []
    else (if IsRegularFile(fs, paths[from]) then [from] else []) + KeptPositions(paths, fs, from + 1)
  }

  /**
   * The filter keeps the order of its input: the `k`-th path kept is the
   * path at the `k`-th position that holds a regular file.
   */
  lemma {:induction false} KeptAtPositions(paths: seq<string>, fs: FileSystem, from: nat)
    requires from <= |paths|
    ensures |KeptPositions(paths, fs, from)| == |KeepRegularFiles(paths[from..], fs)|
    ensures forall k :: 0 <= k < |KeptPositions(paths, fs, from)| ==>
      from <= KeptPositions(paths, fs, from)[k] < |paths| &&
      paths[KeptPositions(paths, fs, from)[k]] == KeepRegularFiles(paths[from..], fs)[k]
    decreases |paths| - from
  {
    if from < |paths| {
      KeptAtPositions(paths, fs, from + 1);
      var rest := KeptPositions(paths, fs, from + 1);
      var restKept := KeepRegularFiles(paths[from + 1..], fs);
      assert paths[from..][1..] == paths[from + 1..];
      if IsRegularFile(fs, paths[from]) {
        assert KeptPositions(paths, fs, from) == [from] + rest;
        assert KeepRegularFiles(paths[from..], fs) == [paths[from]] + restKept;
      } else {
        assert KeptPositions(paths, fs, from) == rest;
        assert KeepRegularFiles(paths[from..], fs) == restKept;
      }
    }
  }

  lemma {:induction false} KeptPositionsAscending(paths: seq<string>, fs: FileSystem, from: nat)
    requires from <= |paths|
    ensures forall k :: 0 <= k < |KeptPositions(paths, fs, from)| ==> from <= KeptPositions(paths, fs, from)[k]
    ensures forall a, b :: 0 <= a < b < |KeptPositions(paths, fs, from)| ==>
      KeptPositions(paths, fs, from)[a] < KeptPositions(paths, fs, from)[b]
    decreases |paths| - from
  {
    if from < |paths| {
      KeptPositionsAscending(paths, fs, from + 1);
    }
  }

  // ---------------------------------------------------------------------
  // findInkscapeBinaries

  function PathEntries(env: Env, platform: string): seq<string> {
    match env.path
    case None => []
    case Some(s) => Split(s, Delimiter(platform))
  }

  /** `Array.from(new Set(process.env.PATH?.split(path.delimiter) ?? []))` */
  function SearchDirs(env: Env, platform: string): seq<string> {
    Dedupe(PathEntries(env, platform))
  }

  /** The executable extensions: only `""` off win32, the PATHEXT entries on it. */
  function Extensions(env: Env, platform: string): seq<string> {
    if platform == "win32" then
      match env.pathExt
      case None => []
      case Some(s) => Split(s, Delimiter(platform))
    else [""]
  }

  function FindInkscapeBinaries(env: Env, platform: string, fs: FileSystem): (found: seq<string>)
    ensures forall x :: x in found ==> IsRegularFile(fs, x)
    ensures |found| <= |SearchDirs(env, platform)| * |Extensions(env, platform)|
  {
    var dirs := SearchDirs(env, platform);
    var exts := Extensions(env, platform);
    KeepRegularFiles(Candidates(dirs, exts, Separator(platform)), fs)
  }

  /**
   * The directories searched are the PATH entries without duplicates, in
   * the order of their first occurrence.
   */
  lemma SearchDirsFirstOccurrence(env: Env, platform: string)
    ensures NoDuplicates(SearchDirs(env, platform))
    ensures forall d :: d in SearchDirs(env, platform) <==> d in PathEntries(env, platform)
    ensures forall i, j :: 0 <= i < j < |SearchDirs(env, platform)| ==>
      FirstIndex(PathEntries(env, platform), SearchDirs(env, platform)[i]) <
      FirstIndex(PathEntries(env, platform), SearchDirs(env, platform)[j])
  {
    DedupeSpec(PathEntries(env, platform));
    DedupeMembers(PathEntries(env, platform));
  }

  /**
   * A path is found exactly when it is a regular file and is
   * `join(dir, "inkscape" + ext)` for a searched directory and an
   * executable extension.
   */
  lemma FoundAreCandidates(env: Env, platform: string, fs: FileSystem, x: string)
    ensures x in FindInkscapeBinaries(env, platform, fs) <==>
      IsRegularFile(fs, x) &&
      exists i, j :: 0 <= i < |SearchDirs(env, platform)| && 0 <= j < |Extensions(env, platform)| &&
        x == JoinPath(SearchDirs(env, platform)[i], ToolName + Extensions(env, platform)[j], Separator(platform))
  {
    var dirs, exts, sep := SearchDirs(env, platform), Extensions(env, platform), Separator(platform);
    var cands := Candidates(dirs, exts, sep);
    if x in cands {
      var k :| 0 <= k < |cands| && cands[k] == x;
      var i, j := CandidateFrom(dirs, exts, sep, k);
    }
    if exists i, j :: 0 <= i < |dirs| && 0 <= j < |exts| && x == JoinPath(dirs[i], ToolName + exts[j], sep) {
      var i, j :| 0 <= i < |dirs| && 0 <= j < |exts| && x == JoinPath(dirs[i], ToolName + exts[j], sep);
      CandidateIn(dirs, exts, sep, i, j);
    }
  }

  /** Every path found names a file: none is the empty string. */
  lemma FoundAreNonEmpty(env: Env, platform: string, fs: FileSystem)
    ensures forall x :: x in FindInkscapeBinaries(env, platform, fs) ==> x != ""
  {
    forall x | x in FindInkscapeBinaries(env, platform, fs)
      ensures x != ""
    {
      FoundAreCandidates(env, platform, fs, x);
    }
  }

  /**
   * The order of the result: of two paths found, the earlier one comes from
   * an earlier searched directory, or from the same directory and an
   * earlier extension.
   */
  lemma FoundInSearchOrder(env: Env, platform: string, fs: FileSystem, a: nat, b: nat)
    returns (i: nat, j: nat, i': nat, j': nat)
    requires a < b < |FindInkscapeBinaries(env, platform, fs)|
    ensures i < |SearchDirs(env, platform)| && j < |Extensions(env, platform)|
    ensures i' < |SearchDirs(env, platform)| && j' < |Extensions(env, platform)|
    ensures i < i' || (i == i' && j < j')
    ensures FindInkscapeBinaries(env, platform, fs)[a] ==
      JoinPath(SearchDirs(env, platform)[i], ToolName + Extensions(env, platform)[j], Separator(platform))
    ensures FindInkscapeBinaries(env, platform, fs)[b] ==
      JoinPath(SearchDirs(env, platform)[i'], ToolName + Extensions(env, platform)[j'], Separator(platform))
  {
    var dirs, exts, sep := SearchDirs(env, platform), Extensions(env, platform), Separator(platform);
    var cands := Candidates(dirs, exts, sep);
    KeptAtPositions(cands, fs, 0);
    KeptPositionsAscending(cands, fs, 0);
    assert cands[0..] == cands;
    var pos := KeptPositions(cands, fs, 0);
    i, j, i', j' := CandidateOrder(dirs, exts, sep, pos[a], pos[b]);
  }

  /** Off win32 the only extension is the empty one: one candidate per directory. */
  lemma OffWin32OneCandidatePerDir(env: Env, platform: string)
    requires platform != "win32"
    ensures Extensions(env, platform) == [""]
    ensures |Candidates(SearchDirs(env, platform), [""], '/')| == |SearchDirs(env, platform)|
    ensures forall i :: 0 <= i < |SearchDirs(env, platform)| ==>
      Candidates(SearchDirs(env, platform), [""], '/')[i] == JoinPath(SearchDirs(env, platform)[i], ToolName, '/')
  {
    OneExtension(SearchDirs(env, platform), '/');
  }

  lemma {:induction false} OneExtension(dirs: seq<string>, sep: char)
    ensures |Candidates(dirs, [""], sep)| == |dirs|
    ensures forall i :: 0 <= i < |dirs| ==> Candidates(dirs, [""], sep)[i] == JoinPath(dirs[i], ToolName, sep)
    decreases |dirs|
  {
    if dirs != [] {
      OneExtension(dirs[1..], sep);
      assert ToolName + "" == ToolName;
      assert Row(dirs[0], [""], sep) == [JoinPath(dirs[0], ToolName, sep)];
    }
  }

  /** On win32 without PATHEXT there are no extensions, so nothing is found. */
  lemma Win32WithoutPathExtFindsNothing(env: Env, fs: FileSystem)
    requires env.pathExt.None?
    ensures FindInkscapeBinaries(env, "win32", fs) == []
  {
  }

  lemma UsrBinSearchDirs()
    ensures SearchDirs(Env(Some("/usr/bin"), None), "linux") == ["/usr/bin"]
  {
    assert ':' !in "/usr/bin";
    assert Dedupe(["/usr/bin"]) == ["/usr/bin"];
  }

  lemma UsrBinCandidates()
    ensures Candidates(["/usr/bin"], [""], '/') == ["/usr/bin/inkscape"]
  {
    var dirs: seq<string> := ["/usr/bin"];
    assert JoinPath(dirs[0], ToolName + "", '/') == "/usr/bin/inkscape";
    assert Row(dirs[0], [""], '/') == ["/usr/bin/inkscape"];
    assert dirs[1..] == [];
  }

  /** With `PATH=/usr/bin` and an Inkscape there, discovery finds exactly that one. */
  lemma FindsUsrBinInkscape()
    ensures FindInkscapeBinaries(Env(Some("/usr/bin"), None), "linux",
      map["/usr/bin/inkscape" := RegularFile]) == ["/usr/bin/inkscape"]
  {
    UsrBinSearchDirs();
    UsrBinCandidates();
  }
}
