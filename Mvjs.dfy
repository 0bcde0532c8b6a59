/**
 * The library `mvjs(options, cb)`: every `.js` file under the root directory that
 * requires the file being moved is rewritten to require it at its new location
 * (Mode A), then the moved file's own relative requires are rewritten for its new
 * directory (Mode B), and the file is renamed.
 *
 * The directory walk is a parameter: `walk(rootDir)` is the list of file paths the
 * walker reports, in the order it reports them.
 */
module Mvjs {
  import opened Wrappers
  import opened PosixPath
  import opened LineEndings
  import opened SourceBuffer
  import opened Scanner
  import opened Patching
  import opened Rewriter
  import opened Storage

  /** A file being moved from `fromPath` to `toPath`. */
  datatype Move = Move(fromPath: string, toPath: string)

  /** `t` occurs in `s` at index `i`. */
  predicate OccursAt(s: string, t: string, i: nat)
  {
    i + |t| <= |s| && s[i..i + |t|] == t
  }

  /** `s` contains `t`. */
  predicate Contains(s: string, t: string)
  {
    exists i: nat | i <= |s| :: OccursAt(s, t, i)
  }

  /** `/\.js$/i`: the path ends in ".js", in any case. */
  predicate EndsInJs(f: string)
  {
    |f| >= 3 && f[|f| - 3] == '.' && f[|f| - 2] in "jJ" && f[|f| - 1] in "sS"
  }

  /** The walk's test: a `.js` file under no `node_modules` directory, other than the
      file being moved and its destination. */
  predicate IsCandidate(fileName: string, skip: Move)
  {
    !Contains(fileName, "/node_modules/") && EndsInJs(fileName) &&
    fileName != skip.fromPath && fileName != skip.toPath
  }

  // ---------------------------------------------------------------------------
  // One file

  /** `updateRequires(file, fromPath, toPath, filter)` on the files `fs`: the files
      after it, and whether it modified the file; or what it threw. */
  function UpdateOne(fs: map<string, string>, file: string, fromPath: string, toPath: string,
                     filter: Option<(string, string) -> Option<string>>,
                     parse: string -> Option<seq<AstNode>>,
                     resolveModule: (string, string) -> Option<string>): Result<(map<string, string>, bool)>
    requires IsAbsolute(file) && IsAbsolute(toPath)
  {
    if file !in fs then Err(NoSuchFile)
    else
      match UpdateRequiresSpec(file, fs[file], fromPath, toPath, filter, parse, resolveModule)
      case Err(e) => Err(e)
      case Ok(u) => Ok((Stored(fs, u.write), u.modified))
  }

  /** `moveRequires(file, newFile)` on the files `fs`. */
  function MoveOne(fs: map<string, string>, file: string, newFile: string,
                   parse: string -> Option<seq<AstNode>>): Result<(map<string, string>, bool)>
    requires IsAbsolute(file) && IsAbsolute(newFile)
  {
    if file !in fs then Err(NoSuchFile)
    else
      match MoveRequiresSpec(file, fs[file], newFile, parse)
      case Err(e) => Err(e)
      case Ok(u) => Ok((Stored(fs, u.write), u.modified))
  }

  /** Mode A on one file throws exactly when the file is missing or has `require()`
      without an argument; otherwise it writes that file only, and only when it is
      modified, which is exactly when one of its relative literals resolves to
      `fromPath`. */
  lemma UpdateOneWritesOnlyFile(fs: map<string, string>, file: string, fromPath: string, toPath: string,
                                filter: Option<(string, string) -> Option<string>>,
                                parse: string -> Option<seq<AstNode>>,
                                resolveModule: (string, string) -> Option<string>)
    requires IsAbsolute(file) && IsAbsolute(toPath)
    ensures var r := UpdateOne(fs, file, fromPath, toPath, filter, parse, resolveModule);
            (r.Err? <==> file !in fs || ScanText(Normalised(fs[file]), parse).Err?) &&
            (r.Ok? ==>
               r.value.0.Keys == fs.Keys &&
               (forall p :: p in fs && p != file ==> r.value.0[p] == fs[p]) &&
               (!r.value.1 ==> r.value.0 == fs) &&
               (r.value.1 <==> exists i :: 0 <= i < |ScanText(Normalised(fs[file]), parse).value| &&
                                           Matches(ScanText(Normalised(fs[file]), parse).value[i], file, fromPath, resolveModule)))
  {
    if file in fs {
      UpdateModifiedIff(file, fs[file], fromPath, toPath, filter, parse, resolveModule);
    }
  }

  /** Mode B on one file throws exactly when Mode A would; otherwise it writes that file
      only, and only when it has a relative literal. */
  lemma MoveOneWritesOnlyFile(fs: map<string, string>, file: string, newFile: string,
                              parse: string -> Option<seq<AstNode>>)
    requires IsAbsolute(file) && IsAbsolute(newFile)
    ensures var r := MoveOne(fs, file, newFile, parse);
            (r.Err? <==> file !in fs || ScanText(Normalised(fs[file]), parse).Err?) &&
            (r.Ok? ==>
               r.value.0.Keys == fs.Keys &&
               (forall p :: p in fs && p != file ==> r.value.0[p] == fs[p]) &&
               (!r.value.1 ==> r.value.0 == fs) &&
               (r.value.1 <==> ScanText(Normalised(fs[file]), parse).value != []))
  {
    if file in fs {
      MoveModifiedIff(file, fs[file], newFile, parse);
    }
  }

  /** `updateRequires`: reads `file`, edits every relative literal that resolves to
      `fromPath`, and, if it edited any, runs the filter and writes the file. */
  method UpdateRequires(disk: Disk, file: string, fromPath: string, toPath: string,
                        filter: Option<(string, string) -> Option<string>>,
                        parse: string -> Option<seq<AstNode>>,
                        resolveModule: (string, string) -> Option<string>) returns (r: Result<bool>)
    requires IsAbsolute(file) && IsAbsolute(toPath)
    modifies disk
    ensures var u := UpdateOne(old(disk.files), file, fromPath, toPath, filter, parse, resolveModule);
            (u.Err? ==> r == Err(u.error) && disk.files == old(disk.files)) &&
            (u.Ok? ==> r == Ok(u.value.1) && disk.files == u.value.0)
  {
    var contents := disk.Read(file);
    if contents.Err? {
      return Err(contents.error);
    }
    var code := new SourceCode(file, contents.value);
    var dirname := Dirname(file);
    var args := FindRelativeRequireArgs(code.text, parse);
    if args.Err? {
      return Err(args.error);
    }
    PatchModeA(code, args.value, file, fromPath, resolveModule, ModeA(dirname, toPath));
    if code.modified {
      code.text := Filtered(filter, file, code.text);
      var w := code.Write();
      disk.Store(w);
      return Ok(true);
    } else {
      return Ok(false);
    }
  }

  /** `moveRequires`: reads `file`, re-expresses every relative literal for the
      directory of `newFile`, and writes the file if it edited any. */
  method MoveRequires(disk: Disk, file: string, newFile: string, parse: string -> Option<seq<AstNode>>)
    returns (r: Result<bool>)
    requires IsAbsolute(file) && IsAbsolute(newFile)
    modifies disk
    ensures var u := MoveOne(old(disk.files), file, newFile, parse);
            (u.Err? ==> r == Err(u.error) && disk.files == old(disk.files)) &&
            (u.Ok? ==> r == Ok(u.value.1) && disk.files == u.value.0)
  {
    var contents := disk.Read(file);
    if contents.Err? {
      return Err(contents.error);
    }
    var code := new SourceCode(file, contents.value);
    var dirname := Dirname(file);
    var newDirname := Dirname(newFile);
    var args := FindRelativeRequireArgs(code.text, parse);
    if args.Err? {
      return Err(args.error);
    }
    PatchModeB(code, args.value, ModeB(dirname, newDirname));
    if code.modified {
      var w := code.Write();
      disk.Store(w);
      return Ok(true);
    } else {
      return Ok(false);
    }
  }

  // ---------------------------------------------------------------------------
  // The walk

  /** Every path of `files` is absolute. */
  predicate AllAbsolute(files: seq<string>)
  {
    forall i :: 0 <= i < |files| ==> IsAbsolute(files[i])
  }

  /** Where the walk has got to: the files, the names listed as modified, and the error
      thrown, if any, which ends the walk. */
  datatype Pass = Pass(files: map<string, string>, modified: seq<string>, failure: Option<string>)

  /** The walk over `files`: each candidate (tested against `skip`) is rewritten for
      `move`, and the name of each one modified is listed relative to `rootDir`. */
  function PassSpec(fs: map<string, string>, files: seq<string>, skip: Move, move: Move, rootDir: string,
                    filter: Option<(string, string) -> Option<string>>,
                    parse: string -> Option<seq<AstNode>>,
                    resolveModule: (string, string) -> Option<string>): Pass
    requires IsAbsolute(rootDir) && IsAbsolute(move.toPath) && AllAbsolute(files)
    decreases |files|
  {
    if files == [] then Pass(fs, [], None)
    else
      var p := PassSpec(fs, files[..|files| - 1], skip, move, rootDir, filter, parse, resolveModule);
      var f := files[|files| - 1];
      if p.failure.Some? || !IsCandidate(f, skip) then p
      else
        match UpdateOne(p.files, f, move.fromPath, move.toPath, filter, parse, resolveModule)
        case Err(e) => Pass(p.files, p.modified, Some(e))
        case Ok(r) => Pass(r.0, if r.1 then p.modified + [Relative(rootDir, f)] else p.modified, None)
  }

  /** One more file visited. */
  lemma PassStep(fs: map<string, string>, files: seq<string>, i: nat, skip: Move, move: Move, rootDir: string,
                 filter: Option<(string, string) -> Option<string>>,
                 parse: string -> Option<seq<AstNode>>,
                 resolveModule: (string, string) -> Option<string>)
    requires IsAbsolute(rootDir) && IsAbsolute(move.toPath) && AllAbsolute(files) && i < |files|
    ensures var p := PassSpec(fs, files[..i], skip, move, rootDir, filter, parse, resolveModule);
            var f := files[i];
            PassSpec(fs, files[..i + 1], skip, move, rootDir, filter, parse, resolveModule)
            == if p.failure.Some? || !IsCandidate(f, skip) then p
               else
                 match UpdateOne(p.files, f, move.fromPath, move.toPath, filter, parse, resolveModule)
                 case Err(e) => Pass(p.files, p.modified, Some(e))
                 case Ok(r) => Pass(r.0, if r.1 then p.modified + [Relative(rootDir, f)] else p.modified, None)
  {
    assert files[..i + 1][..i] == files[..i];
  }

  /** Once a file has thrown, the walk goes no further. */
  lemma {:induction false} PassFailurePersists(fs: map<string, string>, files: seq<string>, k: nat, skip: Move,
                                               move: Move, rootDir: string,
                                               filter: Option<(string, string) -> Option<string>>,
                                               parse: string -> Option<seq<AstNode>>,
                                               resolveModule: (string, string) -> Option<string>)
    requires IsAbsolute(rootDir) && IsAbsolute(move.toPath) && AllAbsolute(files) && k <= |files|
    requires PassSpec(fs, files[..k], skip, move, rootDir, filter, parse, resolveModule).failure.Some?
    ensures PassSpec(fs, files, skip, move, rootDir, filter, parse, resolveModule)
            == PassSpec(fs, files[..k], skip, move, rootDir, filter, parse, resolveModule)
    decreases |files|
  {
    if k < |files| {
      var init := files[..|files| - 1];
      assert init[..k] == files[..k];
      PassFailurePersists(fs, init, k, skip, move, rootDir, filter, parse, resolveModule);
    } else {
      assert files[..k] == files;
    }
  }

  /** The walk writes no path other than the candidates it visits, and creates and
      deletes none. */
  lemma {:induction false} PassWritesOnlyCandidates(fs: map<string, string>, files: seq<string>, skip: Move,
                                                    move: Move, rootDir: string,
                                                    filter: Option<(string, string) -> Option<string>>,
                                                    parse: string -> Option<seq<AstNode>>,
                                                    resolveModule: (string, string) -> Option<string>,
                                                    path: string)
    requires IsAbsolute(rootDir) && IsAbsolute(move.toPath) && AllAbsolute(files)
    requires path !in files || !IsCandidate(path, skip)
    ensures var p := PassSpec(fs, files, skip, move, rootDir, filter, parse, resolveModule);
            p.files.Keys == fs.Keys && (path in fs ==> p.files[path] == fs[path])
    decreases |files|
  {
    if files != [] {
      var init := files[..|files| - 1];
      var f := files[|files| - 1];
      assert path !in init || !IsCandidate(path, skip);
      PassWritesOnlyCandidates(fs, init, skip, move, rootDir, filter, parse, resolveModule, path);
      var p := PassSpec(fs, init, skip, move, rootDir, filter, parse, resolveModule);
      if p.failure.None? && IsCandidate(f, skip) {
        UpdateOneWritesOnlyFile(p.files, f, move.fromPath, move.toPath, filter, parse, resolveModule);
      }
    }
  }

  /** Every name listed is that of a candidate visited, relative to `rootDir`, and no
      more names are listed than files visited. */
  lemma {:induction false} PassListsCandidates(fs: map<string, string>, files: seq<string>, skip: Move,
                                               move: Move, rootDir: string,
                                               filter: Option<(string, string) -> Option<string>>,
                                               parse: string -> Option<seq<AstNode>>,
                                               resolveModule: (string, string) -> Option<string>)
    requires IsAbsolute(rootDir) && IsAbsolute(move.toPath) && AllAbsolute(files)
    ensures var p := PassSpec(fs, files, skip, move, rootDir, filter, parse, resolveModule);
            |p.modified| <= |files| &&
            forall m :: m in p.modified ==>
              exists i :: 0 <= i < |files| && IsCandidate(files[i], skip) && m == Relative(rootDir, files[i])
    decreases |files|
  {
    if files != [] {
      var init := files[..|files| - 1];
      PassListsCandidates(fs, init, skip, move, rootDir, filter, parse, resolveModule);
      forall m | m in PassSpec(fs, init, skip, move, rootDir, filter, parse, resolveModule).modified
        ensures exists i :: 0 <= i < |files| && IsCandidate(files[i], skip) && m == Relative(rootDir, files[i])
      {
        var i :| 0 <= i < |init| && IsCandidate(init[i], skip) && m == Relative(rootDir, init[i]);
        assert files[i] == init[i];
      }
    }
  }

  /** A file whose contents the walk changed is listed, by its name relative to
      `rootDir`. */
  lemma {:induction false} PassListsChanges(fs: map<string, string>, files: seq<string>, skip: Move,
                                            move: Move, rootDir: string,
                                            filter: Option<(string, string) -> Option<string>>,
                                            parse: string -> Option<seq<AstNode>>,
                                            resolveModule: (string, string) -> Option<string>,
                                            path: string)
    requires IsAbsolute(rootDir) && IsAbsolute(move.toPath) && AllAbsolute(files)
    requires IsAbsolute(path) && path in fs
    ensures var p := PassSpec(fs, files, skip, move, rootDir, filter, parse, resolveModule);
            path in p.files &&
            (p.files[path] != fs[path] ==>
               path in files && IsCandidate(path, skip) && Relative(rootDir, path) in p.modified)
    decreases |files|
  {
    PassWritesOnlyCandidates(fs, files, skip, move, rootDir, filter, parse, resolveModule, "");
    if !(path in files && IsCandidate(path, skip)) {
      PassWritesOnlyCandidates(fs, files, skip, move, rootDir, filter, parse, resolveModule, path);
    }
    if files != [] {
      var init := files[..|files| - 1];
      var f := files[|files| - 1];
      PassListsChanges(fs, init, skip, move, rootDir, filter, parse, resolveModule, path);
      PassWritesOnlyCandidates(fs, init, skip, move, rootDir, filter, parse, resolveModule, "");
      var p := PassSpec(fs, init, skip, move, rootDir, filter, parse, resolveModule);
      if p.failure.None? && IsCandidate(f, skip) {
        UpdateOneWritesOnlyFile(p.files, f, move.fromPath, move.toPath, filter, parse, resolveModule);
      }
    }
  }

  /** The walker reports no path twice. */
  predicate Distinct(files: seq<string>)
  {
    forall i, j :: 0 <= i < j < |files| ==> files[i] != files[j]
  }

  /** `file` can be rewritten: it exists, and it has no `require()` without an argument. */
  predicate Readable(fs: map<string, string>, file: string, parse: string -> Option<seq<AstNode>>)
  {
    file in fs && ScanText(Normalised(fs[file]), parse).Ok?
  }

  /** `file` requires the file at `fromPath`: one of its relative literals resolves to it. */
  predicate RequiresMoved(fs: map<string, string>, file: string, fromPath: string,
                          parse: string -> Option<seq<AstNode>>,
                          resolveModule: (string, string) -> Option<string>)
  {
    Readable(fs, file, parse) &&
    exists i :: 0 <= i < |ScanText(Normalised(fs[file]), parse).value| &&
                Matches(ScanText(Normalised(fs[file]), parse).value[i], file, fromPath, resolveModule)
  }

  /** The names the walk should list, read off the files as they were before it: each
      candidate that requires the file being moved, relative to `rootDir`, in walk order. */
  function Listed(fs: map<string, string>, files: seq<string>, skip: Move, fromPath: string, rootDir: string,
                  parse: string -> Option<seq<AstNode>>,
                  resolveModule: (string, string) -> Option<string>): seq<string>
    requires IsAbsolute(rootDir) && AllAbsolute(files)
    decreases |files|
  {
    if files == [] then []
    else
      var f := files[|files| - 1];
      Listed(fs, files[..|files| - 1], skip, fromPath, rootDir, parse, resolveModule) +
      (if IsCandidate(f, skip) && RequiresMoved(fs, f, fromPath, parse, resolveModule) then [Relative(rootDir, f)] else [])
  }

  /** The last path of a walk with no repeats is not among the earlier ones. */
  lemma LastIsNew(files: seq<string>)
    requires Distinct(files) && files != []
    ensures Distinct(files[..|files| - 1]) && files[|files| - 1] !in files[..|files| - 1]
  {
    var n := |files| - 1;
    forall k | 0 <= k < n ensures files[..n][k] != files[n] {
      assert files[..n][k] == files[k];
    }
  }

  /** Every candidate of the walk can be rewritten. */
  predicate AllReadable(fs: map<string, string>, files: seq<string>, skip: Move,
                        parse: string -> Option<seq<AstNode>>)
  {
    forall i :: 0 <= i < |files| && IsCandidate(files[i], skip) ==> Readable(fs, files[i], parse)
  }

  /** `AllReadable` one path at a time. */
  lemma AllReadableSnoc(fs: map<string, string>, files: seq<string>, skip: Move,
                        parse: string -> Option<seq<AstNode>>)
    requires files != []
    ensures var n := |files| - 1;
            AllReadable(fs, files, skip, parse)
            <==> AllReadable(fs, files[..n], skip, parse) &&
                 (IsCandidate(files[n], skip) ==> Readable(fs, files[n], parse))
  {
    var n := |files| - 1;
    assert forall i :: 0 <= i < n ==> files[..n][i] == files[i];
  }

  /** On a walk with no repeats, the walk throws exactly when some candidate is missing
      or has `require()` without an argument. */
  lemma {:induction false} PassFailsIff(fs: map<string, string>, files: seq<string>, skip: Move,
                                        move: Move, rootDir: string,
                                        filter: Option<(string, string) -> Option<string>>,
                                        parse: string -> Option<seq<AstNode>>,
                                        resolveModule: (string, string) -> Option<string>)
    requires IsAbsolute(rootDir) && IsAbsolute(move.toPath) && AllAbsolute(files) && Distinct(files)
    ensures PassSpec(fs, files, skip, move, rootDir, filter, parse, resolveModule).failure.None?
            <==> AllReadable(fs, files, skip, parse)
    decreases |files|
  {
    if files != [] {
      var n := |files| - 1;
      var init, f := files[..n], files[n];
      LastIsNew(files);
      AllReadableSnoc(fs, files, skip, parse);
      PassFailsIff(fs, init, skip, move, rootDir, filter, parse, resolveModule);
      var p := PassSpec(fs, init, skip, move, rootDir, filter, parse, resolveModule);
      if p.failure.None? && IsCandidate(f, skip) {
        PassWritesOnlyCandidates(fs, init, skip, move, rootDir, filter, parse, resolveModule, f);
        UpdateOneWritesOnlyFile(p.files, f, move.fromPath, move.toPath, filter, parse, resolveModule);
      }
    }
  }

  /** On a walk with no repeats that throws nothing, the names listed are exactly those
      of the candidates that require the file being moved, in walk order. */
  lemma {:induction false} PassListsExactly(fs: map<string, string>, files: seq<string>, skip: Move,
                                            move: Move, rootDir: string,
                                            filter: Option<(string, string) -> Option<string>>,
                                            parse: string -> Option<seq<AstNode>>,
                                            resolveModule: (string, string) -> Option<string>)
    requires IsAbsolute(rootDir) && IsAbsolute(move.toPath) && AllAbsolute(files) && Distinct(files)
    ensures var p := PassSpec(fs, files, skip, move, rootDir, filter, parse, resolveModule);
            p.failure.None? ==> p.modified == Listed(fs, files, skip, move.fromPath, rootDir, parse, resolveModule)
    decreases |files|
  {
    if files != [] {
      var n := |files| - 1;
      var init, f := files[..n], files[n];
      LastIsNew(files);
      PassListsExactly(fs, init, skip, move, rootDir, filter, parse, resolveModule);
      var p := PassSpec(fs, init, skip, move, rootDir, filter, parse, resolveModule);
      if p.failure.None? && IsCandidate(f, skip) {
        PassWritesOnlyCandidates(fs, init, skip, move, rootDir, filter, parse, resolveModule, f);
        UpdateOneWritesOnlyFile(p.files, f, move.fromPath, move.toPath, filter, parse, resolveModule);
      }
    }
  }

  /** On a walk with no repeats that throws nothing, every candidate ends up as
      `updateRequires` alone would leave it. */
  lemma {:induction false} PassRewritesEach(fs: map<string, string>, files: seq<string>, skip: Move,
                                            move: Move, rootDir: string,
                                            filter: Option<(string, string) -> Option<string>>,
                                            parse: string -> Option<seq<AstNode>>,
                                            resolveModule: (string, string) -> Option<string>, i: nat)
    requires IsAbsolute(rootDir) && IsAbsolute(move.toPath) && AllAbsolute(files) && Distinct(files)
    requires i < |files| && IsCandidate(files[i], skip)
    ensures var p := PassSpec(fs, files, skip, move, rootDir, filter, parse, resolveModule);
            var u := UpdateOne(fs, files[i], move.fromPath, move.toPath, filter, parse, resolveModule);
            p.failure.None? ==> u.Ok? && files[i] in p.files && p.files[files[i]] == u.value.0[files[i]]
    decreases |files|
  {
    var n := |files| - 1;
    var init, f := files[..n], files[n];
    LastIsNew(files);
    var p := PassSpec(fs, init, skip, move, rootDir, filter, parse, resolveModule);
    if i == n {
      PassWritesOnlyCandidates(fs, init, skip, move, rootDir, filter, parse, resolveModule, f);
    } else {
      assert init[i] == files[i];
      PassRewritesEach(fs, init, skip, move, rootDir, filter, parse, resolveModule, i);
      if p.failure.None? && IsCandidate(f, skip) {
        UpdateOneWritesOnlyFile(p.files, f, move.fromPath, move.toPath, filter, parse, resolveModule);
      }
    }
  }

  /** `updateAllFiles`: visits the walked files in order, rewrites each candidate, and
      lists the names, relative to `rootDir`, of those it modified. A throw ends the
      walk; the files written before it stay written. */
  method UpdateAllFiles(disk: Disk, rootDir: string, files: seq<string>, fromPath: string, toPath: string,
                        filter: Option<(string, string) -> Option<string>>,
                        parse: string -> Option<seq<AstNode>>,
                        resolveModule: (string, string) -> Option<string>) returns (r: Result<seq<string>>)
    requires IsAbsolute(rootDir) && IsAbsolute(toPath) && AllAbsolute(files)
    modifies disk
    ensures var move := Move(fromPath, toPath);
            var p := PassSpec(old(disk.files), files, move, move, rootDir, filter, parse, resolveModule);
            disk.files == p.files &&
            (p.failure.Some? ==> r == Err(p.failure.value)) &&
            (p.failure.None? ==> r == Ok(p.modified))
  {
    ghost var fs0 := disk.files;
    var move := Move(fromPath, toPath);
    var filesModified: seq<string> := [];
    var i := 0;
    while i < |files|
      invariant 0 <= i <= |files|
      invariant PassSpec(fs0, files[..i], move, move, rootDir, filter, parse, resolveModule)
                == Pass(disk.files, filesModified, None)
    {
      PassStep(fs0, files, i, move, move, rootDir, filter, parse, resolveModule);
      var fileName := files[i];
      if IsCandidate(fileName, move) {
        var modified := UpdateRequires(disk, fileName, fromPath, toPath, filter, parse, resolveModule);
        if modified.Err? {
          PassFailurePersists(fs0, files, i + 1, move, move, rootDir, filter, parse, resolveModule);
          return Err(modified.error);
        }
        if modified.value {
          filesModified := filesModified + [Relative(rootDir, fileName)];
        }
      }
      i := i + 1;
    }
    assert files[..i] == files;
    return Ok(filesModified);
  }

  // ---------------------------------------------------------------------------
  // The move

  /** The `options` of `mvjs`; a filter that is not a function is `None`. */
  datatype Options = Options(fromPath: string, toPath: string, rootDir: Option<string>,
                             filter: Option<(string, string) -> Option<string>>)

  /** `options.rootDir || process.cwd()`. */
  function RootDir(options: Options, cwd: string): string
  {
    if options.rootDir.Some? && options.rootDir.value != "" then options.rootDir.value else cwd
  }

  /** What `mvjs` is given: absolute paths throughout, as its helpers assume. */
  predicate Ready(options: Options, cwd: string, walk: string -> seq<string>)
  {
    IsAbsolute(options.fromPath) && IsAbsolute(options.toPath) &&
    IsAbsolute(RootDir(options, cwd)) && AllAbsolute(walk(RootDir(options, cwd)))
  }

  /** The files after `mvjs`, and what it hands its callback (or what it threw). */
  datatype Outcome = Outcome(files: map<string, string>, result: Result<seq<string>>)

  /** `mvjs(options, cb)`: the walk, then Mode B on the file still at `fromPath`, then
      the rename; a throw stops the sequence where it happens. */
  function MvjsSpec(fs: map<string, string>, options: Options, cwd: string, walk: string -> seq<string>,
                    parse: string -> Option<seq<AstNode>>,
                    resolveModule: (string, string) -> Option<string>): Outcome
    requires Ready(options, cwd, walk)
  {
    var rootDir := RootDir(options, cwd);
    var move := Move(options.fromPath, options.toPath);
    var p := PassSpec(fs, walk(rootDir), move, move, rootDir, options.filter, parse, resolveModule);
    if p.failure.Some? then Outcome(p.files, Err(p.failure.value))
    else
      match MoveOne(p.files, options.fromPath, options.toPath, parse)
      case Err(e) => Outcome(p.files, Err(e))
      case Ok(r) =>
        var result := if options.fromPath in r.0 then Ok(p.modified) else Err(NoSuchFile);
        Outcome(Renamed(r.0, options.fromPath, options.toPath), result)
  }

  /** `mvjs`. */
  method Mvjs(disk: Disk, options: Options, cwd: string, walk: string -> seq<string>,
              parse: string -> Option<seq<AstNode>>,
              resolveModule: (string, string) -> Option<string>) returns (r: Result<seq<string>>)
    requires Ready(options, cwd, walk)
    modifies disk
    ensures var o := MvjsSpec(old(disk.files), options, cwd, walk, parse, resolveModule);
            disk.files == o.files && r == o.result
  {
    var rootDir := RootDir(options, cwd);
    var filesModified := UpdateAllFiles(disk, rootDir, walk(rootDir), options.fromPath, options.toPath,
                                        options.filter, parse, resolveModule);
    if filesModified.Err? {
      return filesModified;
    }
    var moved := MoveRequires(disk, options.fromPath, options.toPath, parse);
    if moved.Err? {
      return Err(moved.error);
    }
    var renamed := disk.Rename(options.fromPath, options.toPath);
    if renamed.Err? {
      return Err(renamed.error);
    }
    return filesModified;
  }

  /** When `mvjs` succeeds, the destination holds the moved file's original contents
      rewritten by Mode B (the walk never touches the file being moved), and nothing is
      left at the old path. */
  lemma MvjsMovesFile(fs: map<string, string>, options: Options, cwd: string, walk: string -> seq<string>,
                      parse: string -> Option<seq<AstNode>>,
                      resolveModule: (string, string) -> Option<string>)
    requires Ready(options, cwd, walk)
    ensures var o := MvjsSpec(fs, options, cwd, walk, parse, resolveModule);
            var from, to := options.fromPath, options.toPath;
            o.result.Ok? ==>
              from in fs && to in o.files &&
              (from != to ==> from !in o.files) &&
              MoveRequiresSpec(from, fs[from], to, parse).Ok? &&
              var u := MoveRequiresSpec(from, fs[from], to, parse).value;
              o.files[to] == (if u.write.Some? then u.write.value.data else fs[from])
  {
    var rootDir := RootDir(options, cwd);
    var move := Move(options.fromPath, options.toPath);
    var from, to := options.fromPath, options.toPath;
    PassWritesOnlyCandidates(fs, walk(rootDir), move, move, rootDir, options.filter, parse, resolveModule, from);
    var p := PassSpec(fs, walk(rootDir), move, move, rootDir, options.filter, parse, resolveModule);
    if p.failure.None? && from in p.files {
      MoveOneWritesOnlyFile(p.files, from, to, parse);
      var m := MoveOne(p.files, from, to, parse);
      if m.Ok? {
        RenamedMoves(m.value.0, from, to);
      }
    }
  }

  /** Any other file `mvjs` changes is a candidate the walk visited, and, when `mvjs`
      succeeds, its name is in the list handed to the callback. */
  lemma MvjsListsChanges(fs: map<string, string>, options: Options, cwd: string, walk: string -> seq<string>,
                         parse: string -> Option<seq<AstNode>>,
                         resolveModule: (string, string) -> Option<string>, path: string)
    requires Ready(options, cwd, walk)
    requires IsAbsolute(path) && path in fs && path != options.fromPath && path != options.toPath
    ensures var o := MvjsSpec(fs, options, cwd, walk, parse, resolveModule);
            var rootDir := RootDir(options, cwd);
            path in o.files &&
            (o.files[path] != fs[path] ==>
               path in walk(rootDir) && IsCandidate(path, Move(options.fromPath, options.toPath)) &&
               (o.result.Ok? ==> Relative(rootDir, path) in o.result.value))
  {
    var rootDir := RootDir(options, cwd);
    var move := Move(options.fromPath, options.toPath);
    var from, to := options.fromPath, options.toPath;
    PassListsChanges(fs, walk(rootDir), move, move, rootDir, options.filter, parse, resolveModule, path);
    var p := PassSpec(fs, walk(rootDir), move, move, rootDir, options.filter, parse, resolveModule);
    if p.failure.None? && from in p.files {
      MoveOneWritesOnlyFile(p.files, from, to, parse);
      var m := MoveOne(p.files, from, to, parse);
      if m.Ok? {
        RenamedMoves(m.value.0, from, to);
      }
    }
  }

  /** When the walk reports no path twice, `mvjs` throws if some candidate is missing or
      has `require()` without an argument; and when it succeeds, the names passed to the
      callback are exactly those of the candidates that required the moved file, in
      walk order. */
  lemma MvjsListsExactly(fs: map<string, string>, options: Options, cwd: string, walk: string -> seq<string>,
                         parse: string -> Option<seq<AstNode>>,
                         resolveModule: (string, string) -> Option<string>)
    requires Ready(options, cwd, walk) && Distinct(walk(RootDir(options, cwd)))
    ensures var o := MvjsSpec(fs, options, cwd, walk, parse, resolveModule);
            var rootDir := RootDir(options, cwd);
            var files, move := walk(rootDir), Move(options.fromPath, options.toPath);
            ((exists i :: 0 <= i < |files| && IsCandidate(files[i], move) && !Readable(fs, files[i], parse)) ==>
               o.result.Err?) &&
            (o.result.Ok? ==> o.result.value == Listed(fs, files, move, options.fromPath, rootDir, parse, resolveModule))
  {
    var rootDir := RootDir(options, cwd);
    var move := Move(options.fromPath, options.toPath);
    PassFailsIff(fs, walk(rootDir), move, move, rootDir, options.filter, parse, resolveModule);
    PassListsExactly(fs, walk(rootDir), move, move, rootDir, options.filter, parse, resolveModule);
  }

  /** When the walk reports no path twice and `mvjs` succeeds, every candidate other
      than the moved file holds what `updateRequires` alone makes of its original
      contents. */
  lemma MvjsRewritesEach(fs: map<string, string>, options: Options, cwd: string, walk: string -> seq<string>,
                         parse: string -> Option<seq<AstNode>>,
                         resolveModule: (string, string) -> Option<string>, i: nat)
    requires Ready(options, cwd, walk) && Distinct(walk(RootDir(options, cwd)))
    requires var files := walk(RootDir(options, cwd));
             i < |files| && IsCandidate(files[i], Move(options.fromPath, options.toPath))
    ensures var o := MvjsSpec(fs, options, cwd, walk, parse, resolveModule);
            var f := walk(RootDir(options, cwd))[i];
            var u := UpdateOne(fs, f, options.fromPath, options.toPath, options.filter, parse, resolveModule);
            o.result.Ok? ==> u.Ok? && f in o.files && o.files[f] == u.value.0[f]
  {
    var rootDir := RootDir(options, cwd);
    var move := Move(options.fromPath, options.toPath);
    var from, to := options.fromPath, options.toPath;
    PassRewritesEach(fs, walk(rootDir), move, move, rootDir, options.filter, parse, resolveModule, i);
    var p := PassSpec(fs, walk(rootDir), move, move, rootDir, options.filter, parse, resolveModule);
    if p.failure.None? && from in p.files {
      MoveOneWritesOnlyFile(p.files, from, to, parse);
      var m := MoveOne(p.files, from, to, parse);
      if m.Ok? {
        RenamedMoves(m.value.0, from, to);
      }
    }
  }
}
