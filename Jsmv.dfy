/**
 * The command-line script `jsmv <file_to_move> <new_location>`: the same rewriting as
 * the library, over the working directory, with no filter, writing each buffer only
 * when it was edited, and moving into a destination directory under the file's own
 * name.
 *
 * Whether the destination exists and is a directory is a parameter; the names the
 * script logs are returned rather than printed.
 */
module Jsmv {
  import opened Wrappers
  import opened PosixPath
  import opened SourceBuffer
  import opened Scanner
  import opened Patching
  import opened Rewriter
  import opened Storage
  import opened Mvjs

  /** `fileToMove` and `newFileLocation`: both arguments resolved against `cwd`; a
      destination that is an existing directory receives the file under its own name. */
  function Locations(cwd: string, source: string, dest: string, destIsDirectory: bool): Move
    requires IsAbsolute(cwd)
  {
    var fileToMove := Resolve(cwd, source);
    var newFileLocation := Resolve(cwd, dest);
    if destIsDirectory then Move(fileToMove, JoinPath(newFileLocation, Basename(fileToMove, "")))
    else Move(fileToMove, newFileLocation)
  }

  /** Moving into a directory puts the file in that directory under its own name;
      otherwise the destination is the resolved argument. */
  lemma LocationsIntoDirectory(cwd: string, source: string, dest: string)
    requires IsAbsolute(cwd) && Resolve(cwd, source) != "/"
    ensures var m := Locations(cwd, source, dest, true);
            m.fromPath == Resolve(cwd, source) && IsAbsolute(m.toPath) &&
            Dirname(m.toPath) == Resolve(cwd, dest) && BaseOf(m.toPath) == BaseOf(m.fromPath)
    ensures Locations(cwd, source, dest, false) == Move(Resolve(cwd, source), Resolve(cwd, dest))
  {
    var from := Resolve(cwd, source);
    var dir := Resolve(cwd, dest);
    ResolveIsCanonical(cwd, source);
    ResolveIsCanonical(cwd, dest);
    var fs, ds := Segments(from), Segments(dir);
    assert fs != [];
    var n := fs[|fs| - 1];
    assert fs == fs[..|fs| - 1] + [n];
    BaseOfChild(fs[..|fs| - 1], n);
    JoinPathName(ds, n);
    DirnameChild(ds, n);
    BaseOfChild(ds, n);
  }

  /** The CLI's `updateRequires`: Mode A with no filter, writing only an edited buffer. */
  method UpdateRequires(disk: Disk, file: string, fromPath: string, toPath: string,
                        parse: string -> Option<seq<AstNode>>,
                        resolveModule: (string, string) -> Option<string>) returns (r: Result<bool>)
    requires IsAbsolute(file) && IsAbsolute(toPath)
    modifies disk
    ensures var u := UpdateOne(old(disk.files), file, fromPath, toPath, None, parse, resolveModule);
            (u.Err? ==> r == Err(u.error) && disk.files == old(disk.files)) &&
            (u.Ok? ==> r == Ok(u.value.1) && disk.files == u.value.0)
  {
    var contents := disk.Read(file);
    if contents.Err? {
      return Err(contents.error);
    }
    var code := new SourceCode(file, contents.value);
    var dirname := Dirname(file);
    var args := FindRelativeRequireArgs(code.text, parse);
    if args.Err? {
      return Err(args.error);
    }
    PatchModeA(code, args.value, file, fromPath, resolveModule, ModeA(dirname, toPath));
    var w := code.WriteIfModified();
    if w.Some? {
      disk.Store(w.value);
    }
    return Ok(code.modified);
  }

  /** The CLI's `moveRequires`: Mode B, writing only an edited buffer. */
  method MoveRequires(disk: Disk, file: string, newFile: string, parse: string -> Option<seq<AstNode>>)
    returns (r: Result<bool>)
    requires IsAbsolute(file) && IsAbsolute(newFile)
    modifies disk
    ensures var u := MoveOne(old(disk.files), file, newFile, parse);
            (u.Err? ==> r == Err(u.error) && disk.files == old(disk.files)) &&
            (u.Ok? ==> r == Ok(u.value.1) && disk.files == u.value.0)
  {
    var contents := disk.Read(file);
    if contents.Err? {
      return Err(contents.error);
    }
    var code := new SourceCode(file, contents.value);
    var dirname := Dirname(file);
    var newDirname := Dirname(newFile);
    var args := FindRelativeRequireArgs(code.text, parse);
    if args.Err? {
      return Err(args.error);
    }
    PatchModeB(code, args.value, ModeB(dirname, newDirname));
    var w := code.WriteIfModified();
    if w.Some? {
      disk.Store(w.value);
    }
    return Ok(code.modified);
  }

  /** The CLI's `updateAllFiles(directory, fromPath, toPath)`: the walk skips `fromPath`
      and `toPath`, but rewrites each candidate for the script's own `fileToMove` and
      `newFileLocation`. It returns the names it logs, relative to `cwd`. */
  method UpdateAllFiles(disk: Disk, cwd: string, files: seq<string>, fromPath: string, toPath: string,
                        fileToMove: string, newFileLocation: string,
                        parse: string -> Option<seq<AstNode>>,
                        resolveModule: (string, string) -> Option<string>) returns (r: Result<seq<string>>)
    requires IsAbsolute(cwd) && IsAbsolute(newFileLocation) && AllAbsolute(files)
    modifies disk
    ensures var p := PassSpec(old(disk.files), files, Move(fromPath, toPath), Move(fileToMove, newFileLocation),
                              cwd, None, parse, resolveModule);
            disk.files == p.files &&
            (p.failure.Some? ==> r == Err(p.failure.value)) &&
            (p.failure.None? ==> r == Ok(p.modified))
  {
    ghost var fs0 := disk.files;
    var skip, move := Move(fromPath, toPath), Move(fileToMove, newFileLocation);
    var logged: seq<string> := [];
    var i := 0;
    while i < |files|
      invariant 0 <= i <= |files|
      invariant PassSpec(fs0, files[..i], skip, move, cwd, None, parse, resolveModule) == Pass(disk.files, logged, None)
    {
      PassStep(fs0, files, i, skip, move, cwd, None, parse, resolveModule);
      var fileName := files[i];
      if IsCandidate(fileName, skip) {
        var changedText := UpdateRequires(disk, fileName, fileToMove, newFileLocation, parse, resolveModule);
        if changedText.Err? {
          PassFailurePersists(fs0, files, i + 1, skip, move, cwd, None, parse, resolveModule);
          return Err(changedText.error);
        }
        if changedText.value {
          logged := logged + [Relative(cwd, fileName)];
        }
      }
      i := i + 1;
    }
    assert files[..i] == files;
    return Ok(logged);
  }

  /** The script: locate the two files, walk `cwd`, rewrite the moved file, rename it.
      Its effect is that of `mvjs` with `rootDir` the working directory and no filter. */
  method Run(disk: Disk, cwd: string, source: string, dest: string, destIsDirectory: bool,
             walk: string -> seq<string>,
             parse: string -> Option<seq<AstNode>>,
             resolveModule: (string, string) -> Option<string>) returns (r: Result<seq<string>>)
    requires IsAbsolute(cwd) && AllAbsolute(walk(cwd))
    modifies disk
    ensures var m := Locations(cwd, source, dest, destIsDirectory);
            var o := MvjsSpec(old(disk.files), Options(m.fromPath, m.toPath, None, None), cwd, walk, parse, resolveModule);
            disk.files == o.files && r == o.result
  {
    var fileToMove := Resolve(cwd, source);
    var newFileLocation := Resolve(cwd, dest);
    if destIsDirectory {
      newFileLocation := JoinPath(newFileLocation, Basename(fileToMove, ""));
    }
    var logged := UpdateAllFiles(disk, cwd, walk(cwd), fileToMove, newFileLocation, fileToMove, newFileLocation,
                                 parse, resolveModule);
    if logged.Err? {
      return logged;
    }
    var moved := MoveRequires(disk, fileToMove, newFileLocation, parse);
    if moved.Err? {
      return Err(moved.error);
    }
    var renamed := disk.Rename(fileToMove, newFileLocation);
    if renamed.Err? {
      return Err(renamed.error);
    }
    return logged;
  }
}
