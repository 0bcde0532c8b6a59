/**
 * The two ways a `require` literal is recomputed when a file moves, and the loops that
 * apply them to one buffer.
 *
 * Mode A runs on a file that may require the moved file: every relative literal that
 * resolves to the old location is pointed at the new one. Mode B runs on the moved
 * file itself: every relative literal is re-expressed from the new directory.
 *
 * Node's module resolver is not modelled: `resolveModule(request, file)` stands for
 * `Module._resolveFilename(request, file)`, `None` when it throws.
 */
module Rewriter {
  import opened Wrappers
  import opened PosixPath
  import opened LineEndings
  import opened SourceBuffer
  import opened Scanner
  import opened Patching

  /** What rewriting one file did: whether its buffer was edited, and the write made. */
  datatype Update = Update(modified: bool, write: Option<FileWrite>)

  /** `if (!isRelativeRequire(v)) v = './' + v`. */
  function DotPrefixed(v: string): (r: string)
    ensures IsRelativeRequire(r)
    ensures IsRelativeRequire(v) ==> r == v
    ensures !IsRelativeRequire(v) ==> r == "./" + v
  {
    if IsRelativeRequire(v) then v else "./" + v
  }

  /** Mode A: the literal that replaces `oldValue` in a file in `dir` when the file it
      requires moves to `toPath`. */
  function ModeALiteral(dir: string, toPath: string, oldValue: string): string
    requires IsAbsolute(dir) && IsAbsolute(toPath)
  {
    var newValue := DotPrefixed(Relative(dir, toPath));
    if Extname(oldValue) == "" then Basename(newValue, Extname(newValue)) else newValue
  }

  /** Mode B: the literal that replaces `value` in the moved file when its directory
      changes from `dir` to `newDir`. */
  function ModeBLiteral(dir: string, newDir: string, value: string): string
    requires IsAbsolute(dir) && IsAbsolute(newDir)
  {
    DotPrefixed(Relative(newDir, Resolve(dir, value)))
  }

  /** Mode A's literal function for a file in `dir`. */
  function ModeA(dir: string, toPath: string): string -> string
    requires IsAbsolute(dir) && IsAbsolute(toPath)
  {
    v => ModeALiteral(dir, toPath, v)
  }

  /** Mode B's literal function for the moved file. */
  function ModeB(dir: string, newDir: string): string -> string
    requires IsAbsolute(dir) && IsAbsolute(newDir)
  {
    v => ModeBLiteral(dir, newDir, v)
  }

  /** `filterFn(file, text) || text`: a falsy result (`None` or "") keeps the text. The
      filter is `None` when the option is not a function. */
  function Filtered(filter: Option<(string, string) -> Option<string>>, file: string, text: string): string
  {
    match filter
    case None => text
    case Some(f) =>
      var t := f(file, text);
      if t.Some? && t.value != "" then t.value else text
  }

  /** The outcome of rewriting `file`, whose contents are `contents`, in Mode A. */
  function UpdateRequiresSpec(file: string, contents: string, fromPath: string, toPath: string,
                              filter: Option<(string, string) -> Option<string>>,
                              parse: string -> Option<seq<AstNode>>,
                              resolveModule: (string, string) -> Option<string>): Result<Update>
    requires IsAbsolute(file) && IsAbsolute(toPath)
  {
    var text := Normalised(contents);
    match ScanText(text, parse)
    case Err(e) => Err(e)
    case Ok(args) =>
      var edits := Retargeted(Matching(args, file, fromPath, resolveModule), ModeA(Dirname(file), toPath));
      if edits == [] then Ok(Update(false, None))
      else
        var patched := ApplyEdits(text, 0, edits);
        Ok(Update(true, Some(FileWrite(file, Restored(HasCrlf(contents), Filtered(filter, file, patched))))))
  }

  /** The outcome of rewriting the moved file `file` in Mode B for its new location `newFile`. */
  function MoveRequiresSpec(file: string, contents: string, newFile: string,
                            parse: string -> Option<seq<AstNode>>): Result<Update>
    requires IsAbsolute(file) && IsAbsolute(newFile)
  {
    var text := Normalised(contents);
    match ScanText(text, parse)
    case Err(e) => Err(e)
    case Ok(args) =>
      var edits := Retargeted(args, ModeB(Dirname(file), Dirname(newFile)));
      if edits == [] then Ok(Update(false, None))
      else Ok(Update(true, Some(FileWrite(file, Restored(HasCrlf(contents), ApplyEdits(text, 0, edits))))))
  }

  // ---------------------------------------------------------------------------
  // What the literals name

  /** Adding "./" never changes what a literal resolves to. */
  lemma DotPrefixedKeepsTarget(dir: string, v: string)
    requires IsAbsolute(dir)
    ensures Resolve(dir, DotPrefixed(v)) == Resolve(dir, v)
  {
    if !IsRelativeRequire(v) {
      ResolveDotSlash(dir, v);
    }
  }

  /** Mode A, literal written with an extension: the new literal, resolved from the
      requiring file's directory, names the destination. */
  lemma ModeAWithExtension(dir: string, toPath: string, oldValue: string)
    requires IsAbsolute(dir) && IsAbsolute(toPath)
    requires Extname(oldValue) != ""
    ensures IsRelativeRequire(ModeALiteral(dir, toPath, oldValue))
    ensures Resolve(dir, ModeALiteral(dir, toPath, oldValue)) == Canon(Segments(toPath))
  {
    DotPrefixedKeepsTarget(dir, Relative(dir, toPath));
    ResolveRelative(dir, toPath);
  }

  /** Mode A, literal written without an extension: `basename` keeps only the last
      component, so the new literal is the destination's file name without its
      extension, with no directory part and no "./" (unless the destination is the
      directory itself or one of its ancestors). */
  lemma ModeAWithoutExtension(dir: string, toPath: string, oldValue: string)
    requires IsAbsolute(dir) && IsAbsolute(toPath)
    requires Extname(oldValue) == ""
    requires !(Segments(toPath) <= Segments(dir))
    ensures var ts := Segments(toPath);
            var r := ModeALiteral(dir, toPath, oldValue);
            |ts| > 0 && r + Extname(ts[|ts| - 1]) == ts[|ts| - 1] && '/' !in r
  {
    var ts := Segments(toPath);
    RelativeEndsInName(dir, toPath);
    DotRelativeEndsInName(dir, toPath);
    var v := DotPrefixed(Relative(dir, toPath));
    ExtnameOfBase(v);
    BasenameWithoutExt(v);
  }

  /** Mode B: each new literal, resolved from the new directory, names the file the old
      literal named from the old directory. */
  lemma ModeBKeepsTarget(dir: string, newDir: string, value: string)
    requires IsAbsolute(dir) && IsAbsolute(newDir)
    ensures IsRelativeRequire(ModeBLiteral(dir, newDir, value))
    ensures Resolve(newDir, ModeBLiteral(dir, newDir, value)) == Resolve(dir, value)
  {
    var target := Resolve(dir, value);
    ResolveIsCanonical(dir, value);
    DotPrefixedKeepsTarget(newDir, Relative(newDir, target));
    ResolveRelativeCanonical(newDir, target);
  }

  /** The relative test looks at the first character only, so a path into a directory
      whose name starts with a dot gets no "./": moving `/p/b.js` to `/p/.lib/b.js`
      rewrites `./b.js` in `/p/a.js` to `.lib/b.js`, which Node's `require` reads as a
      package name rather than a path. */
  lemma DotDirectoryNotPrefixed()
    ensures IsRelativeRequire(".lib/b.js")
    ensures ModeALiteral("/p", "/p/.lib/b.js", "./b.js") == ".lib/b.js"
  {
    RelativeIntoDotDirectory();
    ExtnameOfDotRelative();
    assert IsRelativeRequire(".lib/b.js");
    assert DotPrefixed(".lib/b.js") == ".lib/b.js";
  }

  lemma RelativeIntoDotDirectory()
    ensures Relative("/p", "/p/.lib/b.js") == ".lib/b.js"
  {
    var fs, ts := ["p"], ["p", ".lib", "b.js"];
    assert Canon(fs) == "/p" && Canon(ts) == "/p/.lib/b.js";
    SegmentsCanon(fs);
    SegmentsCanon(ts);
    assert CommonPrefix(fs, ts) == 1;
    assert RelativeSteps(fs, ts) == [".lib", "b.js"];
    assert Join([".lib", "b.js"]) == ".lib/b.js";
  }

  lemma ExtnameOfDotRelative()
    ensures Extname("./b.js") == ".js"
  {
    BaseOfAfterSep(".", "b.js");
    assert "." + "/" + "b.js" == "./b.js";
    assert LastDot("b.js") == 1;
  }

  // ---------------------------------------------------------------------------
  // What rewriting one file does

  /** Mode A on one file: it throws exactly when scanning throws; otherwise it is
      modified exactly when some relative literal resolves to `fromPath`, and it is
      written exactly when it is modified. */
  lemma UpdateModifiedIff(file: string, contents: string, fromPath: string, toPath: string,
                          filter: Option<(string, string) -> Option<string>>,
                          parse: string -> Option<seq<AstNode>>,
                          resolveModule: (string, string) -> Option<string>)
    requires IsAbsolute(file) && IsAbsolute(toPath)
    ensures var r := UpdateRequiresSpec(file, contents, fromPath, toPath, filter, parse, resolveModule);
            var scan := ScanText(Normalised(contents), parse);
            (r.Err? <==> scan.Err?) &&
            (r.Ok? ==>
               (r.value.modified <==>
                  exists i :: 0 <= i < |scan.value| && Matches(scan.value[i], file, fromPath, resolveModule)) &&
               (r.value.write.Some? <==> r.value.modified) &&
               (r.value.write.Some? ==> r.value.write.value.path == file))
  {
    var scan := ScanText(Normalised(contents), parse);
    if scan.Ok? {
      var args := scan.value;
      var ms := Matching(args, file, fromPath, resolveModule);
      if ms != [] {
        MatchingSound(args, file, fromPath, resolveModule);
        assert ms[0] in ms;
        var i :| 0 <= i < |args| && args[i] == ms[0];
      }
      if exists i :: 0 <= i < |args| && Matches(args[i], file, fromPath, resolveModule) {
        var i :| 0 <= i < |args| && Matches(args[i], file, fromPath, resolveModule);
        MatchingComplete(args, file, fromPath, resolveModule, i);
      }
    }
  }

  /** Mode B on the moved file: when scanning succeeds it is modified, and written,
      exactly when it has at least one relative literal. */
  lemma MoveModifiedIff(file: string, contents: string, newFile: string, parse: string -> Option<seq<AstNode>>)
    requires IsAbsolute(file) && IsAbsolute(newFile)
    ensures var r := MoveRequiresSpec(file, contents, newFile, parse);
            var scan := ScanText(Normalised(contents), parse);
            (r.Err? <==> scan.Err?) &&
            (r.Ok? ==> (r.value.modified <==> scan.value != []) && (r.value.write.Some? <==> r.value.modified))
  {
  }

  /** The filter runs on a modified buffer only: whatever it returns, it never changes
      whether Mode A throws, modifies the file or writes it. */
  lemma FilterKeepsModified(file: string, contents: string, fromPath: string, toPath: string,
                            filter: Option<(string, string) -> Option<string>>,
                            parse: string -> Option<seq<AstNode>>,
                            resolveModule: (string, string) -> Option<string>)
    requires IsAbsolute(file) && IsAbsolute(toPath)
    ensures var r := UpdateRequiresSpec(file, contents, fromPath, toPath, filter, parse, resolveModule);
            var r0 := UpdateRequiresSpec(file, contents, fromPath, toPath, None, parse, resolveModule);
            r.Err? == r0.Err? &&
            (r.Ok? ==> r.value.modified == r0.value.modified && (r.value.write.Some? <==> r0.value.write.Some?) &&
                       (r.value.write.Some? ==> r.value.write.value.path == r0.value.write.value.path))
  {
  }

  /** A filter whose result is always falsy (nothing, or "") leaves the patched text as
      it is: Mode A behaves as with no filter. */
  lemma FalsyFilterKeepsText(file: string, contents: string, fromPath: string, toPath: string,
                             f: (string, string) -> Option<string>,
                             parse: string -> Option<seq<AstNode>>,
                             resolveModule: (string, string) -> Option<string>)
    requires IsAbsolute(file) && IsAbsolute(toPath)
    requires forall a, b :: f(a, b) == None || f(a, b) == Some("")
    ensures UpdateRequiresSpec(file, contents, fromPath, toPath, Some(f), parse, resolveModule)
            == UpdateRequiresSpec(file, contents, fromPath, toPath, None, parse, resolveModule)
  {
    var text := Normalised(contents);
    var scan := ScanText(text, parse);
    if scan.Ok? {
      var patched := ApplyEdits(text, 0, Retargeted(Matching(scan.value, file, fromPath, resolveModule),
                                                    ModeA(Dirname(file), toPath)));
      assert f(file, patched) == None || f(file, patched) == Some("");
      assert Filtered(Some(f), file, patched) == patched;
    }
  }

  /** Mode A without a filter, on disjoint escape-free literals: the file written is
      the original with each matching literal's text between its quotes replaced by
      its new value, and every other character as it was. */
  lemma UpdateLandsOnLiterals(file: string, contents: string, fromPath: string, toPath: string,
                              parse: string -> Option<seq<AstNode>>,
                              resolveModule: (string, string) -> Option<string>)
    requires IsAbsolute(file) && IsAbsolute(toPath)
    requires ScanText(Normalised(contents), parse).Ok?
    requires Disjoint(Normalised(contents), ScanText(Normalised(contents), parse).value)
    ensures var text := Normalised(contents);
            var ms := Matching(ScanText(text, parse).value, file, fromPath, resolveModule);
            var edits := Retargeted(ms, ModeA(Dirname(file), toPath));
            var r := UpdateRequiresSpec(file, contents, fromPath, toPath, None, parse, resolveModule);
            WellPlaced(text, edits) &&
            (r.value.modified ==>
               r.value.write == Some(FileWrite(file, Restored(HasCrlf(contents), Placed(text, edits) + text[Consumed(edits)..]))))
  {
    var text := Normalised(contents);
    var args := ScanText(text, parse).value;
    var ms := Matching(args, file, fromPath, resolveModule);
    MatchingDisjoint(text, args, file, fromPath, resolveModule);
    var edits := Retargeted(ms, ModeA(Dirname(file), toPath));
    RetargetedAt(ms, ModeA(Dirname(file), toPath));
    DisjointWellPlaced(text, ms, edits);
    EditsLandOnOriginals(text, edits);
  }

  /** Mode B on disjoint escape-free literals: the moved file is written with each
      literal's text between its quotes replaced by its new value, and every other
      character as it was. */
  lemma MoveLandsOnLiterals(file: string, contents: string, newFile: string, parse: string -> Option<seq<AstNode>>)
    requires IsAbsolute(file) && IsAbsolute(newFile)
    requires ScanText(Normalised(contents), parse).Ok?
    requires Disjoint(Normalised(contents), ScanText(Normalised(contents), parse).value)
    ensures var text := Normalised(contents);
            var edits := Retargeted(ScanText(text, parse).value, ModeB(Dirname(file), Dirname(newFile)));
            var r := MoveRequiresSpec(file, contents, newFile, parse);
            WellPlaced(text, edits) &&
            (r.value.modified ==>
               r.value.write == Some(FileWrite(file, Restored(HasCrlf(contents), Placed(text, edits) + text[Consumed(edits)..]))))
  {
    var text := Normalised(contents);
    var args := ScanText(text, parse).value;
    var edits := Retargeted(args, ModeB(Dirname(file), Dirname(newFile)));
    RetargetedAt(args, ModeB(Dirname(file), Dirname(newFile)));
    DisjointWellPlaced(text, args, edits);
    EditsLandOnOriginals(text, edits);
  }
}
