# mvjs / jsmv require rewriting, in Dafny

`mvjs` moves a JavaScript file and keeps every relative `require(...)` pointing at the
right place. It does two things:

- **Mode A.** It rewrites each `.js` file under a root directory whose relative
  `require` literals resolve to the old path, so that they name the new path.
- **Mode B.** It rewrites the moved file's own relative `require` literals for its new
  directory, then renames the file.

`mvjs.js` is the library entry `mvjs(options, cb)`. `jsmv.js` is the command-line script
`jsmv <file_to_move> <new_location>`. The script carries the same engine, with these
differences:

- it has no filter;
- it can move a file into a directory under the file's own name;
- its walk skips the paths it is given but rewrites for the script's own globals
  (the two are the same in its one call);
- it logs names relative to the working directory instead of passing them to a
  callback.

Both write a buffer only when it was edited: the library tests `code.modified` before
`write()`, the script calls `writeIfModified()`. That is a difference of form only.

This project models that engine:

- **The `SourceCode` buffer** (`SourceBuffer`). It holds the text, the running offset
  delta and the `modified` flag. It splices a new value between the quotes of a
  literal, and it handles CRLF files (`LineEndings`).
- **The argument scan** (`Scanner`). The parser is a parameter. The scan keeps the
  relative string literals passed as the first argument to `require`.
- **The new literal of each mode** (`Rewriter`). This uses `path.posix`'s `dirname`,
  `resolve`, `relative`, `extname`, `basename` and `join` on absolute paths
  (`PosixPath`).
- **The edit loops over one buffer** (`Patching`). They are proved against edit-list
  functions.
- **The file-selection walk, `updateAllFiles`, and the move itself**, over a `Disk`
  whose files are a map from path to contents (`Storage`, `Mvjs`, `Jsmv`).

What is proved:

- Each splice keeps the quotes.
- Edits in ascending order on escape-free literals land on their original literals, and
  the text between them is left as it was.
- A Mode B literal, resolved by `path.resolve` from the new directory, gives the path
  the old literal gave from the old directory
  (`resolve(newDir, relative(newDir, t)) == t`).
- A Mode A literal written with an extension resolves by `path.resolve` to the
  destination.
- Both hold for `path.resolve`, not for Node's `require`, which reads a literal like
  `.lib/b.js` as a package name (see "## Left out").
- Each one-file rewrite writes that file only, and exactly when it edited something.
- The walk writes only candidate files and lists every file it changed.
- When the walker reports no path twice, the walk throws exactly when some candidate is
  missing or has `require()` without an argument. Otherwise it lists exactly the
  candidates that require the moved file, in walk order, computed from the files as
  they were before the walk. Each candidate ends up as `updateRequires` alone would
  leave it.
- A successful `mvjs` leaves the Mode B rewrite of the moved file at the destination.
- The script has the library's effect with `rootDir` set to the working directory and no
  filter.

A thrown exception is an `Err` value. It stands for an exception escaping the walker's
event handler or `mvjs` itself, so the callback is never called. This covers:

- `readFileSync` on a missing file;
- `require()` with no argument;
- `moveRequires` or `renameSync` throwing.

The exception ends the whole operation, and the writes made before it stay on disk.
The method's `Ok` result is the list of names the callback receives, with no error.

**Extension-less literals, as written.** When the original literal has no extension,
`mvjs.js:88` and `jsmv.js:92` replace the new literal by
`path.basename(newValue, path.extname(newValue))`. `basename` drops the directory part
and the `./` prefix as well as the extension. So a literal `./b` in `/p/a.js`, for a
move of `/p/b.js` to `/p/sub/b.js`, becomes `b`, not `./sub/b`. That bare name is no
longer a relative require.

The model follows the code. `Rewriter.ModeAWithoutExtension` states what it yields: the
destination's file name without its extension, with no `/` in it. The round trip
(the new literal resolves by `path.resolve` to the destination) is proved only for
literals written with an extension (`Rewriter.ModeAWithExtension`).

## Model

| member | source | states |
|---|---|---|
| LineEndings.CrlfToLfWithoutCrlf | mvjs.js:12-15 | a file with no "\r\n" is held exactly as read |
| LineEndings.CrlfRoundTrip | mvjs.js:14 | turning "\r\n" into "\n" and back gives the original when every "\n" follows a "\r" |
| LineEndings.UneditedWriteRestores | mvjs.js:30 | writing an unedited buffer stores the bytes read, for a file with no "\r\n" or whose every "\n" is part of one |
| LineEndings.CrlfToLfLeavesNoCrlf | mvjs.js:14 | for a text with no "\r\r\n", turning "\r\n" into "\n" leaves no "\r\n" |
| LineEndings.NormalisedIsFixed | mvjs.js:42 | for a file with no "\r\r\n", the second "\r\n" to "\n" pass before parsing leaves the buffer's text unchanged |
| LineEndings.CrCrLfShiftsOffsets | mvjs.js:42 | a file with "\r\r\n" is held with "\r\n", and the second pass shortens it again (`a\r\r\nb` is held as `a\r\nb` and parsed as `a\nb`) |
| SourceBuffer.SourceCode.constructor | mvjs.js:7-16 | the buffer starts with the CRLF flag of the contents, the contents with "\r\n" turned into "\n" if it has any, delta 0 and not modified |
| SourceBuffer.SourceCode.UpdateNodeValue | mvjs.js:20-26 | the text is spliced at the literal's offsets shifted by the delta; the delta grows by the new value's length minus the old; the buffer is modified |
| SourceBuffer.SourceCode.Write | mvjs.js:28-31 | writes the buffer's own file with "\n" turned back into "\r\n" for a CRLF file |
| SourceBuffer.SourceCode.WriteIfModified | jsmv.js:30-35 | writes exactly when the buffer is modified, with the same bytes as `write` |
| SourceBuffer.SpliceInRange | mvjs.js:21-23 | a splice inside the text keeps everything up to the opening quote and from the closing quote on |
| SourceBuffer.SpliceKeepsQuotes | mvjs.js:21-23 | after a splice the opening and closing quotes are the original ones, with the new value between them, and the length changes by the new value's length minus the old span's |
| SourceBuffer.EditsLandOnOriginals | mvjs.js:20-25 | edits in ascending order on escape-free literals each land between their original literal's quotes, and the text between literals is unchanged |
| Scanner.ErrorIffMissingArgument | mvjs.js:48-63 | the scan throws exactly when some `require` call has no argument |
| Scanner.ErrorPersists | mvjs.js:48-63 | once a `require()` without an argument is met, the scan ends with that TypeError |
| Scanner.CollectsExactly | mvjs.js:48-64 | a successful scan collects exactly the relative string literals that are first arguments of `require` calls; non-literal arguments give nothing |
| Scanner.WalkOrder | mvjs.js:48-64 | literals are collected in walk order: scanning two stretches gives the first's literals then the second's |
| Scanner.FindRelativeRequireArgs | mvjs.js:39-65 | the loop over the walked nodes gives the scan's result, and no literal when the text does not parse |
| Scanner.ScanSeesBuffer | mvjs.js:42-44 | for a file with no "\r\r\n", the parser is handed exactly the buffer's text |
| Patching.MatchingSound | mvjs.js:72-82 | every literal Mode A edits is one of the scanned literals, and it resolves to `fromPath` |
| Patching.MatchingComplete | mvjs.js:72-82 | every scanned literal that resolves to `fromPath` is edited; an unresolvable one never is |
| Patching.RetargetedAt | mvjs.js:109-115 | the edit list has one edit per literal, in order, each with that literal's new value |
| Patching.PatchModeA | mvjs.js:72-92 | the Mode A loop leaves the buffer with the edits for the matching literals applied in order, and modified exactly when one matched or it already was |
| Patching.PatchModeB | mvjs.js:109-115 | the Mode B loop leaves the buffer with an edit applied for every literal in order, and modified exactly when there was one or it already was |
| Patching.MatchingDisjoint | mvjs.js:72-92 | keeping only the matching literals keeps them ascending, disjoint and escape-free |
| Patching.DisjointWellPlaced | mvjs.js:72-92 | edits for ascending, disjoint, escape-free literals meet the buffer's ordering contract |
| Rewriter.DotPrefixed | mvjs.js:84-86 | the result is a relative require; a relative value is kept and any other gets "./" in front |
| Rewriter.DotPrefixedKeepsTarget | mvjs.js:84-86 | adding "./" never changes the path a literal resolves to |
| Rewriter.ModeAWithExtension | mvjs.js:83-86 | for a literal written with an extension, the new literal passes the relative test and resolves by `path.resolve` from the file's directory to the destination |
| Rewriter.ModeAWithoutExtension | mvjs.js:87-89 | for a literal without an extension, the new literal is the destination's file name minus its extension, with no "/" |
| Rewriter.ModeBKeepsTarget | mvjs.js:110-113 | the new literal passes the relative test and, resolved by `path.resolve` from the new directory, gives the path the old literal gave from the old directory |
| Rewriter.DotDirectoryNotPrefixed | mvjs.js:83-86 | the relative test looks at the first character only: moving `/p/b.js` to `/p/.lib/b.js` rewrites `./b.js` in `/p/a.js` to `.lib/b.js`, with no "./" |
| Rewriter.UpdateModifiedIff | mvjs.js:68-102 | Mode A throws exactly when the scan does; otherwise it is modified exactly when some literal resolves to `fromPath`, and writes its own file exactly then |
| Rewriter.MoveModifiedIff | mvjs.js:104-123 | Mode B throws exactly when the scan does; otherwise it is modified, and writes, exactly when the file has a relative literal |
| Rewriter.FilterKeepsModified | mvjs.js:93-97 | the filter runs on a modified buffer only: whatever it returns, Mode A throws, modifies and writes the same file exactly as with no filter |
| Rewriter.FalsyFilterKeepsText | mvjs.js:95 | a filter whose result is always falsy (nothing, or "") keeps the patched text: Mode A behaves as with no filter |
| Rewriter.UpdateLandsOnLiterals | mvjs.js:68-102 | with no filter and disjoint escape-free literals, the file written is the buffer with the text between each matching literal's quotes, at the parser's offsets, replaced by its new value and every other character kept; for a file with no "\r\r\n" those offsets are the buffer's (Scanner.ScanSeesBuffer), so each literal's value is replaced |
| Rewriter.MoveLandsOnLiterals | mvjs.js:104-123 | the same for Mode B over every relative literal, under the same condition on "\r\r\n" |
| Storage.RenamedMoves | mvjs.js:172 | the rename moves the contents to the destination, leaves nothing at the source unless it is the destination, and touches no other path |
| Storage.Disk.Read | mvjs.js:9 | reading gives the file's contents, or ENOENT for a missing file |
| Storage.Disk.Store | mvjs.js:30 | the write replaces exactly that path's contents |
| Storage.Disk.Rename | mvjs.js:172 | the rename succeeds exactly when the source exists, and the files become the renamed map |
| Mvjs.UpdateOneWritesOnlyFile | mvjs.js:68-102 | Mode A on one file throws exactly when the file is missing or has `require()` without an argument; otherwise it creates and deletes nothing, writes only that file, leaves everything as it was when not modified, and is modified exactly when a literal resolves to `fromPath` |
| Mvjs.MoveOneWritesOnlyFile | mvjs.js:104-123 | Mode B on one file throws in the same cases; otherwise it writes only that file, and only and exactly when it has a relative literal |
| Mvjs.UpdateRequires | mvjs.js:68-102 | reading, scanning, patching, filtering and writing one file has the one-file Mode A effect and result, and a throw leaves the disk as it was |
| Mvjs.MoveRequires | mvjs.js:104-123 | the same for Mode B on the moved file |
| Mvjs.PassFailurePersists | mvjs.js:129-139 | after a file throws, no further file of the walk is visited |
| Mvjs.PassWritesOnlyCandidates | mvjs.js:129-139 | the walk creates and deletes no file and never changes a file that is not a visited candidate (`node_modules`, non-`.js`, `fromPath` and `toPath` are never changed) |
| Mvjs.PassListsCandidates | mvjs.js:129-139 | every name listed is that of a visited candidate, relative to `rootDir`, and no more names are listed than files visited |
| Mvjs.PassListsChanges | mvjs.js:129-139 | every file whose contents the walk changed is a visited candidate and is listed by its name relative to `rootDir` |
| Mvjs.PassFailsIff | mvjs.js:129-139 | on a walk with no repeated path, the walk throws exactly when some candidate is missing or has `require()` without an argument |
| Mvjs.PassListsExactly | mvjs.js:131-136 | on a walk with no repeated path that throws nothing, the names listed are exactly `relative(rootDir, f)` for each candidate `f` that, before the walk, had a relative literal resolving to `fromPath`, in walk order |
| Mvjs.PassRewritesEach | mvjs.js:131-133 | on such a walk, every candidate ends up as `updateRequires` alone makes it from its original contents |
| Mvjs.UpdateAllFiles | mvjs.js:125-147 | visiting the walked files in order has the walk's effect, lists modified names in visit order, and returns the first error thrown |
| Mvjs.Mvjs | mvjs.js:168-175 | `mvjs` runs the walk, then Mode B on the file at `fromPath`, then the rename, with `rootDir` defaulting to the working directory; a throw stops it there |
| Mvjs.MvjsMovesFile | mvjs.js:168-175 | when `mvjs` succeeds, the destination holds the moved file's original contents rewritten by Mode B, and nothing is left at the old path |
| Mvjs.MvjsListsChanges | mvjs.js:168-175 | any other file `mvjs` changes is a visited candidate, and on success its name is in the list passed to the callback |
| Mvjs.MvjsListsExactly | mvjs.js:168-175 | with no repeated path in the walk, `mvjs` throws when a candidate is missing or has `require()` without an argument, and on success passes exactly the candidates that required the moved file, in walk order |
| Mvjs.MvjsRewritesEach | mvjs.js:168-175 | with no repeated path in the walk, on success every candidate holds what `updateRequires` alone makes of its original contents |
| Jsmv.LocationsIntoDirectory | jsmv.js:142-146 | moving into a directory puts the file in that directory under its own name; otherwise the destination is the resolved argument |
| Jsmv.UpdateRequires | jsmv.js:72-100 | the script's Mode A has the library's one-file effect with no filter, writing only an edited buffer |
| Jsmv.MoveRequires | jsmv.js:102-117 | the script's Mode B has the library's one-file effect |
| Jsmv.UpdateAllFiles | jsmv.js:119-135 | the walk skips its `fromPath` and `toPath` arguments but rewrites each candidate for the script's `fileToMove` and `newFileLocation` |
| Jsmv.Run | jsmv.js:142-153 | the script's effect on the disk, and what it reports, are those of `mvjs` with `rootDir` set to the working directory and no filter |

## Left out

- Reading, writing and renaming are operations on a map from path to contents.
  Encodings, permissions and partial writes are not modelled.
- Storage.Disk.Rename: renaming onto an existing file replaces it, as POSIX `rename`
  does. Directory renames and cross-device moves are not modelled.
- The JavaScript parser and its tree walker are a parameter. They give the syntax-tree
  nodes in visit order, or `None` for a syntax error.
- Node's module resolver (`Module._resolveFilename` with `_nodeModulePaths`) is a
  parameter, `None` when it throws. Its extension and `index.js` fallbacks are not
  modelled.
- The walker is a parameter giving the joined path of each file it reports, in order.
  Its events, its `next()` and its `'error'` event are not modelled. So the library's
  behaviour after a walker error is not modelled either: it still runs Mode B and the
  rename, and passes the error to the callback.
- Console output is not modelled. This covers the non-constant `require` warning, the
  script's "Updated requires" and "Moved" lines, its usage check on `process.argv`, and
  `process.exit`.
- The script's walk returns the names it would log, relative to the working directory,
  instead of printing them.
- Whether the script's destination exists and is a directory is a parameter, in place of
  `existsSync`/`statSync`.
- Only absolute `fromPath`, `toPath`, `rootDir` and walked paths are modelled. The
  documented `mvjs` options accept a `fromPath` and `toPath` "absolute or relative to
  rootDir", but the code never resolves them. With a relative `fromPath`:
  - it never equals a resolver result, so no literal is rewritten;
  - the walk does not skip the moved file;
  - `moveRequires` and `renameSync` resolve it against the working directory, not
    `rootDir`.
  That behaviour is not modelled.
- The exact-listing lemmas (Mvjs.PassFailsIff, Mvjs.PassListsExactly,
  Mvjs.PassRewritesEach, Mvjs.MvjsListsExactly, Mvjs.MvjsRewritesEach) assume the walker
  reports no path twice. A walk that repeats a path would rewrite it twice.
- Storage.Disk.Rename: the map has no directories. So the model's rename succeeds where
  `renameSync` into a missing directory throws ENOENT, after all rewrites are written.
- String lengths and offsets count characters. JavaScript's `.length` and the parser's
  offsets count UTF-16 code units, so the two differ for text outside the Basic
  Multilingual Plane.
- `mvjs` writes the defaulted `rootDir` back into the caller's `options` object. That is
  not modelled.
- The `fileName` argument of `write`/`writeIfModified` is never passed by the source, so
  only the default, the buffer's own file, is modelled.
- Rewriter.Filtered: the filter's result is a string or nothing. A truthy non-string
  result is not modelled.
- SourceBuffer.EditsLandOnOriginals, Rewriter.UpdateLandsOnLiterals and
  Rewriter.MoveLandsOnLiterals: a literal with an escape sequence is not covered.
  - The source shifts the delta by the decoded value's length, not the raw text's, so
    later edits in the same file land off their literals.
  - These lemmas require escape-free, ascending, disjoint literals.
  - The single-edit contracts and the loops hold for any literals.
- Rewriter.ModeAWithExtension and Rewriter.ModeBKeepsTarget: the round trip is stated
  for `path.resolve`, not for Node's `require`. `isRelativeRequire` tests only the first
  character, so a relative path whose first directory name starts with a dot
  (`.lib/b.js`) gets no "./" (Rewriter.DotDirectoryNotPrefixed). `require` reads such a
  literal as a package name, so it no longer loads the moved file. In Mode B, an old
  package literal such as `.bin/x` is taken as relative and rewritten.
- Rewriter.UpdateLandsOnLiterals and Rewriter.MoveLandsOnLiterals: the parser sees the
  buffer text with "\r\n" turned into "\n" a second time. For a file with "\r\r\n",
  the parser's text is shorter than the buffer (LineEndings.CrCrLfShiftsOffsets), so
  every later splice lands early and corrupts the literal. The lemmas are stated at the
  parser's offsets; they mean "each literal's value is replaced" only for files with no
  "\r\r\n" (Scanner.ScanSeesBuffer).
- Rewriter.ModeAWithExtension: the round trip is stated for literals written with an
  extension. The extension-less case is modelled as written (see above).
- `isRelativeRequire` is the predicate `Scanner.IsRelativeRequire`, whose definition is
  the test itself. Rewriter.DotPrefixed states its use.
- `SourceCode.Output` is a helper with no contract of its own.
- `mvjs`'s callback is modelled as the method's result, `Ok` with the modified names.
  The callback's error argument only ever carries the walker's `'error'` event, which is
  not modelled. An `Err` result means an exception escaped, and the callback is never
  called.
