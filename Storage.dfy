/**
 * The file system as the two programs use it: a map from absolute path to contents,
 * read whole, written whole, and renamed.
 */
module Storage {
  import opened Wrappers
  import opened SourceBuffer

  /** The error `readFileSync` and `renameSync` throw for a missing file. */
  const NoSuchFile := "ENOENT"

  /** The files after the write `w`, if any. */
  function Stored(fs: map<string, string>, w: Option<FileWrite>): (r: map<string, string>)
  {
    if w.Some? then fs[w.value.path := w.value.data] else fs
  }

  /** The files after `from` is renamed to `to`; missing `from` changes nothing. */
  function Renamed(fs: map<string, string>, from: string, to: string): (r: map<string, string>)
  {
    if from in fs then (fs - {from})[to := fs[from]] else fs
  }

  /** Renaming moves the contents of `from` to `to`, leaves no `from` behind unless it
      is `to`, and touches no other path. */
  lemma RenamedMoves(fs: map<string, string>, from: string, to: string)
    requires from in fs
    ensures var r := Renamed(fs, from, to);
            to in r && r[to] == fs[from] && (from != to ==> from !in r) &&
            forall p :: p != from && p != to ==> (p in r <==> p in fs) && (p in r ==> r[p] == fs[p])
  {
  }

  /** The disk the programs read and write. */
  class Disk {
    var files: map<string, string>

    constructor (files: map<string, string>)
      ensures this.files == files
    {
      this.files := files;
    }

    /** `fs.readFileSync(path, 'utf-8')`. */
    method Read(path: string) returns (r: Result<string>)
      ensures path in files ==> r == Ok(files[path])
      ensures path !in files ==> r == Err(NoSuchFile)
    {
      if path in files {
        r := Ok(files[path]);
      } else {
        r := Err(NoSuchFile);
      }
    }

    /** `fs.writeFileSync(w.path, w.data)`. */
    method Store(w: FileWrite)
      modifies this
      ensures files == Stored(old(files), Some(w))
    {
      files := files[w.path := w.data];
    }

    /** `fs.renameSync(from, to)`. */
    method Rename(from: string, to: string) returns (r: Result<bool>)
      modifies this
      ensures from in old(files) ==> r == Ok(true)
      ensures from !in old(files) ==> r == Err(NoSuchFile)
      ensures files == Renamed(old(files), from, to)
    {
      if from in files {
        files := (files - {from})[to := files[from]];
        r := Ok(true);
      } else {
        r := Err(NoSuchFile);
      }
    }
  }
}
