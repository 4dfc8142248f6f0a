/**
 * The part of the operating system the pipeline touches: a directory of files
 * with their sizes, temporary names handed out by `tempfile.mktemp`, and the
 * `os` calls `path.exists`, `path.getsize`, `remove` and `replace`.
 */
module Files {

  /** A file name: one made by `tempfile.mktemp` (a fresh number and the suffix asked for), or any other. */
  datatype Path = Temp(id: nat, suffix: string) | Named(name: string)

  datatype Option<T> = None | Some(value: T)

  class FileSystem {
    /** The files on disk, each with its size in bytes. */
    var files: map<Path, nat>
    /** Temporary names numbered from here on have never been handed out. */
    var nextTemp: nat
    /** Files held open elsewhere: removing or replacing them raises an error. */
    const locked: set<Path>

    /** No temporary name still to be handed out is already on disk. */
    ghost predicate Valid()
      reads this
    {
      forall id: nat, suffix: string | Temp(id, suffix) in files :: id < nextTemp
    }

    constructor (initial: map<Path, nat>, firstTemp: nat, locked: set<Path>)
      requires forall p | p in initial && p.Temp? :: p.id < firstTemp
      ensures Valid()
      ensures files == initial && nextTemp == firstTemp && this.locked == locked
    {
      files := initial;
      nextTemp := firstTemp;
      this.locked := locked;
    }

    /** `os.path.exists`. */
    predicate Exists(p: Path)
      reads this
    {
      p in files
    }

    /** `tempfile.mktemp(suffix)`: an unused name; no file is created. */
    method MakeTemp(suffix: string) returns (p: Path)
      requires Valid()
      modifies this
      ensures Valid()
      ensures p == Temp(old(nextTemp), suffix) && p !in files
      ensures files == old(files) && nextTemp == old(nextTemp) + 1
    {
      p := Temp(nextTemp, suffix);
      nextTemp := nextTemp + 1;
    }

    /** `open(p, 'wb')` followed by writes totalling `size` bytes. */
    method Write(p: Path, size: nat)
      requires Valid() && (p.Temp? ==> p.id < nextTemp)
      modifies this
      ensures Valid()
      ensures files == old(files)[p := size] && nextTemp == old(nextTemp)
    {
      files := files[p := size];
    }

    /** `os.remove(p)`: fails (raises) when the file is missing or locked. */
    method Remove(p: Path) returns (ok: bool)
      requires Valid()
      modifies this
      ensures Valid()
      ensures ok == (p in old(files) && p !in locked)
      ensures files == (if ok then old(files) - {p} else old(files)) && nextTemp == old(nextTemp)
    {
      ok := p in files && p !in locked;
      if ok {
        files := files - {p};
      }
    }

    /** `os.replace(src, dst)`: `dst` takes `src`'s contents and `src` disappears; fails on a missing or locked file. */
    method Replace(src: Path, dst: Path) returns (ok: bool)
      requires Valid() && (dst.Temp? ==> dst.id < nextTemp)
      modifies this
      ensures Valid()
      ensures ok == (src in old(files) && src !in locked && dst !in locked)
      ensures files == (if ok then (old(files) - {src})[dst := old(files)[src]] else old(files))
      ensures nextTemp == old(nextTemp)
    {
      ok := src in files && src !in locked && dst !in locked;
      if ok {
        files := (files - {src})[dst := files[src]];
      }
    }
  }
}
