/**
 * The local output directory both downloaders write into, as a map from
 * file path to file content. Directories are implicit: a file's parent
 * exists as soon as the file does.
 */
module LocalDisk {

  /** One byte of file content. */
  type byte = b: int | 0 <= b < 256

  /** `Path(dir, name)` / `dir.joinpath(name)`, with "/" as the separator. */
  function Child(dir: string, name: string): (p: string)
    ensures |p| == |dir| + 1 + |name|
    ensures p[..|dir| + 1] == dir + "/"
    ensures p[|dir| + 1..] == name
  {
    dir + "/" + name
  }

  /** Different names in one folder are different paths. */
  lemma ChildInjective(dir: string, a: string, b: string)
    requires Child(dir, a) == Child(dir, b)
    ensures a == b
  {
    assert a == Child(dir, a)[|dir| + 1..];
  }

  /** The files of the output directory, updated in place. */
  class Disk {
    var files: map<string, seq<byte>>

    constructor (initial: map<string, seq<byte>>)
      ensures files == initial
    {
      files := initial;
    }

    /** `path.exists()` */
    predicate Exists(p: string)
      reads this
    {
      p in files
    }

    /** `path.stat().st_size` */
    function SizeOf(p: string): nat
      reads this
      requires p in files
    {
      |files[p]|
    }

    /** `path.open('wb+')` followed by one `write`: the file now holds exactly `data`. */
    method Write(p: string, data: seq<byte>)
      modifies this
      ensures files == old(files)[p := data]
    {
      files := files[p := data];
    }

    /** A further `write` on an open file: `chunk` goes at the end. */
    method Append(p: string, chunk: seq<byte>)
      requires p in files
      modifies this
      ensures files == old(files)[p := old(files)[p] + chunk]
    {
      files := files[p := files[p] + chunk];
    }

    /** `path.unlink()` on an existing file. */
    method Unlink(p: string)
      requires p in files
      modifies this
      ensures files == old(files) - {p}
    {
      files := files - {p};
    }

    /** `src.replace(dst)`: `dst` takes `src`'s content and `src` is gone (unless they are one file). */
    method Replace(src: string, dst: string)
      requires src in files
      modifies this
      ensures files == (old(files) - {src})[dst := old(files)[src]]
    {
      files := (files - {src})[dst := files[src]];
    }
  }
}
