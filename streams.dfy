/**
 * The objects `do_POST` reads from and writes to: the request body stream
 * `self.rfile`, and the files under the upload directory.
 */
module Streams {
  import opened Bytes
  import opened Headers

  /**
   * `self.rfile`: the bytes the client sends after the request headers, and how
   * far they have been read. Reads block until they get what they ask for or the
   * client has sent everything, as a buffered socket reader's do.
   */
  class RequestStream {
    const data: seq<Byte>
    var pos: nat

    predicate Valid()
      reads this
    {
      pos <= |data|
    }

    constructor (data: seq<Byte>)
      ensures this.data == data && pos == 0
      ensures Valid()
    {
      this.data := data;
      pos := 0;
    }

    /** `readline()`: the bytes up to and including the next LF, or to the end; b"" at the end. */
    method ReadLine() returns (line: seq<Byte>)
      requires Valid()
      modifies this
      ensures Valid()
      ensures line == Line(data, old(pos)) && pos == LineEnd(data, old(pos))
    {
      var e := pos;
      while e < |data| && data[e] != LF
        invariant pos <= e <= |data|
        invariant NextNewline(data, pos) == NextNewline(data, e)
        decreases |data| - e
      {
        e := e + 1;
      }
      if e < |data| {
        e := e + 1;
      }
      line := data[pos..e];
      pos := e;
    }

    /** `read(n)`: the next `n` bytes, or what is left when fewer are; b"" at the end. */
    method Read(n: nat) returns (chunk: seq<Byte>)
      requires Valid()
      modifies this
      ensures Valid()
      ensures pos == Min(old(pos) + n, |data|) && chunk == data[old(pos)..pos]
    {
      var e := Min(pos + n, |data|);
      chunk := data[pos..e];
      pos := e;
    }
  }

  /**
   * `os.path.join(self.directory, filename)`, kept as the pair it is built from:
   * the model does not say which pairs name the same file.
   */
  datatype Path = Join(directory: string, filename: seq<Byte>)

  /** A file opened for writing, `f` in `with open(filepath, "wb") as f`, with what has been written to it. */
  class OutputFile {
    const path: Path
    var contents: seq<Byte>

    constructor (path: Path)
      ensures this.path == path && contents == []
    {
      this.path := path;
      contents := [];
    }

    /** `f.write(chunk)`: takes the whole chunk and returns its length. */
    method Write(chunk: seq<Byte>) returns (written: nat)
      modifies this
      ensures contents == old(contents) + chunk
      ensures written == |chunk|
    {
      contents := contents + chunk;
      written := |chunk|;
    }
  }

  /** The files of the file system, by path, and their contents. */
  class FileSystem {
    var files: map<Path, seq<Byte>>

    constructor (files: map<Path, seq<Byte>>)
      ensures this.files == files
    {
      this.files := files;
    }

    /** `open(path, "wb")`: creates the file, or truncates the one that is there. */
    method Open(path: Path) returns (f: OutputFile)
      modifies this
      ensures fresh(f) && f.path == path && f.contents == []
      ensures files == old(files)[path := []]
    {
      f := new OutputFile(path);
      files := files[path := []];
    }

    /** Leaving the `with` block, normally or by an exception: the file holds what was written to it. */
    method Close(f: OutputFile)
      modifies this
      ensures files == old(files)[f.path := f.contents]
    {
      files := files[f.path := f.contents];
    }
  }
}
