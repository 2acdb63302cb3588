/** Bytes, the file system as the handler sees it, and the buffered reader it
    streams a file through. */
module Files {

  newtype byte = b: int | 0 <= b < 256

  /** The bytes of an ASCII literal, as Rust's `b"..."` gives them. */
  function Ascii(s: string): (r: seq<byte>)
    ensures |r| == |s|
  {
    seq(|s|, i requires 0 <= i < |s| => (s[i] as int % 256) as byte)
  }

  /** What `Path::exists`, `Path::metadata` and `File::open` report for one path:
      whether it is a regular file, whether its permissions are read-only, and
      the bytes that reading it yields. */
  datatype Entry = Entry(isFile: bool, readonly: bool, contents: seq<byte>)

  /** The file system, keyed by the path string handed to `Path::new` and
      `File::open`; a path that is not a key does not exist. */
  type FileSystem = map<string, Entry>

  /** Opening the path and reading it succeeds: it exists and is a regular file. */
  predicate Readable(fs: FileSystem, path: string) {
    path in fs && fs[path].isFile
  }

  /** An open file behind a `BufReader`: its bytes and how many have been read. */
  class FileReader {
    const data: seq<byte>
    var pos: nat

    ghost predicate Valid()
      reads this
    {
      pos <= |data|
    }

    constructor (data: seq<byte>)
      ensures Valid() && this.data == data && pos == 0
    {
      this.data := data;
      pos := 0;
    }

    /** `Read::read`: copies some of the next bytes into the front of `buf`
        and returns how many. It may return fewer than `buf` holds anywhere in
        the file, and returns 0 only at the end of the file (or for an empty
        buffer). */
    method Read(buf: array<byte>) returns (n: nat)
      requires Valid()
      modifies this, buf
      ensures Valid()
      ensures n <= buf.Length && pos == old(pos) + n
      ensures buf[..n] == data[old(pos)..pos]
      ensures n == 0 <==> old(pos) == |data| || buf.Length == 0
    {
      var available := |data| - pos;
      if available == 0 || buf.Length == 0 {
        return 0;
      }
      n :| 0 < n <= available && n <= buf.Length;
      forall i | 0 <= i < n {
        buf[i] := data[pos + i];
      }
      pos := pos + n;
    }
  }
}
