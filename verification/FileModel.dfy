/** A file and the cursor of the stream that is open on it (nxcore/file/file_stream.h). Writes
    are complete; a read past the end is short; the cursor may be moved past the end. */
module FileModel {
  import opened Bytes

  function ReadAt(data: bytes, pos: nat, n: nat): (s: bytes)
    ensures |s| <= n
    ensures pos + n <= |data| ==> s == data[pos..pos + n]
    ensures |s| == n ==> n == 0 || pos + n <= |data|
  {
    if pos >= |data| then [] else if pos + n <= |data| then data[pos..pos + n] else data[pos..]
  }

  /** What is left of the data from a position on. */
  function Tail(data: bytes, pos: nat): bytes {
    if pos <= |data| then data[pos..] else []
  }

  class FileStream {
    var data: bytes
    var pos: nat

    constructor (contents: bytes)
      ensures data == contents && pos == 0
    {
      data, pos := contents, 0;
    }

    method Read(n: nat) returns (s: bytes)
      modifies `pos
      ensures s == ReadAt(data, old(pos), n) && pos == old(pos) + |s|
    {
      s := ReadAt(data, pos, n);
      pos := pos + |s|;
    }

    /** lseek from the start of the file; fails only for a negative target. */
    method SeekBegin(offset: int) returns (ok: bool)
      modifies `pos
      ensures ok <==> offset >= 0
      ensures pos == if ok then offset else old(pos)
    {
      ok := offset >= 0;
      if ok { pos := offset; }
    }

    method SeekCurrent(offset: int) returns (ok: bool)
      modifies `pos
      ensures ok <==> old(pos) + offset >= 0
      ensures pos == if ok then old(pos) + offset else old(pos)
    {
      ok := SeekBegin(pos + offset);
    }

    method SeekEnd(offset: int) returns (ok: bool)
      modifies `pos
      ensures ok <==> |data| + offset >= 0
      ensures pos == if ok then |data| + offset else old(pos)
    {
      ok := SeekBegin(|data| + offset);
    }

    /** A write to a stream opened for truncation or appending: the cursor is at the end. */
    method Write(s: bytes)
      requires pos == |data|
      modifies this
      ensures data == old(data) + s && pos == |data|
    {
      data := data + s;
      pos := pos + |s|;
    }

    method OpenRead()
      modifies `pos
      ensures pos == 0
    {
      pos := 0;
    }

    method OpenAppend()
      modifies `pos
      ensures pos == |data|
    {
      pos := |data|;
    }

    method Truncate(size: nat)
      requires size <= |data|
      modifies this
      ensures data == old(data)[..size] && pos == old(pos)
    {
      data := data[..size];
    }
  }
}
