/**
 * The system calls bl2.c makes on its two open regular files.  A file is its
 * contents and the offset of the descriptor open on it.  A call may fail
 * (returning -1 and changing nothing); a successful read or write may move
 * fewer bytes than asked, but at least one unless the read is at end of file.
 */
module Posix {
  import opened Bytes

  class File {
    var data: seq<Byte>
    var pos: nat

    constructor (contents: seq<Byte>)
      ensures data == contents && pos == 0
    {
      data := contents;
      pos := 0;
    }

    /** Bytes between the offset and the end of the file. */
    function Avail(): nat
      reads this
    {
      if pos <= |data| then |data| - pos else 0
    }

    /** lseek(fd, off, SEEK_SET); on a regular file it cannot fail. */
    method Seek(off: nat)
      modifies this`pos
      ensures pos == off
    {
      pos := off;
    }

    /** lseek(fd, 0, SEEK_END): the size of the file. */
    method SeekEnd() returns (off: nat)
      modifies this`pos
      ensures off == |data| && pos == |data|
    {
      pos := |data|;
      off := pos;
    }

    /** read(fd, buf + at, n) */
    method Read(buf: array<Byte>, at: nat, n: nat) returns (nr: int)
      requires at + n <= buf.Length
      modifies this`pos, buf
      ensures nr == -1 ==> pos == old(pos) && buf[..] == old(buf[..])
      ensures nr != -1 ==> 0 <= nr <= n && nr <= old(Avail()) && pos == old(pos) + nr
      ensures nr != -1 && 0 < n && 0 < old(Avail()) ==> 0 < nr
      ensures nr > 0 ==> buf[at..at + nr] == data[old(pos)..old(pos) + nr]
      ensures nr != -1 ==> buf[..at] == old(buf[..at]) && buf[at + nr..] == old(buf[at + nr..])
    {
      var fails: bool :| true;
      if fails {
        nr := -1;
        return;
      }
      assert Min(n, Avail()) <= n;
      var k: nat :| k <= n && k <= Avail() && (0 < n && 0 < Avail() ==> 0 < k);
      forall j | 0 <= j < k {
        buf[at + j] := data[pos + j];
      }
      if k > 0 {
        assert buf[at..at + k] == data[pos..pos + k];
      }
      assert buf[..at] == old(buf[..at]) && buf[at + k..] == old(buf[at + k..]);
      pos := pos + k;
      nr := k;
    }

    /** write(fd, buf, |buf|) */
    method Write(buf: seq<Byte>) returns (nr: int)
      modifies this
      ensures nr == -1 ==> data == old(data) && pos == old(pos)
      ensures nr != -1 ==> 0 <= nr <= |buf| && pos == old(pos) + nr
      ensures nr != -1 ==> data == Splice(old(data), old(pos), buf[..nr])
      ensures nr != -1 && 0 < |buf| ==> 0 < nr
    {
      var fails: bool :| true;
      if fails {
        nr := -1;
        return;
      }
      var k: nat :| k <= |buf| && (0 < |buf| ==> 0 < k);
      data := Splice(data, pos, buf[..k]);
      pos := pos + k;
      nr := k;
    }

    /** ftruncate(fd, len); the offset is left where it was. */
    method Truncate(len: nat) returns (ret: int)
      modifies this`data
      ensures ret == -1 || ret == 0
      ensures ret == -1 ==> data == old(data)
      ensures ret == 0 ==> data == Resize(old(data), len)
    {
      var fails: bool :| true;
      if fails {
        ret := -1;
      } else {
        data := Resize(data, len);
        ret := 0;
      }
    }
  }
}
