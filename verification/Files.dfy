/** A table of open regular files, each with its contents and its file position. */
module Files {
  import opened Arithmetic

  newtype byte = x: int | 0 <= x < 256

  /** What read(2) delivers at a position: short at the end of the file. */
  function ReadAt(c: seq<byte>, pos: nat, len: nat): (r: seq<byte>)
    ensures |r| <= len
    ensures |r| == len <==> len == 0 || pos + len <= |c|
    ensures forall i :: 0 <= i < |r| ==> pos + i < |c| && r[i] == c[pos + i]
  {
    if pos >= |c| then [] else c[pos..Min(pos + len, |c|)]
  }

  function Zeros(n: nat): (r: seq<byte>)
    ensures |r| == n && forall i :: 0 <= i < n ==> r[i] == 0
  {
    seq(n, _ => 0)
  }

  /** The contents after writing data at a position; a gap before it reads as zeros. */
  function Splice(c: seq<byte>, pos: nat, data: seq<byte>): (r: seq<byte>)
    ensures data == [] ==> r == c
    ensures data != [] ==> |r| == if pos + |data| > |c| then pos + |data| else |c|
    ensures forall x :: pos <= x < pos + |data| ==> r[x] == data[x - pos]
    ensures forall i :: 0 <= i < |c| && !(pos <= i < pos + |data|) ==> r[i] == c[i]
    ensures data != [] ==> forall i :: |c| <= i < pos ==> r[i] == 0
  {
    if data == [] then c
    else
      var head := if pos <= |c| then c[..pos] else c + Zeros(pos - |c|);
      var tail := if pos + |data| <= |c| then c[pos + |data|..] else [];
      head + data + tail
  }

  class FileTable {
    var contents: seq<seq<byte>>
    var offset: seq<nat>
    const limit: nat   // no file grows beyond this size; writes past it are short

    ghost predicate Valid()
      reads this
    {
      |contents| == |offset|
    }

    constructor (contents: seq<seq<byte>>, limit: nat)
      ensures Valid() && this.contents == contents && this.limit == limit
      ensures forall i :: 0 <= i < |contents| ==> offset[i] == 0
    {
      this.contents := contents;
      this.offset := seq(|contents|, _ => 0);
      this.limit := limit;
    }

    /** llseek(fd, a, SEEK_SET) */
    method Seek(fd: nat, a: nat)
      requires Valid() && fd < |contents|
      modifies this`offset
      ensures Valid() && offset == old(offset)[fd := a]
    {
      offset := offset[fd := a];
    }

    /** read(fd, buf, len) */
    method Read(fd: nat, len: nat) returns (data: seq<byte>)
      requires Valid() && fd < |contents|
      modifies this`offset
      ensures Valid()
      ensures data == ReadAt(contents[fd], old(offset[fd]), len)
      ensures offset == old(offset)[fd := old(offset[fd]) + |data|]
    {
      data := ReadAt(contents[fd], offset[fd], len);
      offset := offset[fd := offset[fd] + |data|];
    }

    /** write(fd, data, |data|): what fits below the limit */
    method Write(fd: nat, data: seq<byte>) returns (n: nat)
      requires Valid() && fd < |contents|
      modifies this
      ensures Valid() && n == Fitting(limit, old(offset[fd]), |data|)
      ensures contents == old(contents)[fd := Splice(old(contents[fd]), old(offset[fd]), data[..n])]
      ensures n == |data| ==> contents == old(contents)[fd := Splice(old(contents[fd]), old(offset[fd]), data)]
      ensures offset == old(offset)[fd := old(offset[fd]) + n]
    {
      n := Fitting(limit, offset[fd], |data|);
      contents := contents[fd := Splice(contents[fd], offset[fd], data[..n])];
      offset := offset[fd := offset[fd] + n];
      assert n == |data| ==> data[..n] == data;
    }
  }

  /** How many of len bytes written at pos stay below the limit. */
  function Fitting(limit: nat, pos: nat, len: nat): (n: nat)
    ensures n <= len
    ensures n == len <==> len == 0 || pos + len <= limit
  {
    if pos >= limit then 0 else Min(len, limit - pos)
  }
}
