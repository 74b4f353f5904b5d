/** Random access on top of a stream that can only be read forwards. */
module GcsReader {
  import opened Machine

  datatype Err = Nil | Eof | UnexpectedEof

  /** The bytes of `content` in [from, from + len), as far as they exist. */
  function Slice(content: seq<Byte>, from: nat, len: nat): (s: seq<Byte>)
    ensures |s| <= len
    ensures |s| < len ==> from + |s| >= |content|
    ensures forall i :: 0 <= i < |s| ==> from + i < |content| && s[i] == content[from + i]
  {
    content[Min(from, |content|)..Min(from + len, |content|)]
  }

  lemma SliceSplit(content: seq<Byte>, from: nat, n: nat, len: nat)
    requires from <= |content| && n <= len
    requires from + n <= |content|
    ensures Slice(content, from, len) == Slice(content, from, n) + Slice(content, from + n, len - n)
  {
  }

  /** An open object: reads may be short, and the end may be reported with or after the last bytes. */
  class Stream {
    const content: seq<Byte>
    var pos: nat

    constructor (content: seq<Byte>)
      ensures this.content == content && pos == 0
    {
      this.content, pos := content, 0;
    }

    method Read(len: nat) returns (bytes: seq<Byte>, eof: bool)
      requires pos <= |content| && len > 0
      modifies this
      ensures pos == old(pos) + |bytes| <= |content| && |bytes| <= len
      ensures bytes == Slice(content, old(pos), |bytes|)
      ensures bytes == [] ==> eof
      ensures eof ==> pos == |content|
    {
      if pos == |content| {
        return [], true;
      }
      var n :| 1 <= n <= len && pos + n <= |content|;
      bytes := content[pos..pos + n];
      pos := pos + n;
      eof := *;
      if pos != |content| {
        eof := false;
      }
    }
  }

  /** io.ReadAtLeast into a buffer of exactly `min` bytes. */
  method ReadAtLeast(r: Stream, min: nat) returns (data: seq<Byte>, err: Err)
    requires r.pos <= |r.content|
    modifies r
    ensures r.pos == old(r.pos) + |data| <= |r.content|
    ensures data == Slice(r.content, old(r.pos), min)
    ensures err == if |data| == min then Nil else if data == [] then Eof else UnexpectedEof
  {
    data := [];
    var eof := false;
    while |data| < min && !eof
      invariant r.pos == old(r.pos) + |data| <= |r.content| && |data| <= min
      invariant data == Slice(r.content, old(r.pos), |data|)
      invariant eof ==> r.pos == |r.content|
      decreases min - |data|, !eof
    {
      var more;
      ghost var n := |data|;
      more, eof := r.Read(min - |data|);
      SliceSplit(r.content, old(r.pos), n, n + |more|);
      data := data + more;
    }
    err := if |data| >= min then Nil else if |data| > 0 then UnexpectedEof else Eof;
  }

  class GcsFile {
    const content: seq<Byte>
    var reader: Stream?
    var index: int

    /** The cached index is the position of the open stream. */
    ghost predicate Valid()
      reads this, reader
    {
      && index >= 0
      && (reader != null ==> reader.content == content && reader.pos == index <= |content|)
    }

    constructor (content: seq<Byte>)
      ensures Valid() && this.content == content && reader == null
    {
      this.content, reader, index := content, null, 0;
    }

    /** Where the stream stands once ReadAt has decided whether to open the object again. */
    ghost function Start(offset: int): (i: int)
      reads this
    {
      if reader == null || offset < index then 0 else index
    }

    /** Reads up to `offset`, as far as the stream goes; `ended` when it was at its end before. */
    method Skip(offset: int) returns (ended: bool)
      requires Valid() && reader != null
      modifies this`index, reader
      ensures Valid() && reader == old(reader)
      ensures index == if offset > old(index) then Min(offset, |content|) else old(index)
      ensures ended <==> old(index) == |content| < offset
    {
      ended := false;
      if offset > index {
        var diff, err := ReadAtLeast(reader, offset - index);
        index := index + |diff|;
        ended := err != Nil && err != UnexpectedEof;
      }
    }

    /**
     * Reads `len` bytes at `offset`. A negative offset reads from the beginning. An empty request
     * reports the end only when the skip to its offset finds no byte at all.
     */
    method ReadAt(len: nat, offset: int) returns (data: seq<Byte>, eof: bool)
      requires Valid()
      modifies this, reader
      ensures Valid() && (reader == old(reader) || fresh(reader))
      ensures data == Slice(content, if offset < 0 then 0 else offset, len)
      ensures reader != null && index == Min((if offset < 0 then 0 else offset) + len, |content|)
      ensures len > 0 ==> (eof <==> |data| < len)
      ensures len == 0 ==> (eof <==> old(Start(offset)) == |content| < offset)
    {
      if reader == null || offset < index {
        reader := new Stream(content);
        index := 0;
      }
      var ended := Skip(offset);
      if ended {
        return [], true;
      }
      var err;
      data, err := ReadAtLeast(reader, len);
      index := index + |data|;
      if err == UnexpectedEof {
        err := Eof;
      }
      eof := err == Eof;
    }
  }

  /** The same empty request past the end, twice: only the second time is the end reported. */
  method EmptyRequestTwice(b: Byte) returns (first: bool, second: bool)
    ensures !first && second
  {
    var file := new GcsFile([b]);
    var data;
    data, first := file.ReadAt(0, 5);
    data, second := file.ReadAt(0, 5);
  }
}
