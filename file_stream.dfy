/** An opened file stream (FILE*): its contents and its position, with the
    three operations the codec uses (fseek, fread and fwrite). */
module FileStream {
  import opened ByteOrder

  /** n zero bytes. */
  function Zeros(n: nat): (r: seq<byte>)
    ensures |r| == n
    ensures forall i :: 0 <= i < n ==> r[i] == 0
  {
    seq(n, _ => 0)
  }

  /** The contents after writing data at position pos. A write that starts
      past the end leaves zeros in the gap; writing nothing changes nothing. */
  function Overwrite(s: seq<byte>, pos: nat, data: seq<byte>): seq<byte>
  {
    if data == [] then s
    else
      (if pos <= |s| then s[..pos] else s + Zeros(pos - |s|))
      + data
      + (if pos + |data| <= |s| then s[pos + |data|..] else [])
  }

  /** What a write does: the stream grows to cover the block, the block
      lands at pos, and every other byte is the old one or a gap zero. */
  lemma OverwriteEffect(s: seq<byte>, pos: nat, data: seq<byte>)
    ensures data != [] ==> |Overwrite(s, pos, data)| == if pos + |data| <= |s| then |s| else pos + |data|
    ensures data != [] ==> Overwrite(s, pos, data)[pos..pos + |data|] == data
    ensures forall i :: 0 <= i < |Overwrite(s, pos, data)| && (i < pos || pos + |data| <= i) ==>
              Overwrite(s, pos, data)[i] == if i < |s| then s[i] else 0
  {
  }

  /** Two writes back to back are one write of both. */
  lemma OverwriteConsecutive(s: seq<byte>, pos: nat, a: seq<byte>, b: seq<byte>)
    ensures Overwrite(Overwrite(s, pos, a), pos + |a|, b) == Overwrite(s, pos, a + b)
  {
    if a != [] && b != [] {
      OverwriteEffect(s, pos, a);
      OverwriteEffect(Overwrite(s, pos, a), pos + |a|, b);
      OverwriteEffect(s, pos, a + b);
      var lhs, rhs := Overwrite(Overwrite(s, pos, a), pos + |a|, b), Overwrite(s, pos, a + b);
      assert |lhs| == |rhs|;
      forall i | 0 <= i < |lhs| ensures lhs[i] == rhs[i] {
        if i < pos {
        } else if i < pos + |a| {
          assert lhs[i] == Overwrite(s, pos, a)[i];
          assert Overwrite(s, pos, a)[pos..pos + |a|][i - pos] == a[i - pos];
          assert rhs[pos..pos + |a| + |b|][i - pos] == (a + b)[i - pos];
        } else if i < pos + |a| + |b| {
          assert lhs[pos + |a|..pos + |a| + |b|][i - pos - |a|] == b[i - pos - |a|];
          assert rhs[pos..pos + |a| + |b|][i - pos] == (a + b)[i - pos];
        }
      }
    }
  }

  /** Writing a block at 0 and the next block right after it on an empty
      stream leaves exactly the two blocks. */
  lemma OverwriteEmpty(a: seq<byte>, b: seq<byte>)
    ensures Overwrite(Overwrite([], 0, a), |a|, b) == a + b
  {
    OverwriteConsecutive([], 0, a, b);
  }

  class Stream {
    var content: seq<byte>
    var pos: nat

    constructor (content: seq<byte>)
      ensures this.content == content && pos == 0
    {
      this.content := content;
      pos := 0;
    }

    /** fseek to an absolute position (SEEK_SET; SEEK_CUR is Seek(pos + n)). */
    method Seek(p: nat)
      modifies this
      ensures content == old(content) && pos == p
    {
      pos := p;
    }

    /** fread of n bytes that are all present. */
    method Read(n: nat) returns (bytes: seq<byte>)
      requires pos + n <= |content|
      modifies this
      ensures content == old(content) && pos == old(pos) + n
      ensures bytes == content[old(pos)..old(pos) + n]
    {
      bytes := content[pos..pos + n];
      pos := pos + n;
    }

    /** fwrite of the given bytes at the current position. */
    method Write(data: seq<byte>)
      modifies this
      ensures content == Overwrite(old(content), old(pos), data)
      ensures pos == old(pos) + |data|
    {
      content := Overwrite(content, pos, data);
      pos := pos + |data|;
    }
  }
}
