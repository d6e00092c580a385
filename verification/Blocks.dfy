/** The append-only buffers that hold file content and everything typed since. */
module Blocks {
  import opened Bytes

  const BLOCK_SIZE: nat := 0x10_0000

  /** A Block.  `data.Length` is its capacity, `len` the part in use. */
  class Block {
    const data: array<byte>
    var len: nat

    ghost predicate Valid()
      reads this`len
    {
      len <= data.Length
    }

    ghost function Contents(): (s: seq<byte>)
      requires Valid()
      reads this`len, data
    {
      data[..len]
    }

    /** `block_alloc`: room for at least `size` bytes. */
    constructor (size: nat)
      ensures Valid() && fresh(data) && Contents() == []
      ensures data.Length == if size < BLOCK_SIZE then BLOCK_SIZE else size
    {
      data := new byte[if BLOCK_SIZE > size then BLOCK_SIZE else size];
      len := 0;
    }

    /** `block_read` or `block_mmap`: a file's content; a mapped block has no spare room. */
    constructor Load(content: seq<byte>, mapped: bool)
      ensures Valid() && fresh(data) && Contents() == content
      ensures data.Length == if mapped || |content| >= BLOCK_SIZE then |content| else BLOCK_SIZE
    {
      var n := |content|;
      var size := if mapped || n >= BLOCK_SIZE then n else BLOCK_SIZE;
      var d := new byte[size];
      forall i | 0 <= i < n { d[i] := content[i]; }
      data := d;
      len := n;
      new;
      assert data[..len] == content;
    }

    predicate Capacity(n: nat): (room: bool)
      reads this`len
      ensures room <==> len + n <= data.Length
    {
      data.Length - len >= n
    }

    method Append(bytes: seq<byte>) returns (off: nat)
      requires Valid() && Capacity(|bytes|)
      modifies this`len, data
      ensures Valid() && off == old(len)
      ensures Contents() == old(Contents()) + bytes
    {
      off := len;
      forall i | 0 <= i < |bytes| { data[len + i] := bytes[i]; }
      len := len + |bytes|;
      assert Contents() == old(Contents()) + bytes;
    }

    /** `block_insert`: open a gap at `pos` and fill it, if there is room. */
    method Insert(pos: nat, bytes: seq<byte>) returns (ok: bool)
      requires Valid()
      modifies this`len, data
      ensures Valid() && ok == (pos <= old(len) && old(len) + |bytes| <= data.Length)
      ensures ok ==> Contents() == Inserted(old(Contents()), pos, bytes)
      ensures !ok ==> unchanged(this) && unchanged(data)
    {
      hide Inserted;
      if pos > len || !Capacity(|bytes|) { return false; }
      if len == pos {
        var _ := Append(bytes);
        InsertedLast(old(Contents()), bytes);
        return true;
      }
      var n := |bytes|;
      forall i | pos <= i < len { data[i + n] := data[i]; }
      forall i | 0 <= i < n { data[pos + i] := bytes[i]; }
      len := len + n;
      InsertedIs(old(Contents()), pos, bytes, Contents());
      return true;
    }

    /** `block_delete`: close the gap `[pos..pos+n]`. */
    method Delete(pos: nat, n: nat) returns (ok: bool)
      requires Valid()
      modifies this`len, data
      ensures Valid() && ok == (pos + n <= old(len))
      ensures ok ==> Contents() == Removed(old(Contents()), pos, n)
      ensures !ok ==> unchanged(this) && unchanged(data)
    {
      if pos + n > len { return false; }
      if len == pos {
        len := len - n;
        return true;
      }
      forall i | pos + n <= i < len { data[i - n] := data[i]; }
      len := len - n;
      assert Contents() == Removed(old(Contents()), pos, n);
      return true;
    }
  }

  lemma InsertedLast(s: seq<byte>, bytes: seq<byte>)
    ensures Inserted(s, |s|, bytes) == s + bytes
  {
  }

  lemma InsertedIs(s: seq<byte>, pos: nat, bytes: seq<byte>, r: seq<byte>)
    requires pos <= |s| && |r| == |s| + |bytes|
    requires forall i :: 0 <= i < pos ==> r[i] == s[i]
    requires forall i :: 0 <= i < |bytes| ==> r[pos + i] == bytes[i]
    requires forall i :: pos <= i < |s| ==> r[i + |bytes|] == s[i]
    ensures r == Inserted(s, pos, bytes)
  {
    forall i | 0 <= i < |r| ensures r[i] == Inserted(s, pos, bytes)[i] {
      if pos <= i < pos + |bytes| { assert r[pos + (i - pos)] == bytes[i - pos]; }
      if i >= pos + |bytes| { assert r[i - |bytes| + |bytes|] == s[i - |bytes|]; }
    }
  }

  /** The blocks hold exactly the bytes `mem`. */
  ghost predicate Hold(bs: seq<Block>, mem: seq<seq<byte>>)
    reads bs`len, set b | b in bs :: b.data
  {
    && |mem| == |bs|
    && forall i :: 0 <= i < |bs| ==> bs[i].Valid() && bs[i].Contents() == mem[i]
  }
}
