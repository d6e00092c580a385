/** What a chain of pieces denotes. */
module Extents {

  // The addresses of its bytes, and the bytes found there: a chain is a run-length encoding of
  // a sequence of addresses, and the document is what memory holds at those addresses.  No
  // address occurs twice in a chain, which is why a raw address can serve as a mark.

  import opened Bytes
  import opened History

  /** The part of a Piece that says which bytes it covers. */
  datatype Extent = Extent(data: Ptr, len: nat)
  type ExtentMap = map<Piece, Extent>

  /** The used part of every block. */
  type Memory = seq<seq<byte>>

  function Cells(e: Extent): (r: seq<Ptr>)
    ensures forall i :: 0 <= i < |r| ==> e.data.At? && r[i] == At(e.data.blk, e.data.off + i)
  {
    if e.data.At? then seq(e.len, i requires 0 <= i < e.len => At(e.data.blk, e.data.off + i)) else []
  }

  lemma CellsLength(e: Extent)
    ensures e.data.At? ==> |Cells(e)| == e.len
  {
  }

  function ExtentOf(ext: ExtentMap, p: Piece): Extent {
    if p in ext then ext[p] else Extent(Null, 0)
  }

  /** The addresses of the bytes of a chain, in document order. */
  function Addrs(ch: seq<Piece>, ext: ExtentMap): seq<Ptr> {
    if ch == [] then [] else Cells(ExtentOf(ext, ch[0])) + Addrs(ch[1..], ext)
  }

  function Read(mem: Memory, a: Ptr): byte {
    if a.At? && a.blk < |mem| && a.off < |mem[a.blk]| then mem[a.blk][a.off] else 0
  }

  function Fetch(addrs: seq<Ptr>, mem: Memory): seq<byte> {
    seq(|addrs|, i requires 0 <= i < |addrs| => Read(mem, addrs[i]))
  }

  ghost predicate InBounds(e: Extent, mem: Memory) {
    if e.data.At? then e.data.blk < |mem| && e.data.off + e.len <= |mem[e.data.blk]| else e.len == 0
  }

  lemma {:induction false} AddrsConcat(a: seq<Piece>, b: seq<Piece>, ext: ExtentMap)
    ensures Addrs(a + b, ext) == Addrs(a, ext) + Addrs(b, ext)
  {
    if a == [] {
      assert a + b == b;
    } else {
      assert (a + b)[1..] == a[1..] + b;
      AddrsConcat(a[1..], b, ext);
    }
  }

  lemma AddrsOne(p: Piece, ext: ExtentMap)
    ensures Addrs([p], ext) == Cells(ExtentOf(ext, p))
  {
    assert Addrs([p], ext) == Cells(ExtentOf(ext, p)) + Addrs([p][1..], ext);
  }

  lemma AddrsNone(ext: ExtentMap)
    ensures Addrs([], ext) == []
  {
  }

  lemma AddrsOneLength(p: Piece, ext: ExtentMap, mem: Memory)
    requires p in ext && InBounds(ext[p], mem)
    ensures |Addrs([p], ext)| == |Cells(ext[p])| == ext[p].len
  {
    AddrsOne(p, ext);
  }

  /** A chain cut in three around the stretch `[i..j]`. */
  lemma AddrsSplit(ch: seq<Piece>, i: nat, j: nat, ext: ExtentMap)
    requires i <= j <= |ch|
    ensures Addrs(ch, ext) == Addrs(ch[..i], ext) + Addrs(ch[i..j], ext) + Addrs(ch[j..], ext)
  {
    assert ch == ch[..i] + ch[i..j] + ch[j..];
    AddrsConcat(ch[..i] + ch[i..j], ch[j..], ext);
    AddrsConcat(ch[..i], ch[i..j], ext);
  }

  /** One more piece. */
  lemma AddrsStep(ch: seq<Piece>, i: nat, ext: ExtentMap)
    requires i < |ch|
    ensures Addrs(ch[..i + 1], ext) == Addrs(ch[..i], ext) + Cells(ExtentOf(ext, ch[i]))
  {
    assert ch[..i + 1] == ch[..i] + [ch[i]];
    AddrsConcat(ch[..i], [ch[i]], ext);
    AddrsOne(ch[i], ext);
  }

  lemma {:induction false} AddrsFrame(ch: seq<Piece>, ext: ExtentMap, ext': ExtentMap)
    requires forall p :: p in ch ==> ExtentOf(ext, p) == ExtentOf(ext', p)
    ensures Addrs(ch, ext) == Addrs(ch, ext')
  {
    if ch != [] { AddrsFrame(ch[1..], ext, ext'); }
  }

  /** Every address comes from some piece of the chain. */
  lemma {:induction false} AddrsFrom(ch: seq<Piece>, ext: ExtentMap, k: nat) returns (i: nat)
    requires k < |Addrs(ch, ext)|
    ensures i < |ch| && Addrs(ch, ext)[k] in Cells(ExtentOf(ext, ch[i]))
    ensures |Addrs(ch[..i], ext)| <= k < |Addrs(ch[..i + 1], ext)|
  {
    var c := Cells(ExtentOf(ext, ch[0]));
    if k < |c| {
      i := 0;
      AddrsOne(ch[0], ext);
      assert ch[..1] == [ch[0]];
    } else {
      var j := AddrsFrom(ch[1..], ext, k - |c|);
      i := j + 1;
      assert ch[..i] == [ch[0]] + ch[1..][..j] && ch[..i + 1] == [ch[0]] + ch[1..][..j + 1];
      AddrsConcat([ch[0]], ch[1..][..j], ext);
      AddrsConcat([ch[0]], ch[1..][..j + 1], ext);
      AddrsOne(ch[0], ext);
    }
  }

  lemma BytesConcat(a: seq<Ptr>, b: seq<Ptr>, mem: Memory)
    ensures Fetch(a + b, mem) == Fetch(a, mem) + Fetch(b, mem)
  {
  }

  lemma BytesFrame(addrs: seq<Ptr>, mem: Memory, mem': Memory)
    requires forall a :: a in addrs ==> Read(mem, a) == Read(mem', a)
    ensures Fetch(addrs, mem) == Fetch(addrs, mem')
  {
  }

  /** The bytes of one piece are a slice of its block. */
  lemma BytesOfCells(e: Extent, mem: Memory)
    requires InBounds(e, mem) && e.data.At?
    ensures Fetch(Cells(e), mem) == mem[e.data.blk][e.data.off..e.data.off + e.len]
  {
  }

  /** The bytes up to and including a piece are among the bytes of the chain. */
  lemma PrefixFits(ch: seq<Piece>, k: nat, ext: ExtentMap)
    requires k < |ch|
    ensures |Addrs(ch[..k], ext)| + |Cells(ExtentOf(ext, ch[k]))| <= |Addrs(ch, ext)|
  {
    assert ch[k..k + 1] == [ch[k]];
    AddrsSplit(ch, k, k + 1, ext);
    AddrsOne(ch[k], ext);
  }
}
