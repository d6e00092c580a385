/** Iterators: a position in the document as a pointer into a piece. */
module Iterators {
  import opened Bytes
  import opened History
  import opened Extents
  import opened Store
  import opened PieceChain

  /** Pointer arithmetic on `const char *`; NULL stays NULL. */
  function Plus(p: Ptr, n: nat): Ptr {
    if p.At? then At(p.blk, p.off + n) else p
  }

  function Minus(p: Ptr, q: Ptr): nat {
    if p.At? && q.At? && p.off >= q.off then p.off - q.off else 0
  }

  // ----- what a store shows -----

  /** The bytes of the document. */
  ghost function Content(s: Store): (r: seq<byte>)
    requires s.at < |s.vs|
  {
    Fetch(Addrs(s.vs[s.at].chain, s.ext), s.mem)
  }

  /** Where piece number `k` starts. */
  ghost function Offset(s: Store, k: nat): nat
    requires s.at < |s.vs| && k <= |s.vs[s.at].chain|
  {
    |Addrs(s.vs[s.at].chain[..k], s.ext)|
  }

  ghost function PieceAt(s: Store, k: nat): Extent
    requires s.at < |s.vs| && k < |s.vs[s.at].chain|
  {
    ExtentOf(s.ext, s.vs[s.at].chain[k])
  }

  /** The byte at `pos` as an iterator sees it. */
  function Peek(s: seq<byte>, pos: nat): byte {
    if pos < |s| then s[pos] else NUL
  }

  ghost predicate Stored(mem: Memory, p: Ptr) {
    p.At? && p.blk < |mem| && p.off < |mem[p.blk]|
  }

  /** Byte `i` of piece number `k` is byte `Offset(s, k) + i` of the document. */
  lemma ByteOfPiece(s: Store, k: nat, i: nat)
    requires StoreInv(s) && s.at < |s.vs| && k < |s.vs[s.at].chain| && i < PieceAt(s, k).len
    ensures Offset(s, k) + i < |Content(s)| == s.size && Stored(s.mem, Plus(PieceAt(s, k).data, i))
    ensures Content(s)[Offset(s, k) + i] == Read(s.mem, Plus(PieceAt(s, k).data, i))
  {
    hide Addrs, NoDup, LinkInv, SpanIs, GoodVersion, Tree;
    var ch, e := s.vs[s.at].chain, PieceAt(s, k);
    assert ChainAt(s, s.at) && ch[k] in ch;
    AddrsSplit(ch, k, k + 1, s.ext);
    assert ch[k..k + 1] == [ch[k]];
    AddrsOne(ch[k], s.ext);
    CellsLength(e);
    assert Addrs(ch, s.ext)[Offset(s, k) + i] == Cells(e)[i];
  }

  /** One piece on. */
  lemma NextOffset(s: Store, k: nat)
    requires StoreInv(s) && s.at < |s.vs| && k < |s.vs[s.at].chain|
    ensures Offset(s, k + 1) == Offset(s, k) + PieceAt(s, k).len
    ensures Offset(s, 0) == 0 && Offset(s, |s.vs[s.at].chain|) == s.size == |Content(s)|
    ensures Offset(s, k + 1) <= s.size
    ensures !PieceAt(s, k).data.At? ==> PieceAt(s, k).len == 0
  {
    hide NoDup, LinkInv, SpanIs, GoodVersion, Tree;
    var ch := s.vs[s.at].chain;
    assert ChainAt(s, s.at) && ch[k] in ch;
    AddrsStep(ch, k, s.ext);
    PrefixFits(ch, k, s.ext);
    assert ch[..|ch|] == ch;
  }

  /** Both ends of the chain are empty. */
  lemma Sentinels(s: Store)
    requires StoreInv(s) && s.at < |s.vs|
    ensures |s.vs[s.at].chain| >= 2
    ensures PieceAt(s, 0) == Extent(Null, 0) == PieceAt(s, |s.vs[s.at].chain| - 1)
    ensures Offset(s, 0) == Offset(s, 1) == 0 && Offset(s, |s.vs[s.at].chain| - 1) == s.size
  {
    hide NoDup, LinkInv, SpanIs, GoodVersion, Tree;
    assert ChainAt(s, s.at);
    NextOffset(s, 0);
    NextOffset(s, |s.vs[s.at].chain| - 1);
  }

  /** The `n` bytes at address `p` are those of the document from `pos` on. */
  ghost predicate Shows(s: Store, p: Ptr, pos: nat, n: nat)
    requires s.at < |s.vs|
  {
    && pos + n <= |Content(s)|
    && (forall i :: 0 <= i < n ==> Stored(s.mem, Plus(p, i)) && Read(s.mem, Plus(p, i)) == Content(s)[pos + i])
    && (forall j :: pos <= j < pos + n ==> Content(s)[j] == Read(s.mem, Plus(p, j - pos)))
  }

  /** The bytes of piece number `k` from its byte `o` on. */
  lemma BytesFrom(s: Store, k: nat, o: nat)
    requires StoreInv(s) && s.at < |s.vs| && k < |s.vs[s.at].chain| && o <= PieceAt(s, k).len
    ensures |Content(s)| == s.size
    ensures Shows(s, Plus(PieceAt(s, k).data, o), Offset(s, k) + o, PieceAt(s, k).len - o)
  {
    hide StoreInv, Addrs, Offset, Content;
    NextOffset(s, k);
    var p, pos, n := Plus(PieceAt(s, k).data, o), Offset(s, k) + o, PieceAt(s, k).len - o;
    forall i | 0 <= i < n
      ensures Stored(s.mem, Plus(p, i)) && Read(s.mem, Plus(p, i)) == Content(s)[pos + i]
    {
      ByteOfPiece(s, k, o + i);
    }
    forall j | pos <= j < pos + n ensures Content(s)[j] == Read(s.mem, Plus(p, j - pos)) {
      ByteOfPiece(s, k, o + j - pos);
    }
  }

  // ----- reading memory -----

  lemma BlockIs(t: Text, b: nat)
    requires t.Represents() && b < |t.st.mem|
    ensures b < |t.blocks| && t.blocks[b].Valid() && t.blocks[b].Contents() == t.st.mem[b]
  {
  }

  /** `*p`. */
  method Load(t: Text, p: Ptr) returns (b: byte)
    requires t.Represents() && Stored(t.st.mem, p)
    ensures b == Read(t.st.mem, p)
  {
    hide Text.Represents;
    BlockIs(t, p.blk);
    b := t.blocks[p.blk].data[p.off];
  }

  /** `memory_scan_forward`: the first of `n` bytes at `p` that is `b`. */
  method ScanForward(t: Text, p: Ptr, b: byte, n: nat) returns (m: Option<nat>)
    requires t.Represents() && forall i :: 0 <= i < n ==> Stored(t.st.mem, Plus(p, i))
    ensures m.Some? ==> m.value < n && Read(t.st.mem, Plus(p, m.value)) == b
    ensures forall i :: 0 <= i < (if m.Some? then m.value else n) ==> Read(t.st.mem, Plus(p, i)) != b
  {
    hide Text.Represents, Read;
    var s := 0;
    while s < n
      invariant s <= n && forall i :: 0 <= i < s ==> Read(t.st.mem, Plus(p, i)) != b
    {
      var c := Load(t, Plus(p, s));
      if c == b { return Some(s); }
      s := s + 1;
    }
    m := None;
  }

  /** `memory_scan_reverse`: the last of `n` bytes at `p` that is `b`. */
  method ScanReverse(t: Text, p: Ptr, b: byte, n: nat) returns (m: Option<nat>)
    requires t.Represents() && forall i :: 0 <= i < n ==> Stored(t.st.mem, Plus(p, i))
    ensures m.Some? ==> m.value < n && Read(t.st.mem, Plus(p, m.value)) == b
    ensures forall i :: (if m.Some? then m.value + 1 else 0) <= i < n ==> Read(t.st.mem, Plus(p, i)) != b
  {
    hide Text.Represents, Read;
    var s: nat := n;
    while s > 0
      invariant s <= n && forall i: nat :: s <= i < n ==> Read(t.st.mem, Plus(p, i)) != b
    {
      s := s - 1;
      var c := Load(t, Plus(p, s));
      if c == b { return Some(s); }
    }
    m := None;
  }

  /** `piece_get_extern`: the piece holding the byte at `pos`; at the end, the last piece. */
  method PieceGetExtern(t: Text, pos: nat) returns (p: Piece?, off: nat, ghost k: nat)
    requires t.Represents() && StoreInv(t.st)
    ensures t.st.at < |t.st.vs| && |t.Chain()| >= 2
    ensures p == null <==> pos > t.size
    ensures p != null ==>
            k < |t.Chain()| - 1 && p == t.Chain()[k] && pos == Offset(t.st, k) + off && off <= PieceAt(t.st, k).len
    ensures pos < t.size ==> k > 0 && off < PieceAt(t.st, k).len
    ensures pos == t.size ==> k == |t.Chain()| - 2
  {
    hide Text.Represents, StoreInv, Addrs, Offset;
    t.ChainIs(0);
    Sentinels(t.st);
    var cur := 0;
    p := t.begin.next;
    k := 1;
    t.ChainIs(1);
    while p.next != null
      invariant 1 <= k < |t.Chain()| && p == t.Chain()[k] && (p.next == null <==> k == |t.Chain()| - 1)
      invariant p.prev == t.Chain()[k - 1] && t.st.ext.Keys == t.pieces
      invariant cur == Offset(t.st, k) <= pos
      decreases |t.Chain()| - k
    {
      t.ChainIs(k);
      NextOffset(t.st, k);
      if cur <= pos < cur + p.len { return p, pos - cur, k; }
      cur := cur + p.len;
      p := p.next;
      k := k + 1;
      t.ChainIs(k);
    }
    t.SizeIs();
    t.ChainIs(k - 1);
    NextOffset(t.st, k - 1);
    if cur == pos { return p.prev, p.prev.len, k - 1; }
    return null, 0, 0;
  }

  // ----- iterators -----

  /** An Iterator.  `start`, `end` and `text` delimit the data of `piece`; `k` and `off` say
      which piece of the chain that is, and how far into it `text` points. */
  class Iterator {
    var start: Ptr
    var end: Ptr
    var text: Ptr
    var piece: Piece?
    var pos: nat
    ghost var k: nat
    ghost var off: nat

    /** The fields agree with each other and with the chain. */
    ghost predicate On(s: Store)
      reads this
    {
      && s.at < |s.vs| && k < |s.vs[s.at].chain| && piece == s.vs[s.at].chain[k]
      && off <= PieceAt(s, k).len
      && start == PieceAt(s, k).data && text == Plus(start, off) && end == Plus(start, PieceAt(s, k).len)
      && pos == Offset(s, k) + off
    }

    /** On a piece with data. */
    ghost predicate Inside(s: Store)
      reads this
    {
      On(s) && 0 < k < |s.vs[s.at].chain| - 1
    }

    /** Pointing at a byte, or at the end of the document. */
    ghost predicate Settled(s: Store)
      reads this
    {
      Inside(s) && (off < PieceAt(s, k).len || pos == s.size)
    }

    /** On the sentinel before, or behind, the document. */
    ghost predicate Front(s: Store)
      reads this
    {
      On(s) && k == 0
    }

    ghost predicate Back(s: Store)
      reads this
    {
      On(s) && k == |s.vs[s.at].chain| - 1
    }

    /** `text_iterator_get`. */
    constructor (t: Text, pos: nat)
      requires t.Represents() && StoreInv(t.st)
      ensures this.pos == pos && (piece == null <==> pos > t.size)
      ensures pos < t.size || (pos == t.size > 0) ==> Settled(t.st)
      ensures pos == t.size ==> On(t.st) && k == |t.Chain()| - 2
      ensures pos > t.size ==> text == Null
      ensures pos <= t.size ==> On(t.st) && (Valid() <==> k > 0) && k < |t.Chain()| - 1
      ensures pos <= t.size && k == 0 ==> t.size == 0
      ensures pos <= t.size ==> Settled(t.st) || Front(t.st)
      ensures t.st.at < |t.st.vs| && |Content(t.st)| == t.size
    {
      hide Text.Represents, StoreInv, Addrs, Offset, Content;
      new;
      var p, o; ghost var i;
      p, o, i := PieceGetExtern(t, pos);
      NextOffset(t.st, 0);
      Sentinels(t.st);
      t.SizeIs();
      t.ChainIs(i);
      k, off := i, o;
      var _ := Init(pos, p, o);
    }

    /** `Iterator sit = it`. */
    constructor Copy(it: Iterator)
      ensures start == it.start && end == it.end && text == it.text && piece == it.piece
      ensures pos == it.pos && k == it.k && off == it.off
    {
      start, end, text, piece, pos := it.start, it.end, it.text, it.piece, it.pos;
      k, off := it.k, it.off;
    }

    /** `*this = it`. */
    method Assign(it: Iterator)
      modifies this
      ensures start == it.start && end == it.end && text == it.text && piece == it.piece
      ensures pos == it.pos && k == it.k && off == it.off
    {
      start, end, text, piece, pos := it.start, it.end, it.text, it.piece, it.pos;
      k, off := it.k, it.off;
    }

    /** `iterator_init`. */
    method Init(pos: nat, p: Piece?, off: nat) returns (valid: bool)
      modifies this`start, this`end, this`text, this`piece, this`pos
      ensures piece == p && this.pos == pos && (valid <==> p != null && !p.sentinel)
      ensures p == null ==> start == end == text == Null
      ensures p != null ==> start == p.data && end == Plus(p.data, p.len) && text == Plus(p.data, off)
    {
      piece, this.pos := p, pos;
      start := if p != null then p.data else Null;
      end := if p != null then Plus(p.data, p.len) else Null;
      text := if p != null then Plus(p.data, off) else Null;
      valid := Valid();
    }

    /** `text_iterator_valid`. */
    predicate Valid()
      reads this
    {
      piece != null && !piece.sentinel
    }

    /** `text_iterator_next`: the start of the next piece. */
    method Next(t: Text) returns (valid: bool)
      requires t.Represents() && StoreInv(t.st) && this !in t.repr && On(t.st)
      modifies this
      ensures !old(Back(t.st)) ==> On(t.st) && k == old(k) + 1 && off == 0 && (valid <==> k < |t.Chain()| - 1)
      ensures old(Back(t.st)) ==> piece == null && text == Null && pos == t.size && !valid
      ensures pos == old(pos + PieceAt(t.st, k).len - off) && pos <= t.size && (Valid() <==> valid)
    {
      hide Text.Represents, StoreInv, Addrs, Offset, Cells, Fetch;
      t.ChainIs(k);
      t.ChainIs(k + 1);
      t.SizeIs();
      NextOffset(t.st, k);
      Sentinels(t.st);
      var rem := Minus(end, text);
      assert rem == PieceAt(t.st, k).len - off;
      k, off := k + 1, 0;
      valid := Init(pos + rem, if piece != null then piece.next else null, 0);
    }

    /** `text_iterator_prev`: the end of the previous piece. */
    method Prev(t: Text) returns (valid: bool)
      requires t.Represents() && StoreInv(t.st) && this !in t.repr && On(t.st)
      modifies this
      ensures old(k) > 0 ==> On(t.st) && k == old(k) - 1 && off == PieceAt(t.st, k).len && (valid <==> 0 < k)
      ensures old(k) == 0 ==> piece == null && text == Null && !valid
      ensures pos == old(pos - off)
    {
      hide Text.Represents, StoreInv, Addrs, Offset;
      t.ChainIs(k);
      NextOffset(t.st, k);
      ghost var before := if k > 0 then k - 1 else 0;
      t.ChainIs(before);
      NextOffset(t.st, before);
      var o := Minus(text, start);
      assert o == off;
      k, off := before, PieceAt(t.st, before).len;
      var len := if piece != null && piece.prev != null then piece.prev.len else 0;
      valid := Init(pos - o, if piece != null then piece.prev else null, len);
    }

    // ----- bytes -----

    /** `text_iterator_byte_get`: at the end of the document, a NUL. */
    method ByteGet(t: Text) returns (b: Option<byte>)
      requires t.Represents() && StoreInv(t.st) && this !in t.repr && (piece == null || On(t.st))
      ensures piece != null && Settled(t.st) ==> b == Some(Peek(Content(t.st), pos))
      ensures piece == null || !Settled(t.st) ==> b == None
    {
      hide Text.Represents, StoreInv, Addrs, Offset, Content;
      if piece != null { t.ChainIs(k); }
      t.SizeIs();
      if Valid() {
        NextOffset(t.st, k);
        if text != end {
          ByteOfPiece(t.st, k, off);
          var c := Load(t, text);
          return Some(c);
        } else if pos == t.size {
          return Some(NUL);
        }
      }
      b := None;
    }

    /** `text_iterator_byte_next`: to the next byte, or to the end of the document. */
    method ByteNext(t: Text) returns (b: Option<byte>)
      requires t.Represents() && StoreInv(t.st) && this !in t.repr
      requires piece == null || Settled(t.st) || Front(t.st) || Back(t.st)
      modifies this
      ensures old(piece) == null ==> piece == null && b == None && pos == old(pos)
      ensures old(piece) != null ==> piece != null
      ensures old(Settled(t.st)) && old(pos) < t.size ==>
                Settled(t.st) && pos == old(pos) + 1 && b == Some(Peek(Content(t.st), pos))
      ensures old(Settled(t.st)) && old(pos) == t.size ==> Back(t.st) && pos == t.size && b == None
      ensures old(Front(t.st)) && t.size > 0 ==> Settled(t.st) && pos == 0 && b == Some(Peek(Content(t.st), 0))
      ensures old(Front(t.st)) && t.size == 0 ==>
              pos == 0 && if b == None then Front(t.st) else Settled(t.st) && b == Some(NUL)
      ensures old(Back(t.st)) ==> Back(t.st) && b == None && pos == t.size
    {
      hide Text.Represents, StoreInv, Addrs, Offset, Content, Cells;
      if piece == null { return None; }
      t.ChainIs(k);
      Sentinels(t.st);
      t.SizeIs();
      if piece.next == null { return None; }
      var eof := StepOver(t);
      var valid := SkipForward(t);
      if !valid {
        if eof { return None; }
        valid := Prev(t);
        NextOffset(t.st, k);
        return if valid then Some(NUL) else None;
      }
      ByteOfPiece(t.st, k, off);
      var c := Load(t, text);
      b := Some(c);
    }

    /** Leave the current byte behind; `eof` when there was none. */
    method StepOver(t: Text) returns (eof: bool)
      requires t.Represents() && StoreInv(t.st) && this !in t.repr && (Settled(t.st) || Front(t.st))
      requires k < |t.Chain()| - 1
      modifies this
      ensures On(t.st) && k == old(k) && (eof <==> old(Settled(t.st)) && old(pos) == t.size)
      ensures pos == if old(Settled(t.st)) && !eof then old(pos) + 1 else old(pos)
    {
      hide Text.Represents, StoreInv, Addrs, Offset, Content;
      t.ChainIs(k);
      t.SizeIs();
      NextOffset(t.st, k);
      Sentinels(t.st);
      eof := true;
      if text != end {
        text, pos := Plus(text, 1), pos + 1;
        off := off + 1;
        eof := false;
      } else if piece.prev == null {
        eof := false;
      }
    }

    /** `while (it->text == it->end) text_iterator_next(it)`, as far as that goes. */
    method SkipForward(t: Text) returns (valid: bool)
      requires t.Represents() && StoreInv(t.st) && this !in t.repr && On(t.st) && k < |t.Chain()| - 1
      modifies this
      ensures On(t.st) && pos == old(pos) && k >= old(k)
      ensures valid ==> 0 < k < |t.Chain()| - 1 && off < PieceAt(t.st, k).len && Settled(t.st) && pos < t.size
      ensures !valid ==> Back(t.st) && pos == t.size
    {
      hide Text.Represents, StoreInv, Addrs, Offset, Content;
      ghost var at := pos;
      t.SizeIs();
      Sentinels(t.st);
      while text == end
        invariant On(t.st) && pos == at && old(k) <= k < |t.Chain()| - 1
        decreases |t.Chain()| - k
      {
        t.ChainIs(k);
        NextOffset(t.st, k);
        valid := Next(t);
        if !valid { return; }
      }
      NextOffset(t.st, k);
      valid := true;
    }

    /** `while (it->text == it->start) text_iterator_prev(it)`, as far as that goes. */
    method SkipBackward(t: Text) returns (valid: bool)
      requires t.Represents() && StoreInv(t.st) && this !in t.repr && On(t.st) && k > 0
      modifies this
      ensures On(t.st) && pos == old(pos) && k <= old(k)
      ensures valid ==> 0 < k < |t.Chain()| - 1 && off > 0 && pos > 0
      ensures !valid ==> Front(t.st) && pos == 0
    {
      hide Text.Represents, StoreInv, Addrs, Offset, Content;
      ghost var at := pos;
      Sentinels(t.st);
      while text == start
        invariant On(t.st) && pos == at && 0 < k <= old(k)
        invariant k == |t.Chain()| - 1 ==> off == 0
        decreases k
      {
        t.ChainIs(k);
        NextOffset(t.st, k);
        valid := Prev(t);
        if !valid {
          NextOffset(t.st, 0);
          return;
        }
      }
      NextOffset(t.st, k);
      valid := true;
    }

    /** `text_iterator_byte_prev`: to the byte before. */
    method BytePrev(t: Text) returns (b: Option<byte>)
      requires t.Represents() && StoreInv(t.st) && this !in t.repr
      requires piece == null || Settled(t.st) || Front(t.st) || Back(t.st)
      modifies this
      ensures old(piece) == null ==> piece == null && b == None && pos == old(pos)
      ensures old(piece) != null ==> piece != null
      ensures (old(Settled(t.st)) || old(Back(t.st))) && old(pos) > 0 ==>
                Settled(t.st) && pos == old(pos) - 1 && b == Some(Peek(Content(t.st), pos))
      ensures old(Settled(t.st)) && old(pos) == 0 ==> Front(t.st) && pos == 0 && b == None
      ensures old(Back(t.st)) && old(pos) == 0 ==>
              pos == 0 && if b == None then Back(t.st) else Settled(t.st) && b == Some(NUL)
      ensures old(Front(t.st)) ==> Front(t.st) && b == None && pos == 0
    {
      hide Text.Represents, StoreInv, Addrs, Offset, Content;
      if piece == null { return None; }
      t.ChainIs(k);
      Sentinels(t.st);
      t.SizeIs();
      if piece.prev == null { return None; }
      var eof := piece.next == null;
      NextOffset(t.st, k);
      var valid := SkipBackward(t);
      if !valid {
        if !eof { return None; }
        valid := Next(t);
        return if valid then Some(NUL) else None;
      }
      b := StepBack(t);
    }

    /** `--it->text`, and the byte there. */
    method StepBack(t: Text) returns (b: Option<byte>)
      requires t.Represents() && StoreInv(t.st) && this !in t.repr && Inside(t.st) && off > 0
      modifies this
      ensures Settled(t.st) && old(pos) > 0 && pos == old(pos) - 1 && piece != null
      ensures b == Some(Peek(Content(t.st), pos))
    {
      hide Text.Represents, StoreInv, Addrs, Offset, Content;
      t.ChainIs(k);
      NextOffset(t.st, k);
      text, pos := At(text.blk, text.off - 1), pos - 1;
      off := off - 1;
      ByteOfPiece(t.st, k, off);
      var c := Load(t, text);
      b := Some(c);
    }

    // ----- searching -----

    /** What the data of the current piece says about the document. */
    lemma PieceBytes(t: Text)
      requires StoreInv(t.st) && On(t.st)
      ensures off <= pos <= |Content(t.st)| == t.st.size && pos - off + PieceAt(t.st, k).len <= t.st.size
      ensures forall i :: 0 <= i < PieceAt(t.st, k).len ==>
                Stored(t.st.mem, Plus(start, i)) && Read(t.st.mem, Plus(start, i)) == Content(t.st)[pos - off + i]
      ensures forall j :: pos - off <= j < pos - off + PieceAt(t.st, k).len ==>
                Content(t.st)[j] == Read(t.st.mem, Plus(start, j - pos + off))
      ensures Minus(text, start) == off && Minus(end, text) == PieceAt(t.st, k).len - off
    {
      hide StoreInv, Addrs, Offset, Content;
      NextOffset(t.st, k);
      forall i | 0 <= i < PieceAt(t.st, k).len
        ensures pos - off + i < |Content(t.st)|
        ensures Stored(t.st.mem, Plus(start, i))
        ensures Content(t.st)[pos - off + i] == Read(t.st.mem, Plus(start, i))
      {
        ByteOfPiece(t.st, k, i);
      }
      forall j | pos - off <= j < pos - off + PieceAt(t.st, k).len
        ensures Content(t.st)[j] == Read(t.st.mem, Plus(start, j - pos + off))
      {
        ByteOfPiece(t.st, k, j - pos + off);
      }
    }

    /** The same for what is left of it. */
    lemma BytesAhead(t: Text)
      requires StoreInv(t.st) && On(t.st)
      ensures off <= pos && pos + PieceAt(t.st, k).len - off <= |Content(t.st)| == t.st.size
      ensures Minus(end, text) == PieceAt(t.st, k).len - off && (text == end <==> off == PieceAt(t.st, k).len)
      ensures Shows(t.st, text, pos, PieceAt(t.st, k).len - off)
    {
      hide StoreInv, Addrs, Offset, Content, Shows;
      NextOffset(t.st, k);
      BytesFrom(t.st, k, off);
    }

    /** One round of `text_iterator_byte_find_prev`: search the part of the piece before us. */
    method FindBehind(t: Text, b: byte) returns (found: bool)
      requires t.Represents() && StoreInv(t.st) && this !in t.repr && On(t.st) && k < |t.Chain()| - 1
      modifies this`pos, this`text, this`off
      ensures On(t.st) && old(pos - off) <= pos <= old(pos) <= |Content(t.st)|
      ensures found ==> Settled(t.st) && pos < old(pos) && Content(t.st)[pos] == b
      ensures found ==> forall i :: pos < i < old(pos) ==> Content(t.st)[i] != b
      ensures !found ==> pos == old(pos) && off == old(off) && text == old(text)
      ensures !found ==> forall i :: pos - off <= i < pos ==> Content(t.st)[i] != b
    {
      hide Text.Represents, StoreInv, Addrs, Offset, Content, Stored, Read;
      Sentinels(t.st);
      PieceBytes(t);
      var m := ScanReverse(t, start, b, Minus(text, start));
      if m == None { return false; }
      pos := pos - (Minus(text, start) - m.value);
      text := Plus(start, m.value);
      off := m.value;
      found := true;
    }

    /** `text_iterator_byte_find_prev`: to the last `b` before the iterator; else to the start. */
    method ByteFindPrev(t: Text, b: byte) returns (found: bool)
      requires t.Represents() && StoreInv(t.st) && this !in t.repr
      requires if piece == null then text == Null else On(t.st) && k < |t.Chain()| - 1
      modifies this
      ensures old(piece) == null ==> !found && pos == old(pos)
      ensures old(piece) != null ==> pos <= old(pos) <= |Content(t.st)|
      ensures found ==> Settled(t.st) && pos < old(pos) && Content(t.st)[pos] == b
      ensures found ==> forall i :: pos < i < old(pos) ==> Content(t.st)[i] != b
      ensures old(piece) != null && !found ==> pos == 0 && forall i :: 0 <= i < old(pos) ==> Content(t.st)[i] != b
    {
      hide Text.Represents, StoreInv, Addrs, Offset, Content;
      if piece == null {
        var _ := Init(pos, null, 0);
        return false;
      }
      PieceBytes(t);
      while text != Null
        invariant On(t.st) && k < |t.Chain()| - 1 && pos <= old(pos)
        invariant forall i :: pos <= i < old(pos) ==> Content(t.st)[i] != b
        decreases k
      {
        t.ChainIs(k);
        NextOffset(t.st, k);
        found := FindBehind(t, b);
        if found { return; }
        var _ := Prev(t);
      }
      t.ChainIs(k);
      Sentinels(t.st);
      var _ := Next(t);
      found := false;
    }

    /** One round of `text_iterator_byte_find_next`: search the rest of the piece. */
    method FindAhead(t: Text, b: byte) returns (found: bool)
      requires t.Represents() && StoreInv(t.st) && this !in t.repr && On(t.st)
      modifies this`pos, this`text, this`off
      ensures On(t.st) && old(pos) <= pos < |Content(t.st)| + 1
              && Offset(t.st, k) + PieceAt(t.st, k).len <= |Content(t.st)|
      ensures found ==> Settled(t.st) && pos < |Content(t.st)| && Content(t.st)[pos] == b
      ensures forall i :: old(pos) <= i < (if found then pos else Offset(t.st, k) + PieceAt(t.st, k).len) ==>
              Content(t.st)[i] != b
      ensures !found ==> pos == old(pos) && off == old(off) && text == old(text)
    {
      hide Text.Represents, StoreInv, Addrs, Offset, Content, Stored, Read;
      Sentinels(t.st);
      BytesAhead(t);
      var m := ScanForward(t, text, b, Minus(end, text));
      if m == None { return false; }
      pos := pos + m.value;
      text := Plus(text, m.value);
      off := off + m.value;
      found := true;
    }

    /** `text_iterator_byte_find_next`: to the first `b` from the iterator on; else to the end. */
    method ByteFindNext(t: Text, b: byte) returns (found: bool)
      requires t.Represents() && StoreInv(t.st) && this !in t.repr
      requires if piece == null then text == Null else On(t.st) && (k > 0 || t.size == 0)
      modifies this
      ensures old(piece) == null ==> !found && pos == old(pos)
      ensures old(piece) != null ==> old(pos) <= pos <= |Content(t.st)|
      ensures old(piece) != null ==> forall i :: old(pos) <= i < pos ==> Content(t.st)[i] != b
      ensures found ==> Settled(t.st) && pos < |Content(t.st)| && Content(t.st)[pos] == b
      ensures old(piece) != null && !found ==> pos == |Content(t.st)|
      ensures old(piece) != null && !found && old(k) > 0 ==> On(t.st) && k == |t.Chain()| - 2
    {
      hide Text.Represents, StoreInv, Addrs, Offset, Content, Cells;
      if piece == null {
        var _ := Init(pos, null, 0);
        return false;
      }
      PieceBytes(t);
      t.SizeIs();
      while text != Null
        invariant On(t.st) && (k > 0 || pos == |Content(t.st)|) && (old(k) > 0 ==> k > 0)
                  && old(pos) <= pos <= |Content(t.st)|
        invariant forall i :: old(pos) <= i < pos ==> Content(t.st)[i] != b
        decreases |t.Chain()| - k
      {
        t.ChainIs(k);
        NextOffset(t.st, k);
        found := FindAhead(t, b);
        if found { return; }
        var _ := Next(t);
        NextOffset(t.st, k);
      }
      t.ChainIs(k);
      Sentinels(t.st);
      var _ := Prev(t);
      found := false;
    }
  }
}
