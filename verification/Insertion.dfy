/** `text_insert`.

    The cached piece is edited in place if it can be.  Otherwise the data goes into a block,
    and one new piece is spliced in at a piece boundary, or three take the place of a piece
    that is split. */
module Insertion {
  import opened Bytes
  import opened History
  import opened Extents
  import opened UndoTree
  import opened Store
  import opened Revisions
  import opened PieceChain
  import opened Splices
  import opened Editing
  import opened Cache

  /** A text whose newest change `c` waits to be filled in. */
  ghost predicate Ready(t: Text, c: TextChange)
    reads t, t.repr
  {
    && t.Represents() && t !in t.repr && Waiting(t.st) && NoDup(t.h.changes)
    && t.st.at < |t.h.changes| && c == t.h.changes[t.st.at]
  }

  /** Stored bytes that no piece of the chain covers. */
  ghost predicate Unused(s: Store, e: Extent) {
    && e.data.At? && e.len > 0 && InBounds(e, s.mem) && s.at < |s.vs|
    && forall a :: a in Cells(e) ==> a !in Addrs(s.vs[s.at].chain, s.ext)
  }

  /** A new piece with all its fields. */
  method NewPiece(t: Text, prev: Piece?, next: Piece?, data: Ptr, len: nat) returns (piece: Piece)
    requires t.Represents() && t !in t.repr
    modifies t`pieces, t`st, t`repr
    ensures t.Represents() && t !in t.repr && t.repr == old(t.repr) + {piece} && fresh(piece)
    ensures t.pieces == old(t.pieces) + {piece} && piece !in old(t.st.links) && piece !in old(t.st.ext)
    ensures var s := old(t.st);
            t.st == s.(links := s.links[piece := Link(prev, next)], ext := s.ext[piece := Extent(data, len)])
  {
    hide Text.Represents;
    ghost var s := t.st;
    piece := t.PieceAlloc();
    t.PieceInit(piece, prev, next, data, len);
    assert t.st.links == s.links[piece := Link(prev, next)];
    assert t.st.ext == s.ext[piece := Extent(data, len)];
  }

  /** The span of a single piece. */
  method OneSpan(t: Text, p: Piece) returns (span: Span)
    requires t.Represents() && p in t.pieces && p in t.st.ext && InBounds(t.st.ext[p], t.st.mem)
    ensures span == Span(p, p, p.len)
  {
    hide Text.Represents, Addrs, Cells;
    t.ExtentIs(p);
    AddrsOneLength(p, t.st.ext, t.st.mem);
    span := t.SpanInit(p, p, [p]);
  }

  method NoSpan(t: Text) returns (span: Span)
    requires t.Represents()
    ensures span == EMPTY_SPAN
  {
    hide Text.Represents, Addrs, Cells;
    AddrsNone(t.st.ext);
    span := t.SpanInit(null, null, []);
  }

  /** The pieces and spans of an insertion between two pieces. */
  method LinkBetween(t: Text, c: TextChange, p: Piece, ghost k: nat, data: Ptr, len: nat) returns (piece: Piece)
    requires Ready(t, c) && Unused(t.st, Extent(data, len))
    requires k + 1 < |t.Chain()| && p == t.Chain()[k]
    modifies t`pieces, t`st, t`repr, c`oldSpan, c`newSpan
    ensures t.Represents() && t !in t.repr && t.repr == old(t.repr) + {piece} && fresh(piece)
    ensures t.pieces == old(t.pieces) + {piece} && piece !in old(t.st.links) && piece !in old(t.st.ext)
    ensures var s, e := old(t.st), Extent(data, len);
            && s.at < |s.vs| && s.at < |s.chg|
            && t.st == s.(links := s.links[piece := Link(s.vs[s.at].chain[k], s.vs[s.at].chain[k + 1])],
                          ext := s.ext[piece := e],
                          chg := s.chg[s.at := s.chg[s.at].(oldSpan := EMPTY_SPAN, newSpan := Span(piece, piece, len))])
  {
    hide Text.Represents, Waiting, Addrs, Cells;
    ghost var s := t.st;
    WaitingIs(t, k);
    piece := NewPiece(t, p, p.next, data, len);
    t.ExtentIs(piece);
    var n := OneSpan(t, piece);
    var o := NoSpan(t);
    t.SetSpans(c, s.at, o, n);
  }

  /** Insertion between two pieces: there is nothing to remove. */
  method InsertBetween(t: Text, c: TextChange, p: Piece, ghost k: nat, data: Ptr, len: nat) returns (piece: Piece)
    requires Ready(t, c) && Unused(t.st, Extent(data, len))
    requires k + 1 < |t.Chain()| && p == t.Chain()[k]
    modifies t`pieces, t`st, t`h, t`repr, t`size, t`cache, t.repr
    ensures t.Represents() && StoreInv(t.st) && t.h == old(t.h)
    ensures t !in t.repr && fresh(t.repr - old(t.repr))
    ensures Refines(old(t.st), t.st) && piece in t.st.vs[t.st.at].mid && piece !in old(t.st.ext)
    ensures t.st.mem == old(t.st.mem) && t.st.ext == old(t.st.ext)[piece := Extent(data, len)]
    ensures |Addrs(old(t.Chain())[..k + 1], old(t.st.ext))| <= |Addrs(old(t.Chain()), old(t.st.ext))|
    ensures Addrs(t.Chain(), t.st.ext) ==
            Inserted(Addrs(old(t.Chain()), old(t.st.ext)), |Addrs(old(t.Chain())[..k + 1], old(t.st.ext))|,
                     Cells(Extent(data, len)))
    ensures t.cache == Cached(t.st, piece, old(t.cache))
  {
    hide Text.Represents, Waiting, Fills, Addrs, Cells, StoreInv, Refines;
    ghost var s := t.st;
    t.Within();
    piece := LinkBetween(t, c, p, k, data, len);
    CachePiece(t, piece);
    BetweenFills(s, k, piece, Extent(data, len));
    BetweenAddrs(s, k, piece, Extent(data, len));
    Commit(t, c, s, k + 1, k + 1, [piece], EMPTY_SPAN, Span(piece, piece, len));
    RefinedBy(s, Replacement(s, k + 1, k + 1, [piece]), t.st);
  }

  function NullSplitLinks(ls: LinkMap, sp: Split): LinkMap {
    ls[sp.before := Link(null, null)][sp.mid := Link(null, null)][sp.after := Link(null, null)]
  }

  function NullSplitExtents(ext: ExtentMap, sp: Split): ExtentMap {
    ext[sp.before := Extent(Null, 0)][sp.mid := Extent(Null, 0)][sp.after := Extent(Null, 0)]
  }

  lemma SplitKeeps(ext: ExtentMap, sp: Split, x: Extent, off: nat, e: Extent, p: Piece)
    requires p in ext && p != sp.before && p != sp.mid && p != sp.after && x.data.At? && off <= x.len
    ensures p in SplitExtents(ext, sp, x, off, e) && SplitExtents(ext, sp, x, off, e)[p] == ext[p]
  {
  }

  lemma NullThenSplit(ls: LinkMap, ext: ExtentMap, sp: Split, l: Piece, r: Piece, p: Extent, off: nat, e: Extent)
    requires p.data.At? && off <= p.len
    ensures SplitLinks(NullSplitLinks(ls, sp), sp, l, r) == SplitLinks(ls, sp, l, r)
    ensures SplitExtents(NullSplitExtents(ext, sp), sp, p, off, e) == SplitExtents(ext, sp, p, off, e)
  {
  }

  /** Three new pieces, not yet filled in. */
  method AllocSplit(t: Text) returns (sp: Split)
    requires t.Represents() && t !in t.repr && t.st.links.Keys == t.pieces
    modifies t`pieces, t`st, t`repr
    ensures t.Represents() && t !in t.repr && fresh(t.repr - old(t.repr))
    ensures fresh(sp.before) && fresh(sp.mid) && fresh(sp.after)
    ensures t.pieces == old(t.pieces) + {sp.before, sp.mid, sp.after} && old(t.repr) <= t.repr
    ensures NewSplit(old(t.st), sp)
    ensures t.st == old(t.st).(links := NullSplitLinks(old(t.st.links), sp), ext := NullSplitExtents(old(t.st.ext), sp))
  {
    hide Text.Represents;
    var before := t.PieceAlloc();
    var mid := t.PieceAlloc();
    var after := t.PieceAlloc();
    sp := Split(before, mid, after);
  }

  /** Fill them in: what was before the insertion point, the new text, what was after it. */
  method InitSplit(t: Text, sp: Split, p: Piece, off: nat, data: Ptr, len: nat)
    requires t.Represents() && t !in t.repr && p in t.pieces && p.data.At? && off <= p.len
    requires sp.before in t.pieces && sp.mid in t.pieces && sp.after in t.pieces
    requires sp.before != sp.mid && sp.mid != sp.after && sp.before != sp.after
    requires p != sp.before && p != sp.mid && p != sp.after && p.prev != null && p.next != null
    modifies t`st, sp.before, sp.mid, sp.after
    ensures t.Represents()
    ensures t.st == old(t.st).(links := SplitLinks(old(t.st.links), sp, old(p.prev), old(p.next)),
                               ext := SplitExtents(old(t.st.ext), sp, Extent(p.data, p.len), off, Extent(data, len)))
  {
    hide Text.Represents;
    t.PieceInit(sp.before, p.prev, sp.mid, p.data, off);
    t.PieceInit(sp.mid, sp.before, sp.after, data, len);
    t.PieceInit(sp.after, sp.mid, p.next, At(p.data.blk, p.data.off + off), p.len - off);
  }

  /** The three pieces that take the place of a piece that is split. */
  method SplitPiece(t: Text, p: Piece, off: nat, data: Ptr, len: nat) returns (sp: Split)
    requires t.Represents() && t !in t.repr && t.st.links.Keys == t.pieces && p in t.pieces
    requires p.data.At? && off <= p.len && p.prev != null && p.next != null
    modifies t`pieces, t`st, t`repr
    ensures t.Represents() && t !in t.repr && fresh(t.repr - old(t.repr)) && old(t.repr) <= t.repr
    ensures t.pieces == old(t.pieces) + {sp.before, sp.mid, sp.after}
    ensures fresh(sp.before) && fresh(sp.mid) && fresh(sp.after) && NewSplit(old(t.st), sp)
    ensures var s := old(t.st);
            t.st == s.(links := SplitLinks(s.links, sp, p.prev, p.next),
                       ext := SplitExtents(s.ext, sp, Extent(p.data, p.len), off, Extent(data, len)))
  {
    hide Text.Represents, SplitLinks, SplitExtents;
    ghost var s := t.st;
    sp := AllocSplit(t);
    InitSplit(t, sp, p, off, data, len);
    NullThenSplit(s.links, s.ext, sp, p.prev, p.next, Extent(p.data, p.len), off, Extent(data, len));
  }

  /** The pieces and spans of an insertion into piece number `k`. */
  method LinkInside(t: Text, c: TextChange, p: Piece, ghost k: nat, off: nat, data: Ptr, len: nat)
    returns (sp: Split, o: Span, n: Span)
    requires Ready(t, c) && Unused(t.st, Extent(data, len))
    requires 0 < k && k + 1 < |t.Chain()| && p == t.Chain()[k] && p.data.At? && off <= p.len && p.len > 0
    modifies t`pieces, t`st, t`repr, c`oldSpan, c`newSpan
    ensures t.Represents() && t !in t.repr && fresh(t.repr - old(t.repr)) && old(t.repr) <= t.repr
    ensures t.pieces == old(t.pieces) + {sp.before, sp.mid, sp.after}
    ensures fresh(sp.before) && fresh(sp.mid) && fresh(sp.after)
    ensures NewSplit(old(t.st), sp) && o == Span(p, p, p.len) && n == Span(sp.before, sp.after, p.len + len)
    ensures p in old(t.st.ext) && old(t.st.ext)[p] == Extent(p.data, p.len)
    ensures var s := old(t.st);
            && s.at < |s.vs| && s.at < |s.chg|
            && t.st == s.(links := SplitLinks(s.links, sp, s.vs[s.at].chain[k - 1], s.vs[s.at].chain[k + 1]),
                          ext := SplitExtents(s.ext, sp, s.ext[p], off, Extent(data, len)),
                          chg := s.chg[s.at := s.chg[s.at].(oldSpan := o, newSpan := n)])
  {
    hide Text.Represents, Waiting, Addrs, Cells, SplitLinks, SplitExtents;
    ghost var s := t.st;
    WaitingIs(t, k);
    sp := SplitPiece(t, p, off, data, len);
    n := SplitSpan(t, sp, Extent(p.data, p.len), off, Extent(data, len), s);
    SplitKeeps(s.ext, sp, s.ext[p], off, Extent(data, len), p);
    o := OneSpan(t, p);
    t.SetSpans(c, s.at, o, n);
  }

  method SplitSpan(t: Text, sp: Split, ghost p: Extent, ghost off: nat, ghost e: Extent, ghost s: Store)
    returns (n: Span)
    requires t.Represents() && NewSplit(s, sp) && p.data.At? && off <= p.len && e.data.At?
    requires t.st.ext == SplitExtents(s.ext, sp, p, off, e) && t.st.mem == s.mem
    requires InBounds(p, s.mem) && InBounds(e, s.mem)
    requires exists l: Piece, r: Piece :: t.st.links == SplitLinks(s.links, sp, l, r)
    ensures n == Span(sp.before, sp.after, p.len + e.len)
  {
    hide Text.Represents;
    SplitCells(s, sp, p, off, e);
    t.LinkIs(sp.before);
    t.LinkIs(sp.mid);
    n := t.SpanInit(sp.before, sp.after, [sp.before, sp.mid, sp.after]);
  }

  /** Insertion into a piece: it is replaced by three new ones. */
  method InsertInside(t: Text, c: TextChange, p: Piece, ghost k: nat, off: nat, data: Ptr, len: nat)
    returns (piece: Piece)
    requires Ready(t, c) && Unused(t.st, Extent(data, len))
    requires 0 < k && k + 1 < |t.Chain()| && p == t.Chain()[k] && p.data.At? && off <= p.len && p.len > 0
    modifies t`pieces, t`st, t`h, t`repr, t`size, t`cache, t.repr
    ensures t.Represents() && StoreInv(t.st) && t.h == old(t.h)
    ensures t !in t.repr && fresh(t.repr - old(t.repr))
    ensures Refines(old(t.st), t.st) && piece in t.st.vs[t.st.at].mid && t.st.mem == old(t.st.mem)
    ensures piece in t.st.ext && t.st.ext[piece] == Extent(data, len)
    ensures Derived(old(t.st.ext), t.st.ext, piece)
    ensures |Addrs(old(t.Chain())[..k], old(t.st.ext))| + off <= |Addrs(old(t.Chain()), old(t.st.ext))|
    ensures Addrs(t.Chain(), t.st.ext) ==
            Inserted(Addrs(old(t.Chain()), old(t.st.ext)), |Addrs(old(t.Chain())[..k], old(t.st.ext))| + off,
                     Cells(Extent(data, len)))
    ensures t.cache == Cached(t.st, piece, old(t.cache))
  {
    hide Text.Represents, Waiting, Fills, SplitLinks, SplitExtents, Refines, Derived, Addrs, Cells;
    ghost var s, e := t.st, Extent(data, len);
    t.Within();
    WaitingIs(t, k);
    var sp, o, n := LinkInside(t, c, p, k, off, data, len);
    piece := sp.mid;
    SplitHas(s.ext, sp, s.ext[p], off, e);
    CachePiece(t, piece);
    ghost var links, ext, o', n' := InsideFills(s, k, sp, off, e);
    Commit(t, c, s, k, k + 1, [sp.before, piece, sp.after], o, n);
    InsideDone(s, k, sp, off, e, t.st);
  }

  lemma SplitHas(ext: ExtentMap, sp: Split, p: Extent, off: nat, e: Extent)
    requires p.data.At? && off <= p.len && sp.mid != sp.after
    ensures sp.mid in SplitExtents(ext, sp, p, off, e) && SplitExtents(ext, sp, p, off, e)[sp.mid] == e
  {
  }

  lemma InsideDone(s: Store, k: nat, sp: Split, off: nat, e: Extent, s': Store)
    requires Waiting(s) && 0 < k && k + 1 < |s.vs[s.at].chain| && NewSplit(s, sp) && e.data.At?
    requires var p := s.vs[s.at].chain[k]; p in s.ext && s.ext[p].data.At? && off <= s.ext[p].len
    requires forall a :: a in Cells(e) ==> a !in Addrs(s.vs[s.at].chain, s.ext)
    requires s'.vs == s.vs[s.at := Replacement(s, k, k + 1, [sp.before, sp.mid, sp.after])]
    requires s'.at == s.at && s'.mem == s.mem && |s'.chg| == |s.chg|
    requires s'.chg == s.chg[s.at := s.chg[s.at].(oldSpan := s'.chg[s.at].oldSpan, newSpan := s'.chg[s.at].newSpan)]
    requires s'.ext == SplitExtents(s.ext, sp, s.ext[s.vs[s.at].chain[k]], off, e)
    ensures s'.at < |s'.vs| && sp.mid in s'.vs[s'.at].mid
    ensures Refines(s, s') && Derived(s.ext, s'.ext, sp.mid)
    ensures var ch := s.vs[s.at].chain;
            && |Addrs(ch[..k], s.ext)| + off <= |Addrs(ch, s.ext)|
            && Addrs(s'.vs[s'.at].chain, s'.ext)
               == Inserted(Addrs(ch, s.ext), |Addrs(ch[..k], s.ext)| + off, Cells(e))
  {
    hide Waiting, Refines, Derived, Addrs, Cells, NoDup, AllIn, Extends;
    WaitingChain(s);
    InsideAddrs(s, k, sp, off, e);
    RefinedBy(s, Replacement(s, k, k + 1, [sp.before, sp.mid, sp.after]), s');
    SplitDerived(s, sp, s.vs[s.at].chain[k], off, e);
  }

  /** Every piece but `piece` covers bytes that some piece covered before. */
  ghost predicate Derived(ext: ExtentMap, ext': ExtentMap, piece: Piece) {
    forall q :: q in ext' && q != piece && ext'[q].data.At? ==> Covered(ext, ext'[q])
  }

  ghost predicate Covered(ext: ExtentMap, e: Extent) {
    exists p :: p in ext && ext[p].data.At? && e.data.At? && e.data.blk == ext[p].data.blk
                && ext[p].data.off <= e.data.off && e.data.off + e.len <= ext[p].data.off + ext[p].len
  }

  lemma SplitDerived(s: Store, sp: Split, p: Piece, off: nat, e: Extent)
    requires NewSplit(s, sp) && p in s.ext && s.ext[p].data.At? && off <= s.ext[p].len
    ensures Derived(s.ext, SplitExtents(s.ext, sp, s.ext[p], off, e), sp.mid)
  {
    var ext' := SplitExtents(s.ext, sp, s.ext[p], off, e);
    forall q | q in ext' && q != sp.mid && ext'[q].data.At? ensures Covered(s.ext, ext'[q]) {
      if q != sp.before && q != sp.after { assert q in s.ext; }
    }
  }

  lemma RefinedBy(s: Store, ver: Version, s': Store)
    requires Waiting(s) && ver.parent == s.vs[s.at].parent
    requires s'.vs == s.vs[s.at := ver] && s'.at == s.at && s'.mem == s.mem
    requires |s'.chg| == |s.chg|
    requires s'.chg == s.chg[s.at := s.chg[s.at].(oldSpan := s'.chg[s.at].oldSpan, newSpan := s'.chg[s.at].newSpan)]
    requires forall p :: p in s.ext ==> p in s'.ext && s'.ext[p] == s.ext[p]
    ensures Refines(s, s')
  {
  }

  /** What `cache_piece` leaves in the cache. */
  ghost function Cached(s: Store, p: Piece, was: Piece?): Piece?
    requires p in s.ext
  {
    var e := s.ext[p];
    if |s.mem| > 0 && e.data.At? && e.data.blk == |s.mem| - 1 && e.data.off + e.len == |s.mem[|s.mem| - 1]|
    then p else was
  }

  lemma WaitingIs(t: Text, i: nat)
    requires t.Represents() && Waiting(t.st)
    ensures t.st.links.Keys == t.pieces == t.st.ext.Keys && t.st.at < |t.st.vs|
    ensures i < |t.Chain()| ==>
              && t.Chain()[i] in t.pieces && InBounds(t.st.ext[t.Chain()[i]], t.st.mem)
              && t.st.ext[t.Chain()[i]] == Extent(t.Chain()[i].data, t.Chain()[i].len)
              && t.Chain()[i].prev == PrevOf(t.Chain(), i) && t.Chain()[i].next == NextOf(t.Chain(), i)
              && |Cells(ExtentOf(t.st.ext, t.Chain()[i]))| == t.Chain()[i].len
  {
    t.ChainIs(i);
  }

  // ----- the whole insertion -----

  lemma RefinesGrown(s: Store, mem: Memory, s': Store)
    requires Extends(s.mem, mem) && Refines(s.(mem := mem), s')
    requires s'.mem == mem
    ensures Refines(s, s')
  {
  }

  /** The piece just stored is the only one that covers its bytes. */
  lemma ExclusiveNew(ext: ExtentMap, mem: Memory, ext': ExtentMap, mem': Memory, p: Ptr, data: seq<byte>, piece: Piece)
    requires (forall q :: q in ext ==> InBounds(ext[q], mem)) && StoredAt(mem, mem', p, data)
    requires piece in ext' && ext'[piece] == Extent(p, |data|) && Derived(ext, ext', piece)
    ensures Exclusive(ext', mem', piece)
  {
    forall q | q in ext' && q != piece && ext'[q].data.At? && ext'[q].data.blk == p.blk
      ensures ext'[q].data.off + ext'[q].len <= p.off
    {
      assert Covered(ext, ext'[q]);
    }
  }

  lemma BetweenDerived(ext: ExtentMap, piece: Piece, e: Extent)
    requires piece !in ext
    ensures Derived(ext, ext[piece := e], piece)
  {
    var ext' := ext[piece := e];
    forall q | q in ext' && q != piece && ext'[q].data.At? ensures Covered(ext, ext'[q]) {
      assert q in ext;
    }
  }

  /** Both ways of inserting: between two pieces, or into one. */
  method InsertPieces(t: Text, c: TextChange, p: Piece, ghost k: nat, off: nat, data: Ptr, len: nat)
    returns (piece: Piece)
    requires Ready(t, c) && Unused(t.st, Extent(data, len))
    requires k + 1 < |t.Chain()| && p == t.Chain()[k] && off <= p.len && (off == 0 ==> k == 0)
             && (k == 0 ==> p.len == 0)
    requires p.len > 0 ==> p.data.At?
    modifies t`pieces, t`st, t`h, t`repr, t`size, t`cache, t.repr
    ensures t.Represents() && StoreInv(t.st) && t.h == old(t.h)
    ensures t !in t.repr && fresh(t.repr - old(t.repr))
    ensures Refines(old(t.st), t.st) && piece in t.st.vs[t.st.at].mid && t.st.mem == old(t.st.mem)
    ensures piece in t.st.ext && t.st.ext[piece] == Extent(data, len) && Derived(old(t.st.ext), t.st.ext, piece)
    ensures |Addrs(old(t.Chain())[..k], old(t.st.ext))| + off <= |Addrs(old(t.Chain()), old(t.st.ext))|
    ensures Addrs(t.Chain(), t.st.ext) ==
            Inserted(Addrs(old(t.Chain()), old(t.st.ext)), |Addrs(old(t.Chain())[..k], old(t.st.ext))| + off,
                     Cells(Extent(data, len)))
    ensures t.cache == Cached(t.st, piece, old(t.cache))
  {
    hide Text.Represents, Waiting, StoreInv, Refines, Derived, Cells, Addrs, Unused;
    WaitingIs(t, k);
    if off == p.len {
      AddrsStep(t.Chain(), k, t.st.ext);
      ghost var ext := t.st.ext;
      piece := InsertBetween(t, c, p, k, data, len);
      BetweenDerived(ext, piece, Extent(data, len));
    } else {
      piece := InsertInside(t, c, p, k, off, data, len);
    }
  }

  /** A change just allocated waits to be filled in; the chain is as it was. */
  lemma GrownWaits(s: Store, s': Store, pos: nat)
    requires GrownBy(s, s', pos) && StoreInv(s') && |s'.chg| == |s'.vs|
    ensures Waiting(s') && s'.vs[s'.at].chain == s.vs[s.at].chain
  {
  }

  lemma MoreMemoryWaits(s: Store, mem: Memory)
    requires Waiting(s) && Extends(s.mem, mem)
    ensures Waiting(s.(mem := mem))
  {
    GrowMemory(s, mem);
  }

  /** Storing the data makes the text ready for its new pieces. */
  method StoreFor(t: Text, c: TextChange, data: seq<byte>) returns (p: Ptr)
    requires Ready(t, c) && data != []
    modifies t`blocks, t`st, t`repr, t.repr
    ensures Ready(t, c) && fresh(t.repr - old(t.repr)) && old(t.repr) <= t.repr
    ensures StoredAt(old(t.st.mem), t.st.mem, p, data) && t.st == old(t.st).(mem := t.st.mem)
    ensures Unused(t.st, Extent(p, |data|)) && Fetch(Cells(Extent(p, |data|)), t.st.mem) == data
    ensures AllIn(Addrs(t.Chain(), t.st.ext), old(t.st.mem))
  {
    hide Text.Represents, Waiting;
    ghost var s := t.st;
    WaitingChain(s);
    p := BlockStore(t, data);
    MoreMemoryWaits(s, t.st.mem);
    StoredFresh(Extent(p, |data|), s.mem, t.st.mem, data, Addrs(s.vs[s.at].chain, s.ext));
  }

  /** The document after the newest change has been applied. */
  lemma Finish(t: Text, s: Store, h: Hist, d: Doc)
    requires t.Represents() && t !in t.repr && StoreInv(t.st) && t.h == h
    requires Sound(s, h, d) && d.open && WellFormed(d) && Refines(s, t.st)
    requires FieldsOf(h, d, t.history, t.currentRevision, t.lastRevision, t.savedRevision, s.at)
    requires t.doc == Edited(d, StateOf(t.Chain(), t.st.ext, t.st.mem))
    requires t.cache != null ==> t.cache in t.pieces
    requires t.cache != null && t.cache in t.st.vs[t.st.at].mid ==> Exclusive(t.st.ext, t.st.mem, t.cache)
    requires LinesOk(t.lines, StateOf(t.Chain(), t.st.ext, t.st.mem).text)
    ensures t.Valid()
  {
    hide StoreInv, HistInv, StatesInv, Text.Represents, WellFormed, Refines, FieldsOf, LinesOk, StateOf;
    RefinesAt(s, t.st);
    ghost var st := StateOf(t.Chain(), t.st.ext, t.st.mem);
    FinishSound(s, h, d, t.st);
    EditedWellFormed(d, st);
    EditedFields(h, d, st, t.history, t.currentRevision, t.lastRevision, t.savedRevision, s.at);
    Assemble(t);
  }

  lemma RefinesAt(s: Store, s': Store)
    requires Refines(s, s')
    ensures s'.at == s.at < |s'.vs| == |s.vs|
  {
  }

  /** The contents after storing `data` and putting a piece for it at `pos`. */
  lemma InsertedState(s: Store, mem: Memory, s': Store, pos: nat, p: Ptr, data: seq<byte>)
    requires s.at < |s.vs| && s'.at < |s'.vs| && s'.mem == mem
    requires StoredAt(s.mem, mem, p, data) && Fetch(Cells(Extent(p, |data|)), mem) == data
    requires AllIn(Addrs(s.vs[s.at].chain, s.ext), s.mem)
    requires pos <= |Addrs(s.vs[s.at].chain, s.ext)|
    requires Addrs(s'.vs[s'.at].chain, s'.ext)
             == Inserted(Addrs(s.vs[s.at].chain, s.ext), pos, Cells(Extent(p, |data|)))
    ensures var a, b := StateOf(s.vs[s.at].chain, s.ext, s.mem), StateOf(s'.vs[s'.at].chain, s'.ext, s'.mem);
            && pos <= |a.text| == |a.addrs| && b.text == Inserted(a.text, pos, data)
            && |b.addrs| == |b.text| && b.addrs == Inserted(a.addrs, pos, b.addrs[pos..pos + |data|])
  {
    var addrs, born := Addrs(s.vs[s.at].chain, s.ext), Cells(Extent(p, |data|));
    InsertedFetch(addrs, pos, born, s.mem, mem, data);
    assert Inserted(addrs, pos, born)[pos..pos + |data|] == born;
  }

  lemma LocatedIs(t: Text, pos: nat, p: Piece, k: nat, off: nat)
    requires t.Represents() && StoreInv(t.st) && k < |t.Chain()| && t.st.at < |t.st.vs| && p == t.Chain()[k]
    ensures p in t.st.ext && t.st.ext[p] == Extent(p.data, p.len)
  {
    t.ChainIs(k);
  }

  /** The text after its newest change has been allocated: `pos` is still where it was. */
  lemma StillLocated(t: Text, s: Store, c: TextChange, pos: nat, p: Piece, k: nat, off: nat)
    requires t.Inv() && GrownBy(s, t.st, pos) && t.st.at < |t.h.changes| && c == t.h.changes[t.st.at]
    requires s.at < |s.vs| && k + 1 < |s.vs[s.at].chain| && p == s.vs[s.at].chain[k] && p in s.ext
    requires off <= s.ext[p].len && pos == |Addrs(s.vs[s.at].chain[..k], s.ext)| + off
    requires (k > 0 ==> off > 0) && (k == 0 ==> off == 0 && s.ext[p].len == 0)
    requires s.ext[p].len > 0 ==> s.ext[p].data.At?
    ensures Ready(t, c) && Located(t, pos, p, k, off) && t.Chain() == s.vs[s.at].chain
  {
    hide StatesInv, Text.Represents;
    SoundNow(t);
    TipIs(t.h, t.doc.nodes, t.st.vs, t.st.chg, t.doc.cur);
    GrownWaits(s, t.st, pos);
    t.ChainIs(k);
  }

  /** A change for the insertion, and the data in a block. */
  method PrepareInsert(t: Text, pos: nat, data: seq<byte>, p: Piece, ghost k: nat, off: nat)
    returns (c: TextChange, ptr: Ptr, ghost s: Store)
    requires t.Valid() && data != [] && Located(t, pos, p, k, off)
    modifies t, t.repr
    ensures Ready(t, c) && fresh(t.repr - old(t.repr)) && Located(t, pos, p, k, off)
    ensures t.doc.cur < |t.doc.nodes| && t.doc == Edited(old(t.doc), old(t.doc.Now())) && t.doc.open
    ensures WellFormed(t.doc) && t.doc.Now() == old(t.doc.Now())
    ensures Sound(s, t.h, t.doc) && t.st == s.(mem := t.st.mem) && StoredAt(s.mem, t.st.mem, ptr, data)
    ensures Unused(t.st, Extent(ptr, |data|)) && Fetch(Cells(Extent(ptr, |data|)), t.st.mem) == data
    ensures AllIn(Addrs(t.Chain(), s.ext), s.mem)
    ensures t.doc.Now() == StateOf(t.Chain(), s.ext, s.mem)
    ensures FieldsOf(t.h, t.doc, t.history, t.currentRevision, t.lastRevision, t.savedRevision, s.at)
    ensures t.lines == old(t.lines) && (t.cache != null ==> t.cache in t.pieces)
    ensures GrownBy(old(t.st), s, pos) && NewTip(old(t.doc.open), old(t.h.tips), t.h.tips, |old(t.st.vs)|)
  {
    hide Text.Inv, Waiting, Ready, StoredAt, Unused, FieldsOf, Sound, WellFormed, StoreInv, NewTip, StatesInv,
         Text.Represents, Addrs, Cells;
    StateNow(t);
    SoundNow(t);
    ghost var s0 := t.st;
    HealthyParts(t);
    LocatedIs(t, pos, p, k, off);
    c := TextChangeAlloc(t, pos);
    StillLocated(t, s0, c, pos, p, k, off);
    StateNow(t);
    SoundNow(t);
    FieldsNow(t);
    s := t.st;
    ghost var p' := Extent(p.data, p.len);
    LocatedNow(t, c, k);
    ptr := StoreFor(t, c, data);
    LocatedNow(t, c, k);
  }

  lemma LocatedNow(t: Text, c: TextChange, k: nat)
    requires Ready(t, c) && k < |t.Chain()|
    ensures t.Chain()[k] in t.st.ext && t.st.ext[t.Chain()[k]] == Extent(t.Chain()[k].data, t.Chain()[k].len)
  {
    t.ChainIs(k);
  }

  /** What storing `data` as `piece` at `pos` amounts to. */
  lemma InsertDone(s: Store, h: Hist, d: Doc, mem: Memory, s': Store, pos: nat, ptr: Ptr, data: seq<byte>, piece: Piece)
    requires Sound(s, h, d) && StoredAt(s.mem, mem, ptr, data) && Fetch(Cells(Extent(ptr, |data|)), mem) == data
    requires Refines(s.(mem := mem), s') && s'.mem == mem && Derived(s.ext, s'.ext, piece)
    requires piece in s'.ext && s'.ext[piece] == Extent(ptr, |data|)
    requires AllIn(Addrs(s.vs[s.at].chain, s.ext), s.mem) && pos <= |Addrs(s.vs[s.at].chain, s.ext)|
    requires s'.at < |s'.vs|
    requires Addrs(s'.vs[s'.at].chain, s'.ext)
             == Inserted(Addrs(s.vs[s.at].chain, s.ext), pos, Cells(Extent(ptr, |data|)))
    ensures Refines(s, s') && Exclusive(s'.ext, s'.mem, piece)
    ensures InsertedAt(StateOf(s.vs[s.at].chain, s.ext, s.mem), StateOf(s'.vs[s'.at].chain, s'.ext, s'.mem), pos, data)
  {
    hide Sound, Refines, Derived, StateOf;
    SoundBounds(s, h, d);
    InsertedState(s, mem, s', pos, ptr, data);
    ExclusiveNew(s.ext, s.mem, s'.ext, mem, ptr, data, piece);
    RefinesGrown(s, mem, s');
  }

  /** Fill in the change, apply it, and update the document. */
  method FillAndFinish(t: Text, c: TextChange, ptr: Ptr, ghost s: Store, pos: nat, data: seq<byte>,
                       p: Piece, ghost k: nat, off: nat)
    requires Ready(t, c) && Located(t, pos, p, k, off) && t.doc.open && WellFormed(t.doc) && pos >= t.lines.pos
    requires t.doc.cur < |t.doc.nodes|
    requires Sound(s, t.h, t.doc) && t.st == s.(mem := t.st.mem) && StoredAt(s.mem, t.st.mem, ptr, data)
    requires Unused(t.st, Extent(ptr, |data|)) && Fetch(Cells(Extent(ptr, |data|)), t.st.mem) == data
    requires AllIn(Addrs(t.Chain(), s.ext), s.mem) && t.doc.Now() == StateOf(t.Chain(), s.ext, s.mem)
    requires FieldsOf(t.h, t.doc, t.history, t.currentRevision, t.lastRevision, t.savedRevision, s.at)
    requires LinesOk(t.lines, t.doc.Now().text) && (t.cache != null ==> t.cache in t.pieces)
    modifies t, t.repr
    ensures t.Valid() && fresh(t.repr - old(t.repr)) && t.doc.cur < |t.doc.nodes|
    ensures t.doc == Edited(old(t.doc), t.doc.Now()) && InsertedAt(old(t.doc.Now()), t.doc.Now(), pos, data)
    ensures CachedStretch(t, pos, pos + |data|) && t.lines == old(t.lines)
    ensures Refines(s, t.st) && t.h == old(t.h)
  {
    hide Waiting, Addrs, Cells, Fetch, Cached, CachedStretch, StoredAt, Unused, FieldsOf, Sound, StoreInv, Refines,
         Derived, Text.Represents, StateOf, LinesOk, WellFormed, Exclusive, InBounds, HistInv;
    ghost var d, h, mem, cache := t.doc, t.h, t.st.mem, t.cache;
    ReadyIs(t, c);
    UnusedIs(t.st, Extent(ptr, |data|));
    ghost var addrs := Addrs(t.Chain(), t.st.ext);
    var piece := InsertPieces(t, c, p, k, off, ptr, |data|);
    RefinesAt(s.(mem := mem), t.st);
    ghost var st := StateOf(t.Chain(), t.st.ext, t.st.mem);
    InsertDone(s, h, d, mem, t.st, pos, ptr, data, piece);
    LinesKept(t.lines, d.Now().text, st.text, pos);
    CachedIs(t.st, piece, cache);
    t.SetDoc(Edited(d, st));
    t.KeysAre();
    Finish(t, s, h, d);
    NewPieceCached(t, piece, Extent(ptr, |data|), addrs, pos);
  }

  /** A piece lies where its addresses do. */
  lemma PieceAtPos(ch: seq<Piece>, j: nat, ext: ExtentMap, a: seq<Ptr>, pos: nat, e: Extent)
    requires j < |ch| && ch[j] in ext && ext[ch[j]] == e && e.data.At? && e.len > 0
    requires NoDup(Addrs(ch, ext)) && pos <= |a| && Addrs(ch, ext) == Inserted(a, pos, Cells(e))
    ensures |Addrs(ch[..j], ext)| == pos && |Addrs(ch[..j + 1], ext)| == pos + e.len
  {
    hide Addrs, Cells;
    CellsLength(e);
    AddrsStep(ch, j, ext);
    assert ch == ch[..j + 1] + ch[j + 1..];
    AddrsConcat(ch[..j + 1], ch[j + 1..], ext);
    assert Addrs(ch, ext)[|Addrs(ch[..j], ext)|] == Cells(e)[0] == Addrs(ch, ext)[pos];
  }

  /** The new piece holds the stretch that was inserted, so what is typed behind it will be put
      there in place. */
  lemma NewPieceCached(t: Text, piece: Piece, e: Extent, a: seq<Ptr>, pos: nat)
    requires t.Inv() && Hit(t, piece) && piece in t.st.ext && t.st.ext[piece] == e && t.st.at < |t.st.vs|
    requires e.data.At? && e.len > 0 && pos <= |a| && Addrs(t.Chain(), t.st.ext) == Inserted(a, pos, Cells(e))
    ensures CachedStretch(t, pos, pos + e.len)
  {
    hide Addrs, StoreInv, Exclusive, Text.Inv, Sound, Text.Represents;
    SoundNow(t);
    HitNewest(t.st, t.h, t.doc, piece);
    var j := NewestIndex(t.st, piece);
    HealthyParts(t);
    t.ChainIs(j);
    PieceAtPos(t.Chain(), j, t.st.ext, a, pos, e);
    assert CachedAt(t, j, pos, pos + e.len);
  }

  lemma CachedIs(s: Store, piece: Piece, was: Piece?)
    requires Exclusive(s.ext, s.mem, piece)
    ensures Cached(s, piece, was) == piece
  {
  }

  /** `text_insert` when the cache cannot take the data: new pieces, recorded in a change. */
  method InsertSlow(t: Text, pos: nat, data: seq<byte>, p: Piece, ghost k: nat, off: nat)
    requires t.Valid() && data != [] && Located(t, pos, p, k, off) && pos >= t.lines.pos
    modifies t, t.repr
    ensures t.Valid() && fresh(t.repr - old(t.repr))
    ensures old(t.doc.cur) < |old(t.doc.nodes)| && t.doc.cur < |t.doc.nodes|
    ensures t.doc == Edited(old(t.doc), t.doc.Now()) && InsertedAt(old(t.doc.Now()), t.doc.Now(), pos, data)
    ensures CachedStretch(t, pos, pos + |data|) && t.lines == old(t.lines)
    ensures SpotAdded(old(t.doc.open), old(t.doc.cur), old(t.Spots()), t.Spots(), pos, |data|)
  {
    hide Text.Inv, Waiting, StoredAt, Unused, FieldsOf, Sound, WellFormed, StateOf, LinesOk, Ready, Located,
         InsertedAt, CachedStretch, GrownBy, NewTip, Refines, SpotsOf, SpotAdded, StoreInv, Addrs;
    ghost var d0, s0, h0 := t.doc, t.st, t.h;
    FieldsNow(t);
    StateNow(t);
    SoundNow(t);
    var c, ptr;
    ghost var s;
    c, ptr, s := PrepareInsert(t, pos, data, p, k, off);
    ghost var d := t.doc;
    FillAndFinish(t, c, ptr, s, pos, data, p, k, off);
    EditedTwice(d0, d, t.doc.Now());
    StateNow(t);
    InsertedLength(d.Now(), t.doc.Now(), pos, data);
    HealthyParts(t);
    SpotRecorded(s0, h0, d0, s, t.h.tips, t.st, pos);
  }

  /** The new contents hold `data` at `pos`, at addresses of their own. */
  ghost predicate InsertedAt(a: State, b: State, pos: nat, data: seq<byte>) {
    && pos <= |a.text| == |a.addrs| && |b.text| == |b.addrs|
    && b.text == Inserted(a.text, pos, data)
    && b.addrs == Inserted(a.addrs, pos, b.addrs[pos..pos + |data|])
  }

  lemma InsertedLength(a: State, b: State, pos: nat, data: seq<byte>)
    requires InsertedAt(a, b, pos, data)
    ensures |b.addrs| == |a.addrs| + |data|
  {
  }

  lemma UnusedIs(s: Store, e: Extent)
    requires Unused(s, e)
    ensures e.data.At? && e.len > 0
  {
  }

  lemma ReadyIs(t: Text, c: TextChange)
    requires Ready(t, c)
    ensures t !in t.repr && t.st.at < |t.st.vs|
  {
  }

  lemma SoundBounds(s: Store, h: Hist, d: Doc)
    requires Sound(s, h, d)
    ensures forall q :: q in s.ext ==> InBounds(s.ext[q], s.mem)
    ensures s.at < |s.vs|
  {
  }

  lemma EditedTwice(d0: Doc, d: Doc, st: State)
    requires d0.cur < |d0.nodes| && d == Edited(d0, d0.Now()) && d.open && d.cur < |d.nodes|
    ensures Edited(d, st) == Edited(d0, st) && Edited(d, st).cur < |Edited(d, st).nodes|
    ensures Edited(d, st).Now() == st
  {
  }

  /** `text_insert` from the piece found on: in place, or not. */
  method InsertFound(t: Text, pos: nat, data: seq<byte>, p: Piece, ghost k: nat, off: nat) returns (ghost inPlace: bool)
    requires t.Valid() && data != [] && Located(t, pos, p, k, off) && p in t.pieces && pos >= t.lines.pos
    modifies t, t.repr
    ensures t.Valid() && fresh(t.repr - old(t.repr))
    ensures Put(old(t.doc), t.doc, pos, data, inPlace) && inPlace == old(InsertsInPlace(t, pos, |data|))
    ensures if inPlace then forall start: nat, end: nat :: old(CachedStretch(t, start, end)) ==>
                              GrewInPlace(old(t.doc), t.doc, pos, data, end)
                              && CachedStretch(t, start, end + |data|)
            else CachedStretch(t, pos, pos + |data|)
    ensures t.lines == old(t.lines)
    ensures if inPlace then SpotGrown(old(t.doc.cur), old(t.Spots()), t.Spots(), |data|)
            else SpotAdded(old(t.doc.open), old(t.doc.cur), old(t.Spots()), t.Spots(), pos, |data|)
  {
    hide SpotsOf, SpotGrown, SpotAdded, Text.Inv, WellFormed, UndoTree.Edited, Hit, CachedStretch, Room,
         InsertsInPlace, DeletesInPlace, InsertedInPlace;
    StateNow(t);
    ghost var s := t.st;
    LocatedExtent(t, p);
    LocatedHit(t, pos, p, k, off, |data|);
    var ok := CacheInsert(t, p, off, data, pos, k, pos - off + p.len);
    if ok { return true; }
    inPlace := false;
    InsertSlow(t, pos, data, p, k, off);
  }

  /** The document once `data` has been put at `pos`. */
  ghost predicate Put(d: Doc, d': Doc, pos: nat, data: seq<byte>, inPlace: bool) {
    && d.cur < |d.nodes| && d'.cur < |d'.nodes| && d' == Edited(d, d'.Now())
    && pos <= |d.Now().text| && d'.Now().text == Inserted(d.Now().text, pos, data)
    && if inPlace then d.open && d'.Now().chain == d.Now().chain else InsertedAt(d.Now(), d'.Now(), pos, data)
  }

  /** `text_insert`.  It happens in place exactly if a byte of the cached piece precedes `pos` or
      ends there, and the block has room; then the new addresses are not at `pos` but behind those
      of that piece. */
  method Insert(t: Text, pos: nat, data: seq<byte>) returns (ok: bool, ghost inPlace: bool)
    requires t.Valid()
    modifies t, t.repr
    ensures t.Valid() && fresh(t.repr - old(t.repr))
    ensures old(t.doc.cur) < |old(t.doc.nodes)| && t.doc.cur < |t.doc.nodes|
    ensures ok <==> data == [] || pos <= |old(t.doc.Now().text)|
    ensures data == [] || !ok ==> unchanged(t) && unchanged(t.repr)
    ensures data != [] && ok ==>
              && t.doc == Edited(old(t.doc), t.doc.Now())
              && t.doc.Now().text == Inserted(old(t.doc.Now().text), pos, data)
              && t.lines == (if pos < old(t.lines.pos) then LineCache(0, 1) else old(t.lines)) && t.lines.pos <= pos
    ensures inPlace <==> data != [] && ok && old(InsertsInPlace(t, pos, |data|))
    ensures inPlace <==> data != [] && ok && old(
              && |t.blocks| > 0
              && t.blocks[|t.blocks| - 1].len + |data| <= t.blocks[|t.blocks| - 1].data.Length
              && exists start: nat, end: nat :: CachedStretch(t, start, end) && start < pos <= end)
    ensures data != [] && ok && !inPlace ==>
              InsertedAt(old(t.doc.Now()), t.doc.Now(), pos, data) && CachedStretch(t, pos, pos + |data|)
    ensures inPlace ==> old(t.doc.open) && t.doc.Now().chain == old(t.doc.Now().chain)
    ensures inPlace ==> forall start: nat, end: nat :: old(CachedStretch(t, start, end)) ==>
              GrewInPlace(old(t.doc), t.doc, pos, data, end) && CachedStretch(t, start, end + |data|)
    ensures data != [] && ok ==>
              if inPlace then SpotGrown(old(t.doc.cur), old(t.Spots()), t.Spots(), |data|)
              else SpotAdded(old(t.doc.open), old(t.doc.cur), old(t.Spots()), t.Spots(), pos, |data|)
  {
    hide Text.Inv, WellFormed, UndoTree.Edited, CachedStretch, InsertsInPlace, GrewInPlace, InsertedAt, Located,
         SpotsOf, SpotGrown, SpotAdded;
    inPlace := false;
    StateNow(t);
    InPlaceIs(t, pos, |data|);
    if data == [] { return true, false; }
    if pos > t.size { return false, false; }
    ForgetLines(t, pos);
    var p, off; ghost var k;
    p, off, k := Locate(t, pos);
    forall start: nat, end: nat | old(CachedStretch(t, start, end)) ensures CachedStretch(t, start, end) {}
    inPlace := InsertFound(t, pos, data, p, k, off);
    ok := true;
  }
}
