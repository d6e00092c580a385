/** What replacing a stretch of a chain does to its addresses and bytes, and when the change
    being filled in may be committed. */
module Splices {
  import opened Bytes
  import opened History
  import opened Extents
  import opened Store

  /** Blocks only ever grow at their ends, or at the end of the array. */
  ghost predicate Extends(mem: Memory, mem': Memory) {
    |mem| <= |mem'| && forall b :: 0 <= b < |mem| ==> mem[b] <= mem'[b]
  }

  /** All addresses of a chain lie within memory. */
  ghost predicate AllIn(addrs: seq<Ptr>, mem: Memory) {
    forall a :: a in addrs ==> a.At? && a.blk < |mem| && a.off < |mem[a.blk]|
  }

  lemma ChainAddrsIn(ch: seq<Piece>, ext: ExtentMap, mem: Memory)
    requires forall p :: p in ch && p in ext ==> InBounds(ext[p], mem)
    ensures AllIn(Addrs(ch, ext), mem)
  {
    forall k | 0 <= k < |Addrs(ch, ext)|
      ensures var a := Addrs(ch, ext)[k]; a.At? && a.blk < |mem| && a.off < |mem[a.blk]|
    {
      var i := AddrsFrom(ch, ext, k);
      assert ch[i] in ch;
    }
  }

  lemma FetchExtends(addrs: seq<Ptr>, mem: Memory, mem': Memory)
    requires AllIn(addrs, mem) && Extends(mem, mem')
    ensures Fetch(addrs, mem') == Fetch(addrs, mem)
  {
    BytesFrame(addrs, mem, mem');
  }

  /** A revision's contents do not change when memory and the set of pieces grow. */
  lemma StateExtends(ch: seq<Piece>, ext: ExtentMap, mem: Memory, ext': ExtentMap, mem': Memory)
    requires forall p :: p in ch ==> p in ext && p in ext' && ext'[p] == ext[p] && InBounds(ext[p], mem)
    requires Extends(mem, mem')
    ensures StateOf(ch, ext', mem') == StateOf(ch, ext, mem)
  {
    AddrsFrame(ch, ext, ext');
    ChainAddrsIn(ch, ext, mem);
    FetchExtends(Addrs(ch, ext), mem, mem');
  }

  /** Nothing in the store depends on free block space. */
  lemma GrowMemory(s: Store, mem': Memory)
    requires StoreInv(s) && Extends(s.mem, mem')
    ensures StoreInv(s.(mem := mem'))
  {
    var s' := s.(mem := mem');
    forall v | 0 <= v < |s.vs| ensures ChainAt(s', v) { assert ChainAt(s, v); }
    forall v | 0 < v < |s.vs| ensures SpansAt(s', v) { assert SpansAt(s, v); }
  }

  lemma SpliceAddrs(ver: Version, base: seq<Piece>, ext: ExtentMap, ext': ExtentMap)
    requires Spliced(ver, base) && forall p :: p in base ==> ExtentOf(ext, p) == ExtentOf(ext', p)
    ensures Addrs(base, ext) ==
            Addrs(base[..ver.lo], ext) + Addrs(base[ver.lo..ver.hi], ext) + Addrs(base[ver.hi..], ext)
    ensures Addrs(ver.chain, ext') ==
            Addrs(base[..ver.lo], ext) + Addrs(ver.mid, ext') + Addrs(base[ver.hi..], ext)
  {
    var lo, hi := ver.lo, ver.hi;
    AddrsSplit(base, lo, hi, ext);
    AddrsConcat(base[..lo] + ver.mid, base[hi..], ext');
    AddrsConcat(base[..lo], ver.mid, ext');
    AddrsFrame(base[..lo], ext, ext');
    AddrsFrame(base[hi..], ext, ext');
  }

  /** The new stretch has `born` between what is left of the old one. */
  lemma InsertAddrs(ver: Version, base: seq<Piece>, ext: ExtentMap, ext': ExtentMap,
                    pos: nat, x: seq<Ptr>, born: seq<Ptr>, y: seq<Ptr>)
    requires Spliced(ver, base) && forall p :: p in base ==> ExtentOf(ext, p) == ExtentOf(ext', p)
    requires Addrs(base[ver.lo..ver.hi], ext) == x + y && Addrs(ver.mid, ext') == x + born + y
    requires pos == |Addrs(base[..ver.lo], ext)| + |x|
    ensures pos <= |Addrs(base, ext)| && Addrs(ver.chain, ext') == Inserted(Addrs(base, ext), pos, born)
  {
    hide Addrs, NoDup, ExtentOf;
    SpliceAddrs(ver, base, ext, ext');
    InsertedBetween(Addrs(base[..ver.lo], ext), x, born, y, Addrs(base[ver.hi..], ext));
  }

  /** The old stretch has `dead` between what the new one keeps. */
  lemma DeleteAddrs(ver: Version, base: seq<Piece>, ext: ExtentMap, ext': ExtentMap,
                    pos: nat, x: seq<Ptr>, dead: seq<Ptr>, y: seq<Ptr>)
    requires Spliced(ver, base) && forall p :: p in base ==> ExtentOf(ext, p) == ExtentOf(ext', p)
    requires Addrs(base[ver.lo..ver.hi], ext) == x + dead + y && Addrs(ver.mid, ext') == x + y
    requires pos == |Addrs(base[..ver.lo], ext)| + |x|
    ensures pos + |dead| <= |Addrs(base, ext)|
    ensures Addrs(ver.chain, ext') == Removed(Addrs(base, ext), pos, |dead|)
  {
    hide Addrs, NoDup, ExtentOf;
    SpliceAddrs(ver, base, ext, ext');
    RemovedBetween(Addrs(base[..ver.lo], ext), x, dead, y, Addrs(base[ver.hi..], ext));
  }

  lemma InsertedFetch(a: seq<Ptr>, pos: nat, born: seq<Ptr>, mem: Memory, mem': Memory, data: seq<byte>)
    requires pos <= |a| && AllIn(a, mem) && Extends(mem, mem') && Fetch(born, mem') == data
    ensures Fetch(Inserted(a, pos, born), mem') == Inserted(Fetch(a, mem), pos, data)
  {
    FetchExtends(a, mem, mem');
    FetchThree(a[..pos], born, a[pos..], mem');
  }

  lemma RemovedFetch(a: seq<Ptr>, pos: nat, len: nat, mem: Memory)
    requires pos + len <= |a|
    ensures Fetch(Removed(a, pos, len), mem) == Removed(Fetch(a, mem), pos, len)
  {
    BytesConcat(a[..pos], a[pos + len..], mem);
  }

  lemma InsertedNoDup(a: seq<Ptr>, pos: nat, born: seq<Ptr>)
    requires pos <= |a| && NoDup(a) && NoDup(born) && forall x :: x in born ==> x !in a
    ensures NoDup(Inserted(a, pos, born))
  {
    var s, n := Inserted(a, pos, born), |born|;
    forall i, j | 0 <= i < j < |s| ensures s[i] != s[j] {
      var fi, fj := pos <= i < pos + n, pos <= j < pos + n;
      if fi && fj {
        assert s[i] == born[i - pos] && s[j] == born[j - pos];
      } else if fi {
        assert s[i] in born && s[j] == a[j - n];
      } else if fj {
        assert s[j] in born && s[i] == a[i];
      } else {
        assert s[i] == a[if i < pos then i else i - n] && s[j] == a[if j < pos then j else j - n];
      }
    }
  }

  lemma RemovedNoDup(a: seq<Ptr>, pos: nat, len: nat)
    requires pos + len <= |a| && NoDup(a)
    ensures NoDup(Removed(a, pos, len))
  {
    var s := Removed(a, pos, len);
    forall i, j | 0 <= i < j < |s| ensures s[i] != s[j] {
      assert s[i] == a[if i < pos then i else i + len] && s[j] == a[if j < pos then j else j + len];
    }
  }

  /** Cells of a piece cut at `n`. */
  lemma CellsCut(e: Extent, n: nat)
    requires e.data.At? && n <= e.len
    ensures |Cells(e)| == e.len && Cells(e)[..n] == Cells(Extent(e.data, n))
    ensures Cells(e)[n..] == Cells(Extent(At(e.data.blk, e.data.off + n), e.len - n))
  {
  }

  lemma CellsNoDup(e: Extent)
    ensures NoDup(Cells(e))
  {
  }

  /** Bytes just stored at the end of a block have addresses no chain uses. */
  lemma StoredFresh(e: Extent, mem: Memory, mem': Memory, data: seq<byte>, a: seq<Ptr>)
    requires AllIn(a, mem) && e.data.At? && e.len == |data| && e.data.blk < |mem'|
    requires e.data.off == if e.data.blk < |mem| then |mem[e.data.blk]| else 0
    requires mem'[e.data.blk] == (if e.data.blk < |mem| then mem[e.data.blk] else []) + data
    ensures forall x :: x in Cells(e) ==> x !in a
    ensures Fetch(Cells(e), mem') == data
  {
    BytesOfCells(e, mem');
  }

  // ----- what an insertion or deletion turns the store into -----

  /** `data` was stored at `p`, at the end of the last block; nothing else in memory changed. */
  ghost predicate StoredAt(mem: Memory, mem': Memory, p: Ptr, data: seq<byte>) {
    && p.At? && p.blk < |mem'| && p.blk == |mem'| - 1
    && Extends(mem, mem')
    && p.off == (if p.blk < |mem| then |mem[p.blk]| else 0)
    && mem'[p.blk] == (if p.blk < |mem| then mem[p.blk] else []) + data
  }

  /** A store waiting for its newest change to be filled in. */
  ghost predicate Waiting(s: Store) {
    && StoreInv(s) && 0 < s.at == |s.vs| - 1 && |s.chg| == |s.vs|
    && s.vs[s.at].parent < s.at && s.vs[s.at] == NoopVersion(s.vs, s.vs[s.at].parent)
  }

  /** The store with its newest change filled in as `ver`, but not yet applied. */
  ghost function Filled(s: Store, ver: Version, links: LinkMap, ext: ExtentMap, o: Span, n: Span): Store
    requires s.at < |s.vs| && s.at < |s.chg|
  {
    s.(vs := s.vs[s.at := ver], at := ver.parent, links := links, ext := ext,
       chg := s.chg[s.at := s.chg[s.at].(oldSpan := o, newSpan := n)])
  }

  /** The version that puts `mid` in place of `chain[lo..hi]`. */
  function Replacement(s: Store, lo: nat, hi: nat, mid: seq<Piece>): Version
    requires s.at < |s.vs| && lo <= hi <= |s.vs[s.at].chain|
  {
    var ch := s.vs[s.at].chain;
    Version(s.vs[s.at].parent, lo, hi, mid, ch[..lo] + mid + ch[hi..])
  }

  /** New pieces: unknown to the store so far, and pointing where `span_swap` will put them. */
  ghost predicate Prepared(s: Store, ver: Version, links: LinkMap, ext: ExtentMap, mem: Memory) {
    && (forall p :: p in ver.mid ==> p !in s.links && p in ext && ext[p].data.At?)
    && links.Keys == ext.Keys
    && (forall p :: p in s.links ==> p in links && links[p] == s.links[p])
    && (forall p :: p in s.ext ==> p in ext && ext[p] == s.ext[p])
    && (forall p :: p in ext && p !in s.ext ==> InBounds(ext[p], mem))
    && (forall i :: ver.lo <= i < ver.lo + |ver.mid| ==> i < |ver.chain| && LinkedAt(links, ver.chain, i))
    && NoDup(ver.mid)
  }

  lemma SplicedNoDup(base: seq<Piece>, lo: nat, hi: nat, mid: seq<Piece>)
    requires NoDup(base) && NoDup(mid) && lo <= hi <= |base| && forall p :: p in mid ==> p !in base
    ensures NoDup(base[..lo] + mid + base[hi..])
  {
    var s, n := base[..lo] + mid + base[hi..], |mid|;
    forall i, j | 0 <= i < j < |s| ensures s[i] != s[j] {
      if lo <= i < lo + n {
        assert s[i] == mid[i - lo] && s[i] in mid;
        if j < lo + n { assert s[j] == mid[j - lo]; } else { assert s[j] == base[j - lo - n + hi]; }
      } else if lo <= j < lo + n {
        assert s[j] == mid[j - lo] && s[j] in mid && s[i] == base[i];
      } else {
        assert s[i] == base[if i < lo then i else i - lo - n + hi];
        assert s[j] == base[if j < lo then j else j - lo - n + hi];
      }
    }
  }

  /** A prepared replacement fills in the waiting change. */
  lemma FillsReady(s: Store, lo: nat, hi: nat, mid: seq<Piece>, links: LinkMap, ext: ExtentMap, o: Span, n: Span)
    requires Waiting(s) && 1 <= lo <= hi < |s.vs[s.at].chain|
    requires Prepared(s, Replacement(s, lo, hi, mid), links, ext, s.mem)
    requires NoDup(Addrs(Replacement(s, lo, hi, mid).chain, ext))
    requires SpanIs(n, mid, ext) && SpanIs(o, s.vs[s.at].chain[lo..hi], s.ext)
    ensures Fills(s, Replacement(s, lo, hi, mid), Filled(s, Replacement(s, lo, hi, mid), links, ext, o, n))
  {
    var ver := Replacement(s, lo, hi, mid);
    WaitingChain(s);
    SplicedNoDup(s.vs[s.at].chain, lo, hi, mid);
    AddrsFrame(s.vs[s.at].chain[lo..hi], s.ext, ext);
    FillsIf(s, ver, links, ext, o, n);
  }

  lemma FillsIf(s: Store, ver: Version, links: LinkMap, ext: ExtentMap, o: Span, n: Span)
    requires Waiting(s) && ver.parent == s.vs[s.at].parent && Spliced(ver, s.vs[s.at].chain)
    requires Prepared(s, ver, links, ext, s.mem)
    requires NoDup(Addrs(ver.chain, ext)) && NoDup(ver.chain)
    requires SpanIs(n, ver.mid, ext) && SpanIs(o, s.vs[s.at].chain[ver.lo..ver.hi], ext)
    ensures Fills(s, ver, Filled(s, ver, links, ext, o, n))
  {
    assert SameSpans(s.chg, Filled(s, ver, links, ext, o, n).chg, s.at);
  }

  // ----- an insertion between two pieces -----

  lemma BetweenAddrs(s: Store, k: nat, p: Piece, e: Extent)
    requires Waiting(s) && k + 1 < |s.vs[s.at].chain| && p !in s.links && e.data.At?
    requires forall a :: a in Cells(e) ==> a !in Addrs(s.vs[s.at].chain, s.ext)
    ensures var ch, ext := s.vs[s.at].chain, s.ext[p := e];
            var ver := Replacement(s, k + 1, k + 1, [p]);
            && |Addrs([p], ext)| == e.len
            && |Addrs(ch[..k + 1], s.ext)| <= |Addrs(ch, s.ext)|
            && Addrs(ver.chain, ext) == Inserted(Addrs(ch, s.ext), |Addrs(ch[..k + 1], s.ext)|, Cells(e))
            && NoDup(Addrs(ver.chain, ext))
  {
    hide Waiting;
    WaitingChain(s);
    var ch, ext := s.vs[s.at].chain, s.ext[p := e];
    var ver := Replacement(s, k + 1, k + 1, [p]);
    AddrsOne(p, ext);
    assert ch[k + 1..k + 1] == [];
    assert Spliced(ver, ch);
    InsertAddrs(ver, ch, s.ext, ext, |Addrs(ch[..k + 1], s.ext)|, [], Cells(e), []);
    CellsNoDup(e);
    InsertedNoDup(Addrs(ch, s.ext), |Addrs(ch[..k + 1], s.ext)|, Cells(e));
  }

  lemma BetweenPrepared(s: Store, k: nat, p: Piece, e: Extent)
    requires s.links.Keys == s.ext.Keys && s.at < |s.vs| && k + 1 < |s.vs[s.at].chain| && p !in s.links
    requires e.data.At? && InBounds(e, s.mem)
    ensures var ch := s.vs[s.at].chain;
            Prepared(s, Replacement(s, k + 1, k + 1, [p]), s.links[p := Link(ch[k], ch[k + 1])], s.ext[p := e], s.mem)
  {
    var ch, ver := s.vs[s.at].chain, Replacement(s, k + 1, k + 1, [p]);
    assert ver.chain[k + 1] == p && ver.chain[k] == ch[k] && ver.chain[k + 2] == ch[k + 1];
  }

  /** The pieces and spans of an insertion after piece number `k`. */
  lemma BetweenFills(s: Store, k: nat, p: Piece, e: Extent)
    requires Waiting(s) && k + 1 < |s.vs[s.at].chain| && p !in s.links
    requires e.data.At? && e.len > 0 && InBounds(e, s.mem)
    requires forall a :: a in Cells(e) ==> a !in Addrs(s.vs[s.at].chain, s.ext)
    ensures var ch := s.vs[s.at].chain;
            var ver := Replacement(s, k + 1, k + 1, [p]);
            var links, ext := s.links[p := Link(ch[k], ch[k + 1])], s.ext[p := e];
            Fills(s, ver, Filled(s, ver, links, ext, EMPTY_SPAN, Span(p, p, e.len)))
  {
    hide Waiting, Fills, Prepared;
    WaitingChain(s);
    var ch := s.vs[s.at].chain;
    var ver := Replacement(s, k + 1, k + 1, [p]);
    var links, ext := s.links[p := Link(ch[k], ch[k + 1])], s.ext[p := e];
    BetweenAddrs(s, k, p, e);
    assert ch[k + 1..k + 1] == [];
    BetweenPrepared(s, k, p, e);
    FillsReady(s, k + 1, k + 1, [p], links, ext, EMPTY_SPAN, Span(p, p, e.len));
  }

  lemma WaitingChain(s: Store)
    requires Waiting(s)
    ensures s.links.Keys == s.ext.Keys && s.at < |s.vs| == |s.chg|
    ensures var ch := s.vs[s.at].chain;
            && NoDup(ch) && NoDup(Addrs(ch, s.ext)) && |ch| >= 2
            && (forall p :: p in ch ==> p in s.ext && p in s.links)
            && AllIn(Addrs(ch, s.ext), s.mem)
  {
    assert ChainAt(s, s.at) && GoodVersion(s.vs, s.at);
    ChainAddrsIn(s.vs[s.at].chain, s.ext, s.mem);
  }

  // ----- an insertion into a piece -----

  /** The three pieces that replace a split one. */
  datatype Split = Split(before: Piece, mid: Piece, after: Piece)

  function SplitLinks(ls: LinkMap, t: Split, l: Piece, r: Piece): LinkMap {
    ls[t.before := Link(l, t.mid)][t.mid := Link(t.before, t.after)][t.after := Link(t.mid, r)]
  }

  function SplitExtents(ext: ExtentMap, t: Split, p: Extent, off: nat, e: Extent): ExtentMap
    requires p.data.At? && off <= p.len
  {
    ext[t.before := Extent(p.data, off)][t.mid := e]
       [t.after := Extent(At(p.data.blk, p.data.off + off), p.len - off)]
  }

  ghost predicate NewSplit(s: Store, t: Split) {
    && t.before != t.mid && t.mid != t.after && t.before != t.after
    && t.before !in s.links && t.mid !in s.links && t.after !in s.links
  }

  lemma SplitFrame(s: Store, t: Split, p: Extent, off: nat, e: Extent, ch: seq<Piece>)
    requires NewSplit(s, t) && p.data.At? && off <= p.len && forall q :: q in ch ==> q in s.links
    ensures forall q :: q in ch ==> ExtentOf(s.ext, q) == ExtentOf(SplitExtents(s.ext, t, p, off, e), q)
  {
  }

  lemma SplitLinked(s: Store, t: Split, ch: seq<Piece>, k: nat)
    requires NewSplit(s, t) && 0 < k && k + 1 < |ch|
    ensures var to, ls := ch[..k] + [t.before, t.mid, t.after] + ch[k + 1..],
            SplitLinks(s.links, t, ch[k - 1], ch[k + 1]);
            forall i :: k <= i < k + 3 ==> i < |to| && LinkedAt(ls, to, i)
  {
    var to := ch[..k] + [t.before, t.mid, t.after] + ch[k + 1..];
    assert to[k] == t.before && to[k + 1] == t.mid && to[k + 2] == t.after;
    assert to[k - 1] == ch[k - 1] && to[k + 3] == ch[k + 1];
  }

  lemma SplitKeepsLinks(ls: LinkMap, t: Split, l: Piece, r: Piece)
    ensures SplitLinks(ls, t, l, r).Keys == ls.Keys + {t.before, t.mid, t.after}
    ensures forall p :: p in ls && p != t.before && p != t.mid && p != t.after ==> SplitLinks(ls, t, l, r)[p] == ls[p]
  {
  }

  lemma SplitKeepsExtents(ext: ExtentMap, mem: Memory, t: Split, p: Extent, off: nat, e: Extent)
    requires p.data.At? && off <= p.len && InBounds(p, mem) && e.data.At? && InBounds(e, mem)
    requires t.before !in ext && t.mid !in ext && t.after !in ext
    requires t.before != t.mid && t.mid != t.after && t.before != t.after
    ensures var ext' := SplitExtents(ext, t, p, off, e);
            && ext'.Keys == ext.Keys + {t.before, t.mid, t.after}
            && (forall q :: q in ext ==> ext'[q] == ext[q])
            && (forall q :: q in ext' && q !in ext ==> ext'[q].data.At? && InBounds(ext'[q], mem))
  {
  }

  lemma InsidePrepared(s: Store, k: nat, t: Split, off: nat, e: Extent)
    requires e.data.At? && s.links.Keys == s.ext.Keys && s.at < |s.vs| && 0 < k && k + 1 < |s.vs[s.at].chain|
    requires NewSplit(s, t) && InBounds(e, s.mem)
    requires var p := s.vs[s.at].chain[k];
             p in s.ext && s.ext[p].data.At? && off <= s.ext[p].len && InBounds(s.ext[p], s.mem)
    ensures var ch := s.vs[s.at].chain;
            Prepared(s, Replacement(s, k, k + 1, [t.before, t.mid, t.after]),
                     SplitLinks(s.links, t, ch[k - 1], ch[k + 1]),
                     SplitExtents(s.ext, t, s.ext[ch[k]], off, e), s.mem)
  {
    hide LinkedAt, Addrs, SplitLinks, SplitExtents;
    SplitKeepsExtents(s.ext, s.mem, t, s.ext[s.vs[s.at].chain[k]], off, e);
    SplitKeepsLinks(s.links, t, s.vs[s.at].chain[k - 1], s.vs[s.at].chain[k + 1]);
    SplitLinked(s, t, s.vs[s.at].chain, k);
  }

  lemma SplitCells(s: Store, t: Split, p: Extent, off: nat, e: Extent)
    requires NewSplit(s, t) && p.data.At? && off <= p.len
    ensures var ext := SplitExtents(s.ext, t, p, off, e);
            && Addrs([t.before, t.mid, t.after], ext) == Cells(p)[..off] + Cells(e) + Cells(p)[off..]
  {
    hide Addrs, Cells;
    var ext := SplitExtents(s.ext, t, p, off, e);
    CellsLength(p);
    CellsCut(p, off);
    AddrsConcat([t.before] + [t.mid], [t.after], ext);
    AddrsConcat([t.before], [t.mid], ext);
    AddrsOne(t.before, ext);
    AddrsOne(t.mid, ext);
    AddrsOne(t.after, ext);
    assert [t.before] + [t.mid] + [t.after] == [t.before, t.mid, t.after];
  }

  lemma InsideAddrs(s: Store, k: nat, t: Split, off: nat, e: Extent)
    requires Waiting(s) && 0 < k && k + 1 < |s.vs[s.at].chain| && NewSplit(s, t) && e.data.At?
    requires var p := s.vs[s.at].chain[k]; p in s.ext && s.ext[p].data.At? && off <= s.ext[p].len
    requires forall a :: a in Cells(e) ==> a !in Addrs(s.vs[s.at].chain, s.ext)
    ensures var ch := s.vs[s.at].chain;
            var p := s.ext[ch[k]];
            var ver, ext := Replacement(s, k, k + 1, [t.before, t.mid, t.after]), SplitExtents(s.ext, t, p, off, e);
            && |Addrs([t.before, t.mid, t.after], ext)| == p.len + |Cells(e)|
            && Addrs(ch[k..k + 1], s.ext) == Cells(p)
            && |Addrs(ch[..k], s.ext)| + off <= |Addrs(ch, s.ext)|
            && Addrs(ver.chain, ext) == Inserted(Addrs(ch, s.ext), |Addrs(ch[..k], s.ext)| + off, Cells(e))
            && NoDup(Addrs(ver.chain, ext))
  {
    hide Waiting, Addrs, Cells, NoDup;
    WaitingChain(s);
    var ch := s.vs[s.at].chain;
    var p := s.ext[ch[k]];
    CellsLength(p);
    PrefixFits(ch, k, s.ext);
    SplitFrame(s, t, p, off, e, ch);
    var ver, ext := Replacement(s, k, k + 1, [t.before, t.mid, t.after]), SplitExtents(s.ext, t, p, off, e);
    SplitCells(s, t, p, off, e);
    assert ch[k..k + 1] == [ch[k]];
    AddrsOne(ch[k], s.ext);
    assert Cells(p) == Cells(p)[..off] + Cells(p)[off..];
    assert Spliced(ver, ch);
    InsertAddrs(ver, ch, s.ext, ext, |Addrs(ch[..k], s.ext)| + off, Cells(p)[..off], Cells(e), Cells(p)[off..]);
    CellsNoDup(e);
    InsertedNoDup(Addrs(ch, s.ext), |Addrs(ch[..k], s.ext)| + off, Cells(e));
  }

  /** The pieces and spans of an insertion into piece number `k`. */
  lemma InsideFills(s: Store, k: nat, t: Split, off: nat, e: Extent)
    returns (links: LinkMap, ext: ExtentMap, o: Span, n: Span)
    requires Waiting(s) && 0 < k && k + 1 < |s.vs[s.at].chain| && NewSplit(s, t)
    requires e.data.At? && e.len > 0 && InBounds(e, s.mem)
    requires var p := s.vs[s.at].chain[k];
             p in s.ext && s.ext[p].data.At? && off <= s.ext[p].len && s.ext[p].len > 0 && InBounds(s.ext[p], s.mem)
    requires forall a :: a in Cells(e) ==> a !in Addrs(s.vs[s.at].chain, s.ext)
    ensures links == SplitLinks(s.links, t, s.vs[s.at].chain[k - 1], s.vs[s.at].chain[k + 1])
    ensures ext == SplitExtents(s.ext, t, s.ext[s.vs[s.at].chain[k]], off, e)
    ensures o == Span(s.vs[s.at].chain[k], s.vs[s.at].chain[k], s.ext[s.vs[s.at].chain[k]].len)
    ensures n == Span(t.before, t.after, s.ext[s.vs[s.at].chain[k]].len + e.len)
    ensures var ver := Replacement(s, k, k + 1, [t.before, t.mid, t.after]);
            Fills(s, ver, Filled(s, ver, links, ext, o, n))
  {
    hide Waiting, Fills, Prepared, NoDup;
    WaitingChain(s);
    var ch := s.vs[s.at].chain;
    var p, mid := ch[k], [t.before, t.mid, t.after];
    links, ext := SplitLinks(s.links, t, ch[k - 1], ch[k + 1]), SplitExtents(s.ext, t, s.ext[p], off, e);
    o, n := Span(p, p, s.ext[p].len), Span(t.before, t.after, s.ext[p].len + e.len);
    InsidePrepared(s, k, t, off, e);
    InsideAddrs(s, k, t, off, e);
    FillsInside(s, k, mid, links, ext, o, n);
  }

  lemma FillsInside(s: Store, k: nat, mid: seq<Piece>, links: LinkMap, ext: ExtentMap, o: Span, n: Span)
    requires Waiting(s) && 1 <= k && k + 1 < |s.vs[s.at].chain| && mid != []
    requires Prepared(s, Replacement(s, k, k + 1, mid), links, ext, s.mem)
    requires NoDup(Addrs(Replacement(s, k, k + 1, mid).chain, ext))
    requires n == Span(mid[0], mid[|mid| - 1], |Addrs(mid, ext)|) && n.len > 0
    requires var p := s.vs[s.at].chain[k];
             p in s.ext && s.ext[p].data.At? && s.ext[p].len > 0 && o == Span(p, p, s.ext[p].len)
    ensures Fills(s, Replacement(s, k, k + 1, mid), Filled(s, Replacement(s, k, k + 1, mid), links, ext, o, n))
  {
    hide Waiting, Fills, Prepared, NoDup, Addrs, Cells;
    WaitingChain(s);
    var ch := s.vs[s.at].chain;
    assert ch[k..k + 1] == [ch[k]];
    AddrsOne(ch[k], s.ext);
    CellsLength(s.ext[ch[k]]);
    FillsReady(s, k, k + 1, mid, links, ext, o, n);
  }
}
