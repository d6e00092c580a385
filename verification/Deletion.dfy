/** `text_delete`.

    The cached piece is edited in place if it can be.  Otherwise the pieces the range touches
    are replaced by what is left of the first and of the last one, which may be nothing. */
module Deletion {
  import opened Bytes
  import opened History
  import opened Extents
  import opened UndoTree
  import opened Store
  import opened Revisions
  import opened PieceChain
  import opened Splices
  import opened Editing
  import opened Cache
  import opened Insertion

  /** The pieces that replace a deleted stretch: what is left of its first and of its last
      piece, if the deletion starts or stops midway. */
  datatype Rest = Rest(before: Option<Piece>, after: Option<Piece>)

  function Some1(o: Option<Piece>): seq<Piece> {
    match o case None => [] case Some(p) => [p]
  }

  function RestPieces(r: Rest): seq<Piece> {
    Some1(r.before) + Some1(r.after)
  }

  function RestLinks(ls: LinkMap, r: Rest, l: Piece, n: Piece): LinkMap {
    var one := match r.after
               case None => ls
               case Some(a) => ls[a := Link(if r.before.Some? then r.before.value else l, n)];
    match r.before
    case None => one
    case Some(b) => one[b := Link(l, if r.after.Some? then r.after.value else n)]
  }

  /** The tail of an extent. */
  function Tail(e: Extent, n: nat): Extent
    requires n <= e.len
  {
    Extent(if e.data.At? then At(e.data.blk, e.data.off + e.len - n) else e.data, n)
  }

  function RestExtents(ext: ExtentMap, r: Rest, first: Extent, off: nat, last: Extent, n: nat): ExtentMap
    requires n <= last.len
  {
    var one := match r.after case None => ext case Some(a) => ext[a := Tail(last, n)];
    match r.before case None => one case Some(b) => one[b := Extent(first.data, off)]
  }

  /** The stretch `[lo..hi]` of the chain, of which `off` bytes at the start and `n` at the end
      stay. */
  ghost predicate Cut(s: Store, lo: nat, hi: nat, r: Rest, off: nat, n: nat) {
    && s.at < |s.vs| && 1 <= lo < hi < |s.vs[s.at].chain|
    && var ch := s.vs[s.at].chain;
       && ch[lo] in s.ext && ch[hi - 1] in s.ext
       && off <= s.ext[ch[lo]].len && n <= s.ext[ch[hi - 1]].len
       && (r.before.Some? <==> off > 0) && (r.after.Some? <==> n > 0)
       && (off > 0 ==> s.ext[ch[lo]].data.At?) && (n > 0 ==> s.ext[ch[hi - 1]].data.At?)
       && (forall p :: p in RestPieces(r) ==> p !in s.links && p !in s.ext)
       && (r.before.Some? && r.after.Some? ==> r.before.value != r.after.value)
       && off + n < |Addrs(ch[lo..hi], s.ext)|
  }

  lemma TailCells(e: Extent, n: nat)
    requires e.data.At? && n <= e.len
    ensures Cells(Tail(e, n)) == Cells(e)[e.len - n..]
  {
  }

  lemma HeadCells(e: Extent, n: nat)
    requires e.data.At? && n <= e.len
    ensures Cells(Extent(e.data, n)) == Cells(e)[..n]
  {
  }

  /** The first and last bytes of the stretch are those of its first and last piece. */
  lemma StretchEnds(ch: seq<Piece>, lo: nat, hi: nat, ext: ExtentMap)
    requires lo < hi <= |ch|
    ensures var a := Addrs(ch[lo..hi], ext);
            var f, l := Cells(ExtentOf(ext, ch[lo])), Cells(ExtentOf(ext, ch[hi - 1]));
            && |f| <= |a| && a[..|f|] == f && |l| <= |a| && a[|a| - |l|..] == l
  {
    hide Addrs, Cells, ExtentOf;
    assert ch[lo..hi] == [ch[lo]] + ch[lo + 1..hi];
    AddrsConcat([ch[lo]], ch[lo + 1..hi], ext);
    AddrsOne(ch[lo], ext);
    assert ch[lo..hi] == ch[lo..hi - 1] + [ch[hi - 1]];
    AddrsConcat(ch[lo..hi - 1], [ch[hi - 1]], ext);
    AddrsOne(ch[hi - 1], ext);
  }

  lemma PrefixOf<T>(a: seq<T>, f: seq<T>, n: nat)
    requires n <= |f| <= |a| && a[..|f|] == f
    ensures f[..n] == a[..n]
  {
    assert a[..n] == a[..|f|][..n];
  }

  lemma SuffixOf<T>(a: seq<T>, l: seq<T>, n: nat)
    requires n <= |l| <= |a| && a[|a| - |l|..] == l
    ensures l[|l| - n..] == a[|a| - n..]
  {
    assert a[|a| - n..] == a[|a| - |l|..][|l| - n..];
  }

  lemma BeforeCells(ext: ExtentMap, r: Rest, first: Extent, off: nat, last: Extent, n: nat)
    requires n <= last.len && off <= first.len && (r.before.Some? <==> off > 0) && (off > 0 ==> first.data.At?)
    ensures Addrs(Some1(r.before), RestExtents(ext, r, first, off, last, n)) ==
            if off > 0 then Cells(first)[..off] else []
  {
    if off > 0 {
      AddrsOne(r.before.value, RestExtents(ext, r, first, off, last, n));
      HeadCells(first, off);
    }
  }

  lemma AfterCells(ext: ExtentMap, r: Rest, first: Extent, off: nat, last: Extent, n: nat)
    requires n <= last.len && (r.after.Some? <==> n > 0) && (n > 0 ==> last.data.At?)
    requires r.before.Some? && r.after.Some? ==> r.before.value != r.after.value
    ensures Addrs(Some1(r.after), RestExtents(ext, r, first, off, last, n)) ==
            if n > 0 then Cells(last)[last.len - n..] else []
  {
    if n > 0 {
      AddrsOne(r.after.value, RestExtents(ext, r, first, off, last, n));
      TailCells(last, n);
    }
  }

  /** What the remaining pieces cover. */
  lemma RestCells(s: Store, lo: nat, hi: nat, r: Rest, off: nat, n: nat)
    requires Cut(s, lo, hi, r, off, n)
    ensures var ch := s.vs[s.at].chain;
            var ext := RestExtents(s.ext, r, s.ext[ch[lo]], off, s.ext[ch[hi - 1]], n);
            var a := Addrs(ch[lo..hi], s.ext);
            Addrs(RestPieces(r), ext) == a[..off] + a[|a| - n..]
  {
    hide RestExtents, Addrs, Cells;
    var ch := s.vs[s.at].chain;
    var f, l := s.ext[ch[lo]], s.ext[ch[hi - 1]];
    CellsLength(f);
    CellsLength(l);
    var a := Addrs(ch[lo..hi], s.ext);
    StretchEnds(ch, lo, hi, s.ext);
    AddrsConcat(Some1(r.before), Some1(r.after), RestExtents(s.ext, r, f, off, l, n));
    BeforeCells(s.ext, r, f, off, l, n);
    AfterCells(s.ext, r, f, off, l, n);
    if off > 0 { PrefixOf(a, Cells(f), off); }
    if n > 0 { SuffixOf(a, Cells(l), n); }
  }

  lemma RestPrepared(s: Store, lo: nat, hi: nat, r: Rest, off: nat, n: nat)
    requires Cut(s, lo, hi, r, off, n) && s.links.Keys == s.ext.Keys
    requires var ch := s.vs[s.at].chain; InBounds(s.ext[ch[lo]], s.mem) && InBounds(s.ext[ch[hi - 1]], s.mem)
    ensures var ch := s.vs[s.at].chain;
            Prepared(s, Replacement(s, lo, hi, RestPieces(r)), RestLinks(s.links, r, ch[lo - 1], ch[hi]),
                     RestExtents(s.ext, r, s.ext[ch[lo]], off, s.ext[ch[hi - 1]], n), s.mem)
  {
    hide Addrs, RestLinks, RestExtents;
    CutIs(s, lo, hi, r, off, n);
    var ch := s.vs[s.at].chain;
    RestLinked(s.links, r, ch, lo, hi);
    RestBounds(s.ext, s.mem, r, s.ext[ch[lo]], off, s.ext[ch[hi - 1]], n);
  }

  /** The remaining pieces point at each other and at the pieces around the stretch. */
  lemma RestLinked(ls: LinkMap, r: Rest, ch: seq<Piece>, lo: nat, hi: nat)
    requires 1 <= lo < hi < |ch| && (forall p :: p in RestPieces(r) ==> p !in ls)
    requires r.before.Some? && r.after.Some? ==> r.before.value != r.after.value
    ensures var to, ls' := ch[..lo] + RestPieces(r) + ch[hi..], RestLinks(ls, r, ch[lo - 1], ch[hi]);
            && (forall p :: p in ls ==> p in ls' && ls'[p] == ls[p])
            && ls'.Keys == ls.Keys + (set p | p in RestPieces(r))
            && forall i :: lo <= i < lo + |RestPieces(r)| ==> i < |to| && LinkedAt(ls', to, i)
    ensures NoDup(RestPieces(r))
  {
    var to := ch[..lo] + RestPieces(r) + ch[hi..];
    assert to[lo - 1] == ch[lo - 1] && to[lo + |RestPieces(r)|] == ch[hi];
    assert r.before.Some? ==> r.before.value in RestPieces(r);
    assert r.after.Some? ==> r.after.value in RestPieces(r);
  }

  lemma RestBounds(ext: ExtentMap, mem: Memory, r: Rest, f: Extent, off: nat, l: Extent, n: nat)
    requires off <= f.len && n <= l.len && InBounds(f, mem) && InBounds(l, mem)
    requires forall p :: p in RestPieces(r) ==> p !in ext
    requires r.before.Some? && r.after.Some? ==> r.before.value != r.after.value
    requires (r.before.Some? ==> f.data.At?) && (r.after.Some? ==> l.data.At?)
    ensures var ext' := RestExtents(ext, r, f, off, l, n);
            && (forall p :: p in ext ==> p in ext' && ext'[p] == ext[p])
            && ext'.Keys == ext.Keys + (set p | p in RestPieces(r))
            && (forall p :: p in ext' && p !in ext ==> InBounds(ext'[p], mem))
            && (forall p :: p in RestPieces(r) ==> ext'[p].data.At?)
  {
    assert r.before.Some? ==> r.before.value in RestPieces(r);
    assert r.after.Some? ==> r.after.value in RestPieces(r);
  }

  lemma RestAddrs(s: Store, lo: nat, hi: nat, r: Rest, off: nat, n: nat, pos: nat, len: nat)
    requires Waiting(s) && Cut(s, lo, hi, r, off, n)
    requires pos == |Addrs(s.vs[s.at].chain[..lo], s.ext)| + off
    requires off + len + n == |Addrs(s.vs[s.at].chain[lo..hi], s.ext)|
    ensures var ch := s.vs[s.at].chain;
            var ext := RestExtents(s.ext, r, s.ext[ch[lo]], off, s.ext[ch[hi - 1]], n);
            var ver := Replacement(s, lo, hi, RestPieces(r));
            && |Addrs(RestPieces(r), ext)| == off + n
            && pos + len <= |Addrs(ch, s.ext)|
            && Addrs(ver.chain, ext) == Removed(Addrs(ch, s.ext), pos, len)
            && NoDup(Addrs(ver.chain, ext))
  {
    hide Waiting, RestExtents, Addrs, NoDup, Cut;
    WaitingChain(s);
    CutIs(s, lo, hi, r, off, n);
    var ch := s.vs[s.at].chain;
    var ext := RestExtents(s.ext, r, s.ext[ch[lo]], off, s.ext[ch[hi - 1]], n);
    var a := Addrs(ch[lo..hi], s.ext);
    RestCells(s, lo, hi, r, off, n);
    assert a == a[..off] + a[off..off + len] + a[|a| - n..];
    RestFrame(s, lo, hi, r, off, n);
    DeleteAddrs(Replacement(s, lo, hi, RestPieces(r)), ch, s.ext, ext, pos, a[..off], a[off..off + len], a[|a| - n..]);
    RemovedNoDup(Addrs(ch, s.ext), pos, len);
  }

  lemma CutIs(s: Store, lo: nat, hi: nat, r: Rest, off: nat, n: nat)
    requires Cut(s, lo, hi, r, off, n)
    ensures s.at < |s.vs| && 1 <= lo < hi < |s.vs[s.at].chain|
    ensures s.vs[s.at].chain[lo] in s.ext && s.vs[s.at].chain[hi - 1] in s.ext
    ensures n <= s.ext[s.vs[s.at].chain[hi - 1]].len
    ensures Spliced(Replacement(s, lo, hi, RestPieces(r)), s.vs[s.at].chain)
  {
  }

  /** The chain's own pieces keep their extents. */
  lemma RestFrame(s: Store, lo: nat, hi: nat, r: Rest, off: nat, n: nat)
    requires Cut(s, lo, hi, r, off, n) && forall q :: q in s.vs[s.at].chain ==> q in s.ext
    ensures var ch := s.vs[s.at].chain;
            var ext := RestExtents(s.ext, r, s.ext[ch[lo]], off, s.ext[ch[hi - 1]], n);
            && (forall q :: q in s.ext ==> q in ext && ext[q] == s.ext[q])
            && (forall q :: q in ch ==> ExtentOf(s.ext, q) == ExtentOf(ext, q))
  {
    assert r.before.Some? ==> r.before.value in RestPieces(r);
    assert r.after.Some? ==> r.after.value in RestPieces(r);
  }

  /** The spans of a deletion. */
  ghost function OldSpan(s: Store, lo: nat, hi: nat): Span
    requires s.at < |s.vs| && lo < hi <= |s.vs[s.at].chain|
  {
    var ch := s.vs[s.at].chain;
    Span(ch[lo], ch[hi - 1], |Addrs(ch[lo..hi], s.ext)|)
  }

  function NewSpan(r: Rest, len: nat): Span {
    var ps := RestPieces(r);
    if ps == [] then EMPTY_SPAN else Span(ps[0], ps[|ps| - 1], len)
  }

  /** The store with the deletion filled in. */
  ghost function Deleted(s: Store, lo: nat, hi: nat, r: Rest, off: nat, n: nat): Store
    requires Cut(s, lo, hi, r, off, n) && s.at < |s.chg|
  {
    var ch := s.vs[s.at].chain;
    Filled(s, Replacement(s, lo, hi, RestPieces(r)), RestLinks(s.links, r, ch[lo - 1], ch[hi]),
           RestExtents(s.ext, r, s.ext[ch[lo]], off, s.ext[ch[hi - 1]], n),
           OldSpan(s, lo, hi), NewSpan(r, off + n))
  }

  /** Pieces and spans of a deletion. */
  lemma RestFills(s: Store, lo: nat, hi: nat, r: Rest, off: nat, n: nat, pos: nat, len: nat)
    requires Waiting(s) && Cut(s, lo, hi, r, off, n) && s.at < |s.chg|
    requires pos == |Addrs(s.vs[s.at].chain[..lo], s.ext)| + off
    requires off + len + n == |Addrs(s.vs[s.at].chain[lo..hi], s.ext)|
    requires var ch := s.vs[s.at].chain; InBounds(s.ext[ch[lo]], s.mem) && InBounds(s.ext[ch[hi - 1]], s.mem)
    ensures Fills(s, Replacement(s, lo, hi, RestPieces(r)), Deleted(s, lo, hi, r, off, n))
  {
    hide Waiting, RestExtents, RestLinks, NoDup, Fills, Prepared, Cut, Addrs, SpanIs, OldSpan, NewSpan;
    WaitingChain(s);
    CutIs(s, lo, hi, r, off, n);
    RestPrepared(s, lo, hi, r, off, n);
    RestAddrs(s, lo, hi, r, off, n, pos, len);
    RestSpans(s, lo, hi, r, off, n);
    var ch := s.vs[s.at].chain;
    FillsReady(s, lo, hi, RestPieces(r), RestLinks(s.links, r, ch[lo - 1], ch[hi]),
               RestExtents(s.ext, r, s.ext[ch[lo]], off, s.ext[ch[hi - 1]], n),
               OldSpan(s, lo, hi), NewSpan(r, off + n));
  }

  lemma RestSpans(s: Store, lo: nat, hi: nat, r: Rest, off: nat, n: nat)
    requires Cut(s, lo, hi, r, off, n)
    ensures var ch := s.vs[s.at].chain;
            var ext := RestExtents(s.ext, r, s.ext[ch[lo]], off, s.ext[ch[hi - 1]], n);
            && SpanIs(OldSpan(s, lo, hi), ch[lo..hi], s.ext)
            && (|Addrs(RestPieces(r), ext)| == off + n ==> SpanIs(NewSpan(r, off + n), RestPieces(r), ext))
  {
    hide RestExtents, Addrs;
  }

  // ----- the methods -----

  /** Walk to the piece where the deletion ends: `cur` bytes from `pos` to the end of it. */
  method SkipDeleted(t: Text, first: Piece, ghost k: nat, already: nat, pos: nat, len: nat)
    returns (last: Piece, cur: nat, ghost j: nat)
    requires t.Represents() && StoreInv(t.st) && t.st.at < |t.st.vs| && k + 1 < |t.Chain()| && first == t.Chain()[k]
    requires pos + already == |Addrs(t.Chain()[..k + 1], t.st.ext)| && pos + len <= t.size && len > 0
    ensures k <= j && j + 1 < |t.Chain()| && last == t.Chain()[j] && cur >= len
    ensures already < len ==> k < j
    ensures already >= len ==> j == k && cur == already
    ensures pos + cur == |Addrs(t.Chain()[..j + 1], t.st.ext)|
    ensures already < len ==> cur - len < last.len
  {
    hide Text.Represents, StoreInv, Addrs;
    last, cur, j := first, already, k;
    EndEmpty(t, j);
    while cur < len
      invariant k <= j && j + 1 < |t.Chain()| && last == t.Chain()[j]
      invariant cur < len ==> j + 1 < |t.Chain()| - 1
      invariant pos + cur == |Addrs(t.Chain()[..j + 1], t.st.ext)|
      invariant cur >= len && k < j ==> cur - len < last.len
      invariant already >= len ==> j == k && cur == already
      invariant j == k ==> cur == already
      decreases |t.Chain()| - j
    {
      NextPiece(t, j);
      last := last.next;
      j := j + 1;
      cur := cur + last.len;
      EndEmpty(t, j);
    }
  }

  lemma NextPiece(t: Text, j: nat)
    requires t.Represents() && StoreInv(t.st) && t.st.at < |t.st.vs| && j + 1 < |t.Chain()|
    ensures t.Chain()[j].next == t.Chain()[j + 1]
    ensures |Addrs(t.Chain()[..j + 2], t.st.ext)| == |Addrs(t.Chain()[..j + 1], t.st.ext)| + t.Chain()[j + 1].len
  {
    hide Text.Represents, StoreInv;
    t.ChainIs(j);
    t.ChainIs(j + 1);
    AddrsStep(t.Chain(), j + 1, t.st.ext);
  }

  /** Before the last byte there is a piece to go on to. */
  lemma EndEmpty(t: Text, j: nat)
    requires t.Represents() && StoreInv(t.st) && t.st.at < |t.st.vs| && j < |t.Chain()|
    ensures |Addrs(t.Chain()[..j + 1], t.st.ext)| < t.size ==> j + 1 < |t.Chain()| - 1
  {
    hide Text.Represents, StoreInv;
    t.ChainIs(0);
    var ch := t.Chain();
    t.ChainIs(|ch| - 1);
    AddrsStep(ch, |ch| - 1, t.st.ext);
    assert ch[..|ch|] == ch;
    assert j == |ch| - 1 ==> ch[..j + 1] == ch;
    assert j == |ch| - 2 ==> ch[..j + 1] == ch[..|ch| - 1];
  }

  /** The stretch to delete, before any piece has been allocated. */
  ghost predicate Stretch(s: Store, lo: nat, hi: nat, first: Piece, last: Piece, off: nat, n: nat) {
    && s.at < |s.vs| && 1 <= lo < hi < |s.vs[s.at].chain|
    && var ch := s.vs[s.at].chain;
       && first == ch[lo] && last == ch[hi - 1] && first in s.ext && last in s.ext
       && off <= s.ext[first].len && n <= s.ext[last].len
       && (off > 0 ==> s.ext[first].data.At?) && (n > 0 ==> s.ext[last].data.At?)
       && off + n < |Addrs(ch[lo..hi], s.ext)|
  }

  /** Allocate the remaining pieces. */
  method AllocRest(t: Text, off: nat, n: nat) returns (r: Rest)
    requires t.Represents() && t !in t.repr
    modifies t`pieces, t`st, t`repr
    ensures t.Represents() && t !in t.repr && fresh(t.repr - old(t.repr)) && old(t.repr) <= t.repr
    ensures (r.before.Some? <==> off > 0) && (r.after.Some? <==> n > 0)
    ensures r.before.Some? ==> fresh(r.before.value) && r.before.value in t.pieces
                               && r.before.value !in old(t.st.links) && r.before.value !in old(t.st.ext)
    ensures r.after.Some? ==> fresh(r.after.value) && r.after.value in t.pieces
                              && r.after.value !in old(t.st.links) && r.after.value !in old(t.st.ext)
    ensures r.before.Some? && r.after.Some? ==> r.before.value != r.after.value
    ensures t.pieces == old(t.pieces) + (set p | p in RestPieces(r))
    ensures t.st == old(t.st).(links := t.st.links, ext := t.st.ext)
    ensures NullLinks(old(t.st.links), t.st.links, r) && NullExtents(old(t.st.ext), t.st.ext, r)
  {
    hide Text.Represents;
    t.KeysAre();
    r := Rest(None, None);
    if off > 0 {
      var p := t.PieceAlloc();
      r := Rest(Some(p), None);
    }
    if n > 0 {
      var p := t.PieceAlloc();
      r := Rest(r.before, Some(p));
    }
  }

  ghost predicate NullLinks(ls: LinkMap, ls': LinkMap, r: Rest) {
    ls' == match r
           case Rest(None, None) => ls
           case Rest(Some(b), None) => ls[b := Link(null, null)]
           case Rest(None, Some(a)) => ls[a := Link(null, null)]
           case Rest(Some(b), Some(a)) => ls[b := Link(null, null)][a := Link(null, null)]
  }

  ghost predicate NullExtents(ext: ExtentMap, ext': ExtentMap, r: Rest) {
    ext' == match r
            case Rest(None, None) => ext
            case Rest(Some(b), None) => ext[b := Extent(Null, 0)]
            case Rest(None, Some(a)) => ext[a := Extent(Null, 0)]
            case Rest(Some(b), Some(a)) => ext[b := Extent(Null, 0)][a := Extent(Null, 0)]
  }

  lemma NullThenRest(ls: LinkMap, nl: LinkMap, ext: ExtentMap, ne: ExtentMap, r: Rest, l: Piece, m: Piece,
                     f: Extent, off: nat, e: Extent, n: nat)
    requires NullLinks(ls, nl, r) && NullExtents(ext, ne, r) && n <= e.len
    requires r.before.Some? && r.after.Some? ==> r.before.value != r.after.value
    ensures RestLinks(nl, r, l, m) == RestLinks(ls, r, l, m)
    ensures RestExtents(ne, r, f, off, e, n) == RestExtents(ext, r, f, off, e, n)
  {
  }

  /** Fill them in. */
  method InitRest(t: Text, r: Rest, first: Piece, last: Piece, l: Piece, m: Piece, off: nat, n: nat)
    requires t.Represents() && t !in t.repr && first in t.pieces && last in t.pieces
    requires r.before.Some? ==> r.before.value in t.pieces && r.before.value != first && r.before.value != last
    requires r.after.Some? ==> r.after.value in t.pieces && r.after.value != first && r.after.value != last
    requires r.before.Some? && r.after.Some? ==> r.before.value != r.after.value
    requires n <= last.len && (r.after.Some? ==> last.data.At?) && first in t.st.ext && last in t.st.ext
    modifies t`st, set p | p in RestPieces(r)
    ensures t.Represents()
    ensures t.st == old(t.st).(links := RestLinks(old(t.st.links), r, l, m),
                               ext := RestExtents(old(t.st.ext), r, old(t.st.ext)[first], off, old(t.st.ext)[last], n))
  {
    hide Text.Represents;
    t.ExtentIs(first);
    t.ExtentIs(last);
    if r.after.Some? {
      t.PieceInit(r.after.value, if r.before.Some? then r.before.value else l, m,
                  At(last.data.blk, last.data.off + last.len - n), n);
    }
    t.ExtentIs(first);
    if r.before.Some? {
      t.PieceInit(r.before.value, l, if r.after.Some? then r.after.value else m, first.data, off);
    }
  }

  /** Allocate the remaining pieces and fill them in. */
  method MakeRest(t: Text, first: Piece, last: Piece, l: Piece, m: Piece, off: nat, n: nat) returns (r: Rest)
    requires t.Represents() && t !in t.repr && first in t.pieces && last in t.pieces
    requires first in t.st.ext && last in t.st.ext && n <= last.len && (n > 0 ==> last.data.At?)
    modifies t`pieces, t`st, t`repr
    ensures t.Represents() && t !in t.repr && fresh(t.repr - old(t.repr)) && old(t.repr) <= t.repr
    ensures (r.before.Some? <==> off > 0) && (r.after.Some? <==> n > 0)
    ensures r.before.Some? ==> r.before.value !in old(t.st.links) && r.before.value !in old(t.st.ext)
    ensures r.after.Some? ==> r.after.value !in old(t.st.links) && r.after.value !in old(t.st.ext)
    ensures r.before.Some? && r.after.Some? ==> r.before.value != r.after.value
    ensures t.pieces == old(t.pieces) + (set p | p in RestPieces(r)) && forall p :: p in RestPieces(r) ==> fresh(p)
    ensures t.st == old(t.st).(links := RestLinks(old(t.st.links), r, l, m),
                               ext := RestExtents(old(t.st.ext), r, old(t.st.ext)[first], off, old(t.st.ext)[last], n))
  {
    hide Text.Represents, RestLinks, RestExtents, NullLinks, NullExtents;
    ghost var s := t.st;
    t.ExtentIs(last);
    r := AllocRest(t, off, n);
    ghost var mid := t.st;
    NullKeeps(s.ext, mid.ext, r);
    InitRest(t, r, first, last, l, m, off, n);
    NullThenRest(s.links, mid.links, s.ext, mid.ext, r, l, m, s.ext[first], off, s.ext[last], n);
  }

  lemma NullKeeps(ext: ExtentMap, ext': ExtentMap, r: Rest)
    requires NullExtents(ext, ext', r)
    requires r.before.Some? ==> r.before.value !in ext
    requires r.after.Some? ==> r.after.value !in ext
    ensures forall p :: p in ext ==> p in ext' && ext'[p] == ext[p]
  {
  }

  /** `span_init` for the remaining pieces. */
  method RestSpan(t: Text, r: Rest, ghost s: Store, ghost lo: nat, ghost hi: nat, ghost off: nat, ghost n: nat)
    returns (span: Span)
    requires t.Represents() && Cut(s, lo, hi, r, off, n) && t.st.mem == s.mem
    requires var ch := s.vs[s.at].chain;
             && InBounds(s.ext[ch[lo]], s.mem) && InBounds(s.ext[ch[hi - 1]], s.mem)
             && t.st.links == RestLinks(s.links, r, ch[lo - 1], ch[hi])
             && t.st.ext == RestExtents(s.ext, r, s.ext[ch[lo]], off, s.ext[ch[hi - 1]], n)
    ensures span == NewSpan(r, off + n)
  {
    hide Text.Represents;
    RestCells(s, lo, hi, r, off, n);
    StretchSize(s, lo, hi, r, off, n);
    RestKnown(t, r, s, lo, hi, off, n);
    var start, end: Piece? := null, null;
    if r.before.Some? {
      start := r.before.value;
      if r.after.None? { end := r.before.value; }
    }
    if r.after.Some? {
      if r.before.None? { start := r.after.value; }
      end := r.after.value;
    }
    span := t.SpanInit(start, end, RestPieces(r));
  }

  lemma StretchSize(s: Store, lo: nat, hi: nat, r: Rest, off: nat, n: nat)
    requires Cut(s, lo, hi, r, off, n)
    ensures var a := Addrs(s.vs[s.at].chain[lo..hi], s.ext); |a[..off] + a[|a| - n..]| == off + n
  {
  }

  lemma RestKnown(t: Text, r: Rest, s: Store, lo: nat, hi: nat, off: nat, n: nat)
    requires t.Represents() && Cut(s, lo, hi, r, off, n) && t.st.mem == s.mem
    requires var ch := s.vs[s.at].chain;
             && InBounds(s.ext[ch[lo]], s.mem) && InBounds(s.ext[ch[hi - 1]], s.mem)
             && t.st.links == RestLinks(s.links, r, ch[lo - 1], ch[hi])
             && t.st.ext == RestExtents(s.ext, r, s.ext[ch[lo]], off, s.ext[ch[hi - 1]], n)
    ensures forall p :: p in RestPieces(r) ==> p in t.pieces && InBounds(t.st.ext[p], t.st.mem)
    ensures r.before.Some? && r.after.Some? ==> r.before.value.next == r.after.value
    ensures NoDup(RestPieces(r)) && t.st.ext.Keys == t.pieces
  {
    hide Text.Represents;
    t.KeysAre();
    if r.before.Some? { t.LinkIs(r.before.value); }
    if r.after.Some? { t.LinkIs(r.after.value); }
  }

  /** `span_init` for the stretch that goes. */
  method StretchSpan(t: Text, first: Piece, last: Piece, ghost s: Store, ghost lo: nat, ghost hi: nat)
    returns (span: Span)
    requires t.Represents() && s.at < |s.vs| && lo < hi <= |s.vs[s.at].chain| && NoDup(s.vs[s.at].chain)
    requires first == s.vs[s.at].chain[lo] && last == s.vs[s.at].chain[hi - 1] && t.st.mem == s.mem
    requires forall i :: lo <= i < hi ==>
               var p := s.vs[s.at].chain[i];
               p in s.ext && p in t.st.ext && t.st.ext[p] == s.ext[p] && InBounds(s.ext[p], s.mem)
    requires forall i :: lo <= i < hi - 1 ==> s.vs[s.at].chain[i].next == s.vs[s.at].chain[i + 1]
    ensures span == OldSpan(s, lo, hi)
  {
    hide Text.Represents, Addrs;
    t.KeysAre();
    ghost var ch := s.vs[s.at].chain;
    AddrsFrame(ch[lo..hi], s.ext, t.st.ext);
    span := t.SpanInit(first, last, ch[lo..hi]);
  }

  /** Facts about the stretch on the heap. */
  lemma StretchHeap(t: Text, c: TextChange, lo: nat, hi: nat, first: Piece, last: Piece, off: nat, n: nat)
    requires Ready(t, c) && Stretch(t.st, lo, hi, first, last, off, n)
    ensures t.st.at < |t.st.vs| && NoDup(t.Chain()) && t.st.at < |t.st.chg|
            && t.st.links.Keys == t.st.ext.Keys == t.pieces
    ensures forall i :: lo <= i < hi ==> t.Chain()[i] in t.st.ext && InBounds(t.st.ext[t.Chain()[i]], t.st.mem)
    ensures forall i :: lo <= i < hi - 1 ==> t.Chain()[i].next == t.Chain()[i + 1]
    ensures t.st.ext[first] == Extent(first.data, first.len) && t.st.ext[last] == Extent(last.data, last.len)
    ensures first.prev == t.Chain()[lo - 1] && last.next == t.Chain()[hi]
  {
    hide Text.Represents, Waiting, Addrs;
    WaitingChain(t.st);
    forall i | lo <= i < hi
      ensures t.Chain()[i] in t.st.ext && InBounds(t.st.ext[t.Chain()[i]], t.st.mem)
      ensures i < hi - 1 ==> t.Chain()[i].next == t.Chain()[i + 1]
    {
      WaitingIs(t, i);
    }
    WaitingIs(t, lo);
    WaitingIs(t, hi - 1);
  }

  lemma StretchCut(s: Store, lo: nat, hi: nat, first: Piece, last: Piece, off: nat, n: nat, r: Rest)
    requires Stretch(s, lo, hi, first, last, off, n)
    requires (r.before.Some? <==> off > 0) && (r.after.Some? <==> n > 0)
    requires r.before.Some? ==> r.before.value !in s.links && r.before.value !in s.ext
    requires r.after.Some? ==> r.after.value !in s.links && r.after.value !in s.ext
    requires r.before.Some? && r.after.Some? ==> r.before.value != r.after.value
    ensures Cut(s, lo, hi, r, off, n)
  {
    hide Addrs;
  }

  /** The remaining pieces and their links, for a stretch from `first` to `last`. */
  method LinkRest(t: Text, c: TextChange, first: Piece, last: Piece, off: nat, n: nat, ghost lo: nat, ghost hi: nat)
    returns (r: Rest)
    requires Ready(t, c) && Stretch(t.st, lo, hi, first, last, off, n) && first.prev != null && last.next != null
    modifies t`pieces, t`st, t`repr
    ensures t.Represents() && t !in t.repr && fresh(t.repr - old(t.repr)) && old(t.repr) <= t.repr
    ensures Cut(old(t.st), lo, hi, r, off, n) && t.pieces == old(t.pieces) + (set p | p in RestPieces(r))
    ensures forall p :: p in RestPieces(r) ==> fresh(p)
    ensures var s := old(t.st); var ch := s.vs[s.at].chain;
            t.st == s.(links := RestLinks(s.links, r, ch[lo - 1], ch[hi]),
                       ext := RestExtents(s.ext, r, s.ext[first], off, s.ext[last], n))
  {
    hide Text.Represents, Waiting, RestLinks, RestExtents, Addrs, InBounds;
    ghost var s := t.st;
    StretchHeap(t, c, lo, hi, first, last, off, n);
    r := MakeRest(t, first, last, first.prev, last.next, off, n);
    StretchCut(s, lo, hi, first, last, off, n, r);
  }

  /** Both spans of the deletion. */
  method LinkDelete(t: Text, c: TextChange, first: Piece, last: Piece, off: nat, n: nat, ghost lo: nat, ghost hi: nat)
    returns (r: Rest, o: Span, span: Span)
    requires Ready(t, c) && Stretch(t.st, lo, hi, first, last, off, n) && first.prev != null && last.next != null
    modifies t`pieces, t`st, t`repr, c`oldSpan, c`newSpan
    ensures t.Represents() && t !in t.repr && fresh(t.repr - old(t.repr)) && old(t.repr) <= t.repr
    ensures Cut(old(t.st), lo, hi, r, off, n) && t.pieces == old(t.pieces) + (set p | p in RestPieces(r))
    ensures forall p :: p in RestPieces(r) ==> fresh(p)
    ensures o == OldSpan(old(t.st), lo, hi) && span == NewSpan(r, off + n)
    ensures var s := old(t.st); var ch := s.vs[s.at].chain;
            && s.at < |s.chg|
            && t.st == s.(links := RestLinks(s.links, r, ch[lo - 1], ch[hi]),
                          ext := RestExtents(s.ext, r, s.ext[first], off, s.ext[last], n),
                          chg := s.chg[s.at := s.chg[s.at].(oldSpan := o, newSpan := span)])
  {
    hide Text.Represents, Waiting, RestLinks, RestExtents, OldSpan, NewSpan, Cut, Addrs;
    ghost var s := t.st;
    StretchHeap(t, c, lo, hi, first, last, off, n);
    r := LinkRest(t, c, first, last, off, n, lo, hi);
    CutIs(s, lo, hi, r, off, n);
    WaitingChain(s);
    RestFrame(s, lo, hi, r, off, n);
    span := RestSpan(t, r, s, lo, hi, off, n);
    o := StretchSpan(t, first, last, s, lo, hi);
    t.SetSpans(c, s.at, o, span);
  }

  /** Put the remaining pieces in place of the stretch. */
  method DeletePieces(t: Text, c: TextChange, first: Piece, last: Piece, off: nat, n: nat,
                      ghost lo: nat, ghost hi: nat, ghost pos: nat, ghost len: nat)
    requires Ready(t, c) && Stretch(t.st, lo, hi, first, last, off, n) && first.prev != null && last.next != null
    requires pos == |Addrs(t.Chain()[..lo], t.st.ext)| + off
    requires off + len + n == |Addrs(t.Chain()[lo..hi], t.st.ext)|
    modifies t`pieces, t`st, t`h, t`repr, t`size, t.repr
    ensures t.Represents() && StoreInv(t.st) && t.h == old(t.h)
    ensures t !in t.repr && fresh(t.repr - old(t.repr))
    ensures Refines(old(t.st), t.st) && t.st.mem == old(t.st.mem) && old(t.pieces) <= t.pieces
    ensures forall p :: p in old(t.pieces) ==> p !in t.st.vs[t.st.at].mid
    ensures pos + len <= |Addrs(old(t.Chain()), old(t.st.ext))|
    ensures Addrs(t.Chain(), t.st.ext) == Removed(Addrs(old(t.Chain()), old(t.st.ext)), pos, len)
  {
    hide Text.Represents, Waiting, Fills, RestLinks, RestExtents, Refines, Addrs, Cut, OldSpan, NewSpan, Filled,
         Spliced, InBounds;
    ghost var s := t.st;
    t.Within();
    StretchHeap(t, c, lo, hi, first, last, off, n);
    var r, o, span := LinkDelete(t, c, first, last, off, n, lo, hi);
    CutIs(s, lo, hi, r, off, n);
    RestFills(s, lo, hi, r, off, n, pos, len);
    RestAddrs(s, lo, hi, r, off, n, pos, len);
    WaitingChain(s);
    RestFrame(s, lo, hi, r, off, n);
    Commit(t, c, s, lo, hi, RestPieces(r), o, span);
    RefinedBy(s, Replacement(s, lo, hi, RestPieces(r)), t.st);
  }

  /** The old contents without `len` bytes at `pos`; every other byte keeps its address. */
  ghost predicate RemovedAt(a: State, b: State, pos: nat, len: nat) {
    && pos + len <= |a.text| == |a.addrs|
    && b.text == Removed(a.text, pos, len) && b.addrs == Removed(a.addrs, pos, len)
  }

  lemma RemovedState(s: Store, s': Store, pos: nat, len: nat)
    requires s.at < |s.vs| && s'.at < |s'.vs| && s'.mem == s.mem
    requires pos + len <= |Addrs(s.vs[s.at].chain, s.ext)|
    requires Addrs(s'.vs[s'.at].chain, s'.ext) == Removed(Addrs(s.vs[s.at].chain, s.ext), pos, len)
    ensures RemovedAt(StateOf(s.vs[s.at].chain, s.ext, s.mem), StateOf(s'.vs[s'.at].chain, s'.ext, s'.mem), pos, len)
  {
    RemovedFetch(Addrs(s.vs[s.at].chain, s.ext), pos, len, s.mem);
  }

  /** A change for the deletion. */
  method PrepareDelete(t: Text, pos: nat, p: Piece, ghost k: nat, off: nat) returns (c: TextChange)
    requires t.Valid() && Located(t, pos, p, k, off)
    modifies t, t.repr
    ensures t.Valid() && Ready(t, c) && fresh(t.repr - old(t.repr)) && Located(t, pos, p, k, off)
    ensures t.doc.cur < |t.doc.nodes| && t.doc == Edited(old(t.doc), old(t.doc.Now())) && t.doc.open
    ensures t.doc.Now() == old(t.doc.Now()) && t.lines == old(t.lines)
    ensures GrownBy(old(t.st), t.st, pos) && NewTip(old(t.doc.open), old(t.h.tips), t.h.tips, |old(t.st.vs)|)
  {
    hide Text.Inv, WellFormed, NewTip;
    ghost var s := t.st;
    HealthyParts(t);
    LocatedIs(t, pos, p, k, off);
    c := TextChangeAlloc(t, pos);
    StillLocated(t, s, c, pos, p, k, off);
  }

  /** Apply the deletion and update the document. */
  method DeleteAndFinish(t: Text, c: TextChange, first: Piece, last: Piece, off: nat, n: nat,
                         ghost lo: nat, ghost hi: nat, pos: nat, len: nat)
    requires t.Valid() && Ready(t, c) && t.doc.open && pos >= t.lines.pos
    requires Stretch(t.st, lo, hi, first, last, off, n) && first.prev != null && last.next != null
    requires pos == |Addrs(t.Chain()[..lo], t.st.ext)| + off
    requires off + len + n == |Addrs(t.Chain()[lo..hi], t.st.ext)|
    modifies t, t.repr
    ensures t.Valid() && fresh(t.repr - old(t.repr)) && t.doc.cur < |t.doc.nodes| && old(t.doc.cur) < |old(t.doc.nodes)|
    ensures t.doc == Edited(old(t.doc), t.doc.Now()) && RemovedAt(old(t.doc.Now()), t.doc.Now(), pos, len)
    ensures t.lines == old(t.lines) && Refines(old(t.st), t.st) && t.h == old(t.h)
  {
    hide Text.Inv, Waiting, FieldsOf, Sound, StoreInv, Refines, Text.Represents, StateOf, LinesOk, WellFormed, Addrs,
         Stretch;
    SoundNow(t);
    FieldsNow(t);
    StateNow(t);
    ghost var s, h, d := t.st, t.h, t.doc;
    DeletePieces(t, c, first, last, off, n, lo, hi, pos, len);
    RefinesAt(s, t.st);
    ghost var st := StateOf(t.Chain(), t.st.ext, t.st.mem);
    RemovedState(s, t.st, pos, len);
    LinesKept(t.lines, d.Now().text, st.text, pos);
    t.SetDoc(Edited(d, st));
    Finish(t, s, h, d);
  }

  /** The stretch between the two pieces found, measured. */
  lemma StretchFound(t: Text, c: TextChange, pos: nat, len: nat, p: Piece, k: nat, off: nat,
                     last: Piece, cur: nat, j: nat)
    requires Ready(t, c) && Located(t, pos, p, k, off) && len > 0 && cur >= len
    requires k <= j && j + 1 < |t.Chain()| && last == t.Chain()[j] && pos + cur == |Addrs(t.Chain()[..j + 1], t.st.ext)|
    requires if off == p.len then k < j && cur - len < last.len
             else (k < j ==> cur - len < last.len) && (k == j ==> cur == p.len - off)
    ensures var lo, keep := if off == p.len then k + 1 else k, if off == p.len then 0 else off;
            && lo <= j && Stretch(t.st, lo, j + 1, t.Chain()[lo], last, keep, cur - len)
            && pos == |Addrs(t.Chain()[..lo], t.st.ext)| + keep
            && keep + len + (cur - len) == |Addrs(t.Chain()[lo..j + 1], t.st.ext)|
            && t.Chain()[lo].prev != null && last.next != null
            && (off == p.len ==> p.next == t.Chain()[lo])
  {
    hide Text.Represents, Waiting, Addrs, Cells;
    var ch, lo := t.Chain(), if off == p.len then k + 1 else k;
    WaitingIs(t, k);
    WaitingIs(t, lo);
    WaitingIs(t, j);
    AddrsStep(ch, k, t.st.ext);
    assert |Cells(ExtentOf(t.st.ext, p))| == p.len;
    assert ch[..j + 1] == ch[..lo] + ch[lo..j + 1];
    AddrsConcat(ch[..lo], ch[lo..j + 1], t.st.ext);
  }

  /** `text_delete` when the cache cannot do it. */
  method DeleteSlow(t: Text, pos: nat, len: nat, p: Piece, ghost k: nat, off: nat)
    requires t.Valid() && Located(t, pos, p, k, off) && len > 0 && pos + len <= t.size && pos >= t.lines.pos
    modifies t, t.repr
    ensures t.Valid() && fresh(t.repr - old(t.repr))
    ensures old(t.doc.cur) < |old(t.doc.nodes)| && t.doc.cur < |t.doc.nodes|
    ensures t.doc == Edited(old(t.doc), t.doc.Now()) && RemovedAt(old(t.doc.Now()), t.doc.Now(), pos, len)
    ensures t.lines == old(t.lines)
    ensures SpotAdded(old(t.doc.open), old(t.doc.cur), old(t.Spots()), t.Spots(), pos, -(len as int))
  {
    hide Text.Inv, Text.Represents, StoreInv, WellFormed, Ready, Located, RemovedAt, Stretch, Addrs, UndoTree.Edited,
         GrownBy, NewTip, Refines, SpotsOf, SpotAdded, Sound;
    ghost var d0, s0, h0 := t.doc, t.st, t.h;
    StateNow(t);
    SoundNow(t);
    var c := PrepareDelete(t, pos, p, k, off);
    ghost var d, s := t.doc, t.st;
    StateNow(t);
    HealthyParts(t);
    LocatedParts(t, c, pos, p, k, off);
    var already := if off == p.len then 0 else p.len - off;
    var last, cur; ghost var j;
    last, cur, j := SkipDeleted(t, p, k, already, pos, len);
    StretchFound(t, c, pos, len, p, k, off, last, cur, j);
    var first := if off == p.len then p.next else p;
    DeleteAndFinish(t, c, first, last, if off == p.len then 0 else off, cur - len,
                    if off == p.len then k + 1 else k, j + 1, pos, len);
    EditedTwice(d0, d, t.doc.Now());
    StateNow(t);
    RemovedLength(d.Now(), t.doc.Now(), pos, len);
    HealthyParts(t);
    SpotRecorded(s0, h0, d0, s, t.h.tips, t.st, pos);
  }

  lemma RemovedLength(a: State, b: State, pos: nat, len: nat)
    requires RemovedAt(a, b, pos, len)
    ensures |b.addrs| + len == |a.addrs|
  {
  }

  lemma LocatedParts(t: Text, c: TextChange, pos: nat, p: Piece, k: nat, off: nat)
    requires Ready(t, c) && Located(t, pos, p, k, off)
    ensures t.st.at < |t.st.vs| && k + 1 < |t.Chain()| && p == t.Chain()[k] && off <= p.len
    ensures pos + (p.len - off) == |Addrs(t.Chain()[..k + 1], t.st.ext)|
  {
    hide Text.Represents, Waiting;
    WaitingIs(t, k);
    AddrsStep(t.Chain(), k, t.st.ext);
  }

  /** `text_delete` from the piece found on: in place, or not. */
  method DeleteFound(t: Text, pos: nat, len: nat, p: Piece, ghost k: nat, off: nat) returns (ghost inPlace: bool)
    requires t.Valid() && len > 0 && Located(t, pos, p, k, off) && p in t.pieces && pos >= t.lines.pos
    requires pos + len <= t.size
    modifies t, t.repr
    ensures t.Valid() && fresh(t.repr - old(t.repr))
    ensures Gone(old(t.doc), t.doc, pos, len, inPlace) && inPlace == old(DeletesInPlace(t, pos, len))
    ensures inPlace ==> forall start: nat, end: nat :: old(CachedStretch(t, start, end)) ==>
              ShrankInPlace(old(t.doc), t.doc, pos, len, end) && len <= end && CachedStretch(t, start, end - len)
    ensures t.lines == old(t.lines)
    ensures if inPlace then SpotGrown(old(t.doc.cur), old(t.Spots()), t.Spots(), -(len as int))
            else SpotAdded(old(t.doc.open), old(t.doc.cur), old(t.Spots()), t.Spots(), pos, -(len as int))
  {
    hide Text.Inv, WellFormed, UndoTree.Edited, Hit, CachedStretch, Room, InsertsInPlace, DeletesInPlace,
         RemovedInPlace, SpotsOf, SpotGrown, SpotAdded;
    StateNow(t);
    LocatedExtent(t, p);
    LocatedHit(t, pos, p, k, off, len);
    var ok := CacheDelete(t, p, off, len, pos, k, pos - off + p.len);
    if ok { return true; }
    inPlace := false;
    DeleteSlow(t, pos, len, p, k, off);
  }

  /** The document once `len` bytes at `pos` are gone. */
  ghost predicate Gone(d: Doc, d': Doc, pos: nat, len: nat, inPlace: bool) {
    && d.cur < |d.nodes| && d'.cur < |d'.nodes| && d' == Edited(d, d'.Now())
    && pos + len <= |d.Now().text| && d'.Now().text == Removed(d.Now().text, pos, len)
    && if inPlace then d.open && d'.Now().chain == d.Now().chain else RemovedAt(d.Now(), d'.Now(), pos, len)
  }

  /** `text_delete`.  It happens in place exactly if the range lies in the cached piece, behind
      its first byte; then the addresses gone are not those of the range but the last of that
      piece. */
  method Delete(t: Text, pos: nat, len: nat) returns (ok: bool, ghost inPlace: bool)
    requires t.Valid()
    modifies t, t.repr
    ensures t.Valid() && fresh(t.repr - old(t.repr))
    ensures old(t.doc.cur) < |old(t.doc.nodes)| && t.doc.cur < |t.doc.nodes|
    ensures ok <==> len == 0 || pos + len <= |old(t.doc.Now().text)|
    ensures len == 0 || !ok ==> unchanged(t) && unchanged(t.repr)
    ensures len != 0 && ok ==>
              && t.doc == Edited(old(t.doc), t.doc.Now())
              && t.doc.Now().text == Removed(old(t.doc.Now().text), pos, len)
              && t.lines == (if pos < old(t.lines.pos) then LineCache(0, 1) else old(t.lines)) && t.lines.pos <= pos
    ensures inPlace <==> len != 0 && ok && old(DeletesInPlace(t, pos, len))
    ensures inPlace <==> len != 0 && ok && old(
              exists start: nat, end: nat :: CachedStretch(t, start, end) && start < pos && pos + len <= end)
    ensures len != 0 && ok && !inPlace ==> RemovedAt(old(t.doc.Now()), t.doc.Now(), pos, len)
    ensures inPlace ==> old(t.doc.open) && t.doc.Now().chain == old(t.doc.Now().chain)
    ensures inPlace ==> forall start: nat, end: nat :: old(CachedStretch(t, start, end)) ==>
              ShrankInPlace(old(t.doc), t.doc, pos, len, end) && len <= end && CachedStretch(t, start, end - len)
    ensures len != 0 && ok ==>
              if inPlace then SpotGrown(old(t.doc.cur), old(t.Spots()), t.Spots(), -(len as int))
              else SpotAdded(old(t.doc.open), old(t.doc.cur), old(t.Spots()), t.Spots(), pos, -(len as int))
  {
    hide Text.Inv, WellFormed, UndoTree.Edited, CachedStretch, DeletesInPlace, ShrankInPlace, RemovedAt, Located,
         SpotsOf, SpotGrown, SpotAdded;
    inPlace := false;
    StateNow(t);
    DeletesInPlaceIs(t, pos, len);
    if len == 0 { return true, false; }
    if pos + len > t.size { return false, false; }
    ForgetLines(t, pos);
    StateNow(t);
    var p, off; ghost var k;
    p, off, k := Locate(t, pos);
    forall start: nat, end: nat | old(CachedStretch(t, start, end)) ensures CachedStretch(t, start, end) {}
    inPlace := DeleteFound(t, pos, len, p, k, off);
    ok := true;
  }
}
