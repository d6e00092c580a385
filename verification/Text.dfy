/** The piece-chain text store.

    Real state is a heap of pieces, changes and revisions linked by pointers, and blocks of
    bytes.  Ghost state says what it means: `st` is the heap of pieces as a value (module
    Store), `h` that of revisions (module Revisions), `doc` the undo tree its users see
    (module UndoTree). */
module PieceChain {
  import opened Bytes
  import opened History
  import opened Extents
  import opened UndoTree
  import opened Blocks
  import opened Store
  import opened Revisions

  datatype LineCache = LineCache(pos: nat, lineno: nat)

  /** The cached line number is right. */
  ghost predicate LinesOk(l: LineCache, text: seq<byte>) {
    l.pos <= |text| && l.lineno == 1 + Count(text[..l.pos], NEWLINE)
  }

  /** The line cached for one document serves another: there is no newline before it, or the two
      are the same up to it. */
  ghost predicate LinesFollow(l: LineCache, d: Doc, l': LineCache, d': Doc) {
    && d.cur < |d.nodes| && d'.cur < |d'.nodes|
    && (l' == LineCache(0, 1)
        || (l' == l && l.pos <= |d.Now().text| && l.pos <= |d'.Now().text|
             && d'.Now().text[..l.pos] == d.Now().text[..l.pos]))
  }

  // ----- the heap as values -----

  ghost predicate LinksAre(ps: set<Piece>, links: LinkMap)
    reads ps`prev, ps`next
  {
    links.Keys == ps && forall p :: p in ps ==> links[p] == Link(p.prev, p.next)
  }

  ghost predicate ExtentsAre(ps: set<Piece>, ext: ExtentMap)
    reads ps`data, ps`len
  {
    ext.Keys == ps && forall p :: p in ps ==> ext[p] == Extent(p.data, p.len)
  }

  lemma MoreLinks(ps: set<Piece>, links: LinkMap, p: Piece)
    requires LinksAre(ps, links) && p.prev == null && p.next == null
    ensures p !in ps ==> p !in links
    ensures LinksAre(ps + {p}, links[p := Link(null, null)])
  {
  }

  lemma MoreExtents(ps: set<Piece>, ext: ExtentMap, p: Piece)
    requires ExtentsAre(ps, ext) && p.data == Null && p.len == 0
    ensures p !in ps ==> p !in ext
    ensures ExtentsAre(ps + {p}, ext[p := Extent(Null, 0)])
  {
  }

  lemma MoreRevs(rs: seq<Revision>, cells: seq<RevCell>, r: Revision)
    requires RevsAre(rs, cells)
    ensures RevsAre(rs + [r], cells + [RevCell(r.change, r.next, r.prev, r.earlier, r.later, r.seqno)])
  {
  }

  ghost predicate ChangesAre(cs: seq<TextChange>, cells: seq<ChangeCell>)
    reads cs`oldSpan, cs`newSpan, cs`pos, cs`next, cs`prev
  {
    && |cells| == |cs|
    && forall i :: 0 <= i < |cs| ==>
         var c := cs[i]; cells[i] == ChangeCell(c.oldSpan, c.newSpan, c.pos, c.next, c.prev)
  }

  ghost predicate RevsAre(rs: seq<Revision>, cells: seq<RevCell>)
    reads rs`change, rs`next, rs`prev, rs`earlier, rs`later, rs`seqno
  {
    && |cells| == |rs|
    && forall i :: 0 <= i < |rs| ==>
         var r := rs[i]; cells[i] == RevCell(r.change, r.next, r.prev, r.earlier, r.later, r.seqno)
  }

  /** Where a redo leaves the cursor: behind whatever the change added. */
  function AfterChange(c: ChangeCell): nat {
    if c.newSpan.len > c.oldSpan.len then c.pos + c.newSpan.len - c.oldSpan.len else c.pos
  }

  /** The position a traversal from `cur` to another revision returns: where the first change
      of the last revision undone happened, or where the last change of the one reached ended. */
  ghost predicate Arrives(h: Hist, chg: seq<ChangeCell>, nodes: seq<Node>, cur: nat, r: nat, pos: nat)
    requires TreeNodes(nodes) && cur < |nodes| && r < |nodes|
  {
    if AncNode(nodes, r, cur) then
      && nodes[r].next.Some? && nodes[r].next.value < |h.tips| && Head(h.tips, nodes[r].next.value) < |chg|
      && pos == chg[Head(h.tips, nodes[r].next.value)].pos
    else
      r < |h.tips| && h.tips[r] < |chg| && pos == AfterChange(chg[h.tips[r]])
  }

  lemma SpotIs(tips: seq<nat>, chg: seq<ChangeCell>, i: nat)
    requires i < |tips| && Head(tips, i) <= tips[i] < |chg|
    ensures i < |SpotsOf(tips, chg)| && SpotsOf(tips, chg)[i].first == chg[Head(tips, i)].pos
    ensures Landing(SpotsOf(tips, chg)[i]) == AfterChange(chg[tips[i]])
  {
  }

  lemma StepEarlier(h: Hist, chg: seq<ChangeCell>, nodes: seq<Node>, cur: nat, pos: nat)
    requires TreeNodes(nodes) && 0 < cur < |nodes| == |h.tips| && Arrives(h, chg, nodes, cur, cur - 1, pos)
    requires NextPath(nodes, cur)
    requires forall i :: 0 <= i < |h.tips| ==> Head(h.tips, i) <= h.tips[i] < |chg|
    ensures pos == if nodes[cur].parent == cur - 1 then SpotsOf(h.tips, chg)[cur].first
                   else Landing(SpotsOf(h.tips, chg)[cur - 1])
  {
    hide NextPath, SpotsOf, Landing, AfterChange, AncNode, TreeNodes, Head;
    SpotIs(h.tips, chg, cur);
    SpotIs(h.tips, chg, cur - 1);
    NextPathParent(nodes, cur);
    ParentIsAnc(nodes, cur);
    if nodes[cur].parent != cur - 1 && AncNode(nodes, cur - 1, cur) {
      AncNodeStep(nodes, cur - 1, cur);
      AncNodeLeq(nodes, cur - 1, nodes[cur].parent);
    }
  }

  lemma ParentIsAnc(nodes: seq<Node>, r: nat)
    requires TreeNodes(nodes) && 0 < r < |nodes|
    ensures nodes[r].parent < r && AncNode(nodes, nodes[r].parent, r)
  {
    AncNodeSelf(nodes, r);
    AncNodeUp(nodes, r, r);
  }

  lemma NextIsChild(nodes: seq<Node>, i: nat)
    requires TreeNodes(nodes) && i < |nodes| && nodes[i].next.Some?
    ensures nodes[i].next.value < |nodes| && nodes[nodes[i].next.value].parent == i
  {
  }

  /** ... so going back in a straight line leads to the first change of what lies before one, and
      any other way to the end of what the last revision added. */
  lemma ArrivesAt(h: Hist, chg: seq<ChangeCell>, nodes: seq<Node>, cur: nat, r: nat, pos: nat)
    requires TreeNodes(nodes) && cur < |nodes| == |h.tips| && r < |nodes| && r != cur && NextPath(nodes, cur)
    requires Arrives(h, chg, nodes, cur, r, pos)
    requires forall i :: 0 <= i < |h.tips| ==> Head(h.tips, i) <= h.tips[i] < |chg|
    ensures ArrivedAt(nodes, SpotsOf(h.tips, chg), cur, r, pos)
  {
    hide NextPath, SpotsOf, AfterChange, AncNode, TreeNodes, Head;
    SpotIs(h.tips, chg, r);
    if AncNode(nodes, r, cur) {
      NextTowards(nodes, r, cur);
      NextIsChild(nodes, r);
      SpotIs(h.tips, chg, nodes[r].next.value);
    }
  }

  lemma StepLater(h: Hist, chg: seq<ChangeCell>, nodes: seq<Node>, cur: nat, pos: nat)
    requires TreeNodes(nodes) && cur + 1 < |nodes| == |h.tips| && Arrives(h, chg, nodes, cur, cur + 1, pos)
    requires forall i :: 0 <= i < |h.tips| ==> Head(h.tips, i) <= h.tips[i] < |chg|
    ensures pos == Landing(SpotsOf(h.tips, chg)[cur + 1])
  {
    hide SpotsOf, Landing, AfterChange, AncNode, TreeNodes, Head;
    SpotIs(h.tips, chg, cur + 1);
    if AncNode(nodes, cur + 1, cur) { AncNodeLeq(nodes, cur + 1, cur); }
  }

  lemma NextPathParent(nodes: seq<Node>, r: nat)
    requires TreeNodes(nodes) && 0 < r < |nodes| && NextPath(nodes, r)
    ensures nodes[r].parent < r && nodes[nodes[r].parent].next == Some(r)
  {
  }

  /** The position a traversal returns, in terms of the tree: where the oldest revision undone
      began, if only undone; else where the revision reached ended. */
  ghost predicate ArrivedAt(nodes: seq<Node>, spots: seq<Spot>, cur: nat, r: nat, pos: nat)
    requires TreeNodes(nodes) && cur < |nodes| == |spots| && r < |nodes|
  {
    if AncNode(nodes, r, cur) then
      exists x :: 0 < x < |nodes| && nodes[x].parent == r && AncNode(nodes, x, cur) && pos == spots[x].first
    else
      pos == if spots[r].grown > 0 then spots[r].last + spots[r].grown else spots[r].last
  }

  /** Which revisions the fields of a text point at. */
  ghost predicate FieldsOf(h: Hist, doc: Doc, history: Revision, current: Revision?, last: Revision,
                           saved: Revision, at: nat) {
    && |h.revs| == |doc.nodes| && doc.cur < |doc.nodes| && doc.saved < |doc.nodes|
    && |h.tips| == |doc.nodes|
    && (doc.open ==> 0 < doc.cur == |doc.nodes| - 1 && doc.saved != doc.cur)
    && history == h.revs[doc.cur]
    && current == (if doc.open then history else null)
    && last == (if doc.open then h.revs[|h.revs| - 2] else h.revs[|h.revs| - 1])
    && saved == h.revs[doc.saved]
    && at == h.tips[doc.cur]
  }

  /** Turning a redo pointer moves none of the fields. */
  lemma RedirectFields(h: Hist, doc: Doc, history: Revision, current: Revision?, last: Revision,
                       saved: Revision, at: nat, i: nat)
    requires FieldsOf(h, doc, history, current, last, saved, at)
    requires i < |doc.nodes| && doc.nodes[i].parent < |doc.nodes|
    ensures var doc' := doc.(nodes := Redirected(doc.nodes, i));
            && doc.cur < |doc.nodes| == |doc'.nodes| && doc'.Now() == doc.Now()
            && forall h': Hist :: h'.revs == h.revs && h'.tips == h.tips ==>
                 FieldsOf(h', doc', history, current, last, saved, at)
  {
  }

  ghost function Parts(b: Piece, p: Piece, e: Piece, c: TextChange, r: Revision, bs: seq<Block>): set<object> {
    var nodes: set<object> := {b, p, e, c, r};
    nodes + (set k | k in bs) + (set k | k in bs :: k.data)
  }

  /** The block of a loaded file; an empty file has none. */
  method NewBlocks(content: seq<byte>, mapped: bool) returns (bs: seq<Block>)
    ensures Hold(bs, if content == [] then [] else [content])
    ensures forall b :: b in bs ==> fresh(b) && fresh(b.data)
    ensures |bs| <= 1
  {
    bs := [];
    if content != [] {
      var b := new Block.Load(content, mapped);
      bs := [b];
    }
  }

  /** The sentinels and one piece between them. */
  method NewPieces(data: Ptr, len: nat) returns (b: Piece, p: Piece, e: Piece)
    ensures fresh(b) && fresh(p) && fresh(e) && b != p && p != e && b != e
    ensures b.sentinel && e.sentinel && !p.sentinel && p.len == len
    ensures LinksAre({b, p, e}, LoadedLinks(b, p, e)) && ExtentsAre({b, p, e}, LoadedExtents(b, p, e, data, len))
  {
    b := new Piece(true);
    e := new Piece(true);
    p := new Piece(false);
    b.next, p.prev, p.next, e.prev := p, b, e, p;
    p.data, p.len := data, len;
  }

  /** The empty root revision. */
  method NewRoot() returns (c: TextChange, r: Revision)
    ensures fresh(c) && fresh(r)
    ensures ChangesAre([c], [ChangeCell(EMPTY_SPAN, EMPTY_SPAN, EPOS, null, null)])
    ensures RevsAre([r], [RevCell(c, null, null, null, null, 0)])
  {
    c := new TextChange(EPOS, null);
    r := new Revision(0);
    r.change := c;
  }

  lemma HoldLength(bs: seq<Block>, mem: seq<seq<byte>>)
    requires Hold(bs, mem)
    ensures |bs| == |mem|
  {
  }

  class Text {
    var blocks: seq<Block>
    var cache: Piece?
    const begin: Piece
    const end: Piece
    var history: Revision
    var currentRevision: Revision?
    var lastRevision: Revision
    var savedRevision: Revision
    var size: nat
    var lines: LineCache

    ghost var pieces: set<Piece>
    ghost var st: Store
    ghost var h: Hist
    ghost var doc: Doc
    ghost var repr: set<object>

    // ----- the heap as a value -----

    ghost predicate Owned()
      reads this`repr, this`pieces, this`h, this`blocks
    {
      && this !in repr
      && (forall p :: p in pieces ==> p in repr)
      && (forall c :: c in h.changes ==> c in repr)
      && (forall r :: r in h.revs ==> r in repr)
      && (forall b :: b in blocks ==> b in repr && b.data in repr)
      && (forall i, j :: 0 <= i < j < |blocks| ==> blocks[i] != blocks[j] && blocks[i].data != blocks[j].data)
      && begin in pieces && end in pieces
      && (forall p :: p in pieces ==> (p.sentinel <==> p == begin || p == end))
    }

    ghost predicate Mirrored()
      reads this`repr, this`pieces, this`h, this`blocks, this`st, this`size, repr
    {
      && Owned()
      && Hold(blocks, st.mem)
      && LinksAre(pieces, st.links) && ExtentsAre(pieces, st.ext)
      && ChangesAre(h.changes, st.chg) && RevsAre(h.revs, h.cells)
      && size == st.size && begin == st.begin && end == st.end
    }

    /** The heap is exactly what `st` and `h` say. */
    ghost predicate Represents()
      reads this`repr, this`pieces, this`h, this`blocks, this`st, this`size, repr
    {
      Mirrored() == true
    }

    // ----- loading -----

    /** A text over three linked pieces and an empty root revision; see `Load`. */
    constructor (b: Piece, p: Piece, e: Piece, c: TextChange, r: Revision, bs: seq<Block>, ghost content: seq<byte>)
      requires LinksAre({b, p, e}, LoadedLinks(b, p, e)) && b.sentinel && e.sentinel && !p.sentinel
      requires ExtentsAre({b, p, e}, LoadedExtents(b, p, e, if content == [] then Static else At(0, 0), |content|))
      requires b != p && p != e && b != e && p.len == |content|
      requires ChangesAre([c], [ChangeCell(EMPTY_SPAN, EMPTY_SPAN, EPOS, null, null)])
      requires RevsAre([r], [RevCell(c, null, null, null, null, 0)])
      requires Hold(bs, if content == [] then [] else [content])
      ensures Valid() && repr == Parts(b, p, e, c, r, bs)
      ensures |doc.nodes| == 1 && doc == Doc([Node(0, None, doc.nodes[0].state)], 0, false, 0)
      ensures doc.Now().text == content && lines == LineCache(0, 1)
    {
      hide StoreInv, HistInv, StatesInv, Hold, LinksAre, ExtentsAre, ChangesAre, RevsAre;
      begin, end, blocks, cache := b, e, bs, null;
      history, currentRevision, lastRevision, savedRevision := r, null, r, r;
      size, lines := p.len, LineCache(0, 1);
      pieces := {b, p, e};
      ghost var data, mem := if content == [] then Static else At(0, 0), if content == [] then [] else [content];
      ghost var s := LoadedStore(b, p, e, data, mem, |content|);
      st, h := s, LoadedHist(c, r);
      repr := Parts(b, p, e, c, r, bs);
      LoadedSound(b, p, e, data, mem, content, c, r);
      doc := Doc([Node(0, None, StateOf([b, p, e], s.ext, mem))], 0, false, 0);
      new;
      HoldLength(bs, mem);
      assert Owned();
      assert Represents();
      assert Fields();
      assert WellFormed(doc);
    }

    /** `vis_text_load`: one piece spanning the whole file, and a root revision. */
    static method Load(content: seq<byte>, mapped: bool) returns (t: Text)
      ensures t.Valid() && fresh(t) && fresh(t.repr)
      ensures |t.doc.nodes| == 1 && t.doc == Doc([Node(0, None, t.doc.nodes[0].state)], 0, false, 0)
      ensures t.doc.Now().text == content && t.lines == LineCache(0, 1)
    {
      hide Text.Valid, LinksAre, ExtentsAre, ChangesAre, RevsAre, Hold;
      var bs := NewBlocks(content, mapped);
      var b, p, e := NewPieces(if content == [] then Static else At(0, 0), |content|);
      var c, r := NewRoot();
      t := new Text(b, p, e, c, r, bs, content);
    }

    // ----- single writes, each keeping the value in step with the heap -----

    method SetNext(p: Piece, q: Piece?)
      requires Represents() && p in pieces
      modifies p`next, this`st
      ensures Represents() && p in old(st).links
      ensures st == old(st).(links := old(st).links[p := old(st).links[p].(next := q)])
    {
      hide Hold, ChangesAre, RevsAre, ExtentsAre, Owned;
      st := st.(links := st.links[p := st.links[p].(next := q)]);
      p.next := q;
      assert LinksAre(pieces, st.links);
    }

    method SetSize(n: nat)
      requires Represents()
      modifies this`size, this`st
      ensures Represents() && st == old(st).(size := n) && size == n
    {
      size, st := n, st.(size := n);
    }

    ghost method MoveTo(v: nat)
      requires Represents()
      modifies this`st
      ensures Represents() && st == old(st).(at := v)
    {
      st := st.(at := v);
    }

    method SetPrev(p: Piece, q: Piece?)
      requires Represents() && p in pieces
      modifies p`prev, this`st
      ensures Represents() && p in old(st).links
      ensures st == old(st).(links := old(st).links[p := old(st).links[p].(prev := q)])
    {
      hide Hold, ChangesAre, RevsAre, ExtentsAre, Owned;
      st := st.(links := st.links[p := st.links[p].(prev := q)]);
      p.prev := q;
      assert LinksAre(pieces, st.links);
    }

    // ----- the invariant -----

    /** The cached piece was created by the newest change and may be edited in place, unless
        that change has not put it into the chain. */
    ghost predicate CacheInv()
      reads this`cache, this`st, this`doc, this`pieces
    {
      cache != null ==>
        && doc.open && cache in pieces
        && (st.at < |st.vs| && cache in st.vs[st.at].mid ==> Exclusive(st.ext, st.mem, cache))
    }

    ghost predicate Fields()
      reads this
    {
      FieldsOf(h, doc, history, currentRevision, lastRevision, savedRevision, st.at)
    }

    /** Everything but the promise that redo pointers lead to the current revision, which a
        branch switch suspends. */
    ghost predicate Inv()
      reads this, repr
    {
      Healthy() == true
    }

    ghost predicate Healthy()
      reads this, repr
    {
      && this !in repr
      && Represents()
      && StoreInv(st)
      && HistInv(h, doc.nodes, st.vs, st.chg)
      && StatesInv(h.tips, doc.nodes, st)
      && Fields()
      && CacheInv()
      && LinesOk(lines, doc.Now().text)
    }

    ghost predicate Valid()
      reads this, repr
    {
      Inv() && WellFormed(doc)
    }

    // ----- spans -----

    /** `span_init`: walk from `start` to `end`, adding up lengths. */
    method SpanInit(start: Piece?, end: Piece?, ghost ps: seq<Piece>) returns (s: Span)
      requires Represents() && (forall p :: p in ps ==> p in pieces && InBounds(st.ext[p], st.mem))
      requires if ps == [] then start == null && end == null else start == ps[0] && end == ps[|ps| - 1]
      requires NoDup(ps)
      requires forall i :: 0 <= i < |ps| - 1 ==> ps[i].next == ps[i + 1]
      ensures s == Span(start, end, |Addrs(ps, st.ext)|)
    {
      var len := 0;
      var p := start;
      ghost var i := 0;
      while p != null
        invariant 0 <= i <= |ps|
        invariant p == null ==> i == |ps|
        invariant p != null ==> i < |ps| && p == ps[i]
        invariant len == |Addrs(ps[..i], st.ext)|
        decreases |ps| - i
      {
        AddrsStep(ps, i, st.ext);
        len := len + p.len;
        i := i + 1;
        if p == end { break; }
        assert i < |ps| && ps[i - 1].next == ps[i];
        p := p.next;
      }
      assert ps[..i] == ps;
      s := Span(start, end, len);
    }

    /** `span_swap`: whichever of the two spans is empty, exactly two pointers change: the
        pieces around the spans, `a` and `b`, are made to point at the new span, or at each
        other when there is none. */
    method SpanSwap(o: Span, n: Span, ghost a: Piece, ghost b: Piece)
      requires Represents() && BetweenIn(st.links, o, n, a, b) && size >= o.len
      modifies pieces`prev, pieces`next, this`size, this`st
      ensures Represents()
      ensures st == old(st).(links := st.links, size := st.size)
      ensures st.links == Joined(old(st).links, n, a, b) && st.size == old(st).size - o.len + n.len
    {
      hide Represents;
      LinkIs(a);
      if o.len == 0 && n.len == 0 {
        return;
      } else if o.len == 0 {
        LinkIs(n.start);
        SetNext(n.start.prev, n.start);
        LinkIs(n.end);
        SetPrev(n.end.next, n.end);
      } else if n.len == 0 {
        LinkIs(o.start);
        LinkIs(o.end);
        SetNext(o.start.prev, o.end.next);
        LinkIs(o.start);
        LinkIs(o.end);
        SetPrev(o.end.next, o.start.prev);
      } else {
        LinkIs(o.start);
        SetNext(o.start.prev, n.start);
        LinkIs(o.end);
        SetPrev(o.end.next, n.end);
      }
      assert st.links == Joined(old(st).links, n, a, b);
      LinkIs(a);
      assert st == old(st).(links := st.links);
      SetSize(size - o.len);
      SetSize(size + n.len);
    }

    /** Undo one change: swap its new span for its old one. */
    method SwapOut(c: TextChange)
      requires Represents() && StoreInv(st) && 0 < st.at < |h.changes| && c == h.changes[st.at]
      modifies pieces`prev, pieces`next, this`size, this`st
      ensures Represents() && StoreInv(st)
      ensures st == old(st).(links := st.links, size := st.size, at := old(st.vs[st.at].parent))
    {
      ghost var a, b, s' := SwapOutStore(st);
      SpanSwap(c.newSpan, c.oldSpan, a, b);
      MoveTo(s'.at);
      assert st == s';
    }

    /** Redo one change: swap its old span for its new one. */
    method SwapIn(c: TextChange, ghost v: nat)
      requires Represents() && StoreInv(st) && 0 < v < |st.vs| && st.vs[v].parent == st.at
      requires v < |h.changes| && c == h.changes[v]
      modifies pieces`prev, pieces`next, this`size, this`st
      ensures Represents() && StoreInv(st)
      ensures st == old(st).(links := st.links, size := st.size, at := v)
    {
      ghost var a, b, s' := SwapInStore(st, v);
      SpanSwap(c.oldSpan, c.newSpan, a, b);
      MoveTo(s'.at);
      assert st == s';
    }

    /** Change number `v`, read off the value. */
    lemma ChangeIs(v: nat)
      requires Represents() && v < |h.changes|
      ensures |st.chg| == |h.changes|
      ensures var c := h.changes[v]; st.chg[v] == ChangeCell(c.oldSpan, c.newSpan, c.pos, c.next, c.prev)
    {
    }

    lemma SizeIs()
      requires Represents()
      ensures size == st.size
    {
    }

    lemma KeysAre()
      requires Represents()
      ensures st.links.Keys == pieces == st.ext.Keys
    {
    }

    lemma ExtentIs(p: Piece)
      requires Represents() && p in pieces
      ensures st.links.Keys == pieces == st.ext.Keys && st.ext[p] == Extent(p.data, p.len)
    {
    }

    lemma LinkIs(p: Piece)
      requires Represents() && p in st.links
      ensures st.links.Keys == pieces && size == st.size && st.links[p] == Link(p.prev, p.next)
    {
    }

    /** Everything the heap consists of belongs to this text. */
    lemma Within()
      requires Represents()
      ensures this !in repr && forall p :: p in pieces ==> p in repr
      ensures forall c :: c in h.changes ==> c in repr
      ensures forall r :: r in h.revs ==> r in repr
      ensures forall b :: b in blocks ==> b in repr && b.data in repr
    {
    }

    lemma RevIs(i: nat)
      requires Represents() && i < |h.revs|
      ensures |h.cells| == |h.revs|
      ensures var r := h.revs[i]; h.cells[i] == RevCell(r.change, r.next, r.prev, r.earlier, r.later, r.seqno)
    {
    }

    method SetRevNext(p: Revision, ghost i: nat, q: Revision?)
      requires Represents() && this !in repr && NoDup(h.revs) && i < |h.revs| && p == h.revs[i]
      modifies p`next, this`h
      ensures Represents() && i < |old(h).cells|
      ensures h == old(h).(cells := old(h).cells[i := old(h).cells[i].(next := q)])
    {
      h := h.(cells := h.cells[i := h.cells[i].(next := q)]);
      p.next := q;
    }

    method SetRevLater(p: Revision, ghost i: nat, q: Revision?)
      requires Represents() && this !in repr && NoDup(h.revs) && i < |h.revs| && p == h.revs[i]
      modifies p`later, this`h
      ensures Represents() && i < |old(h).cells|
      ensures h == old(h).(cells := old(h).cells[i := old(h).cells[i].(later := q)])
    {
      h := h.(cells := h.cells[i := h.cells[i].(later := q)]);
      p.later := q;
    }

    method SetRevChange(p: Revision, ghost i: nat, c: TextChange)
      requires Represents() && this !in repr && NoDup(h.revs) && i < |h.revs| && p == h.revs[i]
      modifies p`change, this`h
      ensures Represents() && i < |old(h).cells|
      ensures h == old(h).(cells := old(h).cells[i := old(h).cells[i].(change := c)])
    {
      h := h.(cells := h.cells[i := h.cells[i].(change := c)]);
      p.change := c;
    }

    method SetChangePrev(p: TextChange, ghost v: nat, c: TextChange)
      requires Represents() && this !in repr && NoDup(h.changes) && v < |h.changes| && p == h.changes[v]
      modifies p`prev, this`st
      ensures Represents() && v < |old(st).chg|
      ensures st == old(st).(chg := old(st).chg[v := old(st).chg[v].(prev := c)])
    {
      st := st.(chg := st.chg[v := st.chg[v].(prev := c)]);
      p.prev := c;
    }

    method SetSpans(p: TextChange, ghost v: nat, o: Span, n: Span)
      requires Represents() && this !in repr && NoDup(h.changes) && v < |h.changes| && p == h.changes[v]
      modifies p`oldSpan, p`newSpan, this`st
      ensures Represents() && v < |old(st).chg|
      ensures st == old(st).(chg := old(st).chg[v := old(st).chg[v].(oldSpan := o, newSpan := n)])
    {
      hide Hold, LinksAre, ExtentsAre, RevsAre;
      st := st.(chg := st.chg[v := st.chg[v].(oldSpan := o, newSpan := n)]);
      p.oldSpan, p.newSpan := o, n;
    }

    method SetExtent(p: Piece, data: Ptr, len: nat)
      requires Represents() && this !in repr && p in pieces
      modifies p`data, p`len, this`st
      ensures Represents() && st == old(st).(ext := old(st).ext[p := Extent(data, len)])
    {
      hide Hold, ChangesAre, RevsAre, LinksAre, Owned;
      st := st.(ext := st.ext[p := Extent(data, len)]);
      p.data, p.len := data, len;
      assert ExtentsAre(pieces, st.ext);
    }

    /** `piece_init`. */
    method PieceInit(p: Piece, prev: Piece?, next: Piece?, data: Ptr, len: nat)
      requires Represents() && this !in repr && p in pieces
      modifies p, this`st
      ensures Represents()
      ensures st == old(st).(links := old(st).links[p := Link(prev, next)],
                             ext := old(st).ext[p := Extent(data, len)])
    {
      hide Represents;
      SetPrev(p, prev);
      SetNext(p, next);
      SetExtent(p, data, len);
      assert st.links == old(st).links[p := Link(prev, next)];
    }

    /** `piece_alloc`. */
    method PieceAlloc() returns (p: Piece)
      requires Represents() && this !in repr
      modifies this`pieces, this`st, this`repr
      ensures Represents() && fresh(p) && p !in old(pieces) && repr == old(repr) + {p} && pieces == old(pieces) + {p}
      ensures p !in old(st).links && p !in old(st).ext
      ensures st == old(st).(links := old(st).links[p := Link(null, null)],
                             ext := old(st).ext[p := Extent(Null, 0)])
    {
      hide Represents;
      p := new Piece(false);
      Within();
      AdoptPiece(p);
    }

    ghost method AdoptPiece(p: Piece)
      requires Represents() && this !in repr && p !in repr && !p.sentinel
      requires p.prev == null && p.next == null && p.data == Null && p.len == 0
      modifies this`pieces, this`st, this`repr
      ensures Represents() && p !in old(pieces) && repr == old(repr) + {p} && pieces == old(pieces) + {p}
      ensures p !in old(st).links && p !in old(st).ext
      ensures st == old(st).(links := old(st).links[p := Link(null, null)],
                             ext := old(st).ext[p := Extent(Null, 0)])
    {
      hide Hold, ChangesAre, RevsAre, Represents, LinksAre, ExtentsAre;
      MirrorParts();
      assert p !in pieces;
      MoreLinks(pieces, st.links, p);
      MoreExtents(pieces, st.ext, p);
      st := st.(links := st.links[p := Link(null, null)], ext := st.ext[p := Extent(Null, 0)]);
      pieces, repr := pieces + {p}, repr + {p};
      MirrorWhole();
    }

    /** The heap is what `st` and `h` say, part by part. */
    lemma MirrorParts()
      requires Represents()
      ensures Owned() && Hold(blocks, st.mem) && LinksAre(pieces, st.links) && ExtentsAre(pieces, st.ext)
      ensures ChangesAre(h.changes, st.chg) && RevsAre(h.revs, h.cells)
      ensures size == st.size && begin == st.begin && end == st.end
    {
    }

    lemma MirrorWhole()
      requires Owned() && Hold(blocks, st.mem) && LinksAre(pieces, st.links) && ExtentsAre(pieces, st.ext)
      requires ChangesAre(h.changes, st.chg) && RevsAre(h.revs, h.cells)
      requires size == st.size && begin == st.begin && end == st.end
      ensures Represents()
    {
    }

    /** A new change, not yet in any list. */
    method AllocChange(pos: nat, next: TextChange?) returns (c: TextChange)
      requires Represents() && this !in repr
      modifies this`h, this`st, this`repr
      ensures Represents() && fresh(c) && c !in old(h).changes && repr == old(repr) + {c}
      ensures h == old(h).(changes := old(h).changes + [c])
      ensures st == old(st).(chg := old(st).chg + [ChangeCell(EMPTY_SPAN, EMPTY_SPAN, pos, next, null)])
    {
      hide Hold, LinksAre, ExtentsAre, RevsAre;
      c := new TextChange(pos, next);
      assert forall q :: q in h.changes ==> q in repr && q != c;
      h := h.(changes := h.changes + [c]);
      st := st.(chg := st.chg + [ChangeCell(EMPTY_SPAN, EMPTY_SPAN, pos, next, null)]);
      repr := repr + {c};
    }

    /** A new revision, not yet in the tree. */
    method AllocRevision(seqno: nat, prev: Revision?, earlier: Revision?) returns (r: Revision)
      requires Represents() && this !in repr
      modifies this`h, this`repr
      ensures Represents() && fresh(r) && r !in old(h).revs && repr == old(repr) + {r}
      ensures h == old(h).(revs := old(h).revs + [r],
                           cells := old(h).cells + [RevCell(null, null, prev, earlier, null, seqno)])
    {
      hide Represents;
      r := new Revision(seqno);
      r.prev, r.earlier := prev, earlier;
      AdoptRevision(r);
    }

    ghost method AdoptRevision(r: Revision)
      requires Represents() && this !in repr && r !in repr
      modifies this`h, this`repr
      ensures Represents() && r !in old(h).revs && repr == old(repr) + {r}
      ensures h == old(h).(revs := old(h).revs + [r],
                           cells := old(h).cells + [RevCell(r.change, r.next, r.prev, r.earlier, r.later, r.seqno)])
    {
      hide Hold, ChangesAre, RevsAre, Represents, LinksAre, ExtentsAre;
      MirrorParts();
      MoreRevs(h.revs, h.cells, r);
      h := h.(revs := h.revs + [r],
              cells := h.cells + [RevCell(r.change, r.next, r.prev, r.earlier, r.later, r.seqno)]);
      repr := repr + {r};
      MirrorWhole();
    }

    ghost method Reshape(vs: seq<Version>, at: nat, tips: seq<nat>)
      requires Represents() && this !in repr
      modifies this`st, this`h
      ensures Represents() && st == old(st).(vs := vs, at := at) && h == old(h).(tips := tips)
    {
      st, h := st.(vs := vs, at := at), h.(tips := tips);
    }

    method AdoptBlock(b: Block)
      requires Represents() && this !in repr && b !in repr && b.data !in repr && b.Valid() && b.Contents() == []
      modifies this`blocks, this`st, this`repr
      ensures Represents() && repr == old(repr) + {b, b.data}
      ensures st == old(st).(mem := old(st).mem + [[]]) && blocks == old(blocks) + [b]
    {
      hide LinksAre, ExtentsAre, ChangesAre, RevsAre;
      blocks := blocks + [b];
      st := st.(mem := st.mem + [[]]);
      repr := repr + {b, b.data};
    }

    /** `block_alloc`, added to the array of blocks. */
    method AddBlock(size: nat)
      requires Represents() && this !in repr
      modifies this`blocks, this`st, this`repr
      ensures Represents() && fresh(repr - old(repr)) && old(repr) <= repr && this !in repr
      ensures st == old(st).(mem := old(st).mem + [[]])
      ensures |blocks| == |old(blocks)| + 1 && blocks[..|old(blocks)|] == old(blocks)
      ensures fresh(blocks[|blocks| - 1]) && fresh(blocks[|blocks| - 1].data)
      ensures blocks[|blocks| - 1].Valid() && blocks[|blocks| - 1].Capacity(size)
    {
      hide LinksAre, ExtentsAre, ChangesAre, RevsAre;
      var b := new Block(size);
      AdoptBlock(b);
    }

    /** The last block, which alone is ever written. */
    lemma LastBlock()
      requires Represents()
      ensures |st.mem| == |blocks|
      ensures |blocks| > 0 ==>
                var b := blocks[|blocks| - 1];
                && b.Valid() && b.Contents() == st.mem[|blocks| - 1] && b.len == |st.mem[|blocks| - 1]|
                && b in repr && b.data in repr
    {
    }

    method AppendLast(data: seq<byte>) returns (off: nat)
      requires Represents() && this !in repr && |blocks| > 0
      requires blocks[|blocks| - 1].Valid() && blocks[|blocks| - 1].Capacity(|data|)
      modifies blocks[|blocks| - 1], blocks[|blocks| - 1].data, this`st
      ensures Represents() && |old(st).mem| == |blocks|
      ensures off == |old(st).mem[|blocks| - 1]|
      ensures st == old(st).(mem := old(st).mem[|blocks| - 1 := old(st).mem[|blocks| - 1] + data])
    {
      hide LinksAre, ExtentsAre, ChangesAre, RevsAre;
      ghost var n := |blocks| - 1;
      st := st.(mem := st.mem[n := st.mem[n] + data]);
      off := blocks[|blocks| - 1].Append(data);
    }

    method InsertLast(pos: nat, data: seq<byte>) returns (ok: bool)
      requires Represents() && this !in repr && |blocks| > 0 && pos <= |st.mem[|blocks| - 1]|
      modifies blocks[|blocks| - 1], blocks[|blocks| - 1].data, this`st
      ensures Represents() && |old(st).mem| == |blocks|
      ensures ok <==> old(blocks[|blocks| - 1].Capacity(|data|))
      ensures ok ==> st == old(st).(mem := old(st).mem[|blocks| - 1 := Inserted(old(st).mem[|blocks| - 1], pos, data)])
      ensures !ok ==> unchanged(this) && unchanged(repr)
    {
      hide LinksAre, ExtentsAre, ChangesAre, RevsAre, Inserted;
      ghost var n := |blocks| - 1;
      if blocks[n].Capacity(|data|) { st := st.(mem := st.mem[n := Inserted(st.mem[n], pos, data)]); }
      ok := blocks[|blocks| - 1].Insert(pos, data);
    }

    method DeleteLast(pos: nat, len: nat) returns (ok: bool)
      requires Represents() && this !in repr && |blocks| > 0
      modifies blocks[|blocks| - 1], blocks[|blocks| - 1].data, this`st
      ensures Represents() && |old(st).mem| == |blocks|
      ensures ok <==> pos + len <= |old(st).mem[|blocks| - 1]|
      ensures ok ==> st == old(st).(mem := old(st).mem[|blocks| - 1 := Removed(old(st).mem[|blocks| - 1], pos, len)])
      ensures !ok ==> unchanged(this) && unchanged(repr)
    {
      hide LinksAre, ExtentsAre, ChangesAre, RevsAre;
      ghost var n := |blocks| - 1;
      ok := blocks[|blocks| - 1].Delete(pos, len);
      if ok { st := st.(mem := st.mem[n := Removed(st.mem[n], pos, len)]); }
    }

    method SetCurrent(rev: Revision)
      requires Represents() && this !in repr
      modifies this`currentRevision, this`history
      ensures Represents() && currentRevision == history == rev
    {
      hide Mirrored;
      currentRevision, history := rev, rev;
    }

    ghost method SetDoc(d: Doc)
      requires Represents() && this !in repr
      modifies this`doc
      ensures Represents() && doc == d
    {
      hide Mirrored;
      doc := d;
    }

    method InvalidateLines()
      requires Represents() && this !in repr
      modifies this`lines
      ensures Represents() && lines == LineCache(0, 1)
    {
      lines := LineCache(0, 1);
    }

    /** Set `txt->history`, which makes revision `i` the current one. */
    method SetHistory(rev: Revision, ghost i: nat)
      requires Represents() && this !in repr
      modifies this`history, this`doc
      ensures Represents() && history == rev && doc == old(doc).(cur := i)
    {
      history := rev;
      doc := doc.(cur := i);
    }

    /** The assignments of `text_snapshot`. */
    method CloseRevision()
      modifies this`lastRevision, this`currentRevision, this`cache
      ensures lastRevision == if old(currentRevision) != null then old(currentRevision) else old(lastRevision)
      ensures currentRevision == null && cache == null
    {
      if currentRevision != null { lastRevision := currentRevision; }
      currentRevision := null;
      cache := null;
    }

    method SetSaved()
      requires Inv()
      modifies this`savedRevision, this`lastRevision, this`currentRevision, this`cache, this`doc
      ensures Inv() && doc == UndoTree.Saved(old(doc))
    {
      hide Represents, StoreInv, HistInv, StatesInv;
      savedRevision := history;
      CloseRevision();
      doc := UndoTree.Saved(doc);
      assert Represents();
      assert Fields();
    }

    /** The chain the document is at. */
    ghost function Chain(): seq<Piece>
      requires st.at < |st.vs|
      reads this`st
    {
      st.vs[st.at].chain
    }

    lemma ChainIs(i: nat)
      requires Represents() && StoreInv(st)
      ensures st.at < |st.vs| && |Chain()| >= 2 && Chain()[0] == begin && Chain()[|Chain()| - 1] == end
      ensures NoDup(Chain()) && NoDup(Addrs(Chain(), st.ext))
      ensures size == |Addrs(Chain(), st.ext)|
      ensures st.links.Keys == pieces == st.ext.Keys
      ensures i < |Chain()| ==> Chain()[i] in pieces && InBounds(st.ext[Chain()[i]], st.mem)
      ensures i < |Chain()| ==> st.ext[Chain()[i]] == Extent(Chain()[i].data, Chain()[i].len)
      ensures i < |Chain()| ==> |Cells(ExtentOf(st.ext, Chain()[i]))| == Chain()[i].len
      ensures i < |Chain()| ==> Chain()[i].prev == PrevOf(Chain(), i) && Chain()[i].next == NextOf(Chain(), i)
      ensures begin.len == 0 && end.len == 0 && !begin.data.At?
      ensures i < |Chain()| ==> (Chain()[i].sentinel <==> i == 0 || i == |Chain()| - 1)
      ensures i < |Chain()| ==> (Chain()[i].data == Null <==> Chain()[i].sentinel)
    {
      hide HistInv, Addrs;
      assert ChainAt(st, st.at) && GoodVersion(st.vs, st.at);
      if i < |Chain()| {
        assert Chain()[i] in Chain() && LinkedAt(st.links, Chain(), i);
      }
    }

    /** `piece_get_intern`: the piece holding the byte before `pos`; `begin` when `pos` is 0. */
    method PieceGetIntern(pos: nat) returns (p: Piece?, off: nat, ghost k: nat)
      requires Represents() && StoreInv(st)
      ensures p == null <==> pos > size
      ensures p != null ==> st.at < |st.vs| && k + 1 < |Chain()| && p == Chain()[k] && off <= p.len
      ensures p != null ==> pos == |Addrs(Chain()[..k], st.ext)| + off
      ensures p != null && k > 0 ==> off > 0
      ensures p != null && k == 0 ==> off == 0
    {
      hide Represents, StoreInv;
      var cur := 0;
      p := begin;
      k := 0;
      ChainIs(0);
      ChainIs(|Chain()| - 1);
      while p.next != null
        invariant st.at < |st.vs| && k < |Chain()| && p == Chain()[k] && (p.next == null <==> k == |Chain()| - 1)
        invariant cur == |Addrs(Chain()[..k], st.ext)| && (k > 0 ==> pos > cur)
        decreases |Chain()| - k
      {
        ChainIs(k);
        if cur <= pos <= cur + p.len {
          off := pos - cur;
          PrefixFits(Chain(), k, st.ext);
          return;
        }
        cur := cur + p.len;
        AddrsStep(Chain(), k, st.ext);
        p := p.next;
        k := k + 1;
        ChainIs(k);
      }
      AddrsStep(Chain(), k, st.ext);
      assert Chain()[..k + 1] == Chain();
      return null, 0, 0;
    }

    // ----- undo and redo -----

    /** `text_snapshot`: the open revision is complete. */
    method Snapshot()
      requires Inv()
      modifies this`lastRevision, this`currentRevision, this`cache, this`doc
      ensures Inv() && doc == UndoTree.Snapshot(old(doc)) && cache == null
    {
      hide Represents, StoreInv, HistInv, StatesInv;
      CloseRevision();
      doc := UndoTree.Snapshot(doc);
      assert Represents();
      assert Fields();
    }

    /** `revision_undo`: the changes of revision `i`, newest first. */
    method RevisionUndo(rev: Revision, ghost i: nat) returns (pos: nat)
      requires Represents() && StoreInv(st) && HistInv(h, doc.nodes, st.vs, st.chg)
      requires 0 < i < |h.revs| && rev == h.revs[i] && i < |h.tips| && st.at == h.tips[i]
      modifies pieces`prev, pieces`next, this`size, this`st
      ensures Represents() && StoreInv(st) && doc.nodes[i].parent < i
      ensures st == old(st).(links := st.links, size := st.size, at := h.tips[doc.nodes[i].parent])
      ensures Head(h.tips, i) < |st.chg| && pos == st.chg[Head(h.tips, i)].pos
    {
      hide Represents, StoreInv, HistInv;
      pos := EPOS;
      RevIs(i);
      TipIs(h, doc.nodes, st.vs, st.chg, i);
      var c := rev.change;
      while c != null
        invariant Represents() && StoreInv(st)
        invariant st == old(st).(links := st.links, size := st.size, at := st.at)
        invariant c == null ==> st.at == h.tips[doc.nodes[i].parent]
        invariant c == null ==> pos == st.chg[Head(h.tips, i)].pos
        invariant c != null ==> Head(h.tips, i) <= st.at <= h.tips[i] && c == h.changes[st.at]
        decreases if c == null then 0 else st.at + 1
      {
        ghost var v := st.at;
        VersionIs(h, doc.nodes, st.vs, st.chg, i, v);
        SwapOut(c);
        ChangeIs(v);
        pos := c.pos;
        c := c.next;
      }
    }

    /** The end of a revision's list of changes. */
    method OldestChange(rev: Revision, ghost i: nat) returns (c: TextChange, ghost v: nat)
      requires Represents() && HistInv(h, doc.nodes, st.vs, st.chg)
      requires 0 < i < |h.revs| && rev == h.revs[i]
      ensures i < |h.tips| && v == Head(h.tips, i) < |h.changes| && c == h.changes[v]
    {
      hide Represents, HistInv;
      RevIs(i);
      TipIs(h, doc.nodes, st.vs, st.chg, i);
      c := rev.change;
      v := h.tips[i];
      while c.next != null
        invariant Head(h.tips, i) <= v <= h.tips[i] && c == h.changes[v] && v < |h.changes|
        decreases v
      {
        VersionIs(h, doc.nodes, st.vs, st.chg, i, v);
        ChangeIs(v);
        c, v := c.next, v - 1;
      }
      VersionIs(h, doc.nodes, st.vs, st.chg, i, v);
      ChangeIs(v);
    }

    /** One round of `revision_redo`: apply change `v` of revision `i`. */
    method RedoChange(c: TextChange, ghost i: nat, ghost v: nat) returns (pos: nat)
      requires Represents() && StoreInv(st) && HistInv(h, doc.nodes, st.vs, st.chg)
      requires 0 < i < |h.revs| && i < |h.tips| && Head(h.tips, i) <= v <= h.tips[i] < |h.changes|
      requires c == h.changes[v] && v < |st.vs| && st.vs[v].parent == st.at
      modifies pieces`prev, pieces`next, this`size, this`st
      ensures Represents() && StoreInv(st)
      ensures st == old(st).(links := st.links, size := st.size, at := v)
      ensures v < |st.chg| && pos == AfterChange(st.chg[v])
      ensures c.prev == if v < h.tips[i] then h.changes[v + 1] else null
      ensures v < h.tips[i] ==> v + 1 < |st.vs| && st.vs[v + 1].parent == v
    {
      hide Represents, StoreInv, HistInv;
      VersionIs(h, doc.nodes, st.vs, st.chg, i, v);
      if v < h.tips[i] { VersionIs(h, doc.nodes, st.vs, st.chg, i, v + 1); }
      SwapIn(c, v);
      ChangeIs(v);
      pos := c.pos;
      if c.newSpan.len > c.oldSpan.len { pos := pos + (c.newSpan.len - c.oldSpan.len); }
    }

    /** `revision_redo`: the changes of revision `i`, oldest first. */
    method RevisionRedo(rev: Revision, ghost i: nat) returns (pos: nat)
      requires Represents() && StoreInv(st) && HistInv(h, doc.nodes, st.vs, st.chg)
      requires 0 < i < |h.revs| && rev == h.revs[i] && doc.nodes[i].parent < i
      requires st.at == h.tips[doc.nodes[i].parent]
      modifies pieces`prev, pieces`next, this`size, this`st
      ensures Represents() && StoreInv(st) && i < |h.tips|
      ensures st == old(st).(links := st.links, size := st.size, at := h.tips[i])
      ensures h.tips[i] < |st.chg| && pos == AfterChange(st.chg[h.tips[i]])
    {
      hide Represents, StoreInv, HistInv;
      pos := EPOS;
      TipIs(h, doc.nodes, st.vs, st.chg, i);
      var oldest; ghost var v;
      oldest, v := OldestChange(rev, i);
      VersionIs(h, doc.nodes, st.vs, st.chg, i, v);
      var c: TextChange? := oldest;
      while c != null
        invariant Represents() && StoreInv(st)
        invariant st == old(st).(links := st.links, size := st.size, at := st.at)
        invariant c == null ==> st.at == h.tips[i] && pos == AfterChange(st.chg[h.tips[i]])
        invariant c != null ==> Head(h.tips, i) <= v <= h.tips[i] && c == h.changes[v]
        invariant c != null ==> st.vs[v].parent == st.at
        decreases if c == null then 0 else h.tips[i] - v + 1
      {
        pos := RedoChange(c, i, v);
        c := c.prev;
        v := v + 1;
      }
    }

    /** Where the changes of all revisions lie. */
    ghost function Spots(): seq<Spot>
      reads this`h, this`st
    {
      SpotsOf(h.tips, st.chg)
    }

    lemma SpotNow(i: nat)
      requires HistInv(h, doc.nodes, st.vs, st.chg) && i < |h.revs|
      ensures i < |h.tips| && Head(h.tips, i) <= h.tips[i] < |st.chg|
      ensures i < |Spots()| && Spots()[i].first == st.chg[Head(h.tips, i)].pos
      ensures Landing(Spots()[i]) == AfterChange(st.chg[h.tips[i]])
    {
      hide HistInv, SpotsOf, Landing, AfterChange;
      TipIs(h, doc.nodes, st.vs, st.chg, i);
      SpotIs(h.tips, st.chg, i);
    }

    /** Leave revision `i` for its parent. */
    method StepBack(rev: Revision, ghost i: nat) returns (pos: nat)
      requires Inv() && !doc.open && i == doc.cur && 0 < i && doc.nodes[i].parent < i && i < |h.revs|
      requires rev == h.revs[doc.nodes[i].parent]
      modifies this, repr
      ensures Inv() && doc == old(doc).(cur := old(doc.nodes[i].parent))
      ensures h == old(h) && st.chg == old(st.chg) && repr == old(repr)
      ensures i < |h.tips| && Head(h.tips, i) < |st.chg| && pos == st.chg[Head(h.tips, i)].pos
      ensures lines == LineCache(0, 1)
    {
      hide Represents, StoreInv, HistInv, StatesInv;
      Within();
      ghost var was := st;
      pos := RevisionUndo(history, i);
      StatesFrame(h.tips, doc.nodes, was, doc.nodes, st);
      SetHistory(rev, doc.nodes[i].parent);
      InvalidateLines();
    }

    /** `text_undo`. */
    method Undo() returns (pos: nat)
      requires Inv()
      modifies this, repr
      ensures Inv() && doc == Undone(old(doc)) && h == old(h) && st.chg == old(st.chg) && repr == old(repr)
      ensures old(doc.cur) == 0 ==> pos == EPOS && lines == old(lines)
      ensures old(doc.cur) > 0 ==> lines == LineCache(0, 1)
      ensures old(doc.cur) > 0 ==>
                && old(doc.cur) < |h.tips| && Head(h.tips, old(doc.cur)) < |st.chg|
                && pos == st.chg[Head(h.tips, old(doc.cur))].pos
      ensures old(doc.cur) > 0 ==> old(doc.cur) < |Spots()| && pos == Spots()[old(doc.cur)].first
    {
      hide Represents, StoreInv, HistInv, StatesInv, SpotsOf;
      pos := EPOS;
      Snapshot();
      RevPointers(doc.cur);
      var rev := history.prev;
      if rev == null { return; }
      SpotNow(doc.cur);
      pos := StepBack(rev, doc.cur);
    }

    /** Go on to revision `i`, a child of the current one. */
    method StepForward(rev: Revision, ghost i: nat) returns (pos: nat)
      requires Inv() && !doc.open && 0 < i < |h.revs| && rev == h.revs[i] && doc.nodes[i].parent == doc.cur < i
      modifies this, repr
      ensures Inv() && doc == old(doc).(cur := i) && h == old(h) && st.chg == old(st.chg) && repr == old(repr)
      ensures i < |h.tips| && h.tips[i] < |st.chg| && pos == AfterChange(st.chg[h.tips[i]])
      ensures lines == LineCache(0, 1)
    {
      hide Represents, StoreInv, HistInv, StatesInv;
      Within();
      ghost var was := st;
      pos := RevisionRedo(rev, i);
      StatesFrame(h.tips, doc.nodes, was, doc.nodes, st);
      SetHistory(rev, i);
      InvalidateLines();
    }

    /** `text_redo`. */
    method Redo() returns (pos: nat)
      requires Inv()
      modifies this, repr
      ensures Inv() && doc == Redone(old(doc)) && h == old(h) && st.chg == old(st.chg) && repr == old(repr)
      ensures old(doc.nodes[doc.cur].next.None?) ==> pos == EPOS && lines == old(lines)
      ensures old(doc.nodes[doc.cur].next.Some?) ==> lines == LineCache(0, 1)
      ensures old(doc.nodes[doc.cur].next.Some?) ==>
                && doc.cur < |h.tips| && h.tips[doc.cur] < |st.chg|
                && pos == AfterChange(st.chg[h.tips[doc.cur]])
      ensures old(doc.nodes[doc.cur].next.Some?) ==> doc.cur < |Spots()| && pos == Landing(Spots()[doc.cur])
    {
      hide Represents, StoreInv, HistInv, StatesInv, SpotsOf, Landing, AfterChange;
      pos := EPOS;
      Snapshot();
      RevPointers(doc.cur);
      var rev := history.next;
      if rev == null { return; }
      SpotNow(doc.nodes[doc.cur].next.value);
      pos := StepForward(rev, doc.nodes[doc.cur].next.value);
    }

    /** Let the parent of revision `i` redo to `i`. */
    method Redirect(parent: Revision, cur: Revision, ghost i: nat)
      requires Inv() && 0 < i < |h.revs| == |doc.nodes| && cur == h.revs[i]
      requires doc.nodes[i].parent < i && parent == h.revs[doc.nodes[i].parent]
      modifies h.revs`next, this`h, this`doc
      ensures Inv() && h == old(h).(cells := h.cells)
      ensures doc == old(doc.(nodes := Redirected(doc.nodes, i)))
    {
      hide Represents, StoreInv, HistInv, StatesInv, TreeNodes, LinesOk, FieldsOf;
      Within();
      ghost var p, nodes := doc.nodes[i].parent, Redirected(doc.nodes, i);
      RevPointers(i);
      RetargetHist(h, doc.nodes, st.vs, st.chg, p, i);
      StatesFrame(h.tips, doc.nodes, st, nodes, st);
      RedirectFields(h, doc, history, currentRevision, lastRevision, savedRevision, st.at, i);
      SetRevNext(parent, p, cur);
      doc := doc.(nodes := nodes);
    }

    /** One round of `history_change_branch`: the parent of revision `i` redoes to `i`. */
    method BranchStep(cur: Revision, ghost i: nat) returns (changed: bool)
      requires Inv() && 0 < i < |h.revs| && cur == h.revs[i]
      requires |h.revs| == |doc.nodes| && doc.nodes[i].parent < i && cur.prev != null
      modifies h.revs`next, this`h, this`doc
      ensures Inv() && h == old(h).(cells := h.cells)
      ensures doc == old(doc.(nodes := Redirected(doc.nodes, i)))
      ensures changed <==> doc.nodes != old(doc.nodes)
    {
      hide Inv, TreeNodes;
      ghost var p := doc.nodes[i].parent;
      InvPointers(i);
      InvPointers(p);
      changed := cur.prev.next != cur;
      if changed {
        Redirect(cur.prev, cur, i);
      } else {
        assert doc.nodes[p].next == Some(i);
        assert Redirected(doc.nodes, i) == doc.nodes;
      }
    }

    /** `history_change_branch`: make the redo pointers lead to revision `r`. */
    method HistoryChangeBranch(rev: Revision, ghost r: nat) returns (changed: bool)
      requires Inv() && r < |h.revs| && rev == h.revs[r]
      modifies h.revs`next, this`h, this`doc
      ensures Inv() && TreeNodes(old(doc.nodes)) && r < old(|doc.nodes|)
      ensures doc == old(doc).(nodes := Rebranch(old(doc.nodes), r))
      ensures h == old(h).(cells := h.cells)
      ensures changed <==> doc.nodes != old(doc.nodes)
    {
      hide Inv, TreeNodes, Switching, Rebranch;
      changed := false;
      var cur := rev;
      ghost var i: nat := r;
      InvPointers(i);
      assert Switching(doc.nodes, doc.nodes, i, r, false) by { SwitchStart(doc.nodes, r); }
      while cur.prev != null
        invariant Inv() && h == old(h).(cells := h.cells)
        invariant doc == old(doc).(nodes := doc.nodes)
        invariant i < |h.revs| == |doc.nodes| && cur == h.revs[i]
        invariant Switching(old(doc.nodes), doc.nodes, i, r, changed)
        decreases i
      {
        InvPointers(i);
        SwitchStep(old(doc.nodes), doc.nodes, i, r, changed);
        var c := BranchStep(cur, i);
        if c { changed := true; }
        cur := cur.prev;
        i := doc.nodes[i].parent;
      }
      InvPointers(i);
      SwitchDone(old(doc.nodes), doc.nodes, r, changed);
    }

    lemma InvPointers(i: nat)
      requires Inv() && i < |h.revs|
      ensures |h.revs| == |doc.nodes| && TreeNodes(doc.nodes) && NoDup(h.revs)
      ensures h.revs[i].next == Ref(h.revs, doc.nodes[i].next)
      ensures doc.nodes[i].next.Some? ==> doc.nodes[i].next.value < |doc.nodes|
      ensures i > 0 ==> doc.nodes[i].parent < i
      ensures h.revs[i].prev == if i > 0 then h.revs[doc.nodes[i].parent] else null
      ensures h.revs[i].earlier == if i > 0 then h.revs[i - 1] else null
      ensures h.revs[i].later == if i + 1 < |h.revs| then h.revs[i + 1] else null
      ensures h.revs[i].seqno == i
    {
      RevPointers(i);
    }

    /** `while (txt->history != rev) text_redo(txt)`, from an ancestor on the redo path. */
    method RedoTo(rev: Revision, ghost r: nat) returns (pos: nat)
      requires Inv() && r < |h.revs| == |doc.nodes| && rev == h.revs[r]
      requires TreeNodes(doc.nodes) && doc.cur < |doc.nodes|
      requires NextPath(doc.nodes, r) && AncNode(doc.nodes, doc.cur, r)
      modifies this, repr
      ensures Inv() && h == old(h) && st.chg == old(st.chg) && repr == old(repr)
      ensures doc == if old(doc.cur) == r then old(doc) else Doc(old(doc.nodes), r, false, old(doc.saved))
      ensures old(doc.cur) != r ==> r < |h.tips| && h.tips[r] < |st.chg| && pos == AfterChange(st.chg[h.tips[r]])
      ensures old(doc.cur) != r ==> lines == LineCache(0, 1)
    {
      hide Inv, TreeNodes, NextPath, AncNode;
      pos := EPOS;
      InvFields(r);
      while history != rev
        invariant Inv() && h == old(h) && st.chg == old(st.chg) && repr == old(repr)
        invariant doc == old(doc).(cur := doc.cur, open := doc.open)
        invariant doc.cur < |h.revs| && history == h.revs[doc.cur] && AncNode(doc.nodes, doc.cur, r)
        invariant doc.cur == old(doc.cur) ==> doc == old(doc)
        invariant doc.cur != old(doc.cur) ==> old(doc.cur) < doc.cur && !doc.open
        invariant doc.cur != old(doc.cur) ==> doc.cur < |h.tips| && h.tips[doc.cur] < |st.chg|
        invariant doc.cur != old(doc.cur) ==> pos == AfterChange(st.chg[h.tips[doc.cur]]) && lines == LineCache(0, 1)
        decreases r - doc.cur
      {
        NextTowards(doc.nodes, doc.cur, r);
        pos := Redo();
        InvFields(r);
      }
    }

    /** `while (txt->history != rev) text_undo(txt)`, down to an ancestor. */
    method UndoTo(rev: Revision, ghost r: nat) returns (pos: nat)
      requires Inv() && r < |h.revs| == |doc.nodes| && rev == h.revs[r]
      requires TreeNodes(doc.nodes) && doc.cur < |doc.nodes| && AncNode(doc.nodes, r, doc.cur) && doc.cur != r
      requires NextPath(doc.nodes, doc.cur)
      modifies this, repr
      ensures Inv() && h == old(h) && st.chg == old(st.chg) && repr == old(repr)
      ensures doc == Doc(old(doc.nodes), r, false, old(doc.saved))
      ensures Arrives(h, st.chg, old(doc.nodes), old(doc.cur), r, pos) && lines == LineCache(0, 1)
    {
      hide Inv, TreeNodes, AncNode, NextPath;
      pos := EPOS;
      InvFields(r);
      AncNodeSelf(doc.nodes, doc.cur);
      while history != rev
        invariant Inv() && h == old(h) && st.chg == old(st.chg) && repr == old(repr)
        invariant doc == old(doc).(cur := doc.cur, open := doc.open)
        invariant doc.cur < |h.revs| && history == h.revs[doc.cur]
        invariant AncNode(doc.nodes, r, doc.cur) && AncNode(doc.nodes, doc.cur, old(doc.cur))
        invariant doc.cur == old(doc.cur) ==> doc == old(doc)
        invariant doc.cur != old(doc.cur) ==> !doc.open && Arrives(h, st.chg, doc.nodes, old(doc.cur), doc.cur, pos)
        invariant doc.cur != old(doc.cur) ==> lines == LineCache(0, 1)
        decreases doc.cur
      {
        ghost var x := doc.cur;
        InvPointers(x);
        AncNodeStep(doc.nodes, r, x);
        OnPath(doc.nodes, old(doc.cur), x);
        AncNodeUp(doc.nodes, x, old(doc.cur));
        pos := Undo();
        InvFields(r);
      }
    }

    /** Undo up to the first revision whose parent redoes elsewhere. */
    method UndoOnBranch()
      requires Inv() && TreeNodes(doc.nodes) && doc.cur < |doc.nodes|
      modifies this, repr
      ensures Inv() && h == old(h) && st.chg == old(st.chg) && repr == old(repr)
      ensures doc == old(doc).(cur := doc.cur, open := doc.open) && doc.cur < |doc.nodes|
      ensures AncNode(doc.nodes, doc.cur, old(doc.cur))
      ensures var p := doc.nodes[doc.cur].parent;
              doc.cur > 0 ==> p < |doc.nodes| && doc.nodes[p].next != Some(doc.cur)
    {
      hide Inv, TreeNodes, AncNode, NextPath, HistInv, StoreInv, Represents, Cells, Spliced, ChainAt;
      AncNodeSelf(doc.nodes, doc.cur);
      InvFields(doc.cur);
      InvPointers(doc.cur);
      while history.prev != null && history.prev.next == history
        invariant Inv() && h == old(h) && st.chg == old(st.chg) && repr == old(repr)
        invariant doc == old(doc).(cur := doc.cur, open := doc.open)
        invariant doc.cur < |h.revs| == |doc.nodes| && history == h.revs[doc.cur]
        invariant AncNode(doc.nodes, doc.cur, old(doc.cur))
        decreases doc.cur
      {
        ghost var x := doc.cur;
        InvPointers(x);
        var _ := Undo();
        AncNodeUp(doc.nodes, x, old(doc.cur));
        InvFields(doc.cur);
      }
      InvPointers(doc.cur);
      if doc.cur > 0 { InvPointers(doc.nodes[doc.cur].parent); }
    }

    /** Leave the old branch: undo up to the first revision whose parent now redoes elsewhere,
        and that one, too. */
    method LeaveBranch()
      requires Inv() && TreeNodes(doc.nodes) && doc.cur < |doc.nodes|
      modifies this, repr
      ensures Inv() && h == old(h) && st.chg == old(st.chg) && repr == old(repr)
      ensures doc == old(doc).(cur := doc.cur, open := false) && doc.cur < |doc.nodes|
      ensures doc.cur == 0 || exists x ::
                && 0 < x < |doc.nodes| && AncNode(doc.nodes, x, old(doc.cur))
                && doc.cur == doc.nodes[x].parent && doc.nodes[doc.cur].next != Some(x)
    {
      hide Inv, TreeNodes, AncNode, NextPath, HistInv, StoreInv, Represents, Cells, Spliced, ChainAt;
      UndoOnBranch();
      ghost var x := doc.cur;
      InvFields(x);
      if x > 0 { InvPointers(x); }
      var _ := Undo();
      InvFields(0);
    }

    /** The part of `history_traverse_to` for a revision on the current branch: redo or undo
        until there. */
    method TraverseAlong(rev: Revision, ghost r: nat) returns (pos: nat)
      requires Inv() && r < |h.revs| == |doc.nodes| && rev == h.revs[r] && TreeNodes(doc.nodes) && doc.cur < |doc.nodes|
      requires NextPath(doc.nodes, r) && NextPath(doc.nodes, doc.cur)
      modifies this, repr
      ensures Inv() && h == old(h) && st.chg == old(st.chg) && repr == old(repr)
      ensures doc == if r == old(doc.cur) then old(doc) else Doc(old(doc.nodes), r, false, old(doc.saved))
      ensures if r == old(doc.cur) then pos == lines.pos && lines == old(lines)
              else Arrives(h, st.chg, old(doc.nodes), old(doc.cur), r, pos) && lines == LineCache(0, 1)
    {
      hide Inv, TreeNodes, NextPath, AncNode;
      pos := EPOS;
      InvFields(r);
      InvPointers(r);
      InvPointers(doc.cur);
      if AncNode(doc.nodes, r, doc.cur) { AncNodeLeq(doc.nodes, r, doc.cur); }
      if rev.seqno == history.seqno {
        pos := lines.pos;
      } else if rev.seqno > history.seqno {
        SamePath(doc.nodes, doc.cur, r);
        pos := RedoTo(rev, r);
      } else {
        SamePath(doc.nodes, r, doc.cur);
        pos := UndoTo(rev, r);
      }
    }

    /** The part for a revision on another branch: undo to the fork, and redo from there. */
    method TraverseAcross(rev: Revision, ghost r: nat, ghost was: Doc) returns (pos: nat)
      requires Inv() && r < |h.revs| == |doc.nodes| && rev == h.revs[r] && TreeNodes(doc.nodes)
      requires WellFormed(was) && r < |was.nodes| && doc == was.(nodes := Rebranch(was.nodes, r))
               && doc.nodes != was.nodes
      modifies this, repr
      ensures Inv() && h == old(h) && st.chg == old(st.chg) && repr == old(repr)
      ensures doc == Doc(old(doc.nodes), r, false, was.saved)
      ensures Arrives(h, st.chg, was.nodes, was.cur, r, pos) && lines == LineCache(0, 1)
    {
      hide Inv, TreeNodes, NextPath, AncNode, Rebranch;
      RebranchSame(was.nodes, r);
      RebranchLeads(was.nodes, r);
      if AncNode(was.nodes, r, was.cur) { AncOnPath(was.nodes, r, was.cur); }
      LeaveBranch();
      ForkIsAnc(was.nodes, was.cur, r, doc.cur);
      ForkBehind(was.nodes, was.cur, r, doc.cur);
      InvFields(r);
      pos := RedoTo(rev, r);
    }

    /** `history_traverse_to`. */
    method HistoryTraverseTo(rev: Revision?, ghost r: nat) returns (pos: nat)
      requires Valid() && (rev != null ==> r < |h.revs| && rev == h.revs[r])
      modifies this, repr
      ensures Valid() && repr == old(repr) && h == old(h).(cells := h.cells) && st.chg == old(st.chg)
      ensures TreeNodes(old(doc.nodes)) && old(doc.cur) < |old(doc.nodes)| == |Spots()|
      ensures rev != null && r != old(doc.cur) ==>
                r < |Spots()| && ArrivedAt(old(doc.nodes), Spots(), old(doc.cur), r, pos)
      ensures rev == null ==> doc == old(doc) && pos == EPOS
      ensures Spots() == old(Spots())
      ensures rev != null ==> doc == Traversed(old(doc), r)
      ensures rev != null && r == old(doc.cur) ==> pos == lines.pos && lines == old(lines)
      ensures rev != null && r != old(doc.cur) ==>
                Arrives(h, st.chg, old(doc.nodes), old(doc.cur), r, pos) && lines == LineCache(0, 1)
      ensures rev == null ==> lines == old(lines)
    {
      hide Inv, TreeNodes, NextPath, AncNode, Rebranch, SpotsOf, Arrives, ArrivedAt;
      pos := EPOS;
      TipsNow();
      if rev == null { return; }
      Owns();
      InvFields(r);
      ghost var was := doc;
      RebranchSame(was.nodes, r);
      RebranchLeads(was.nodes, r);
      var changed := HistoryChangeBranch(rev, r);
      InvFields(r);
      InvPointers(r);
      if !changed {
        assert doc == was;
        pos := TraverseAlong(rev, r);
      } else {
        pos := TraverseAcross(rev, r, was);
      }
      if r != was.cur { ArrivesAt(h, st.chg, was.nodes, was.cur, r, pos); }
    }

    /** `text_earlier`. */
    method Earlier() returns (pos: nat)
      requires Valid()
      modifies this, repr
      ensures Valid() && repr == old(repr) && doc == UndoTree.Earlier(old(doc))
      ensures if old(doc.cur) == 0 then pos == EPOS && lines == old(lines) else lines == LineCache(0, 1)
      ensures old(doc.cur) > 0 ==> Arrives(h, st.chg, old(doc.nodes), old(doc.cur), old(doc.cur) - 1, pos)
      ensures Spots() == old(Spots()) && old(doc.cur) < |Spots()| && old(doc.cur) < |old(doc.nodes)|
      ensures old(doc.cur) > 0 ==>
                pos == if old(doc.nodes[doc.cur]).parent == old(doc.cur) - 1 then Spots()[old(doc.cur)].first
                       else Landing(Spots()[old(doc.cur) - 1])
    {
      hide Inv, Arrives, Traversed, TreeNodes, NextPath, SpotsOf, Landing;
      InvFields(0);
      InvPointers(doc.cur);
      TipsNow();
      ghost var d := doc;
      pos := HistoryTraverseTo(history.earlier, if doc.cur > 0 then doc.cur - 1 else 0);
      if d.cur > 0 { StepEarlier(h, st.chg, d.nodes, d.cur, pos); }
    }

    /** `text_later`. */
    method Later() returns (pos: nat)
      requires Valid()
      modifies this, repr
      ensures Valid() && repr == old(repr) && doc == UndoTree.Later(old(doc))
      ensures if old(doc.cur + 1 >= |doc.nodes|) then pos == EPOS && lines == old(lines) else lines == LineCache(0, 1)
      ensures old(doc.cur + 1 < |doc.nodes|) ==> Arrives(h, st.chg, old(doc.nodes), old(doc.cur), old(doc.cur) + 1, pos)
      ensures Spots() == old(Spots())
      ensures old(doc.cur + 1 < |doc.nodes|) ==>
                old(doc.cur) + 1 < |Spots()| && pos == Landing(Spots()[old(doc.cur) + 1])
    {
      hide Inv, Arrives, Traversed, TreeNodes, NextPath, SpotsOf, Landing;
      InvFields(0);
      InvPointers(doc.cur);
      TipsNow();
      ghost var d := doc;
      pos := HistoryTraverseTo(history.later, doc.cur + 1);
      if d.cur + 1 < |d.nodes| { StepLater(h, st.chg, d.nodes, d.cur, pos); }
    }

    lemma TipsNow()
      requires Valid()
      ensures |Spots()| == |h.tips| == |doc.nodes| && NextPath(doc.nodes, doc.cur)
      ensures forall i :: 0 <= i < |h.tips| ==> Head(h.tips, i) <= h.tips[i] < |st.chg|
    {
      hide NextPath;
      forall i | 0 <= i < |h.tips| ensures Head(h.tips, i) <= h.tips[i] < |st.chg| { SpotNow(i); }
    }

    /** `text_saved`. */
    method MarkSaved()
      requires Valid()
      modifies this
      ensures Valid() && doc == UndoTree.Saved(old(doc)) && repr == old(repr) && lines == old(lines)
      ensures h == old(h) && st == old(st)
    {
      hide Represents, StoreInv, HistInv, StatesInv;
      SetSaved();
    }

    /** `text_modified`. */
    method Modified() returns (b: bool)
      requires Valid()
      ensures b <==> doc.saved != doc.cur
    {
      hide Represents, StoreInv, HistInv, StatesInv;
      RevPointers(doc.cur);
      RevPointers(doc.saved);
      b := savedRevision != history;
    }

    lemma InvFields(i: nat)
      requires Inv()
      ensures |h.revs| == |doc.nodes| == |h.tips| && doc.cur < |doc.nodes| && NoDup(h.revs)
      ensures history == h.revs[doc.cur]
      ensures i < |h.revs| ==> (history == h.revs[i] <==> i == doc.cur)
    {
      hide Represents, StoreInv, StatesInv, HistInv;
      RevPointers(doc.cur);
    }

    lemma Owns()
      requires Inv()
      ensures this !in repr && (forall p :: p in pieces ==> p in repr)
      ensures (forall r :: r in h.revs ==> r in repr) && (forall c :: c in h.changes ==> c in repr)
      ensures forall b :: b in blocks ==> b in repr && b.data in repr
    {
      hide StoreInv, StatesInv, HistInv;
      Within();
    }

    /** The pointers of revision `i`. */
    lemma RevPointers(i: nat)
      requires Represents() && HistInv(h, doc.nodes, st.vs, st.chg) && i < |h.revs|
      ensures |h.revs| == |doc.nodes| == |h.tips| && TreeNodes(doc.nodes) && NoDup(h.revs)
      ensures i > 0 ==> doc.nodes[i].parent < i
      ensures h.revs[i].prev == if i > 0 then h.revs[doc.nodes[i].parent] else null
      ensures h.revs[i].next == Ref(h.revs, doc.nodes[i].next)
      ensures h.revs[i].earlier == if i > 0 then h.revs[i - 1] else null
      ensures h.revs[i].later == if i + 1 < |h.revs| then h.revs[i + 1] else null
      ensures h.revs[i].seqno == i
    {
      RevIs(i);
      assert RevAt(h, doc.nodes, i);
    }
  }
}