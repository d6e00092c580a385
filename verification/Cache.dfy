/** The cache layer: editing the most recent piece in place. */
module Cache {
  import opened Bytes
  import opened History
  import opened Extents
  import opened UndoTree
  import opened Store
  import opened Revisions
  import opened PieceChain
  import opened Editing

  /** Whether an edit of `p` may happen in place: it is the cached piece, the newest change of
      the open revision put it there, and it still ends where the last block ends. */
  ghost predicate Hit(t: Text, p: Piece)
    reads t`cache, t`doc, t`st
  {
    && t.cache == p && t.doc.open
    && t.st.at < |t.st.vs| && p in t.st.vs[t.st.at].mid
    && Exclusive(t.st.ext, t.st.mem, p)
  }

  /** Piece number `k` is such a piece, and holds the stretch `[start..end]` of the document. */
  ghost predicate CachedAt(t: Text, k: nat, start: nat, end: nat)
    reads t`cache, t`doc, t`st
  {
    && t.st.at < |t.st.vs| && k < |t.Chain()| && Hit(t, t.Chain()[k])
    && start == |Addrs(t.Chain()[..k], t.st.ext)| && end == |Addrs(t.Chain()[..k + 1], t.st.ext)|
  }

  ghost predicate CachedStretch(t: Text, start: nat, end: nat)
    reads t`cache, t`doc, t`st
  {
    exists k: nat :: CachedAt(t, k, start, end)
  }

  /** The last block has room for so many bytes. */
  ghost predicate Room(t: Text, n: nat)
    reads t`blocks, t.blocks`len
  {
    |t.blocks| > 0 && t.blocks[|t.blocks| - 1].Capacity(n)
  }

  /** When an insertion happens in place: behind some byte of the cached piece, if there is room. */
  ghost predicate InsertsInPlace(t: Text, pos: nat, n: nat)
    reads t`cache, t`doc, t`st, t`blocks, t.blocks`len
  {
    Room(t, n) && exists start: nat, end: nat :: CachedStretch(t, start, end) && start < pos <= end
  }

  /** When a deletion does: within the cached piece, behind its first byte. */
  ghost predicate DeletesInPlace(t: Text, pos: nat, len: nat)
    reads t`cache, t`doc, t`st
  {
    exists start: nat, end: nat :: CachedStretch(t, start, end) && start < pos && pos + len <= end
  }

  lemma PrefixGrows(ch: seq<Piece>, ext: ExtentMap, i: nat, j: nat)
    requires i <= j <= |ch|
    ensures |Addrs(ch[..i], ext)| <= |Addrs(ch[..j], ext)|
  {
    assert ch[..j] == ch[..i] + ch[i..j];
    AddrsConcat(ch[..i], ch[i..j], ext);
  }

  /** The piece `piece_get_intern` finds tells whether an edit happens in place, and the only
      stretch where one can. */
  lemma LocatedHit(t: Text, pos: nat, p: Piece, k: nat, off: nat, n: nat)
    requires t.Inv() && Located(t, pos, p, k, off)
    ensures InsertsInPlace(t, pos, n) <==> Hit(t, p) && Room(t, n)
    ensures DeletesInPlace(t, pos, n) <==> Hit(t, p) && off + n <= p.len
    ensures Hit(t, p) ==> forall start: nat, end: nat :: CachedStretch(t, start, end) ==>
              start == pos - off && end == pos - off + p.len
  {
    hide Hit, Addrs, Text.Inv, Text.Represents, StoreInv, CachedStretch, Room;
    if Hit(t, p) {
      HitStretch(t, pos, p, k, off);
      assert pos - off < pos;
    }
    forall start: nat, end: nat | CachedStretch(t, start, end)
      ensures start < pos <= end ==> Hit(t, p) && end == pos - off + p.len
      ensures Hit(t, p) ==> start == pos - off && end == pos - off + p.len
    {
      StretchAt(t, pos, p, k, off, start, end);
    }
  }

  lemma DeletesInPlaceIs(t: Text, pos: nat, len: nat)
    ensures DeletesInPlace(t, pos, len) <==>
            exists start: nat, end: nat :: CachedStretch(t, start, end) && start < pos && pos + len <= end
  {
  }

  /** What that means: the last block has room, and the position lies behind the first byte of the
      cached piece, or where it ends. */
  lemma InPlaceIs(t: Text, pos: nat, n: nat)
    ensures InsertsInPlace(t, pos, n) <==>
            && |t.blocks| > 0
            && t.blocks[|t.blocks| - 1].len + n <= t.blocks[|t.blocks| - 1].data.Length
            && exists start: nat, end: nat :: CachedStretch(t, start, end) && start < pos <= end
  {
    hide CachedStretch;
  }

  lemma HitStretch(t: Text, pos: nat, p: Piece, k: nat, off: nat)
    requires t.Inv() && Located(t, pos, p, k, off) && Hit(t, p)
    ensures off > 0 && CachedStretch(t, pos - off, pos - off + p.len)
  {
    hide Hit, Addrs, Text.Inv, Text.Represents, StoreInv;
    HealthyParts(t);
    t.ChainIs(k);
    AddrsStep(t.Chain(), k, t.st.ext);
    HitPiece(t, p);
    assert CachedAt(t, k, pos - off, pos - off + p.len);
  }

  lemma StretchAt(t: Text, pos: nat, p: Piece, k: nat, off: nat, start: nat, end: nat)
    requires t.Inv() && Located(t, pos, p, k, off) && CachedStretch(t, start, end)
    ensures start < pos <= end ==> Hit(t, p) && end == pos - off + p.len
    ensures Hit(t, p) ==> start == pos - off && end == pos - off + p.len
  {
    hide Hit, Addrs, Text.Inv, Text.Represents, StoreInv;
    HealthyParts(t);
    t.ChainIs(k);
    var ch := t.Chain();
    AddrsStep(ch, k, t.st.ext);
    var j: nat :| CachedAt(t, j, start, end);
    if j < k { PrefixGrows(ch, t.st.ext, j + 1, k); }
    if j > k { PrefixGrows(ch, t.st.ext, k + 1, j); }
    if Hit(t, p) {
      HitPiece(t, p);
      HitPiece(t, ch[j]);
    }
  }

  /** There is at most one such stretch. */
  lemma OneStretch(t: Text, start: nat, end: nat, start': nat, end': nat)
    requires t.Inv() && CachedStretch(t, start, end) && CachedStretch(t, start', end')
    ensures start == start' && end == end'
  {
    hide Hit, Addrs, Text.Inv, Text.Represents, StoreInv;
    HealthyParts(t);
    t.ChainIs(0);
    var i: nat :| CachedAt(t, i, start, end);
    var j: nat :| CachedAt(t, j, start', end');
    HitPiece(t, t.Chain()[i]);
    HitPiece(t, t.Chain()[j]);
  }

  lemma HitPiece(t: Text, p: Piece)
    requires t.Inv() && Hit(t, p)
    ensures p == t.cache && p in t.st.ext && t.st.ext[p].data.At?
  {
  }

  /** The span of the newest change, as the pieces it names. */
  lemma NewestSpan(t: Text, c: TextChange)
    requires t.Inv() && t.doc.open && t.currentRevision != null && c == t.currentRevision.change
    ensures 0 < t.st.at == |t.st.vs| - 1 && t.st.at < |t.h.changes| && c == t.h.changes[t.st.at]
    ensures NoDup(t.h.changes) && NoDup(t.st.vs[t.st.at].mid)
    ensures SpanIs(c.newSpan, t.st.vs[t.st.at].mid, t.st.ext)
    ensures forall p :: p in t.st.vs[t.st.at].mid ==> p in t.pieces
    ensures forall i :: 0 <= i < |t.st.vs[t.st.at].mid| - 1 ==>
              t.st.vs[t.st.at].mid[i].next == t.st.vs[t.st.at].mid[i + 1]
  {
    NewestLinks(t);
    TipIs(t.h, t.doc.nodes, t.st.vs, t.st.chg, t.doc.cur);
    LastTip(t.h, t.doc.nodes, t.st.vs, t.st.chg);
    t.RevIs(t.doc.cur);
    t.ChangeIs(t.st.at);
    assert SpansAt(t.st, t.st.at);
  }

  lemma NewestLinks(t: Text)
    requires t.Represents() && StoreInv(t.st) && t.st.at > 0
    ensures t.st.at < |t.st.vs|
    ensures NoDup(t.st.vs[t.st.at].mid)
    ensures forall p :: p in t.st.vs[t.st.at].mid ==> p in t.pieces
    ensures forall i :: 0 <= i < |t.st.vs[t.st.at].mid| - 1 ==>
              t.st.vs[t.st.at].mid[i].next == t.st.vs[t.st.at].mid[i + 1]
  {
    hide Addrs, Text.Represents;
    var ver := t.st.vs[t.st.at];
    assert GoodVersion(t.st.vs, t.st.at);
    assert ver.chain[ver.lo..ver.lo + |ver.mid|] == ver.mid;
    MidNoDup(ver.chain, ver.lo, ver.mid);
    forall i | 0 <= i < |ver.mid|
      ensures ver.mid[i] in t.pieces && (i < |ver.mid| - 1 ==> ver.mid[i].next == ver.mid[i + 1])
    {
      assert ver.mid[i] == ver.chain[ver.lo + i];
      assert i < |ver.mid| - 1 ==> ver.mid[i + 1] == ver.chain[ver.lo + i + 1];
      t.ChainIs(ver.lo + i);
    }
  }

  /** `cache_contains`. */
  method CacheContains(t: Text, p: Piece) returns (b: bool)
    requires t.Inv() && p in t.pieces
    ensures b <==> Hit(t, p)
  {
    hide Text.Inv, StoreInv, Text.Represents;
    FieldsNow(t);
    var rev := t.currentRevision;
    if |t.blocks| == 0 || t.cache == null || t.cache != p || rev == null || rev.change == null {
      NoHit(t, p);
      return false;
    }
    var c := rev.change;
    NewestSpan(t, c);
    var cur, end := c.newSpan.start, c.newSpan.end;
    ghost var mid, i := t.st.vs[t.st.at].mid, 0;
    var found := false;
    while !found
      invariant 0 <= i <= |mid| && (mid == [] ==> cur == null)
      invariant mid != [] && !found ==> i < |mid| && cur == mid[i]
      invariant found ==> p in mid
      invariant !found ==> p !in mid[..i]
      decreases |mid| - i + if found then 0 else 1
    {
      if cur == p { found := true; }
      if cur == end { break; }
      assert cur == mid[i] && i < |mid| - 1;
      cur := cur.next;
      i := i + 1;
    }
    assert found <==> p in mid;
    HealthyTail(t, p);
    var blk := t.blocks[|t.blocks| - 1];
    b := found && p.data.At? && p.data.blk == |t.blocks| - 1 && p.data.off + p.len == blk.len;
  }

  lemma HealthyTail(t: Text, p: Piece)
    requires t.Inv() && p in t.pieces && |t.blocks| > 0
    ensures |t.st.mem| == |t.blocks| && t.blocks[|t.blocks| - 1].len == |t.st.mem[|t.blocks| - 1]|
    ensures t.st.links.Keys == t.st.ext.Keys == t.pieces && t.st.ext[p] == Extent(p.data, p.len)
  {
    t.LastBlock();
    t.ExtentIs(p);
  }

  lemma NoHit(t: Text, p: Piece)
    requires t.Inv()
             && (|t.blocks| == 0 || t.cache != p || t.currentRevision == null || t.currentRevision.change == null)
    ensures !Hit(t, p)
  {
    t.LastBlock();
    t.InvFields(0);
    TipIs(t.h, t.doc.nodes, t.st.vs, t.st.chg, t.doc.cur);
    t.RevIs(t.doc.cur);
  }

  // ----- what an edit in place does to the document -----

  lemma HitNewest(s: Store, h: Hist, d: Doc, p: Piece)
    requires Sound(s, h, d) && d.open && s.at < |s.vs| && p in s.vs[s.at].mid && Exclusive(s.ext, s.mem, p)
    ensures Newest(s, p)
  {
    LastTip(h, d.nodes, s.vs, s.chg);
  }

  /** No closed revision is affected. */
  lemma InPlaceSound(s: Store, h: Hist, d: Doc, p: Piece, bytes: seq<byte>)
    requires Sound(s, h, d) && d.open && Newest(s, p) && bytes != []
    ensures Fits(s, p) && Newest(EditedStore(s, p, bytes), p)
    ensures var s' := EditedStore(s, p, bytes);
            Sound(s', h, Edited(d, StateOf(s'.vs[s'.at].chain, s'.ext, s'.mem)))
  {
    hide StoreInv, HistInv, TreeNodes, StateOf, Newest, Exclusive;
    EditStore(s, p, bytes);
    var s' := EditedStore(s, p, bytes);
    NewestAt(s', p);
    var d' := Edited(d, StateOf(s'.vs[s'.at].chain, s'.ext, s'.mem));
    HistFrame(h, d.nodes, d'.nodes, s.vs, s'.vs, s.chg, s'.chg);
    LastTip(h, d.nodes, s.vs, s.chg);
    forall i | 0 <= i < |d'.nodes| ensures StateAt(h.tips, d'.nodes, s', i) {
      assert StateAt(h.tips, d.nodes, s, i);
      if i < d.cur { EditElsewhere(s, p, bytes, h.tips[i]); }
    }
  }

  lemma NewestAt(s: Store, p: Piece)
    requires Newest(s, p)
    ensures 0 < s.at == |s.vs| - 1 && StoreInv(s) && p in s.ext && s.ext[p].data.At?
  {
  }

  lemma NewestParts(s: Store, p: Piece)
    requires Newest(s, p)
    ensures s.at < |s.vs| && NoDup(s.vs[s.at].chain) && Exclusive(s.ext, s.mem, p) && s.ext[p].data.At?
    ensures forall q :: q in s.ext ==> InBounds(s.ext[q], s.mem)
  {
    assert GoodVersion(s.vs, s.at);
  }

  lemma TailBytes(ext: ExtentMap, mem: Memory, p: Piece)
    requires Exclusive(ext, mem, p)
    ensures var e := ext[p];
            && e.data.blk < |mem| && e.data.off <= |mem[e.data.blk]|
            && mem[e.data.blk][e.data.off..e.data.off + e.len] == mem[e.data.blk][e.data.off..]
  {
  }

  lemma FetchLength(addrs: seq<Ptr>, mem: Memory)
    ensures |Fetch(addrs, mem)| == |addrs|
  {
  }

  /** The bytes of the document around an edited piece. */
  lemma InPlaceText(s: Store, p: Piece, bytes: seq<byte>, k: nat)
    requires Newest(s, p) && Fits(s, p) && k < |s.vs[s.at].chain| && s.vs[s.at].chain[k] == p
    ensures var s', ch, e := EditedStore(s, p, bytes), s.vs[s.at].chain, s.ext[p];
            && e.data.blk < |s.mem| && e.data.off <= |s.mem[e.data.blk]|
            && var l, r := Fetch(Addrs(ch[..k], s.ext), s.mem), Fetch(Addrs(ch[k + 1..], s.ext), s.mem);
               && |l| == |Addrs(ch[..k], s.ext)|
               && StateOf(ch, s.ext, s.mem).text == l + s.mem[e.data.blk][e.data.off..] + r
               && StateOf(ch, s'.ext, s'.mem).text == l + bytes + r
  {
    hide Newest, Addrs, Fetch, Exclusive;
    NewestParts(s, p);
    ChainBytes(s.ext, s.mem, p, s.vs[s.at].chain, k);
    TailBytes(s.ext, s.mem, p);
    FetchLength(Addrs(s.vs[s.at].chain[..k], s.ext), s.mem);
    RewriteChain(s.ext, s.mem, p, bytes, s.vs[s.at].chain, k);
  }

  /** Its addresses before and after. */
  lemma InPlaceAddrs(s: Store, p: Piece, bytes: seq<byte>, k: nat)
    requires Newest(s, p) && Fits(s, p) && k < |s.vs[s.at].chain| && s.vs[s.at].chain[k] == p
    ensures var s', ch, e := EditedStore(s, p, bytes), s.vs[s.at].chain, s.ext[p];
            var l, r := Addrs(ch[..k], s.ext), Addrs(ch[k + 1..], s.ext);
            && s'.vs == s.vs && StateOf(ch, s.ext, s.mem).addrs == l + Cells(e) + r
            && StateOf(ch, s'.ext, s'.mem).addrs == l + Cells(Extent(e.data, |bytes|)) + r
            && e.data.At?
  {
    hide Newest, Addrs, Fetch, Exclusive, Cells;
    NewestParts(s, p);
    RewriteAddrs(s.ext, EditedStore(s, p, bytes).ext, p, s.vs[s.at].chain, k);
  }

  /** The contents hold `data` at `pos`, but the addresses that came with it lie behind those of
      the cached piece, which ended at `end`. */
  ghost predicate InsertedInPlace(a: State, b: State, pos: nat, data: seq<byte>, end: nat) {
    && pos <= end <= |a.text| == |a.addrs| && |b.text| == |b.addrs|
    && b.text == Inserted(a.text, pos, data)
    && b.addrs == Inserted(a.addrs, end, b.addrs[end..end + |data|])
  }

  /** The contents lack `len` bytes at `pos`, but the addresses gone are the last of the cached
      piece, which ended at `end`. */
  ghost predicate RemovedInPlace(a: State, b: State, pos: nat, len: nat, end: nat) {
    && pos + len <= end <= |a.text| == |a.addrs|
    && b.text == Removed(a.text, pos, len) && b.addrs == Removed(a.addrs, end - len, len)
  }

  ghost predicate GrewInPlace(d: Doc, d': Doc, pos: nat, data: seq<byte>, end: nat) {
    d.cur < |d.nodes| && d'.cur < |d'.nodes| && InsertedInPlace(d.Now(), d'.Now(), pos, data, end)
  }

  ghost predicate ShrankInPlace(d: Doc, d': Doc, pos: nat, len: nat, end: nat) {
    d.cur < |d.nodes| && d'.cur < |d'.nodes| && RemovedInPlace(d.Now(), d'.Now(), pos, len, end)
  }

  lemma GrownAddrs(l: seq<Ptr>, e: Extent, n: nat, r: seq<Ptr>)
    requires e.data.At?
    ensures var was, now := l + Cells(e) + r, l + Cells(Extent(e.data, e.len + n)) + r;
            && |now| == |was| + n && |l| + e.len <= |was|
            && now == Inserted(was, |l| + e.len, now[|l| + e.len..|l| + e.len + n])
  {
  }

  lemma ShrunkAddrs(l: seq<Ptr>, e: Extent, n: nat, r: seq<Ptr>)
    requires e.data.At? && n <= e.len
    ensures var was, now := l + Cells(e) + r, l + Cells(Extent(e.data, e.len - n)) + r;
            |l| + e.len <= |was| && now == Removed(was, |l| + e.len - n, n)
  {
  }

  lemma StateSizes(ch: seq<Piece>, ext: ExtentMap, mem: Memory)
    ensures |StateOf(ch, ext, mem).text| == |StateOf(ch, ext, mem).addrs|
  {
  }

  lemma InsertedHere(s: Store, p: Piece, bytes: seq<byte>, k: nat, off: nat, pos: nat, data: seq<byte>)
    requires Newest(s, p) && Fits(s, p) && k < |s.vs[s.at].chain| && s.vs[s.at].chain[k] == p
    requires |bytes| == s.ext[p].len + |data| && off <= s.ext[p].len
             && pos == |Addrs(s.vs[s.at].chain[..k], s.ext)| + off
    requires var s', ch := EditedStore(s, p, bytes), s.vs[s.at].chain;
             && pos <= |StateOf(ch, s.ext, s.mem).text|
             && StateOf(ch, s'.ext, s'.mem).text == Inserted(StateOf(ch, s.ext, s.mem).text, pos, data)
    ensures var s', ch := EditedStore(s, p, bytes), s.vs[s.at].chain;
            InsertedInPlace(StateOf(ch, s.ext, s.mem), StateOf(ch, s'.ext, s'.mem), pos, data, pos - off + s.ext[p].len)
  {
    hide Newest, Fits, Addrs, Cells, StateOf, EditedStore;
    NewestParts(s, p);
    var s', ch := EditedStore(s, p, bytes), s.vs[s.at].chain;
    InPlaceAddrs(s, p, bytes, k);
    GrownAddrs(Addrs(ch[..k], s.ext), s.ext[p], |data|, Addrs(ch[k + 1..], s.ext));
    StateSizes(ch, s.ext, s.mem);
    StateSizes(ch, s'.ext, s'.mem);
  }

  lemma RemovedHere(s: Store, p: Piece, bytes: seq<byte>, k: nat, off: nat, pos: nat, len: nat)
    requires Newest(s, p) && Fits(s, p) && k < |s.vs[s.at].chain| && s.vs[s.at].chain[k] == p
    requires off + len <= s.ext[p].len == |bytes| + len && pos == |Addrs(s.vs[s.at].chain[..k], s.ext)| + off
    requires var s', ch := EditedStore(s, p, bytes), s.vs[s.at].chain;
             && pos + len <= |StateOf(ch, s.ext, s.mem).text|
             && StateOf(ch, s'.ext, s'.mem).text == Removed(StateOf(ch, s.ext, s.mem).text, pos, len)
    ensures var s', ch := EditedStore(s, p, bytes), s.vs[s.at].chain;
            RemovedInPlace(StateOf(ch, s.ext, s.mem), StateOf(ch, s'.ext, s'.mem), pos, len, pos - off + s.ext[p].len)
  {
    hide Newest, Fits, Addrs, Cells, StateOf, EditedStore;
    NewestParts(s, p);
    var s', ch := EditedStore(s, p, bytes), s.vs[s.at].chain;
    InPlaceAddrs(s, p, bytes, k);
    ShrunkAddrs(Addrs(ch[..k], s.ext), s.ext[p], len, Addrs(ch[k + 1..], s.ext));
    StateSizes(ch, s.ext, s.mem);
  }

  /** Adjust the lengths after the bytes of `p` have been edited. */
  method Adjust(t: Text, p: Piece, len: nat, ghost s: Store, ghost bytes: seq<byte>)
    requires t.Represents() && t !in t.repr && p in t.pieces && NoDup(t.h.changes)
    requires Fits(s, p) && s.at < |t.h.changes| && |bytes| == len
    requires t.currentRevision != null && t.currentRevision.change == t.h.changes[s.at]
    requires s.ext[p].data.At? && s.ext[p].data.blk < |s.mem| && s.ext[p].data.off <= |s.mem[s.ext[p].data.blk]|
    requires t.st == s.(mem := Rewritten(s.mem, s.ext[p], bytes))
    modifies t`st, t`size, p`len, p`data, t.h.changes`oldSpan, t.h.changes`newSpan
    ensures t.Represents() && t.st == EditedStore(s, p, bytes) && p.len == len
  {
    hide Text.Represents, Exclusive;
    t.ExtentIs(p);
    t.ChangeIs(s.at);
    ghost var e, span, size := s.ext[p], s.chg[s.at].newSpan, s.size;
    t.SizeIs();
    var was := p.len;
    t.SetExtent(p, p.data, len);
    var c := t.currentRevision.change;
    t.SetSpans(c, s.at, c.oldSpan, c.newSpan.(len := c.newSpan.len - was + len));
    t.SizeIs();
    t.SetSize(t.size - was + len);
    t.ExtentIs(p);
  }

  /** The document after an edit in place. */
  lemma FinishInPlace(t: Text, s: Store, h: Hist, d: Doc, p: Piece, bytes: seq<byte>)
    requires Sound(s, h, d) && d.open && WellFormed(d) && Newest(s, p) && bytes != [] && Fits(s, p)
    requires t.Represents() && t !in t.repr && t.h == h && t.st == EditedStore(s, p, bytes)
    requires FieldsOf(h, d, t.history, t.currentRevision, t.lastRevision, t.savedRevision, s.at)
    requires t.cache == p && p in t.pieces && t.st.at < |t.st.vs|
    requires t.doc == Edited(d, StateOf(t.Chain(), t.st.ext, t.st.mem))
    requires LinesOk(t.lines, StateOf(t.Chain(), t.st.ext, t.st.mem).text)
    ensures t.Valid()
  {
    hide StoreInv, HistInv, StatesInv, Text.Represents, WellFormed, FieldsOf, LinesOk, StateOf, Sound, Exclusive;
    ghost var st := StateOf(t.Chain(), t.st.ext, t.st.mem);
    InPlaceSound(s, h, d, p, bytes);
    EditedWellFormed(d, st);
    EditedFields(h, d, st, t.history, t.currentRevision, t.lastRevision, t.savedRevision, s.at);
    NewestExclusive(t.st, p);
    Assemble(t);
  }

  lemma NewestExclusive(s: Store, p: Piece)
    requires Newest(s, p)
    ensures Exclusive(s.ext, s.mem, p)
  {
  }

  /** Everything an edit in place needs to know once the cache has been hit. */
  lemma HitFacts(t: Text, p: Piece, k: nat)
    requires t.Inv() && Hit(t, p) && k < |t.Chain()| && t.Chain()[k] == p
    ensures Newest(t.st, p) && Fits(t.st, p) && t.currentRevision != null && t.doc.open
    ensures t.st.at < |t.h.changes| && t.currentRevision.change == t.h.changes[t.st.at] && NoDup(t.h.changes)
    ensures |t.blocks| > 0 && |t.st.mem| == |t.blocks| && t.cache == p && p in t.pieces && p in t.repr
    ensures t.h.changes[t.st.at] in t.repr
    ensures t.blocks[|t.blocks| - 1] in t.repr && t.blocks[|t.blocks| - 1].data in t.repr
    ensures p in t.st.ext && t.st.ext[p] == Extent(p.data, p.len) && p.data.At? && p.data.blk == |t.blocks| - 1
    ensures p.data.off + p.len == |t.st.mem[|t.blocks| - 1]|
  {
    SoundNow(t);
    HitNewest(t.st, t.h, t.doc, p);
    NewestLengths(t.st, p);
    TipIs(t.h, t.doc.nodes, t.st.vs, t.st.chg, t.doc.cur);
    t.RevIs(t.doc.cur);
    t.LastBlock();
    t.ChainIs(k);
    t.Within();
    assert t.st.at < |t.h.changes| && t.h.changes[t.st.at] in t.h.changes;
  }

  lemma InsertIsRewrite(m: seq<byte>, o: nat, off: nat, data: seq<byte>)
    requires o + off <= |m|
    ensures Inserted(m, o + off, data) == m[..o] + Inserted(m[o..], off, data)
  {
  }

  lemma RemoveIsRewrite(m: seq<byte>, o: nat, off: nat, len: nat)
    requires o + off + len <= |m|
    ensures Removed(m, o + off, len) == m[..o] + Removed(m[o..], off, len)
  {
  }

  /** Either edit of the middle part is one of the whole. */
  lemma InsertedInMiddle(l: seq<byte>, b: seq<byte>, r: seq<byte>, off: nat, data: seq<byte>)
    requires off <= |b|
    ensures l + Inserted(b, off, data) + r == Inserted(l + b + r, |l| + off, data)
  {
    assert b == b[..off] + b[off..];
    InsertedBetween(l, b[..off], data, b[off..], r);
  }

  lemma RemovedInMiddle(l: seq<byte>, b: seq<byte>, r: seq<byte>, off: nat, len: nat)
    requires off + len <= |b|
    ensures l + Removed(b, off, len) + r == Removed(l + b + r, |l| + off, len)
  {
    assert b == b[..off] + b[off..off + len] + b[off + len..];
    RemovedBetween(l, b[..off], b[off..off + len], b[off + len..], r);
  }

  /** The outcome of an edit in place that turned `text` into `text'`. */
  ghost predicate EditedInPlace(d: Doc, d': Doc, text': seq<byte>) {
    && d.open && d.cur < |d.nodes| && d'.cur < |d'.nodes|
    && d' == Edited(d, d'.Now()) && d'.Now().chain == d.Now().chain && d'.Now().text == text'
  }

  /** After the block has been edited: lengths, document, invariant. */
  method AfterBlockEdit(t: Text, p: Piece, ghost s: Store, ghost h: Hist, ghost d: Doc, ghost k: nat,
                        len: nat, ghost bytes: seq<byte>, ghost text': seq<byte>)
    requires t.Represents() && t !in t.repr && t.h == h && t.doc == d && p in t.pieces && p in t.repr
    requires s.at < |h.changes| && h.changes[s.at] in t.repr && NoDup(h.changes)
    requires Sound(s, h, d) && d.open && WellFormed(d) && Newest(s, p) && Fits(s, p) && |bytes| == len > 0
    requires d.cur < |d.nodes|
    requires k < |s.vs[s.at].chain| && s.vs[s.at].chain[k] == p && d.Now() == StateOf(s.vs[s.at].chain, s.ext, s.mem)
    requires s.ext[p].data.At? && s.ext[p].data.blk < |s.mem| && s.ext[p].data.off <= |s.mem[s.ext[p].data.blk]|
    requires t.currentRevision != null && t.currentRevision.change == h.changes[s.at]
    requires t.st == s.(mem := Rewritten(s.mem, s.ext[p], bytes)) && t.cache == p
    requires FieldsOf(h, d, t.history, t.currentRevision, t.lastRevision, t.savedRevision, s.at)
    requires StateOf(s.vs[s.at].chain, EditedStore(s, p, bytes).ext, EditedStore(s, p, bytes).mem).text == text'
    requires LinesOk(t.lines, text')
    modifies t`st, t`size, t`doc, p, t.h.changes
    ensures t.Valid() && t.repr == old(t.repr) && EditedInPlace(d, t.doc, text') && p.len == len
    ensures t.doc.cur < |t.doc.nodes|
    ensures var s' := EditedStore(s, p, bytes); t.doc.Now() == StateOf(s.vs[s.at].chain, s'.ext, s'.mem)
    ensures SpotGrown(d.cur, SpotsOf(h.tips, s.chg), t.Spots(), len - s.ext[p].len)
    ensures CachedAt(t, k, |Addrs(s.vs[s.at].chain[..k], s.ext)|, |Addrs(s.vs[s.at].chain[..k], s.ext)| + len)
  {
    hide StoreInv, HistInv, StatesInv, Text.Represents, WellFormed, FieldsOf, LinesOk, StateOf, Sound, Exclusive,
         Newest, Fits, SpotsOf, SpotGrown, CachedAt, Addrs;
    NewestAt(s, p);
    SpotWider(s, h, d, p, bytes);
    Adjust(t, p, len, s, bytes);
    ghost var st := StateOf(t.Chain(), t.st.ext, t.st.mem);
    t.SetDoc(Edited(d, st));
    FinishInPlace(t, s, h, d, p, bytes);
    StretchStays(t, s, p, bytes, k);
    StateChain(t.Chain(), t.st.ext, t.st.mem);
    StateChain(s.vs[s.at].chain, s.ext, s.mem);
  }

  /** The piece edited stays the cached one, so that the next edit may happen there, too. */
  lemma StretchStays(t: Text, s: Store, p: Piece, bytes: seq<byte>, k: nat)
    requires Newest(s, p) && Fits(s, p) && k < |s.vs[s.at].chain| && s.vs[s.at].chain[k] == p && bytes != []
    requires t.st == EditedStore(s, p, bytes) && t.cache == p && t.doc.open
    ensures CachedAt(t, k, |Addrs(s.vs[s.at].chain[..k], s.ext)|, |Addrs(s.vs[s.at].chain[..k], s.ext)| + |bytes|)
  {
    hide Addrs, Exclusive, LinkInv;
    NewestParts(s, p);
    EditStore(s, p, bytes);
    NewestExclusive(t.st, p);
    var ch := s.vs[s.at].chain;
    AddrsFrame(ch[..k], s.ext, t.st.ext);
    AddrsStep(ch, k, t.st.ext);
    CellsLength(t.st.ext[p]);
  }

  /** An edit in place widens the last change of the open revision. */
  lemma SpotWider(s: Store, h: Hist, d: Doc, p: Piece, bytes: seq<byte>)
    requires Sound(s, h, d) && d.open && Newest(s, p) && Fits(s, p)
    ensures SpotGrown(d.cur, SpotsOf(h.tips, s.chg), SpotsOf(h.tips, EditedStore(s, p, bytes).chg),
                      |bytes| - s.ext[p].len)
  {
    hide StoreInv, HistInv, StatesInv, Exclusive, SpotAt, Head, Addrs;
    var chg' := EditedStore(s, p, bytes).chg;
    TipsNow(s, h, d);
    NewestAt(s, p);
    LastTip(h, d.nodes, s.vs, s.chg);
    forall i | 0 <= i < |h.tips|
      ensures SpotAt(h.tips, chg', i) == if i < d.cur then SpotAt(h.tips, s.chg, i)
                                         else var sp := SpotAt(h.tips, s.chg, i);
                                              Spot(sp.first, sp.last, sp.grown + |bytes| - s.ext[p].len)
    {
      SpotEdited(h.tips, s.chg, chg', s.at, i, |bytes| - s.ext[p].len);
    }
  }

  lemma SpotEdited(tips: seq<nat>, chg: seq<ChangeCell>, chg': seq<ChangeCell>, at: nat, i: nat, g: int)
    requires i < |tips| && at == tips[|tips| - 1] && |chg| == |chg'| && Head(tips, i) <= tips[i] <= at < |chg|
    requires i < |tips| - 1 ==> tips[i] < at
    requires chg'[..at] == chg[..at] && chg'[at].pos == chg[at].pos && chg'[at].oldSpan == chg[at].oldSpan
    requires chg'[at].newSpan.len == chg[at].newSpan.len + g
    ensures var sp := SpotAt(tips, chg, i);
            SpotAt(tips, chg', i) == if i < |tips| - 1 then sp else Spot(sp.first, sp.last, sp.grown + g)
  {
    assert forall v :: 0 <= v < at ==> chg'[v] == chg'[..at][v] == chg[..at][v] == chg[v];
  }

  lemma StateChain(ch: seq<Piece>, ext: ExtentMap, mem: Memory)
    ensures StateOf(ch, ext, mem).chain == ch
  {
  }

  /** `cache_insert`: in place if `p` is the cached piece and its block has room. */
  method CacheInsert(t: Text, p: Piece, off: nat, data: seq<byte>, ghost pos: nat, ghost k: nat, ghost end: nat)
    returns (ok: bool)
    requires t.Valid() && data != [] && t.st.at < |t.st.vs| && k < |t.Chain()| && p == t.Chain()[k] && p in t.pieces
    requires off <= p.len && pos == |Addrs(t.Chain()[..k], t.st.ext)| + off && pos >= t.lines.pos
    requires end == pos - off + p.len
    modifies t, t.repr
    ensures t.Valid() && t.repr == old(t.repr)
    ensures ok <==> old(Hit(t, p) && Room(t, |data|))
    ensures !ok ==> unchanged(t) && unchanged(t.repr)
    ensures t.lines == old(t.lines) && t.pieces == old(t.pieces)
    ensures old(t.doc.cur) < |old(t.doc.nodes)| && (ok ==> pos <= |old(t.doc.Now().text)|)
    ensures ok ==> EditedInPlace(old(t.doc), t.doc, Inserted(old(t.doc.Now().text), pos, data))
    ensures ok ==> GrewInPlace(old(t.doc), t.doc, pos, data, end)
    ensures ok ==> SpotGrown(old(t.doc.cur), old(t.Spots()), t.Spots(), |data|)
    ensures ok ==> off <= pos && CachedStretch(t, pos - off, end + |data|)
  {
    hide SpotsOf, SpotGrown, Text.Inv, WellFormed, Hit, Newest, Fits, Text.Represents, Sound, StateOf, LinesOk,
         FieldsOf, Exclusive, Addrs, EditedInPlace, InsertedInPlace, RemovedInPlace, EditedStore;
    StateNow(t);
    ok := CacheContains(t, p);
    if !ok { return; }
    HitFacts(t, p, k);
    SoundNow(t);
    FieldsNow(t);
    RepresentsNow(t);
    t.Owns();
    ghost var s, h, d := t.st, t.h, t.doc;
    ghost var e := s.ext[p];
    ghost var was := s.mem[e.data.blk];
    ok := t.InsertLast(p.data.off + off, data);
    if !ok {
      Assemble(t);
      return;
    }
    ghost var bytes := Inserted(was[e.data.off..], off, data);
    InsertedText(s, p, k, off, pos, data);
    LinesKept(t.lines, d.Now().text, Inserted(d.Now().text, pos, data), pos);
    AfterBlockEdit(t, p, s, h, d, k, p.len + |data|, bytes, Inserted(d.Now().text, pos, data));
  }

  /** What an insertion in place does to the block, to the text and to the addresses. */
  lemma InsertedText(s: Store, p: Piece, k: nat, off: nat, pos: nat, data: seq<byte>)
    requires Newest(s, p) && Fits(s, p) && k < |s.vs[s.at].chain| && s.vs[s.at].chain[k] == p
    requires s.ext[p].data.At? && s.ext[p].data.blk < |s.mem|
    requires s.ext[p].data.off + s.ext[p].len == |s.mem[s.ext[p].data.blk]|
    requires off <= s.ext[p].len && pos == |Addrs(s.vs[s.at].chain[..k], s.ext)| + off
    ensures var ch, o, was := s.vs[s.at].chain, s.ext[p].data.off, s.mem[s.ext[p].data.blk];
            var bytes, text := Inserted(was[o..], off, data), StateOf(ch, s.ext, s.mem).text;
            var s' := EditedStore(s, p, bytes);
            && Inserted(was, o + off, data) == was[..o] + bytes && |bytes| == s.ext[p].len + |data|
            && pos <= |text| && StateOf(ch, s'.ext, s'.mem).text == Inserted(text, pos, data)
            && InsertedInPlace(StateOf(ch, s.ext, s.mem), StateOf(ch, s'.ext, s'.mem), pos, data,
                               pos - off + s.ext[p].len)
  {
    hide Newest, Fits, StateOf, Addrs, InsertedInPlace, EditedStore, Fetch;
    NewestParts(s, p);
    var ch, o, was := s.vs[s.at].chain, s.ext[p].data.off, s.mem[s.ext[p].data.blk];
    var bytes := Inserted(was[o..], off, data);
    InsertIsRewrite(was, o, off, data);
    InPlaceText(s, p, bytes, k);
    InsertedInMiddle(Fetch(Addrs(ch[..k], s.ext), s.mem), was[o..], Fetch(Addrs(ch[k + 1..], s.ext), s.mem), off, data);
    InsertedHere(s, p, bytes, k, off, pos, data);
  }

  /** What a deletion in place does to them. */
  lemma RemovedText(s: Store, p: Piece, k: nat, off: nat, pos: nat, len: nat)
    requires Newest(s, p) && Fits(s, p) && k < |s.vs[s.at].chain| && s.vs[s.at].chain[k] == p
    requires s.ext[p].data.At? && s.ext[p].data.blk < |s.mem|
    requires s.ext[p].data.off + s.ext[p].len == |s.mem[s.ext[p].data.blk]|
    requires off + len <= s.ext[p].len && pos == |Addrs(s.vs[s.at].chain[..k], s.ext)| + off
    ensures var ch, o, was := s.vs[s.at].chain, s.ext[p].data.off, s.mem[s.ext[p].data.blk];
            var bytes, text := Removed(was[o..], off, len), StateOf(ch, s.ext, s.mem).text;
            var s' := EditedStore(s, p, bytes);
            && Removed(was, o + off, len) == was[..o] + bytes && |bytes| + len == s.ext[p].len
            && pos + len <= |text| && StateOf(ch, s'.ext, s'.mem).text == Removed(text, pos, len)
            && RemovedInPlace(StateOf(ch, s.ext, s.mem), StateOf(ch, s'.ext, s'.mem), pos, len,
                              pos - off + s.ext[p].len)
  {
    hide Newest, Fits, StateOf, Addrs, RemovedInPlace, EditedStore, Fetch;
    NewestParts(s, p);
    var ch, o, was := s.vs[s.at].chain, s.ext[p].data.off, s.mem[s.ext[p].data.blk];
    var bytes := Removed(was[o..], off, len);
    RemoveIsRewrite(was, o, off, len);
    InPlaceText(s, p, bytes, k);
    RemovedInMiddle(Fetch(Addrs(ch[..k], s.ext), s.mem), was[o..], Fetch(Addrs(ch[k + 1..], s.ext), s.mem), off, len);
    RemovedHere(s, p, bytes, k, off, pos, len);
  }

  lemma RepresentsNow(t: Text)
    requires t.Inv()
    ensures t.Represents()
  {
  }

  /** `cache_delete`: in place if `p` is the cached piece and holds the whole range.  The
      first byte of `p` stays, since positions at its start belong to the piece before. */
  method CacheDelete(t: Text, p: Piece, off: nat, len: nat, ghost pos: nat, ghost k: nat, ghost end: nat)
    returns (ok: bool)
    requires t.Valid() && len > 0 && t.st.at < |t.st.vs| && k < |t.Chain()| && p == t.Chain()[k] && p in t.pieces
    requires off <= p.len && pos == |Addrs(t.Chain()[..k], t.st.ext)| + off && pos >= t.lines.pos
    requires end == pos - off + p.len
    requires off == 0 ==> p.len == 0
    modifies t, t.repr
    ensures t.Valid() && t.repr == old(t.repr)
    ensures ok <==> old(Hit(t, p)) && off + len <= old(p.len)
    ensures ok ==> SpotGrown(old(t.doc.cur), old(t.Spots()), t.Spots(), -(len as int))
    ensures ok ==> off <= pos && len <= end && CachedStretch(t, pos - off, end - len)
    ensures !ok ==> unchanged(t) && unchanged(t.repr)
    ensures t.lines == old(t.lines) && t.pieces == old(t.pieces)
    ensures old(t.doc.cur) < |old(t.doc.nodes)| && (ok ==> pos + len <= |old(t.doc.Now().text)|)
    ensures ok ==> ShrankInPlace(old(t.doc), t.doc, pos, len, end)
    ensures ok ==> EditedInPlace(old(t.doc), t.doc, Removed(old(t.doc.Now().text), pos, len))
    ensures ok ==> 0 < p.len == old(p.len) - len
  {
    hide SpotsOf, SpotGrown, Text.Inv, WellFormed, Hit, Newest, Fits, Text.Represents, Sound, StateOf, LinesOk,
         FieldsOf, Exclusive, Addrs, EditedInPlace, InsertedInPlace, RemovedInPlace, EditedStore, StoreInv, HistInv,
         NoDup;
    StateNow(t);
    ok := CacheContains(t, p);
    if !ok { return; }
    HitFacts(t, p, k);
    SoundNow(t);
    FieldsNow(t);
    RepresentsNow(t);
    t.Owns();
    ghost var s, h, d := t.st, t.h, t.doc;
    ghost var e := s.ext[p];
    ghost var was := s.mem[e.data.blk];
    ok := off + len <= p.len;
    if !ok { return; }
    ok := t.DeleteLast(p.data.off + off, len);
    if !ok {
      Assemble(t);
      return;
    }
    ghost var bytes := Removed(was[e.data.off..], off, len);
    RemovedText(s, p, k, off, pos, len);
    LinesKept(t.lines, d.Now().text, Removed(d.Now().text, pos, len), pos);
    AfterBlockEdit(t, p, s, h, d, k, p.len - len, bytes, Removed(d.Now().text, pos, len));
  }
}
