/** What insertion and deletion have in common.

    They open a revision if there is none, add a change to it, find the piece at a position,
    store bytes, and commit the change once its spans are known. */
module Editing {
  import opened Bytes
  import opened History
  import opened Extents
  import opened UndoTree
  import opened Store
  import opened Revisions
  import opened PieceChain
  import opened Splices

  // ----- changes and revisions -----

  /** `revision_alloc`: a new revision below the current one and latest in time; it has no
      change yet. */
  method RevisionAlloc(t: Text) returns (rev: Revision)
    requires t.Inv() && !t.doc.open
    requires t.doc.cur < |t.h.cells| && |t.h.cells| == |t.h.revs|
    modifies t`currentRevision, t`history, t`h, t`repr, t.h.revs`later, t.h.revs`next
    ensures t.Represents() && t !in t.repr && fresh(rev) && rev !in old(t.h.revs)
    ensures t.repr == old(t.repr) + {rev}
    ensures var n, cur, h := |old(t.h.revs)|, old(t.doc.cur), old(t.h);
            && n > 0
            && var cells := h.cells[n - 1 := h.cells[n - 1].(later := rev)];
               t.h == h.(revs := h.revs + [rev],
                         cells := cells[cur := cells[cur].(next := rev)]
                                  + [RevCell(null, null, h.revs[cur], h.revs[n - 1], null, n)])
    ensures t.currentRevision == t.history == rev
  {
    hide StoreInv, HistInv, StatesInv, Text.Represents, Text.CacheInv, TreeNodes, Threaded, NoDup;
    t.InvFields(0);
    ghost var n, cur := |t.h.revs|, t.doc.cur;
    t.RevPointers(n - 1);
    rev := t.AllocRevision(t.lastRevision.seqno + 1, t.history, t.lastRevision);
    t.SetRevLater(t.lastRevision, n - 1, rev);
    t.SetRevNext(t.history, cur, rev);
    t.SetCurrent(rev);
  }

  /** How the pointers of all revisions change when revision `rev` with change `c` is added. */
  ghost predicate Sprouts(h: Hist, h': Hist, cur: nat, rev: Revision, c: TextChange, n: nat) {
    cur < |h.revs| == |h.cells| && h' == SproutedHist(h, cur, rev, c, n)
  }

  /** The first change of a new revision: pointers only. */
  method LinkFirstChange(t: Text, pos: nat) returns (c: TextChange, rev: Revision)
    requires t.Inv() && !t.doc.open && t.doc.cur < |t.h.cells| && |t.h.cells| == |t.h.revs|
    modifies t`currentRevision, t`history, t`h, t`st, t`repr, t.h.revs`later, t.h.revs`next
    ensures t.Represents() && t !in t.repr && fresh(t.repr - old(t.repr)) && fresh(c)
    ensures c !in old(t.h.changes) && rev !in old(t.h.revs)
    ensures Sprouts(old(t.h), t.h, old(t.doc.cur), rev, c, |old(t.st.vs)|)
    ensures t.st == old(t.st).(vs := old(t.st.vs) + [NoopVersion(old(t.st.vs), old(t.st.at))],
                               at := |old(t.st.vs)|,
                               chg := old(t.st.chg) + [ChangeCell(EMPTY_SPAN, EMPTY_SPAN, pos, null, null)])
    ensures t.currentRevision == t.history == rev
  {
    hide StoreInv, HistInv, StatesInv, Text.Represents, FieldsOf, Text.CacheInv;
    t.InvFields(0);
    ghost var vs, at, h := t.st.vs, t.st.at, t.h;
    AtIs(t);
    rev := RevisionAlloc(t);
    ghost var mid := t.h;
    c := t.AllocChange(pos, null);
    t.SetRevChange(rev, |h.revs|, c);
    t.Reshape(vs + [NoopVersion(vs, at)], |vs|, h.tips + [|vs|]);
  }

  lemma AtIs(t: Text)
    requires t.Inv()
    ensures t.st.at < |t.st.vs| == |t.st.chg| == |t.h.changes|
  {
    TipIs(t.h, t.doc.nodes, t.st.vs, t.st.chg, t.doc.cur);
  }

  /** Store, threading and contents of a document, as one value-level invariant. */
  ghost predicate Sound(st: Store, h: Hist, d: Doc) {
    && StoreInv(st) && HistInv(h, d.nodes, st.vs, st.chg) && StatesInv(h.tips, d.nodes, st)
    && |h.tips| == |d.nodes| == |h.revs| && |st.vs| == |st.chg| == |h.changes|
    && d.cur < |d.nodes| && st.at == h.tips[d.cur] && st.at < |st.vs|
    && (d.open ==> 0 < d.cur == |d.nodes| - 1)
  }

  /** The current revision shows the current chain. */
  lemma StateNow(t: Text)
    requires t.Inv()
    ensures t.st.at < |t.st.vs| && t.doc.cur < |t.doc.nodes|
    ensures t.doc.Now() == StateOf(t.Chain(), t.st.ext, t.st.mem)
    ensures t.doc.Now().addrs == Addrs(t.Chain(), t.st.ext) && t.doc.Now().chain == t.Chain()
    ensures |t.doc.Now().text| == |t.doc.Now().addrs| == t.size
  {
    hide HistInv;
    assert StateAt(t.h.tips, t.doc.nodes, t.st, t.doc.cur);
  }

  lemma SoundNow(t: Text)
    requires t.Inv()
    ensures Sound(t.st, t.h, t.doc)
  {
    hide StoreInv, HistInv, StatesInv, Text.Represents;
    TipIs(t.h, t.doc.nodes, t.st.vs, t.st.chg, t.doc.cur);
  }

  /** `st'` is `st` with an empty change added as version `|st.vs|`. */
  ghost predicate GrownBy(st: Store, st': Store, pos: nat) {
    && st.at < |st.vs| && |st'.chg| == |st.vs| + 1 == |st.chg| + 1
    && st' == st.(vs := st.vs + [NoopVersion(st.vs, st.at)], at := |st.vs|, chg := st'.chg)
    && SameSpans(st.chg, st'.chg, |st.chg|) && SamePlaces(st.chg, st'.chg, |st.chg|)
    && st'.chg[|st.vs|].oldSpan == EMPTY_SPAN && st'.chg[|st.vs|].newSpan == EMPTY_SPAN
    && st'.chg[|st.vs|].pos == pos
  }

  /** Version `n` is now the last of the open revision, or the only one of a new one. */
  ghost predicate NewTip(open: bool, tips: seq<nat>, tips': seq<nat>, n: nat) {
    if open then |tips| > 0 && tips' == tips[|tips| - 1 := n] else tips' == tips + [n]
  }

  lemma SproutSound(st: Store, h: Hist, d: Doc, st': Store, h': Hist, rev: Revision, c: TextChange, pos: nat)
    requires Sound(st, h, d) && !d.open && c !in h.changes && rev !in h.revs
    requires Sprouts(h, h', d.cur, rev, c, |st.vs|)
    requires st' == st.(vs := st.vs + [NoopVersion(st.vs, st.at)], at := |st.vs|,
                        chg := st.chg + [ChangeCell(EMPTY_SPAN, EMPTY_SPAN, pos, null, null)])
    ensures Sound(st', h', Edited(d, d.nodes[d.cur].state)) && GrownBy(st, st', pos)
    ensures |st.vs| < |h'.changes| && h'.changes[|st.vs|] == c && NewTip(d.open, h.tips, h'.tips, |st.vs|)
  {
    hide StoreInv, HistInv, TreeNodes;
    var d' := Edited(d, d.nodes[d.cur].state);
    assert StateAt(h.tips, d.nodes, st, d.cur);
    SproutHist(h, h', d.nodes, d'.nodes, st.vs, st'.vs, st.chg, st'.chg, d.cur, d.nodes[d.cur].state, rev, c);
    AppendNoop(st, st');
    StatesAppend(h.tips, d.nodes, st, h'.tips, d'.nodes, st');
  }

  /** The invariant from its value-level part and the plain fields. */
  lemma Assemble(t: Text)
    requires t.Represents() && t !in t.repr && Sound(t.st, t.h, t.doc) && WellFormed(t.doc)
    requires t.Fields() && t.CacheInv() && LinesOk(t.lines, t.doc.Now().text)
    ensures t.Valid()
  {
    hide StoreInv, HistInv, StatesInv, Text.Represents, WellFormed;
  }

  lemma SproutFields(h: Hist, h': Hist, d: Doc, rev: Revision, c: TextChange, history: Revision, current: Revision?,
                     last: Revision, saved: Revision, at: nat, n: nat)
    requires !d.open && FieldsOf(h, d, history, current, last, saved, at)
    requires Sprouts(h, h', d.cur, rev, c, n)
    ensures FieldsOf(h', Edited(d, d.Now()), rev, rev, last, saved, n)
  {
  }

  /** The first change of a new revision. */
  method FirstChange(t: Text, pos: nat) returns (c: TextChange)
    requires t.Valid() && !t.doc.open
    modifies t, t.repr
    ensures t.Valid() && fresh(t.repr - old(t.repr)) && fresh(c)
    ensures t.doc == Edited(old(t.doc), old(t.doc.Now()))
    ensures GrownBy(old(t.st), t.st, pos) && t.st.at < |t.h.changes| && c == t.h.changes[t.st.at]
    ensures NewTip(old(t.doc.open), old(t.h.tips), t.h.tips, |old(t.st.vs)|)
    ensures t.pieces == old(t.pieces) && t.blocks == old(t.blocks) && t.lines == old(t.lines)
    ensures t.cache == old(t.cache)
  {
    hide Sound, Text.Inv, Text.Represents, FieldsOf, LinesOk, WellFormed, Sprouts, NewTip;
    t.InvFields(0);
    t.Owns();
    SoundNow(t);
    ghost var st, h, d := t.st, t.h, t.doc;
    EditedWellFormed(d, d.Now());
    var rev;
    FieldsNow(t);
    ghost var history, current := t.history, t.currentRevision;
    c, rev := LinkFirstChange(t, pos);
    t.SetDoc(Edited(d, d.Now()));
    SproutSound(st, h, d, t.st, t.h, rev, c, pos);
    SproutFields(h, t.h, d, rev, c, history, current, t.lastRevision, t.savedRevision, st.at, |st.vs|);
    Assemble(t);
  }

  lemma FieldsNow(t: Text)
    requires t.Inv()
    ensures t.Fields() && t.CacheInv() && LinesOk(t.lines, t.doc.Now().text) && t !in t.repr
    ensures |t.h.cells| == |t.h.revs|
  {
  }

  /** How the pointers change when change `c` is added to the open revision. */
  ghost predicate Grows(h: Hist, h': Hist, c: TextChange, n: nat) {
    && |h.revs| == |h.cells| == |h.tips| > 0
    && var k := |h.revs| - 1;
       h' == Hist(h.changes + [c], h.revs, h.cells[k := h.cells[k].(change := c)], h.tips[k := n])
  }

  /** One more change of the open revision: pointers only. */
  method LinkNextChange(t: Text, pos: nat) returns (c: TextChange)
    requires t.Inv() && t.doc.open
    modifies t`h, t`st, t`repr, t.h.changes`prev, t.h.revs`change
    ensures t.Represents() && t !in t.repr && fresh(t.repr - old(t.repr)) && fresh(c)
    ensures c !in old(t.h.changes) && Grows(old(t.h), t.h, c, |old(t.st.vs)|)
    ensures var vs, chg := old(t.st.vs), old(t.st.chg);
            && 0 < |vs| == |chg| == |old(t.h.changes)| && old(t.st.at) == |vs| - 1
            && t.st == old(t.st).(vs := vs + [NoopVersion(vs, |vs| - 1)], at := |vs|,
                 chg := chg[|vs| - 1 := chg[|vs| - 1].(prev := c)]
                        + [ChangeCell(EMPTY_SPAN, EMPTY_SPAN, pos, old(t.h.changes)[|vs| - 1], null)])
  {
    hide StoreInv, HistInv, StatesInv, Text.Represents;
    t.InvFields(0);
    ghost var vs, at, h, k := t.st.vs, t.st.at, t.h, |t.h.revs| - 1;
    TipIs(h, t.doc.nodes, vs, t.st.chg, k);
    LastTip(h, t.doc.nodes, vs, t.st.chg);
    t.RevIs(k);
    var rev := t.currentRevision;
    c := t.AllocChange(pos, rev.change);
    if rev.change != null {
      t.SetChangePrev(rev.change, at, c);
    }
    t.SetRevChange(rev, k, c);
    t.Reshape(vs + [NoopVersion(vs, at)], |vs|, h.tips[k := |vs|]);
  }

  lemma GrowSound(st: Store, h: Hist, d: Doc, st': Store, h': Hist, c: TextChange, pos: nat)
    requires Sound(st, h, d) && d.open && c !in h.changes && Grows(h, h', c, |st.vs|)
    requires 0 < |st.vs| == |st.chg| == |h.changes| && st.at == |st.vs| - 1
    requires st' == st.(vs := st.vs + [NoopVersion(st.vs, |st.vs| - 1)], at := |st.vs|,
                 chg := st.chg[|st.vs| - 1 := st.chg[|st.vs| - 1].(prev := c)]
                        + [ChangeCell(EMPTY_SPAN, EMPTY_SPAN, pos, h.changes[|st.vs| - 1], null)])
    ensures Sound(st', h', d) && GrownBy(st, st', pos)
    ensures |st.vs| < |h'.changes| && h'.changes[|st.vs|] == c && NewTip(d.open, h.tips, h'.tips, |st.vs|)
  {
    hide StoreInv, HistInv, TreeNodes;
    assert StateAt(h.tips, d.nodes, st, d.cur);
    GrowHist(h, h', d.nodes, st.vs, st'.vs, st.chg, st'.chg, c);
    AppendNoop(st, st');
    StatesAppend(h.tips, d.nodes, st, h'.tips, d.nodes, st');
  }

  lemma GrowFields(h: Hist, h': Hist, d: Doc, c: TextChange, history: Revision, current: Revision?,
                   last: Revision, saved: Revision, at: nat, n: nat)
    requires d.open && FieldsOf(h, d, history, current, last, saved, at) && Grows(h, h', c, n)
    ensures FieldsOf(h', d, history, current, last, saved, n)
  {
  }

  /** One more change of the open revision. */
  method NextChange(t: Text, pos: nat) returns (c: TextChange)
    requires t.Valid() && t.doc.open
    modifies t, t.repr
    ensures t.Valid() && fresh(t.repr - old(t.repr)) && fresh(c)
    ensures t.doc == old(t.doc)
    ensures GrownBy(old(t.st), t.st, pos) && t.st.at < |t.h.changes| && c == t.h.changes[t.st.at]
    ensures NewTip(old(t.doc.open), old(t.h.tips), t.h.tips, |old(t.st.vs)|)
    ensures t.pieces == old(t.pieces) && t.blocks == old(t.blocks) && t.lines == old(t.lines)
    ensures t.cache == old(t.cache)
  {
    hide Sound, Text.Inv, Text.Represents, FieldsOf, LinesOk, WellFormed, Grows, NewTip;
    t.InvFields(0);
    t.Owns();
    SoundNow(t);
    FieldsNow(t);
    ghost var st, h, d := t.st, t.h, t.doc;
    c := LinkNextChange(t, pos);
    GrowSound(st, h, d, t.st, t.h, c, pos);
    GrowFields(h, t.h, d, c, t.history, t.currentRevision, t.lastRevision, t.savedRevision, st.at, |st.vs|);
    Assemble(t);
  }

  /** `text_change_alloc`: a new change with empty spans, in the open revision or in a newly
      allocated one. */
  method TextChangeAlloc(t: Text, pos: nat) returns (c: TextChange)
    requires t.Valid()
    modifies t, t.repr
    ensures t.Valid() && fresh(t.repr - old(t.repr)) && fresh(c)
    ensures t.doc.cur < |t.doc.nodes| && t.doc == Edited(old(t.doc), old(t.doc.Now()))
    ensures t.doc.Now() == old(t.doc.Now()) && t.doc.open
    ensures GrownBy(old(t.st), t.st, pos) && t.st.at < |t.h.changes| && c == t.h.changes[t.st.at]
    ensures NewTip(old(t.doc.open), old(t.h.tips), t.h.tips, |old(t.st.vs)|)
    ensures t.pieces == old(t.pieces) && t.blocks == old(t.blocks) && t.lines == old(t.lines)
    ensures t.cache == old(t.cache)
  {
    hide Text.Inv, WellFormed;
    t.InvFields(0);
    FieldsNow(t);
    if t.currentRevision == null {
      c := FirstChange(t, pos);
    } else {
      c := NextChange(t, pos);
      assert old(t.doc) == Edited(old(t.doc), old(t.doc.Now()));
    }
  }

  // ----- storing data -----

  /** The last block has that much room. */
  ghost predicate LastBlockFits(t: Text, n: nat)
    reads t`blocks, t.blocks`len
  {
    |t.blocks| > 0 && var b := t.blocks[|t.blocks| - 1]; b.len + n <= b.data.Length
  }

  /** `block_store`: at the end of the last block, or of a new one when that is full. */
  method BlockStore(t: Text, data: seq<byte>) returns (p: Ptr)
    requires t.Represents() && t !in t.repr
    modifies t`blocks, t`st, t`repr, t.repr
    ensures t.Represents() && t !in t.repr && fresh(t.repr - old(t.repr)) && old(t.repr) <= t.repr
    ensures StoredAt(old(t.st.mem), t.st.mem, p, data)
    ensures t.st == old(t.st).(mem := t.st.mem)
    ensures |t.st.mem| == |old(t.blocks)| + (if old(LastBlockFits(t, |data|)) then 0 else 1)
  {
    hide Text.Represents;
    t.LastBlock();
    if |t.blocks| == 0 || !t.blocks[|t.blocks| - 1].Capacity(|data|) {
      t.AddBlock(|data|);
    }
    t.LastBlock();
    var off := t.AppendLast(data);
    p := At(|t.blocks| - 1, off);
  }

  /** `cache_piece`: remember the piece if it ends where the last block ends. */
  method CachePiece(t: Text, p: Piece)
    requires t.Represents() && t !in t.repr && p in t.pieces
    modifies t`cache
    ensures t.Represents() && p in t.st.ext
    ensures var e, mem := t.st.ext[p], t.st.mem;
            t.cache == if |mem| > 0 && e.data.At? && e.data.blk == |mem| - 1
                          && e.data.off + e.len == |mem[|mem| - 1]| then p else old(t.cache)
  {
    hide Text.Mirrored;
    t.LastBlock();
    t.ExtentIs(p);
    if |t.blocks| > 0 {
      var b := t.blocks[|t.blocks| - 1];
      if p.data.At? && p.data.blk == |t.blocks| - 1 && p.data.off + p.len == b.len {
        t.cache := p;
      }
    }
  }

  // ----- applying a change -----

  /** Fill in the newest change and swap it in. */
  method Commit(t: Text, c: TextChange, ghost s: Store, ghost lo: nat, ghost hi: nat,
                ghost mid: seq<Piece>, ghost o: Span, ghost n: Span)
    requires t.Represents() && t !in t.repr && Waiting(s)
    requires s.at < |t.h.changes| && c == t.h.changes[s.at] && lo <= hi <= |s.vs[s.at].chain|
    requires t.st == s.(links := t.st.links, ext := t.st.ext,
                        chg := s.chg[s.at := s.chg[s.at].(oldSpan := o, newSpan := n)])
    requires var ver := Replacement(s, lo, hi, mid);
             Fills(s, ver, Filled(s, ver, t.st.links, t.st.ext, o, n))
    modifies t.pieces`prev, t.pieces`next, t`size, t`st, t`h
    ensures t.Represents() && StoreInv(t.st) && t.h == old(t.h)
    ensures t.st == old(t.st).(vs := s.vs[s.at := Replacement(s, lo, hi, mid)],
                               links := t.st.links, size := t.st.size)
  {
    hide Text.Represents, StoreInv;
    ghost var ver := Replacement(s, lo, hi, mid);
    ghost var w := s.at;
    FillStore(s, ver, Filled(s, ver, t.st.links, t.st.ext, o, n));
    t.Reshape(s.vs[w := ver], ver.parent, t.h.tips);
    t.SwapIn(c, w);
  }

  /** What filling in the newest change leaves alone. */
  ghost predicate Refines(s: Store, s': Store) {
    && 0 < s.at == |s.vs| - 1 && s'.at == s.at && |s'.vs| == |s.vs| && |s'.chg| == |s.chg| == |s.vs|
    && (forall v :: 0 <= v < s.at ==> s'.vs[v] == s.vs[v])
    && s'.vs[s.at].parent == s.vs[s.at].parent
    && (forall v :: 0 <= v < |s.chg| ==> s'.chg[v].next == s.chg[v].next && s'.chg[v].prev == s.chg[v].prev)
    && SameSpans(s.chg, s'.chg, s.at) && SamePlaces(s.chg, s'.chg, |s.chg|)
    && (forall p :: p in s.ext ==> p in s'.ext && s'.ext[p] == s.ext[p])
    && Extends(s.mem, s'.mem)
  }

  /** Every revision but the open one shows what it showed before. */
  lemma FinishSound(s: Store, h: Hist, d: Doc, s': Store)
    requires Sound(s, h, d) && d.open && StoreInv(s') && Refines(s, s')
    ensures Sound(s', h, Edited(d, StateOf(s'.vs[s.at].chain, s'.ext, s'.mem)))
  {
    hide StoreInv, HistInv, TreeNodes, StateOf;
    var st := StateOf(s'.vs[s.at].chain, s'.ext, s'.mem);
    var d' := Edited(d, st);
    HistFrame(h, d.nodes, d'.nodes, s.vs, s'.vs, s.chg, s'.chg);
    LastTip(h, d.nodes, s.vs, s.chg);
    forall i | 0 <= i < |d'.nodes| ensures StateAt(h.tips, d'.nodes, s', i) {
      assert StateAt(h.tips, d.nodes, s, i);
      if i < d.cur {
        ChainExtents(s, h.tips[i]);
        StateExtends(s.vs[h.tips[i]].chain, s.ext, s.mem, s'.ext, s'.mem);
      }
    }
  }

  /** What the new change says: it took place at `pos`, and its spans differ by as much as the
      texts before and after it. */
  lemma SpotRecorded(s: Store, h: Hist, d: Doc, s1: Store, tips: seq<nat>, s2: Store, pos: nat)
    requires Sound(s, h, d) && GrownBy(s, s1, pos) && NewTip(d.open, h.tips, tips, |s.vs|)
    requires Refines(s1, s2) && StoreInv(s2)
    ensures s2.at < |s2.vs| && s.at < |s.vs|
    ensures SpotAdded(d.open, d.cur, SpotsOf(h.tips, s.chg), SpotsOf(tips, s2.chg), pos,
                      |Addrs(s2.vs[s2.at].chain, s2.ext)| - |Addrs(s.vs[s.at].chain, s.ext)|)
  {
    hide StoreInv, HistInv, StatesInv, SpotsOf, SpotAt, Addrs, GrownBy, Refines, SameSpans, SamePlaces, NewTip, Head;
    ChangeGrown(s, s1, s2, pos);
    TipsNow(s, h, d);
    SpotsAdded(d.open, h.tips, s.chg, tips, s2.chg, |s.vs|, pos,
               |Addrs(s2.vs[s2.at].chain, s2.ext)| - |Addrs(s.vs[s.at].chain, s.ext)|);
  }

  lemma TipsNow(s: Store, h: Hist, d: Doc)
    requires Sound(s, h, d)
    ensures |h.tips| > 0 && |s.chg| == |s.vs| == h.tips[|h.tips| - 1] + 1 && (d.open ==> d.cur == |h.tips| - 1)
    ensures forall i :: 0 <= i < |h.tips| ==> Head(h.tips, i) <= h.tips[i] < |s.vs|
    ensures d.cur < |h.tips| && s.at < |s.vs| && s.at == h.tips[d.cur]
  {
    hide StoreInv, HistInv, StatesInv;
    LastTip(h, d.nodes, s.vs, s.chg);
    forall i | 0 <= i < |h.tips| ensures Head(h.tips, i) <= h.tips[i] < |s.vs| {
      TipIs(h, d.nodes, s.vs, s.chg, i);
    }
  }

  lemma SpotsAdded(open: bool, tips: seq<nat>, chg: seq<ChangeCell>, tips': seq<nat>, chg': seq<ChangeCell>, n: nat,
                   pos: nat, g: int)
    requires |tips| > 0 && n == |chg| == tips[|tips| - 1] + 1 && |chg'| == n + 1 && NewTip(open, tips, tips', n)
    requires forall i :: 0 <= i < |tips| ==> Head(tips, i) <= tips[i] < n
    requires SameSpans(chg, chg', n) && SamePlaces(chg, chg', n)
    requires chg'[n].pos == pos && chg'[n].newSpan.len - chg'[n].oldSpan.len == g
    ensures SpotAdded(open, |tips| - 1, SpotsOf(tips, chg), SpotsOf(tips', chg'), pos, g)
  {
    hide SpotAt, SameSpans, SamePlaces, Head;
    forall i | 0 <= i < |tips| && (open ==> i < |tips| - 1) ensures SpotAt(tips', chg', i) == SpotAt(tips, chg, i) {
      SpotKept(tips, chg, tips', chg', n, i);
    }
    SpotNew(open, tips, chg, tips', chg', n);
  }

  lemma SpotKept(tips: seq<nat>, chg: seq<ChangeCell>, tips': seq<nat>, chg': seq<ChangeCell>, n: nat, i: nat)
    requires i < |tips| && i < |tips'| && tips[..i + 1] == tips'[..i + 1] && Head(tips, i) <= tips[i] < n
    requires n <= |chg| && SameSpans(chg, chg', n) && SamePlaces(chg, chg', n)
    ensures SpotAt(tips', chg', i) == SpotAt(tips, chg, i)
  {
    assert tips'[i] == tips'[..i + 1][i] == tips[i];
    assert i > 0 ==> tips'[i - 1] == tips'[..i + 1][i - 1] == tips[i - 1];
  }

  lemma SpotNew(open: bool, tips: seq<nat>, chg: seq<ChangeCell>, tips': seq<nat>, chg': seq<ChangeCell>, n: nat)
    requires |tips| > 0 && n == |chg| == tips[|tips| - 1] + 1 && |chg'| == n + 1 && NewTip(open, tips, tips', n)
    requires Head(tips, |tips| - 1) < n && SamePlaces(chg, chg', n)
    ensures var c := chg'[n];
            SpotAt(tips', chg', |tips'| - 1)
            == Spot(if open then SpotAt(tips, chg, |tips| - 1).first else c.pos, c.pos, c.newSpan.len - c.oldSpan.len)
  {
  }

  lemma ChangeGrown(s: Store, s1: Store, s2: Store, pos: nat)
    requires StoreInv(s) && s.at < |s.vs| && GrownBy(s, s1, pos) && Refines(s1, s2) && StoreInv(s2)
    ensures |s.chg| == |s.vs| && |s2.chg| == |s.vs| + 1 && s2.at == |s.vs| < |s2.vs|
    ensures SameSpans(s.chg, s2.chg, |s.vs|) && SamePlaces(s.chg, s2.chg, |s.vs|) && s2.chg[|s.vs|].pos == pos
    ensures s2.chg[|s.vs|].newSpan.len - s2.chg[|s.vs|].oldSpan.len
            == |Addrs(s2.vs[s2.at].chain, s2.ext)| - |Addrs(s.vs[s.at].chain, s.ext)|
  {
    hide StoreInv, Addrs, Extends;
    SpanGrowth(s2, s2.at);
    ChainExtents(s, s.at);
    AddrsFrame(s.vs[s.at].chain, s.ext, s2.ext);
  }

  lemma ChainExtents(s: Store, v: nat)
    requires StoreInv(s) && v < |s.vs|
    ensures forall p :: p in s.vs[v].chain ==> p in s.ext && InBounds(s.ext[p], s.mem)
  {
    assert ChainAt(s, v);
  }

  lemma EditedFields(h: Hist, d: Doc, st: State, history: Revision, current: Revision?,
                     last: Revision, saved: Revision, at: nat)
    requires d.open && FieldsOf(h, d, history, current, last, saved, at)
    ensures FieldsOf(h, Edited(d, st), history, current, last, saved, at)
  {
  }

  /** An edit at `pos` makes a line number cached for a later position useless. */
  method ForgetLines(t: Text, pos: nat)
    requires t.Valid()
    modifies t`lines
    ensures t.Valid() && pos >= t.lines.pos
    ensures t.lines == if pos < old(t.lines.pos) then LineCache(0, 1) else old(t.lines)
  {
    hide Text.Inv, WellFormed, Sound, FieldsOf, Text.Represents, UndoTree.Edited;
    if pos < t.lines.pos {
      SoundNow(t);
      FieldsNow(t);
      HealthyParts(t);
      StateNow(t);
      t.InvalidateLines();
      StartLines(t.doc.Now().text);
      Assemble(t);
    }
  }

  /** A cached line number survives edits behind it. */
  lemma LinesKept(l: LineCache, text: seq<byte>, text': seq<byte>, pos: nat)
    requires LinesOk(l, text) && l.pos <= pos <= |text| && pos <= |text'| && text'[..pos] == text[..pos]
    ensures LinesOk(l, text')
  {
    assert text'[..l.pos] == text'[..pos][..l.pos] == text[..l.pos];
  }

  lemma StartLines(text: seq<byte>)
    ensures LinesOk(LineCache(0, 1), text)
  {
  }

  lemma HealthyParts(t: Text)
    requires t.Inv()
    ensures t.Represents() && StoreInv(t.st)
  {
  }

  /** A piece found by `piece_get_intern` for position `pos`. */
  ghost predicate Located(t: Text, pos: nat, p: Piece, k: nat, off: nat)
    reads t`st, p
  {
    && t.st.at < |t.st.vs| && k + 1 < |t.Chain()| && p == t.Chain()[k] && off <= p.len
    && pos == |Addrs(t.Chain()[..k], t.st.ext)| + off
    && (k > 0 ==> off > 0) && (k == 0 ==> off == 0 && p.len == 0)
    && (p.len > 0 ==> p.data.At?)
  }

  /** The piece for an edit at `pos`, if there is one. */
  method Locate(t: Text, pos: nat) returns (p: Piece?, off: nat, ghost k: nat)
    requires t.Valid()
    ensures p == null <==> pos > t.size
    ensures p != null ==> Located(t, pos, p, k, off) && p in t.pieces
  {
    hide Text.Inv, WellFormed, StoreInv, Text.Represents;
    HealthyParts(t);
    p, off, k := t.PieceGetIntern(pos);
    if p != null { t.ChainIs(k); }
  }

  lemma LocatedExtent(t: Text, p: Piece)
    requires t.Inv() && p in t.pieces
    ensures p in t.st.ext && t.st.ext[p] == Extent(p.data, p.len)
  {
    t.ExtentIs(p);
  }
}
