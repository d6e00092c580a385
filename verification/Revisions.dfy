/** How revisions and changes are threaded. */
module Revisions {

  // Revisions are numbered by `seqno`.  Four pointers run through them: `prev`/`next` for the
  // undo tree, `earlier`/`later` in order of creation.  The changes of one revision form a
  // list, newest first.  `HistInv` says what all of these pointers are, given the tree `nodes`
  // a user sees and `tips[i]`, the last version that belongs to revision `i`.

  import opened Bytes
  import opened History
  import opened Extents
  import opened UndoTree
  import opened Store

  /** struct Revision, without its time stamp. */
  class Revision {
    var change: TextChange?
    var next: Revision?
    var prev: Revision?
    var earlier: Revision?
    var later: Revision?
    var seqno: nat

    constructor (seqno: nat)
      ensures this.seqno == seqno && change == null
      ensures next == null && prev == null && earlier == null && later == null
    {
      this.seqno := seqno;
      change, next, prev, earlier, later := null, null, null, null, null;
    }
  }

  datatype RevCell = RevCell(change: TextChange?, next: Revision?, prev: Revision?,
                             earlier: Revision?, later: Revision?, seqno: nat)

  /** Everything about revisions and changes, as a value. */
  datatype Hist = Hist(
    changes: seq<TextChange>,  // one per version
    revs: seq<Revision>,       // by seqno
    cells: seq<RevCell>,       // what each revision holds
    tips: seq<nat>)            // last version of each revision

  /** The first version of revision `i`. */
  function Head(tips: seq<nat>, i: nat): nat
    requires i < |tips|
  {
    if i == 0 then 0 else tips[i - 1] + 1
  }

  /** Where the changes of a revision lie: the first of them at `first`, and the last at `last`;
      that one made the text `grown` bytes longer. */
  datatype Spot = Spot(first: nat, last: nat, grown: int)

  function SpotAt(tips: seq<nat>, chg: seq<ChangeCell>, i: nat): Spot {
    if i < |tips| && Head(tips, i) < |chg| && tips[i] < |chg| then
      var c := chg[tips[i]];
      Spot(chg[Head(tips, i)].pos, c.pos, c.newSpan.len - c.oldSpan.len)
    else Spot(0, 0, 0)
  }

  function SpotsOf(tips: seq<nat>, chg: seq<ChangeCell>): seq<Spot> {
    seq(|tips|, i requires 0 <= i < |tips| => SpotAt(tips, chg, i))
  }

  /** One more change, at `pos`: of the open revision, or the first of a new one. */
  ghost predicate SpotAdded(open: bool, cur: nat, spots: seq<Spot>, spots': seq<Spot>, pos: nat, grown: int) {
    if open then cur < |spots| && spots' == spots[cur := Spot(spots[cur].first, pos, grown)]
    else spots' == spots + [Spot(pos, pos, grown)]
  }

  /** Nothing is recorded in a closed revision any more. */
  ghost predicate SpotsKept(d: Doc, spots: seq<Spot>, spots': seq<Spot>) {
    && |spots| == |d.nodes| <= |spots'|
    && forall r: nat :: d.Closed(r) ==> spots'[r] == spots[r]
  }

  lemma SpotsSame(d: Doc, spots: seq<Spot>)
    requires |spots| == |d.nodes|
    ensures SpotsKept(d, spots, spots)
  {
  }

  lemma SpotsEdited(d: Doc, spots: seq<Spot>, spots': seq<Spot>, pos: nat, grown: int)
    requires |spots| == |d.nodes| && d.cur < |d.nodes|
    ensures SpotAdded(d.open, d.cur, spots, spots', pos, grown) ==> SpotsKept(d, spots, spots')
    ensures d.open && SpotGrown(d.cur, spots, spots', grown) ==> SpotsKept(d, spots, spots')
  {
  }

  lemma SpotsKeptOn(d: Doc, d': Doc, a: seq<Spot>, b: seq<Spot>, c: seq<Spot>)
    requires SpotsKept(d, a, b) && SpotsKept(d', b, c) && Keeps(d, d')
    ensures SpotsKept(d, a, c)
  {
  }

  /** The last change of the current revision has grown, in place. */
  ghost predicate SpotGrown(cur: nat, spots: seq<Spot>, spots': seq<Spot>, grown: int) {
    cur < |spots| && spots' == spots[cur := Spot(spots[cur].first, spots[cur].last, spots[cur].grown + grown)]
  }

  /** The end of what the last change added. */
  function Landing(s: Spot): nat {
    if s.grown > 0 then s.last + s.grown else s.last
  }

  function Ref(revs: seq<Revision>, o: Option<nat>): Revision? {
    if o.Some? && o.value < |revs| then revs[o.value] else null
  }

  ghost predicate RevAt(h: Hist, nodes: seq<Node>, i: nat)
    requires |h.revs| == |h.cells| == |h.tips| == |nodes| && i < |nodes|
  {
    && h.tips[i] < |h.changes|
    && h.cells[i] == RevCell(
         h.changes[h.tips[i]],
         Ref(h.revs, nodes[i].next),
         if i > 0 then Ref(h.revs, Some(nodes[i].parent)) else null,
         if i > 0 then h.revs[i - 1] else null,
         if i + 1 < |h.revs| then h.revs[i + 1] else null,
         i)
  }

  /** Version `v` of revision `i`: a chain of single steps from the revision's parent. */
  ghost predicate VersionAt(h: Hist, nodes: seq<Node>, vs: seq<Version>, chg: seq<ChangeCell>, i: nat, v: nat)
    requires |h.tips| == |nodes| && i < |nodes| && Head(h.tips, i) <= v <= h.tips[i]
    requires |vs| == |chg| == |h.changes|
  {
    && v < |vs|
    && vs[v].parent == (if v > Head(h.tips, i) then v - 1
                        else if i > 0 && nodes[i].parent < i then h.tips[nodes[i].parent] else 0)
    && chg[v].next == (if v > Head(h.tips, i) then h.changes[v - 1] else null)
    && chg[v].prev == (if v < h.tips[i] && v + 1 < |h.changes| then h.changes[v + 1] else null)
  }

  ghost predicate TipsOk(tips: seq<nat>, n: nat) {
    && |tips| > 0 && tips[0] == 0 && tips[|tips| - 1] == n - 1
    && forall i, j :: 0 <= i < j < |tips| ==> tips[i] < tips[j]
  }

  ghost predicate Threaded(h: Hist, nodes: seq<Node>, vs: seq<Version>, chg: seq<ChangeCell>) {
    && TreeNodes(nodes)
    && |h.revs| == |h.cells| == |h.tips| == |nodes|
    && |vs| == |chg| == |h.changes|
    && NoDup(h.changes) && NoDup(h.revs)
    && TipsOk(h.tips, |vs|)
    && (forall i :: 0 <= i < |nodes| ==> RevAt(h, nodes, i))
    && (forall i, v :: 0 <= i < |nodes| && Head(h.tips, i) <= v <= h.tips[i] ==>
          VersionAt(h, nodes, vs, chg, i, v))
  }

  ghost predicate HistInv(h: Hist, nodes: seq<Node>, vs: seq<Version>, chg: seq<ChangeCell>) {
    Threaded(h, nodes, vs, chg) == true
  }

  lemma TipIs(h: Hist, nodes: seq<Node>, vs: seq<Version>, chg: seq<ChangeCell>, i: nat)
    requires HistInv(h, nodes, vs, chg) && i < |h.revs|
    ensures |h.revs| == |h.cells| == |h.tips| == |nodes| && |vs| == |chg| == |h.changes|
    ensures TreeNodes(nodes) && NoDup(h.revs) && NoDup(h.changes)
    ensures RevAt(h, nodes, i) && Head(h.tips, i) <= h.tips[i] < |vs|
    ensures i > 0 ==> nodes[i].parent < i
  {
  }

  lemma LastTip(h: Hist, nodes: seq<Node>, vs: seq<Version>, chg: seq<ChangeCell>)
    requires HistInv(h, nodes, vs, chg)
    ensures |h.tips| == |nodes| > 0 && h.tips[|nodes| - 1] == |vs| - 1
    ensures forall i, j :: 0 <= i < j < |h.tips| ==> h.tips[i] < h.tips[j]
  {
  }

  lemma VersionIs(h: Hist, nodes: seq<Node>, vs: seq<Version>, chg: seq<ChangeCell>, i: nat, v: nat)
    requires HistInv(h, nodes, vs, chg) && i < |h.revs| && i < |h.tips|
    requires Head(h.tips, i) <= v <= h.tips[i]
    ensures |h.revs| == |h.cells| == |h.tips| == |nodes| && |vs| == |chg| == |h.changes|
    ensures VersionAt(h, nodes, vs, chg, i, v)
    ensures v > 0 && i > 0 ==> vs[v].parent < v
  {
    assert i > 0 ==> h.tips[nodes[i].parent] <= h.tips[i - 1];
  }

  /** Every revision's recorded state is the one its last version has. */
  ghost predicate StateAt(tips: seq<nat>, nodes: seq<Node>, s: Store, i: nat)
    requires |tips| == |nodes| && i < |nodes|
  {
    tips[i] < |s.vs| && nodes[i].state == StateOf(s.vs[tips[i]].chain, s.ext, s.mem)
  }

  ghost predicate StatesInv(tips: seq<nat>, nodes: seq<Node>, s: Store) {
    |tips| == |nodes| && forall i :: 0 <= i < |nodes| ==> StateAt(tips, nodes, s, i)
  }

  // ----- a new change in the open revision -----

  lemma GrowHist(h: Hist, h': Hist, nodes: seq<Node>, vs: seq<Version>, vs': seq<Version>,
                 chg: seq<ChangeCell>, chg': seq<ChangeCell>, c: TextChange)
    requires HistInv(h, nodes, vs, chg) && c !in h.changes && |nodes| > 1
    requires vs' == vs + [NoopVersion(vs, |vs| - 1)]
    requires |chg'| == |vs'| && chg'[|vs|].next == h.changes[|vs| - 1] && chg'[|vs|].prev == null
    requires forall v :: 0 <= v < |vs| ==> chg'[v].next == chg[v].next
    requires forall v :: 0 <= v < |vs| - 1 ==> chg'[v].prev == chg[v].prev
    requires chg'[|vs| - 1].prev == c
    requires var n := |nodes| - 1;
             h' == Hist(h.changes + [c], h.revs, h.cells[n := h.cells[n].(change := c)], h.tips[n := |vs|])
    ensures HistInv(h', nodes, vs', chg')
  {
    var n := |nodes| - 1;
    forall i | 0 <= i < |nodes| ensures RevAt(h', nodes, i) { assert RevAt(h, nodes, i); }
    forall i, v | 0 <= i < |nodes| && Head(h'.tips, i) <= v <= h'.tips[i]
      ensures VersionAt(h', nodes, vs', chg', i, v)
    {
      assert Head(h'.tips, i) == Head(h.tips, i);
      if v < |vs| { assert VersionAt(h, nodes, vs, chg, i, v); }
    }
  }

  // ----- a new revision -----

  /** The undo tree with a new, open leaf. */
  function Sprouted(nodes: seq<Node>, cur: nat, st: State): seq<Node>
    requires cur < |nodes|
  {
    nodes[cur := nodes[cur].(next := Some(|nodes|))] + [Node(cur, None, st)]
  }

  /** The threading with revision `r`, holding change `c`, added below revision `cur`. */
  function SproutedHist(h: Hist, cur: nat, r: Revision, c: TextChange, n: nat): Hist
    requires cur < |h.revs| == |h.cells|
  {
    var k := |h.revs|;
    var cells := h.cells[k - 1 := h.cells[k - 1].(later := r)];
    Hist(h.changes + [c], h.revs + [r],
         cells[cur := cells[cur].(next := r)] + [RevCell(c, null, h.revs[cur], h.revs[k - 1], null, k)],
         h.tips + [n])
  }

  lemma SproutRev(h: Hist, nodes: seq<Node>, cur: nat, st: State, r: Revision, c: TextChange, i: nat)
    requires |h.revs| == |h.cells| == |h.tips| == |nodes| && cur < |nodes| && i <= |nodes|
    requires i < |nodes| ==> RevAt(h, nodes, i) && (i > 0 ==> nodes[i].parent < i)
    requires i < |nodes| && nodes[i].next.Some? ==> nodes[i].next.value < |nodes|
    ensures RevAt(SproutedHist(h, cur, r, c, |h.changes|), Sprouted(nodes, cur, st), i)
  {
  }

  lemma SproutVersion(h: Hist, nodes: seq<Node>, vs: seq<Version>, chg: seq<ChangeCell>, vs': seq<Version>,
                      chg': seq<ChangeCell>, cur: nat, st: State, r: Revision, c: TextChange, i: nat, v: nat)
    requires |h.revs| == |h.cells| == |h.tips| == |nodes| && |vs| == |chg| == |h.changes| && cur < |nodes|
    requires i <= |nodes| && TipsOk(h.tips, |vs|)
    requires vs' == vs + [NoopVersion(vs, h.tips[cur])]
    requires |chg'| == |vs'| && chg'[..|vs|] == chg && chg'[|vs|].next == null && chg'[|vs|].prev == null
    requires Head(h.tips + [|vs|], i) <= v <= (h.tips + [|vs|])[i]
    requires i < |nodes| ==> Head(h.tips, i) <= v <= h.tips[i] && VersionAt(h, nodes, vs, chg, i, v)
    ensures VersionAt(SproutedHist(h, cur, r, c, |vs|), Sprouted(nodes, cur, st), vs', chg', i, v)
  {
    if i < |nodes| {
      assert chg'[v] == chg[v];
      TipOrder(h.tips, |vs|, i);
    }
  }

  lemma SproutHist(h: Hist, h': Hist, nodes: seq<Node>, nodes': seq<Node>, vs: seq<Version>,
                   vs': seq<Version>, chg: seq<ChangeCell>, chg': seq<ChangeCell>,
                   cur: nat, st: State, r: Revision, c: TextChange)
    requires HistInv(h, nodes, vs, chg) && c !in h.changes && r !in h.revs
    requires cur < |nodes| == |h.tips| == |h.revs| == |h.cells| && h.tips[cur] < |vs|
    requires nodes' == Sprouted(nodes, cur, st)
    requires vs' == vs + [NoopVersion(vs, h.tips[cur])]
    requires |chg'| == |vs'| && chg'[..|vs|] == chg && chg'[|vs|].next == null && chg'[|vs|].prev == null
    requires h' == SproutedHist(h, cur, r, c, |vs|)
    ensures HistInv(h', nodes', vs', chg')
  {
    TipIs(h, nodes, vs, chg, cur);
    SproutTree(nodes, cur, st);
    LastTip(h, nodes, vs, chg);
    forall i | 0 <= i < |nodes'| ensures RevAt(h', nodes', i) {
      hide HistInv, NoDup, RevAt, SproutedHist;
      if i < |nodes| { TipIs(h, nodes, vs, chg, i); }
      SproutRev(h, nodes, cur, st, r, c, i);
    }
    forall i, v | 0 <= i < |nodes'| && Head(h'.tips, i) <= v <= h'.tips[i]
      ensures VersionAt(h', nodes', vs', chg', i, v)
    {
      hide HistInv, TreeNodes, NoDup, RevAt, VersionAt;
      if i < |nodes| { VersionIs(h, nodes, vs, chg, i, v); }
      SproutVersion(h, nodes, vs, chg, vs', chg', cur, st, r, c, i, v);
    }
    SproutedThreads(h, nodes, cur, st, r, c, |vs|);
    assert TipsOk(h'.tips, |vs'|);
  }

  lemma SproutTree(nodes: seq<Node>, cur: nat, st: State)
    requires TreeNodes(nodes) && cur < |nodes|
    ensures TreeNodes(Sprouted(nodes, cur, st))
  {
  }

  lemma SproutedThreads(h: Hist, nodes: seq<Node>, cur: nat, st: State, r: Revision, c: TextChange, n: nat)
    requires |h.revs| == |h.cells| == |h.tips| == |nodes| && cur < |nodes|
    requires NoDup(h.changes) && NoDup(h.revs) && c !in h.changes && r !in h.revs
    ensures var h', nodes' := SproutedHist(h, cur, r, c, n), Sprouted(nodes, cur, st);
            && |h'.revs| == |h'.cells| == |h'.tips| == |nodes'|
            && |h'.changes| == |h.changes| + 1 && NoDup(h'.changes) && NoDup(h'.revs)
  {
  }

  // ----- switching branches -----

  lemma RetargetHist(h: Hist, nodes: seq<Node>, vs: seq<Version>, chg: seq<ChangeCell>, p: nat, r: nat)
    requires HistInv(h, nodes, vs, chg) && p < r < |nodes| && nodes[r].parent == p
    ensures |h.cells| == |nodes| == |h.revs|
    ensures HistInv(h.(cells := h.cells[p := h.cells[p].(next := h.revs[r])]),
                    Redirected(nodes, r), vs, chg)
  {
    var h' := h.(cells := h.cells[p := h.cells[p].(next := h.revs[r])]);
    var nodes' := Redirected(nodes, r);
    forall i | 0 <= i < |nodes'| ensures RevAt(h', nodes', i) { assert RevAt(h, nodes, i); }
    forall i, v | 0 <= i < |nodes'| && Head(h'.tips, i) <= v <= h'.tips[i]
      ensures VersionAt(h', nodes', vs, chg, i, v)
    {
      assert VersionAt(h, nodes, vs, chg, i, v);
    }
  }

  // ----- edits -----

  /** Spans and pieces play no role for the threading. */
  lemma HistFrame(h: Hist, nodes: seq<Node>, nodes': seq<Node>, vs: seq<Version>, vs': seq<Version>,
                  chg: seq<ChangeCell>, chg': seq<ChangeCell>)
    requires HistInv(h, nodes, vs, chg) && |nodes'| == |nodes| && |vs'| == |vs| && |chg'| == |chg|
    requires forall i :: 0 <= i < |nodes| ==> nodes'[i].parent == nodes[i].parent && nodes'[i].next == nodes[i].next
    requires forall v :: 0 <= v < |vs| ==> vs'[v].parent == vs[v].parent
    requires forall v :: 0 <= v < |chg| ==> chg'[v].next == chg[v].next && chg'[v].prev == chg[v].prev
    ensures HistInv(h, nodes', vs', chg')
  {
    forall i | 0 <= i < |nodes'| ensures RevAt(h, nodes', i) { assert RevAt(h, nodes, i); }
    forall i, v | 0 <= i < |nodes'| && Head(h.tips, i) <= v <= h.tips[i]
      ensures VersionAt(h, nodes', vs', chg', i, v)
    {
      assert VersionAt(h, nodes, vs, chg, i, v);
    }
  }

  /** Versions below a tip belong to some revision; the last one belongs to the last revision. */
  lemma TipOrder(tips: seq<nat>, n: nat, i: nat)
    requires TipsOk(tips, n) && i < |tips|
    ensures Head(tips, i) <= tips[i] < n
    ensures i < |tips| - 1 ==> tips[i] < n - 1
  {
  }

  /** Moving along the tree changes no revision's contents. */
  lemma StatesFrame(tips: seq<nat>, nodes: seq<Node>, s: Store, nodes': seq<Node>, s': Store)
    requires StatesInv(tips, nodes, s) && s'.vs == s.vs && s'.ext == s.ext && s'.mem == s.mem
    requires |nodes'| == |nodes| && forall i :: 0 <= i < |nodes| ==> nodes'[i].state == nodes[i].state
    ensures StatesInv(tips, nodes', s')
  {
    forall i | 0 <= i < |nodes'| ensures StateAt(tips, nodes', s', i) { assert StateAt(tips, nodes, s, i); }
  }

  /** Adding a no-op version shows every revision as before. */
  lemma StatesAppend(tips: seq<nat>, nodes: seq<Node>, s: Store, tips': seq<nat>, nodes': seq<Node>, s': Store)
    requires StatesInv(tips, nodes, s) && s.at < |s.vs|
    requires s'.vs == s.vs + [NoopVersion(s.vs, s.at)] && s'.ext == s.ext && s'.mem == s.mem
    requires |tips'| == |nodes'|
    requires forall i :: 0 <= i < |nodes'| ==>
               || (i < |tips| && tips'[i] == tips[i] && nodes'[i].state == nodes[i].state)
               || (tips'[i] == |s.vs| && nodes'[i].state == StateOf(s.vs[s.at].chain, s.ext, s.mem))
    ensures StatesInv(tips', nodes', s')
  {
    forall i | 0 <= i < |nodes'| ensures StateAt(tips', nodes', s', i) {
      if i < |tips| { assert StateAt(tips, nodes, s, i); }
    }
  }

  // ----- loading -----

  /** The store of a freshly loaded text: one piece, one no-op change. */
  function LoadedStore(b: Piece, p: Piece, e: Piece, data: Ptr, mem: Memory, n: nat): Store {
    Store([Version(0, 1, 1, [], [b, p, e])], 0,
          LoadedLinks(b, p, e), LoadedExtents(b, p, e, data, n),
          mem, [ChangeCell(EMPTY_SPAN, EMPTY_SPAN, EPOS, null, null)], n, b, e)
  }

  function LoadedLinks(b: Piece, p: Piece, e: Piece): LinkMap {
    map[b := Link(null, p), p := Link(b, e), e := Link(p, null)]
  }

  function LoadedExtents(b: Piece, p: Piece, e: Piece, data: Ptr, n: nat): ExtentMap {
    map[b := Extent(Null, 0), p := Extent(data, n), e := Extent(Null, 0)]
  }

  function LoadedHist(c: TextChange, r: Revision): Hist {
    Hist([c], [r], [RevCell(c, null, null, null, null, 0)], [0])
  }

  lemma LoadedAddrs(b: Piece, p: Piece, e: Piece, ext: ExtentMap)
    requires b in ext && ext[b] == Extent(Null, 0) && e in ext && ext[e] == Extent(Null, 0)
    ensures Addrs([b, p, e], ext) == Cells(ExtentOf(ext, p))
  {
    AddrsConcat([b], [p] + [e], ext);
    AddrsConcat([p], [e], ext);
    AddrsOne(b, ext);
    AddrsOne(p, ext);
    AddrsOne(e, ext);
    assert [b] + ([p] + [e]) == [b, p, e];
  }

  /** It is consistent, and shows the content of the file. */
  lemma LoadedSound(b: Piece, p: Piece, e: Piece, data: Ptr, mem: Memory, content: seq<byte>, c: TextChange,
                    r: Revision)
    requires b != p && p != e && b != e
    requires if content == [] then data == Static && mem == [] else data == At(0, 0) && mem == [content]
    ensures var s := LoadedStore(b, p, e, data, mem, |content|);
            var nodes := [Node(0, None, StateOf([b, p, e], s.ext, mem))];
            && StoreInv(s) && HistInv(LoadedHist(c, r), nodes, s.vs, s.chg) && StatesInv([0], nodes, s)
            && StateOf([b, p, e], s.ext, mem).text == content
  {
    var s := LoadedStore(b, p, e, data, mem, |content|);
    hide StoreInv, HistInv, Addrs, Fetch;
    LoadedAddrs(b, p, e, s.ext);
    LoadedConsistent(b, p, e, data, mem, content);
    LoadedText(data, mem, content);
    LoadedThreaded(b, p, e, data, mem, |content|, c, r, StateOf([b, p, e], s.ext, mem));
  }

  lemma LoadedConsistent(b: Piece, p: Piece, e: Piece, data: Ptr, mem: Memory, content: seq<byte>)
    requires b != p && p != e && b != e
    requires if content == [] then data == Static && mem == [] else data == At(0, 0) && mem == [content]
    ensures StoreInv(LoadedStore(b, p, e, data, mem, |content|))
  {
    hide Addrs;
    var s := LoadedStore(b, p, e, data, mem, |content|);
    LoadedAddrs(b, p, e, s.ext);
    assert GoodVersion(s.vs, 0);
    assert LinkedAt(s.links, [b, p, e], 0) && LinkedAt(s.links, [b, p, e], 1) && LinkedAt(s.links, [b, p, e], 2);
    assert ChainAt(s, 0);
  }

  lemma LoadedText(data: Ptr, mem: Memory, content: seq<byte>)
    requires if content == [] then data == Static && mem == [] else data == At(0, 0) && mem == [content]
    ensures Fetch(Cells(Extent(data, |content|)), mem) == content
  {
    if content != [] { BytesOfCells(Extent(data, |content|), mem); }
  }

  lemma LoadedThreaded(b: Piece, p: Piece, e: Piece, data: Ptr, mem: Memory, n: nat, c: TextChange, r: Revision,
                       st: State)
    ensures var s := LoadedStore(b, p, e, data, mem, n);
            HistInv(LoadedHist(c, r), [Node(0, None, st)], s.vs, s.chg)
  {
    assert RevAt(LoadedHist(c, r), [Node(0, None, st)], 0);
  }
}