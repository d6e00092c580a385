/** The piece store as a value. */
module Store {

  // The whole pointer structure of a text, and the operations on it that keep it consistent.
  // Class `Text` keeps its heap equal to such a value.

  import opened Bytes
  import opened History
  import opened Extents
  import opened UndoTree

  /** struct Span. */
  datatype Span = Span(start: Piece?, end: Piece?, len: nat)

  const EMPTY_SPAN := Span(null, null, 0)

  /** struct TextChange. */
  class TextChange {
    var oldSpan: Span
    var newSpan: Span
    var pos: nat
    var next: TextChange?
    var prev: TextChange?

    constructor (pos: nat, next: TextChange?)
      ensures oldSpan == EMPTY_SPAN && newSpan == EMPTY_SPAN
      ensures this.pos == pos && this.next == next && prev == null
    {
      oldSpan, newSpan := EMPTY_SPAN, EMPTY_SPAN;
      this.pos, this.next, prev := pos, next, null;
    }
  }

  datatype ChangeCell = ChangeCell(oldSpan: Span, newSpan: Span, pos: nat,
                                   next: TextChange?, prev: TextChange?)

  datatype Store = Store(
    vs: seq<Version>,         // every chain the document ever had
    at: nat,                  // the one it has now
    links: LinkMap,           // prev/next of every piece
    ext: ExtentMap,           // data/len of every piece
    mem: Memory,              // used bytes of every block
    chg: seq<ChangeCell>,     // the change that led to each version
    size: nat,
    begin: Piece,
    end: Piece)

  /** A span names exactly the stretch `ps` of a chain, and has length 0 only when empty. */
  ghost predicate SpanIs(s: Span, ps: seq<Piece>, ext: ExtentMap) {
    if ps == [] then s == EMPTY_SPAN
    else s == Span(ps[0], ps[|ps| - 1], |Addrs(ps, ext)|) && s.len > 0
  }

  /** The stretch of its parent's chain that version `v` replaced. */
  ghost function Replaced(vs: seq<Version>, v: nat): seq<Piece>
    requires Tree(vs) && 0 < v < |vs|
  {
    assert GoodVersion(vs, v);
    vs[vs[v].parent].chain[vs[v].lo..vs[v].hi]
  }

  /** A chain runs from `begin` to `end` over pieces with known extents, and names no address
      twice.  Only its ends have no data pointer. */
  ghost predicate GoodChain(ch: seq<Piece>, ext: ExtentMap, begin: Piece, end: Piece) {
    && |ch| >= 2 && ch[0] == begin && ch[|ch| - 1] == end
    && (forall p :: p in ch ==> p in ext && (p != begin && p != end ==> ext[p].data != Null))
    && NoDup(Addrs(ch, ext))
  }

  ghost predicate ChainAt(s: Store, v: nat)
    requires v < |s.vs|
  {
    GoodChain(s.vs[v].chain, s.ext, s.begin, s.end)
  }

  ghost predicate SpansAt(s: Store, v: nat)
    requires Tree(s.vs) && |s.chg| == |s.vs| && 0 < v < |s.vs|
  {
    && SpanIs(s.chg[v].newSpan, s.vs[v].mid, s.ext)
    && SpanIs(s.chg[v].oldSpan, Replaced(s.vs, v), s.ext)
  }

  ghost predicate ExtentInv(s: Store) {
    && (forall p :: p in s.ext ==> InBounds(s.ext[p], s.mem))
    && (forall v :: 0 <= v < |s.vs| ==> ChainAt(s, v))
    && s.begin in s.ext && s.ext[s.begin] == Extent(Null, 0)
    && s.end in s.ext && s.ext[s.end] == Extent(Null, 0)
    && s.begin != s.end
  }

  ghost predicate Consistent(s: Store) {
    && Tree(s.vs)
    && s.links.Keys == s.ext.Keys
    && LinkInv(s.vs, s.at, s.links)
    && ExtentInv(s)
    && |s.chg| == |s.vs|
    && (forall v :: 0 < v < |s.vs| ==> SpansAt(s, v))
    && s.size == |Addrs(s.vs[s.at].chain, s.ext)|
  }

  /** The invariant of the piece store.  Written as an equation so that the verifier passes it
      on as one fact instead of re-proving each conjunct wherever it is needed. */
  ghost predicate StoreInv(s: Store) {
    Consistent(s) == true
  }

  ghost function StateOf(ch: seq<Piece>, ext: ExtentMap, mem: Memory): State {
    State(Fetch(Addrs(ch, ext), mem), Addrs(ch, ext), ch)
  }

  // ----- swapping one change -----

  /** The outer pointers of both spans lead to `a` and `b`. */
  ghost predicate BetweenIn(ls: LinkMap, o: Span, n: Span, a: Piece, b: Piece) {
    && a in ls && b in ls && a != b
    && (n.len > 0 ==> n.start in ls && n.end in ls && n.end != a && ls[n.start].prev == a && ls[n.end].next == b)
    && (o.len > 0 ==> o.start in ls && o.end in ls && o.end != a && ls[o.start].prev == a && ls[o.end].next == b)
    && (o.len == 0 && n.len == 0 ==> ls[a].next == b && ls[b].prev == a)
  }

  /** What `span_swap` does: `a` and `b` are made to point at the new span, or at each other. */
  ghost function Joined(ls: LinkMap, n: Span, a: Piece, b: Piece): LinkMap
    requires a in ls && b in ls && a != b
  {
    ls[a := ls[a].(next := if n.len > 0 then n.start else b)]
      [b := ls[b].(prev := if n.len > 0 then n.end else a)]
  }

  lemma SizeOfSplice(vs: seq<Version>, v: nat, ext: ExtentMap)
    requires Tree(vs) && 0 < v < |vs|
    ensures GoodVersion(vs, v)
    ensures |Addrs(vs[v].chain, ext)| ==
            |Addrs(vs[vs[v].parent].chain, ext)| - |Addrs(Replaced(vs, v), ext)| + |Addrs(vs[v].mid, ext)|
    ensures |Addrs(Replaced(vs, v), ext)| <= |Addrs(vs[vs[v].parent].chain, ext)|
    ensures |Addrs(vs[v].mid, ext)| <= |Addrs(vs[v].chain, ext)|
  {
    assert GoodVersion(vs, v);
    var base, ch, lo, hi, m := vs[vs[v].parent].chain, vs[v].chain, vs[v].lo, vs[v].hi, |vs[v].mid|;
    AddrsSplit(base, lo, hi, ext);
    AddrsSplit(ch, lo, lo + m, ext);
    assert ch[..lo] == base[..lo] && ch[lo..lo + m] == vs[v].mid && ch[lo + m..] == base[hi..];
  }

  lemma UndoJoins(vs: seq<Version>, v: nat, ls: LinkMap, ext: ExtentMap, o: Span, n: Span)
    requires Tree(vs) && 0 < v < |vs| && LinkInv(vs, v, ls)
    requires SpanIs(n, vs[v].mid, ext) && SpanIs(o, Replaced(vs, v), ext)
    ensures vs[v].parent < v && 1 <= vs[v].lo <= vs[v].hi < |vs[vs[v].parent].chain|
    ensures var base, lo, hi := vs[vs[v].parent].chain, vs[v].lo, vs[v].hi;
            && BetweenIn(ls, n, o, base[lo - 1], base[hi])
            && Joined(ls, o, base[lo - 1], base[hi]) == Relink(ls, base, lo - 1, hi)
  {
    hide Addrs;
    assert GoodVersion(vs, v);
    assert GoodVersion(vs, vs[v].parent);
    var base, ch, lo, hi, m := vs[vs[v].parent].chain, vs[v].chain, vs[v].lo, vs[v].hi, |vs[v].mid|;
    assert Anc(vs, v, v) && OldLinks(vs, v, ls);
    assert LinkedAt(ls, ch, lo - 1) && LinkedAt(ls, ch, lo + m);
    if m > 0 {
      assert LinkedAt(ls, ch, lo) && LinkedAt(ls, ch, lo + m - 1);
      assert vs[v].mid[0] == ch[lo] && vs[v].mid[m - 1] == ch[lo + m - 1];
    }
    if lo < hi { assert LinkedAt(ls, base, lo) && LinkedAt(ls, base, hi - 1); }
  }

  lemma RedoJoins(vs: seq<Version>, v: nat, ls: LinkMap, ext: ExtentMap, o: Span, n: Span)
    requires Tree(vs) && 0 < v < |vs| && LinkInv(vs, vs[v].parent, ls)
    requires SpanIs(n, vs[v].mid, ext) && SpanIs(o, Replaced(vs, v), ext)
    ensures vs[v].parent < v && 1 <= vs[v].lo <= vs[v].hi < |vs[vs[v].parent].chain|
    ensures var base, ch, lo, hi := vs[vs[v].parent].chain, vs[v].chain, vs[v].lo, vs[v].hi;
            && BetweenIn(ls, o, n, base[lo - 1], base[hi])
            && lo + |vs[v].mid| < |ch| && ch[lo - 1] in ls && ch[lo + |vs[v].mid|] in ls
            && Joined(ls, n, base[lo - 1], base[hi]) == Relink(ls, ch, lo - 1, lo + |vs[v].mid|)
  {
    hide Addrs;
    assert GoodVersion(vs, v);
    assert GoodVersion(vs, vs[v].parent);
    var base, ch, lo, hi, m := vs[vs[v].parent].chain, vs[v].chain, vs[v].lo, vs[v].hi, |vs[v].mid|;
    if Anc(vs, v, vs[v].parent) { AncLeq(vs, v, vs[v].parent); }
    assert NewLinks(vs, v, ls);
    assert LinkedAt(ls, base, lo - 1) && LinkedAt(ls, base, hi);
    assert ch[lo - 1] == base[lo - 1] && ch[lo + m] == base[hi];
    if m > 0 {
      assert LinkedAt(ls, ch, lo) && LinkedAt(ls, ch, lo + m - 1);
      assert vs[v].mid[0] == ch[lo] && vs[v].mid[m - 1] == ch[lo + m - 1];
    }
    if lo < hi { assert LinkedAt(ls, base, lo) && LinkedAt(ls, base, hi - 1); }
  }

  /** Undo: the links after `span_swap` are those of the parent's chain. */
  lemma SwapOutLinks(vs: seq<Version>, v: nat, ls: LinkMap, ext: ExtentMap, o: Span, n: Span)
    returns (a: Piece, b: Piece)
    requires Tree(vs) && 0 < v < |vs| && LinkInv(vs, v, ls)
    requires SpanIs(n, vs[v].mid, ext) && SpanIs(o, Replaced(vs, v), ext)
    ensures BetweenIn(ls, n, o, a, b) && vs[v].parent < v && LinkInv(vs, vs[v].parent, Joined(ls, o, a, b))
    ensures n.len <= |Addrs(vs[v].chain, ext)|
    ensures |Addrs(vs[v].chain, ext)| - n.len + o.len == |Addrs(vs[vs[v].parent].chain, ext)|
  {
    UndoStep(vs, v, ls);
    UndoJoins(vs, v, ls, ext, o, n);
    SizeOfSplice(vs, v, ext);
    a, b := vs[vs[v].parent].chain[vs[v].lo - 1], vs[vs[v].parent].chain[vs[v].hi];
  }

  /** Redo: the links after `span_swap` are those of the version's own chain. */
  lemma SwapInLinks(vs: seq<Version>, v: nat, ls: LinkMap, ext: ExtentMap, o: Span, n: Span)
    returns (a: Piece, b: Piece)
    requires Tree(vs) && 0 < v < |vs| && LinkInv(vs, vs[v].parent, ls)
    requires SpanIs(n, vs[v].mid, ext) && SpanIs(o, Replaced(vs, v), ext)
    ensures BetweenIn(ls, o, n, a, b) && vs[v].parent < v && LinkInv(vs, v, Joined(ls, n, a, b))
    ensures o.len <= |Addrs(vs[vs[v].parent].chain, ext)|
    ensures |Addrs(vs[vs[v].parent].chain, ext)| - o.len + n.len == |Addrs(vs[v].chain, ext)|
  {
    RedoStep(vs, v, ls);
    RedoJoins(vs, v, ls, ext, o, n);
    SizeOfSplice(vs, v, ext);
    a, b := vs[vs[v].parent].chain[vs[v].lo - 1], vs[vs[v].parent].chain[vs[v].hi];
  }

  /** Swapping out the change at the current version keeps the store consistent. */
  lemma SwapOutStore(s: Store) returns (a: Piece, b: Piece, s': Store)
    requires StoreInv(s) && 0 < s.at
    ensures BetweenIn(s.links, s.chg[s.at].newSpan, s.chg[s.at].oldSpan, a, b)
    ensures s.chg[s.at].newSpan.len <= s.size
    ensures s' == s.(at := s.vs[s.at].parent, links := Joined(s.links, s.chg[s.at].oldSpan, a, b),
                     size := s.size - s.chg[s.at].newSpan.len + s.chg[s.at].oldSpan.len)
    ensures StoreInv(s')
  {
    var o, n := s.chg[s.at].oldSpan, s.chg[s.at].newSpan;
    assert SpansAt(s, s.at);
    a, b := SwapOutLinks(s.vs, s.at, s.links, s.ext, o, n);
    s' := s.(at := s.vs[s.at].parent, links := Joined(s.links, o, a, b), size := s.size - n.len + o.len);
    SwapFrame(s, s');
  }

  /** So does swapping in a child of the current version. */
  lemma SwapInStore(s: Store, v: nat) returns (a: Piece, b: Piece, s': Store)
    requires StoreInv(s) && 0 < v < |s.vs| && s.vs[v].parent == s.at
    ensures BetweenIn(s.links, s.chg[v].oldSpan, s.chg[v].newSpan, a, b)
    ensures s.chg[v].oldSpan.len <= s.size
    ensures s' == s.(at := v, links := Joined(s.links, s.chg[v].newSpan, a, b),
                     size := s.size - s.chg[v].oldSpan.len + s.chg[v].newSpan.len)
    ensures StoreInv(s')
  {
    var o, n := s.chg[v].oldSpan, s.chg[v].newSpan;
    assert SpansAt(s, v);
    a, b := SwapInLinks(s.vs, v, s.links, s.ext, o, n);
    s' := s.(at := v, links := Joined(s.links, n, a, b), size := s.size - o.len + n.len);
    SwapFrame(s, s');
  }

  /** Chains and spans do not depend on where we are or on the links. */
  lemma SwapFrame(s: Store, s': Store)
    requires StoreInv(s) && s'.vs == s.vs && s'.ext == s.ext && s'.mem == s.mem && s'.chg == s.chg
    requires s'.begin == s.begin && s'.end == s.end
    requires s'.links.Keys == s.links.Keys && LinkInv(s'.vs, s'.at, s'.links)
    requires s'.size == |Addrs(s'.vs[s'.at].chain, s'.ext)|
    ensures StoreInv(s')
  {
    forall v | 0 <= v < |s.vs| ensures ChainAt(s', v) { assert ChainAt(s, v); }
    forall v | 0 < v < |s.vs| ensures SpansAt(s', v) { assert SpansAt(s, v); }
  }

  // ----- a new change -----

  function NoopVersion(vs: seq<Version>, at: nat): Version
    requires at < |vs|
  {
    Version(at, 1, 1, [], vs[at].chain)
  }

  lemma JoinedNothing(ls: LinkMap, a: Piece, b: Piece)
    requires BetweenIn(ls, EMPTY_SPAN, EMPTY_SPAN, a, b)
    ensures Joined(ls, EMPTY_SPAN, a, b) == ls
  {
  }

  lemma NoopLinks(vs: seq<Version>, at: nat, ls: LinkMap, ext: ExtentMap)
    requires Tree(vs) && LinkInv(vs, at, ls)
    ensures Tree(vs + [NoopVersion(vs, at)])
    ensures LinkInv(vs + [NoopVersion(vs, at)], |vs|, ls)
  {
    var ver := NoopVersion(vs, at);
    assert GoodVersion(vs, at);
    LinkedLength(vs, at);
    AppendLinks(vs, ver, ls, ls);
    var vs' := vs + [ver];
    assert Replaced(vs', |vs|) == [];
    var a, b := SwapInLinks(vs', |vs|, ls, ext, EMPTY_SPAN, EMPTY_SPAN);
    JoinedNothing(ls, a, b);
  }

  /** Every chain keeps both ends. */
  lemma {:induction false} LinkedLength(vs: seq<Version>, v: nat)
    requires Tree(vs) && v < |vs|
    ensures |vs[v].chain| >= 2
    decreases v
  {
    if v > 0 {
      assert GoodVersion(vs, v);
      LinkedLength(vs, vs[v].parent);
    }
  }

  /** The spans of all changes but the last are the same. */
  ghost predicate SameSpans(chg: seq<ChangeCell>, chg': seq<ChangeCell>, n: nat) {
    && n <= |chg| && n <= |chg'|
    && forall v {:trigger chg[v]} {:trigger chg'[v]} :: 0 <= v < n ==>
         chg'[v].oldSpan == chg[v].oldSpan && chg'[v].newSpan == chg[v].newSpan
  }

  /** The two spans of a change differ by as much as the texts before and after it. */
  lemma SpanGrowth(s: Store, v: nat)
    requires StoreInv(s) && 0 < v < |s.vs|
    ensures |s.chg| == |s.vs| && s.vs[v].parent < v
    ensures s.chg[v].newSpan.len - s.chg[v].oldSpan.len
            == |Addrs(s.vs[v].chain, s.ext)| - |Addrs(s.vs[s.vs[v].parent].chain, s.ext)|
  {
    hide Addrs, LinkInv, ChainAt, NoDup;
    assert GoodVersion(s.vs, v) && SpansAt(s, v);
    SpanLength(s.chg[v].newSpan, s.vs[v].mid, s.ext);
    SpanLength(s.chg[v].oldSpan, Replaced(s.vs, v), s.ext);
    SplicedLength(s.vs[v], s.vs[s.vs[v].parent].chain, s.ext);
  }

  lemma SpanLength(sp: Span, ps: seq<Piece>, ext: ExtentMap)
    requires SpanIs(sp, ps, ext)
    ensures sp.len == |Addrs(ps, ext)|
  {
  }

  lemma SplicedLength(ver: Version, base: seq<Piece>, ext: ExtentMap)
    requires Spliced(ver, base)
    ensures ver.lo <= ver.hi <= |base|
    ensures |Addrs(ver.chain, ext)| - |Addrs(base, ext)| == |Addrs(ver.mid, ext)| - |Addrs(base[ver.lo..ver.hi], ext)|
  {
    hide Addrs;
    var l, m, r := base[..ver.lo], base[ver.lo..ver.hi], base[ver.hi..];
    assert base == l + m + r && ver.chain == l + ver.mid + r;
    AddrsConcat(l + m, r, ext);
    AddrsConcat(l, m, ext);
    AddrsConcat(l + ver.mid, r, ext);
    AddrsConcat(l, ver.mid, ext);
  }

  /** The first `n` changes are at the same places. */
  ghost predicate SamePlaces(chg: seq<ChangeCell>, chg': seq<ChangeCell>, n: nat) {
    && n <= |chg| && n <= |chg'|
    && forall v {:trigger chg[v]} {:trigger chg'[v]} :: 0 <= v < n ==> chg'[v].pos == chg[v].pos
  }

  /** A freshly allocated change, with both spans empty, changes nothing. */
  lemma AppendNoop(s: Store, s': Store)
    requires StoreInv(s)
    requires s' == s.(vs := s.vs + [NoopVersion(s.vs, s.at)], at := |s.vs|, chg := s'.chg)
    requires |s'.chg| == |s.chg| + 1 && SameSpans(s.chg, s'.chg, |s.chg|)
    requires s'.chg[|s.chg|].oldSpan == EMPTY_SPAN && s'.chg[|s.chg|].newSpan == EMPTY_SPAN
    ensures StoreInv(s')
  {
    hide Addrs, NoDup, Linked, SpanIs, GoodVersion;
    NoopLinks(s.vs, s.at, s.links, s.ext);
    forall v | 0 <= v < |s'.vs| ensures ChainAt(s', v) {
      assert v < |s.vs| ==> ChainAt(s, v);
      assert ChainAt(s, s.at);
    }
    forall v | 0 < v < |s'.vs| ensures SpansAt(s', v) {
      NoopSpans(s, s', v);
    }
  }

  lemma NoopSpans(s: Store, s': Store, v: nat)
    requires Tree(s.vs) && |s.chg| == |s.vs| && s.at < |s.vs| && Tree(s'.vs)
    requires s' == s.(vs := s.vs + [NoopVersion(s.vs, s.at)], at := |s.vs|, chg := s'.chg)
    requires |s'.chg| == |s.chg| + 1 && SameSpans(s.chg, s'.chg, |s.chg|)
    requires s'.chg[|s.chg|].oldSpan == EMPTY_SPAN && s'.chg[|s.chg|].newSpan == EMPTY_SPAN
    requires 0 < v < |s'.vs| && (v < |s.vs| ==> SpansAt(s, v))
    ensures SpansAt(s', v)
  {
    hide Addrs, NoDup;
    assert GoodVersion(s'.vs, v);
    if v < |s.vs| {
      assert GoodVersion(s.vs, v);
      assert Replaced(s'.vs, v) == Replaced(s.vs, v);
    } else {
      assert Replaced(s'.vs, v) == [];
    }
  }

  /** Taking a no-op version off again. */
  lemma DropNoop(vs: seq<Version>, ls: LinkMap, ext: ExtentMap)
    requires Tree(vs) && |vs| > 1 && vs[|vs| - 1].parent < |vs| - 1
    requires vs[|vs| - 1] == NoopVersion(vs, vs[|vs| - 1].parent)
    requires LinkInv(vs, |vs| - 1, ls)
    ensures Tree(vs[..|vs| - 1]) && LinkInv(vs[..|vs| - 1], vs[|vs| - 1].parent, ls)
  {
    var w := |vs| - 1;
    var pre, u := vs[..w], vs[w].parent;
    assert vs == pre + [vs[w]];
    assert GoodVersion(vs, w);
    assert Replaced(vs, w) == [];
    var a, b := SwapOutLinks(vs, w, ls, ext, EMPTY_SPAN, EMPTY_SPAN);
    JoinedNothing(ls, a, b);
    forall v | 0 <= v < w ensures GoodVersion(pre, v) { assert GoodVersion(vs, v); }
    assert Tree(pre);
    forall v | 0 < v < w
      ensures if Anc(pre, v, u) then OldLinks(pre, v, ls) else NewLinks(pre, v, ls)
    {
      assert GoodVersion(vs, v);
      AppendAnc(pre, vs[w], v, u);
      assert if Anc(vs, v, u) then OldLinks(vs, v, ls) else NewLinks(vs, v, ls);
    }
  }

  /** `s'` is `s` with the last, still empty change filled in as `ver`: the new pieces point
      into the chain, the chain does not know them yet. */
  ghost predicate Fills(s: Store, ver: Version, s': Store) {
    && StoreInv(s) && 0 < s.at == |s.vs| - 1
    && ver.parent < s.at && s.vs[s.at] == NoopVersion(s.vs, ver.parent)
    && Spliced(ver, s.vs[ver.parent].chain) && NoDup(ver.chain)
    && (forall p :: p in ver.mid ==> p !in s.links && p in s'.ext && s'.ext[p].data.At?)
    && s' == s.(vs := s.vs[s.at := ver], at := ver.parent,
                links := s'.links, ext := s'.ext, chg := s'.chg)
    && s'.links.Keys == s'.ext.Keys
    && (forall p :: p in s.links ==> p in s'.links && s'.links[p] == s.links[p] && s'.ext[p] == s.ext[p])
    && (forall p :: p in s'.ext ==> InBounds(s'.ext[p], s.mem))
    && (forall i :: ver.lo <= i < ver.lo + |ver.mid| ==> LinkedAt(s'.links, ver.chain, i))
    && NoDup(Addrs(ver.chain, s'.ext))
    && |s'.chg| == |s.chg| == |s.vs| && SameSpans(s.chg, s'.chg, s.at)
    && SpanIs(s'.chg[s.at].newSpan, ver.mid, s'.ext)
    && SpanIs(s'.chg[s.at].oldSpan, s.vs[ver.parent].chain[ver.lo..ver.hi], s'.ext)
  }

  lemma FillLinks(s: Store, ver: Version, s': Store)
    requires Fills(s, ver, s')
    ensures Tree(s'.vs) && LinkInv(s'.vs, s'.at, s'.links)
  {
    DropNoop(s.vs, s.links, s.ext);
    FillIsAppend(s, ver);
    AppendLinks(s.vs[..s.at], ver, s.links, s'.links);
    assert s'.vs == s.vs[..s.at] + [ver];
  }

  lemma FillChain(s: Store, ver: Version, s': Store, v: nat)
    requires Fills(s, ver, s') && v < |s.vs|
    ensures ChainAt(s', v)
  {
    assert ChainAt(s, v);
    if v < s.at { ChainKept(s, s', v); } else { FilledMembers(s, ver, s'); }
  }

  lemma FillSpans(s: Store, ver: Version, s': Store, v: nat)
    requires Fills(s, ver, s') && Tree(s'.vs) && 0 < v < |s.vs|
    ensures SpansAt(s', v)
  {
    assert GoodVersion(s'.vs, v);
    if v < s.at {
      assert GoodVersion(s.vs, v);
      assert ChainAt(s, v) && ChainAt(s, s.vs[v].parent);
      SpansKept(s, s', v);
    }
  }

  /** Filling in a change keeps the store consistent; `span_swap` will then apply it. */
  lemma FillStore(s: Store, ver: Version, s': Store)
    requires Fills(s, ver, s')
    ensures StoreInv(s')
  {
    FillLinks(s, ver, s');
    forall v | 0 <= v < |s'.vs| ensures ChainAt(s', v) { FillChain(s, ver, s', v); }
    forall v | 0 < v < |s'.vs| ensures SpansAt(s', v) { FillSpans(s, ver, s', v); }
    assert ChainAt(s, ver.parent);
    ChainKept(s, s', ver.parent);
  }

  /** A version whose pieces all keep their extent is as good as before. */
  lemma ChainKept(s: Store, s': Store, v: nat)
    requires StoreInv(s) && v < |s.vs| && v < |s'.vs| && s'.vs[v] == s.vs[v]
    requires s'.begin == s.begin && s'.end == s.end
    requires forall p :: p in s.vs[v].chain ==> p in s.ext && p in s'.ext && s'.ext[p] == s.ext[p]
    ensures ChainAt(s', v)
    ensures Addrs(s.vs[v].chain, s'.ext) == Addrs(s.vs[v].chain, s.ext)
  {
    assert ChainAt(s, v);
    AddrsFrame(s.vs[v].chain, s.ext, s'.ext);
  }

  lemma FillIsAppend(s: Store, ver: Version)
    requires StoreInv(s) && 0 < s.at == |s.vs| - 1 && ver.parent < s.at && Tree(s.vs[..s.at])
    requires Spliced(ver, s.vs[ver.parent].chain) && NoDup(ver.chain)
    requires forall p :: p in ver.mid ==> p !in s.links
    ensures CanAppend(s.vs[..s.at], ver)
  {
    forall u, p | 0 <= u < s.at && p in ver.mid ensures p !in s.vs[u].chain {
      assert ChainAt(s, u);
    }
  }

  lemma EndsKept(ver: Version, base: seq<Piece>)
    requires Spliced(ver, base)
    ensures |ver.chain| >= 2 && ver.chain[0] == base[0] && ver.chain[|ver.chain| - 1] == base[|base| - 1]
  {
  }

  lemma FilledMembers(s: Store, ver: Version, s': Store)
    requires StoreInv(s) && ver.parent < |s.vs| && Spliced(ver, s.vs[ver.parent].chain)
    requires s.links.Keys == s.ext.Keys && forall p :: p in s.ext ==> p in s'.ext && s'.ext[p] == s.ext[p]
    requires forall p :: p in ver.mid ==> p in s'.ext && s'.ext[p].data.At?
    requires s'.begin == s.begin && s'.end == s.end && NoDup(Addrs(ver.chain, s'.ext))
    ensures GoodChain(ver.chain, s'.ext, s'.begin, s'.end)
  {
    hide NoDup, LinkInv, SpanIs, GoodVersion, Addrs, Tree;
    assert ChainAt(s, ver.parent);
    forall p | p in ver.chain
      ensures p in s'.ext && (p != s'.begin && p != s'.end ==> s'.ext[p].data != Null)
    {
      SpliceMembers(ver, s.vs[ver.parent].chain, p);
    }
    EndsKept(ver, s.vs[ver.parent].chain);
  }

  lemma SpansKept(s: Store, s': Store, v: nat)
    requires StoreInv(s) && Tree(s'.vs) && |s'.chg| == |s'.vs| && 0 < v < |s.vs| && v < |s'.vs|
    requires forall u :: 0 <= u <= v ==> s'.vs[u] == s.vs[u]
    requires s'.chg[v].oldSpan == s.chg[v].oldSpan && s'.chg[v].newSpan == s.chg[v].newSpan
    requires s.vs[v].parent < v
    requires forall p :: p in s.vs[v].chain || p in s.vs[s.vs[v].parent].chain ==>
               p in s.ext && p in s'.ext && s.ext[p] == s'.ext[p]
    ensures SpansAt(s', v)
  {
    assert SpansAt(s, v);
    assert GoodVersion(s.vs, v) && GoodVersion(s'.vs, v);
    assert forall p :: p in Replaced(s.vs, v) ==> p in s.vs[s.vs[v].parent].chain;
    forall p | p in s.vs[v].mid ensures p in s.vs[v].chain {
      SpliceMembers(s.vs[v], s.vs[s.vs[v].parent].chain, p);
    }
    AddrsFrame(s.vs[v].mid, s.ext, s'.ext);
    AddrsFrame(Replaced(s.vs, v), s.ext, s'.ext);
  }

  // ----- edits in place -----

  /** `p` holds the tail of the last block and shares no byte of it with any other piece, in
      the chain or in the history. */
  ghost predicate Exclusive(ext: ExtentMap, mem: Memory, p: Piece) {
    && p in ext && ext[p].data.At? && |mem| > 0 && ext[p].data.blk == |mem| - 1
    && ext[p].data.off + ext[p].len == |mem[|mem| - 1]|
    && forall q :: q in ext && q != p && ext[q].data.At? && ext[q].data.blk == ext[p].data.blk ==>
         ext[q].data.off + ext[q].len <= ext[p].data.off
  }

  /** Memory with the bytes of `p` replaced. */
  function Rewritten(mem: Memory, e: Extent, bytes: seq<byte>): Memory
    requires e.data.At? && e.data.blk < |mem| && e.data.off <= |mem[e.data.blk]|
  {
    mem[e.data.blk := mem[e.data.blk][..e.data.off] + bytes]
  }

  lemma RewriteExtents(ext: ExtentMap, mem: Memory, p: Piece, bytes: seq<byte>)
    requires Exclusive(ext, mem, p) && forall q :: q in ext ==> InBounds(ext[q], mem)
    ensures var ext', mem' := ext[p := Extent(ext[p].data, |bytes|)], Rewritten(mem, ext[p], bytes);
            && Exclusive(ext', mem', p)
            && forall q :: q in ext' ==> InBounds(ext'[q], mem')
  {
  }

  /** No piece but `p` can see the rewrite. */
  lemma RewriteReads(ext: ExtentMap, mem: Memory, p: Piece, bytes: seq<byte>, q: Piece, a: Ptr)
    requires Exclusive(ext, mem, p) && q != p && a in Cells(ExtentOf(ext, q))
    requires q in ext ==> InBounds(ext[q], mem)
    ensures Read(Rewritten(mem, ext[p], bytes), a) == Read(mem, a)
    ensures a.At? && (a.blk != ext[p].data.blk || a.off < ext[p].data.off)
  {
  }

  /** A chain without `p` reads the same bytes at the same addresses. */
  lemma RewriteOthers(ext: ExtentMap, mem: Memory, p: Piece, bytes: seq<byte>, ch: seq<Piece>)
    requires Exclusive(ext, mem, p) && p !in ch && forall q :: q in ext ==> InBounds(ext[q], mem)
    ensures var ext', mem' := ext[p := Extent(ext[p].data, |bytes|)], Rewritten(mem, ext[p], bytes);
            && Addrs(ch, ext') == Addrs(ch, ext)
            && Fetch(Addrs(ch, ext), mem') == Fetch(Addrs(ch, ext), mem)
    ensures forall a :: a in Addrs(ch, ext) ==>
              a.At? && (a.blk != ext[p].data.blk || a.off < ext[p].data.off)
  {
    AddrsFrame(ch, ext, ext[p := Extent(ext[p].data, |bytes|)]);
    forall k | 0 <= k < |Addrs(ch, ext)|
      ensures var a := Addrs(ch, ext)[k];
              && Read(Rewritten(mem, ext[p], bytes), a) == Read(mem, a)
              && a.At? && (a.blk != ext[p].data.blk || a.off < ext[p].data.off)
    {
      var i := AddrsFrom(ch, ext, k);
      RewriteReads(ext, mem, p, bytes, ch[i], Addrs(ch, ext)[k]);
    }
    BytesFrame(Addrs(ch, ext), mem, Rewritten(mem, ext[p], bytes));
  }

  /** In a chain with `p` at index `k`, only the addresses of `p` itself change. */
  lemma RewriteAddrs(ext: ExtentMap, ext': ExtentMap, p: Piece, ch: seq<Piece>, k: nat)
    requires p in ext && p in ext' && ext' == ext[p := ext'[p]]
    requires NoDup(ch) && k < |ch| && ch[k] == p
    ensures p !in ch[..k] && p !in ch[k + 1..]
    ensures Addrs(ch, ext) == Addrs(ch[..k], ext) + Cells(ext[p]) + Addrs(ch[k + 1..], ext)
    ensures Addrs(ch, ext') == Addrs(ch[..k], ext) + Cells(ext'[p]) + Addrs(ch[k + 1..], ext)
  {
    assert ch[k..k + 1] == [p];
    AddrsSplit(ch, k, k + 1, ext);
    AddrsSplit(ch, k, k + 1, ext');
    AddrsOne(p, ext);
    AddrsOne(p, ext');
    AddrsFrame(ch[..k], ext, ext');
    AddrsFrame(ch[k + 1..], ext, ext');
  }

  lemma RewrittenSlice(mem: Memory, e: Extent, bytes: seq<byte>)
    requires e.data.At? && e.data.blk < |mem| && e.data.off <= |mem[e.data.blk]|
    ensures var mem' := Rewritten(mem, e, bytes);
            && e.data.off + |bytes| == |mem'[e.data.blk]|
            && mem'[e.data.blk][e.data.off..e.data.off + |bytes|] == bytes
  {
  }

  lemma RewriteFetch(ext: ExtentMap, mem: Memory, p: Piece, bytes: seq<byte>, ch: seq<Piece>)
    requires Exclusive(ext, mem, p) && p !in ch && forall q :: q in ext ==> InBounds(ext[q], mem)
    ensures Fetch(Addrs(ch, ext[p := Extent(ext[p].data, |bytes|)]), Rewritten(mem, ext[p], bytes))
         == Fetch(Addrs(ch, ext), mem)
  {
    RewriteOthers(ext, mem, p, bytes, ch);
  }

  /** The bytes of a chain around its piece number `k`. */
  lemma ChainBytes(ext: ExtentMap, mem: Memory, p: Piece, ch: seq<Piece>, k: nat)
    requires p in ext && ext[p].data.At? && InBounds(ext[p], mem)
    requires NoDup(ch) && k < |ch| && ch[k] == p
    ensures Fetch(Addrs(ch, ext), mem) ==
            Fetch(Addrs(ch[..k], ext), mem)
            + mem[ext[p].data.blk][ext[p].data.off..ext[p].data.off + ext[p].len]
            + Fetch(Addrs(ch[k + 1..], ext), mem)
  {
    RewriteAddrs(ext, ext, p, ch, k);
    FetchThree(Addrs(ch[..k], ext), Cells(ext[p]), Addrs(ch[k + 1..], ext), mem);
    BytesOfCells(ext[p], mem);
  }

  /** ... and after a rewrite of that piece. */
  lemma RewriteChain(ext: ExtentMap, mem: Memory, p: Piece, bytes: seq<byte>, ch: seq<Piece>, k: nat)
    requires Exclusive(ext, mem, p) && forall q :: q in ext ==> InBounds(ext[q], mem)
    requires NoDup(ch) && k < |ch| && ch[k] == p
    ensures Fetch(Addrs(ch, ext[p := Extent(ext[p].data, |bytes|)]), Rewritten(mem, ext[p], bytes)) ==
            Fetch(Addrs(ch[..k], ext), mem) + bytes + Fetch(Addrs(ch[k + 1..], ext), mem)
  {
    hide Addrs, Fetch;
    assert p !in ch[..k] && p !in ch[k + 1..];
    var ext', mem' := ext[p := Extent(ext[p].data, |bytes|)], Rewritten(mem, ext[p], bytes);
    RewrittenSlice(mem, ext[p], bytes);
    ChainBytes(ext', mem', p, ch, k);
    RewriteFetch(ext, mem, p, bytes, ch[..k]);
    RewriteFetch(ext, mem, p, bytes, ch[k + 1..]);
  }

  lemma RewriteKeepsNoDup(ext: ExtentMap, mem: Memory, p: Piece, bytes: seq<byte>, ch: seq<Piece>, k: nat)
    requires Exclusive(ext, mem, p) && forall q :: q in ext ==> InBounds(ext[q], mem)
    requires NoDup(ch) && k < |ch| && ch[k] == p && NoDup(Addrs(ch, ext))
    ensures NoDup(Addrs(ch, ext[p := Extent(ext[p].data, |bytes|)]))
  {
    RewriteAddrs(ext, ext[p := Extent(ext[p].data, |bytes|)], p, ch, k);
    RewriteOthers(ext, mem, p, bytes, ch[..k]);
    RewriteOthers(ext, mem, p, bytes, ch[k + 1..]);
    RewriteNoDup(ext[p], |bytes|, Addrs(ch[..k], ext), Addrs(ch[k + 1..], ext));
  }

  lemma FetchThree(a: seq<Ptr>, b: seq<Ptr>, c: seq<Ptr>, mem: Memory)
    ensures Fetch(a + b + c, mem) == Fetch(a, mem) + Fetch(b, mem) + Fetch(c, mem)
  {
  }

  lemma RewriteNoDup(e: Extent, n: nat, l: seq<Ptr>, r: seq<Ptr>)
    requires e.data.At? && NoDup(l + Cells(e) + r)
    requires forall a :: a in l || a in r ==> a.At? && (a.blk != e.data.blk || a.off < e.data.off)
    ensures NoDup(l + Cells(Extent(e.data, n)) + r)
  {
    var was, c, s := l + Cells(e) + r, Cells(Extent(e.data, n)), l + Cells(Extent(e.data, n)) + r;
    forall i, j | 0 <= i < j < |s| ensures s[i] != s[j] {
      if j < |l| {
        assert was[i] != was[j];
      } else if i >= |l| + |c| {
        assert s[i] == was[i - |c| + |Cells(e)|] && s[j] == was[j - |c| + |Cells(e)|];
      } else if i < |l| && j >= |l| + |c| {
        assert s[i] == was[i] && s[j] == was[j - |c| + |Cells(e)|];
      } else {
        assert i < |l| ==> s[i] in l;
        assert j >= |l| + |c| ==> s[j] == r[j - |l| - |c|] && s[j] in r;
      }
    }
  }

  /** The lengths an in-place edit of `p` adjusts include that of `p`. */
  ghost predicate Fits(s: Store, p: Piece) {
    && Exclusive(s.ext, s.mem, p) && 0 < s.at < |s.chg|
    && s.ext[p].len <= s.chg[s.at].newSpan.len && s.ext[p].len <= s.size
  }

  /** Everything an in-place edit does: the bytes and length of `p`, the length of the span of
      the newest change, and the size of the text. */
  ghost function EditedStore(s: Store, p: Piece, bytes: seq<byte>): Store
    requires Fits(s, p)
  {
    var c := s.chg[s.at];
    s.(ext := s.ext[p := Extent(s.ext[p].data, |bytes|)],
       mem := Rewritten(s.mem, s.ext[p], bytes),
       chg := s.chg[s.at := c.(newSpan := c.newSpan.(len := c.newSpan.len - s.ext[p].len + |bytes|))],
       size := s.size - s.ext[p].len + |bytes|)
  }

  /** `p` was created by the newest change, which is also the current version. */
  ghost predicate Newest(s: Store, p: Piece) {
    StoreInv(s) && 0 < s.at == |s.vs| - 1 && p in s.vs[s.at].mid && Exclusive(s.ext, s.mem, p)
  }

  /** No older version contains it. */
  lemma NewestElsewhere(s: Store, p: Piece, v: nat)
    requires Newest(s, p) && v < s.at
    ensures p !in s.vs[v].chain
  {
    if p in s.vs[v].chain {
      CreatedBelow(s.vs, s.at, v, p);
      AncLeq(s.vs, s.at, v);
    }
  }

  lemma NewestIndex(s: Store, p: Piece) returns (k: nat)
    requires Newest(s, p)
    ensures GoodVersion(s.vs, s.at)
    ensures s.vs[s.at].lo <= k < s.vs[s.at].lo + |s.vs[s.at].mid| && k < |s.vs[s.at].chain|
    ensures s.vs[s.at].chain[k] == p && s.vs[s.at].mid[k - s.vs[s.at].lo] == p
  {
    assert GoodVersion(s.vs, s.at);
    var j :| 0 <= j < |s.vs[s.at].mid| && s.vs[s.at].mid[j] == p;
    k := s.vs[s.at].lo + j;
  }

  lemma NewestLengths(s: Store, p: Piece)
    requires Newest(s, p)
    ensures Fits(s, p)
    ensures NoDup(s.vs[s.at].mid)
  {
    hide Newest, Addrs, Cells, NoDup, Exclusive;
    NewestMeasured(s, p);
    var k := NewestIndex(s, p);
    var ver := s.vs[s.at];
    SplicedMid(ver, s.vs[ver.parent].chain);
    RewriteAddrs(s.ext, s.ext, p, ver.chain, k);
    MidNoDup(ver.chain, ver.lo, ver.mid);
    RewriteAddrs(s.ext, s.ext, p, ver.mid, k - ver.lo);
    CellsLength(s.ext[p]);
  }

  lemma NewestMeasured(s: Store, p: Piece)
    requires Newest(s, p)
    ensures 0 < s.at < |s.vs| == |s.chg| && Exclusive(s.ext, s.mem, p) && p in s.ext && s.ext[p].data.At?
    ensures GoodVersion(s.vs, s.at) && s.size == |Addrs(s.vs[s.at].chain, s.ext)| && s.vs[s.at].mid != []
    ensures s.chg[s.at].newSpan.len == |Addrs(s.vs[s.at].mid, s.ext)|
  {
    hide Addrs;
    assert GoodVersion(s.vs, s.at) && SpansAt(s, s.at);
  }

  lemma SplicedMid(ver: Version, base: seq<Piece>)
    requires Spliced(ver, base)
    ensures ver.lo + |ver.mid| <= |ver.chain| && ver.chain[ver.lo..ver.lo + |ver.mid|] == ver.mid
  {
  }

  lemma MidNoDup(ch: seq<Piece>, lo: nat, mid: seq<Piece>)
    requires NoDup(ch) && lo + |mid| <= |ch| && ch[lo..lo + |mid|] == mid
    ensures NoDup(mid)
  {
    forall i, j | 0 <= i < j < |mid| ensures mid[i] != mid[j] {
      assert mid[i] == ch[lo + i] && mid[j] == ch[lo + j];
    }
  }

  lemma EditedChain(s: Store, p: Piece, bytes: seq<byte>, v: nat)
    requires Newest(s, p) && v < |s.vs|
    requires Fits(s, p)
    ensures ChainAt(EditedStore(s, p, bytes), v)
  {
    assert ChainAt(s, v);
    if v < s.at {
      NewestElsewhere(s, p, v);
      ChainKept(s, EditedStore(s, p, bytes), v);
    } else {
      var k := NewestIndex(s, p);
      RewriteKeepsNoDup(s.ext, s.mem, p, bytes, s.vs[v].chain, k);
    }
  }

  lemma EditedSpans(s: Store, p: Piece, bytes: seq<byte>, v: nat)
    requires Newest(s, p) && 0 < v < |s.vs| && bytes != []
    requires Fits(s, p)
    ensures SpansAt(EditedStore(s, p, bytes), v)
  {
    var s' := EditedStore(s, p, bytes);
    assert GoodVersion(s.vs, v) && ChainAt(s, v) && ChainAt(s, s.vs[v].parent);
    if v < s.at {
      NewestElsewhere(s, p, s.vs[v].parent);
      NewestElsewhere(s, p, v);
      SpansKept(s, s', v);
    } else {
      EditedOldSpan(s, p, bytes);
      EditedNewSpan(s, p, bytes);
    }
  }

  lemma EditedOldSpan(s: Store, p: Piece, bytes: seq<byte>)
    requires Newest(s, p) && Fits(s, p)
    ensures SpanIs(EditedStore(s, p, bytes).chg[s.at].oldSpan, Replaced(s.vs, s.at), EditedStore(s, p, bytes).ext)
  {
    hide Addrs, NoDup, LinkInv;
    var s' := EditedStore(s, p, bytes);
    assert GoodVersion(s.vs, s.at) && ChainAt(s, s.vs[s.at].parent);
    NewestElsewhere(s, p, s.vs[s.at].parent);
    assert forall q :: q in Replaced(s.vs, s.at) ==> q in s.vs[s.vs[s.at].parent].chain;
    AddrsFrame(Replaced(s.vs, s.at), s.ext, s'.ext);
    assert SpansAt(s, s.at);
  }

  lemma EditedNewSpan(s: Store, p: Piece, bytes: seq<byte>)
    requires Newest(s, p) && bytes != [] && Fits(s, p)
    ensures SpanIs(EditedStore(s, p, bytes).chg[s.at].newSpan, s.vs[s.at].mid, EditedStore(s, p, bytes).ext)
  {
    hide Addrs, NoDup, ChainAt, LinkInv, GoodVersion;
    var s' := EditedStore(s, p, bytes);
    assert SpansAt(s, s.at);
    NewestLengths(s, p);
    var k := NewestIndex(s, p);
    RewriteAddrs(s.ext, s'.ext, p, s.vs[s.at].mid, k - s.vs[s.at].lo);
  }

  /** An in-place edit that leaves the piece non-empty keeps the store consistent. */
  lemma EditStore(s: Store, p: Piece, bytes: seq<byte>)
    requires Newest(s, p) && bytes != []
    ensures Fits(s, p)
    ensures Newest(EditedStore(s, p, bytes), p)
  {
    hide Addrs, SpanIs, LinkInv, NoDup;
    NewestLengths(s, p);
    var s' := EditedStore(s, p, bytes);
    RewriteExtents(s.ext, s.mem, p, bytes);
    forall v | 0 <= v < |s.vs| ensures ChainAt(s', v) { EditedChain(s, p, bytes, v); }
    forall v | 0 < v < |s.vs| ensures SpansAt(s', v) { EditedSpans(s, p, bytes, v); }
    assert ChainAt(s, s.at);
    var k := NewestIndex(s, p);
    RewriteAddrs(s.ext, s'.ext, p, s.vs[s.at].chain, k);
  }

  /** ... and no revision but the open one sees it. */
  lemma EditElsewhere(s: Store, p: Piece, bytes: seq<byte>, v: nat)
    requires Newest(s, p) && v < s.at
    requires Fits(s, p)
    ensures StateOf(s.vs[v].chain, EditedStore(s, p, bytes).ext, EditedStore(s, p, bytes).mem)
         == StateOf(s.vs[v].chain, s.ext, s.mem)
  {
    NewestElsewhere(s, p, v);
    RewriteOthers(s.ext, s.mem, p, bytes, s.vs[v].chain);
  }
}
