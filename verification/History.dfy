/** The shape of a document over time. */
module History {

  // Every edit replaces one contiguous stretch of the piece chain by another, so the states a
  // document has been in form a tree of `Version`s: version `v > 0` is its parent's chain with
  // `chain[lo..hi]` replaced by `mid`.  Versions are numbered in order of creation, so a parent
  // always has the smaller number.
  //
  // `Links` are the `prev`/`next` fields of all pieces, whether they are in the chain or only
  // held by the history.  `LinkInv` is the dancing-links argument: a removed piece keeps
  // exactly the neighbours it had when it left the chain.

  /** A location inside a block: `const char *data`.  `Static` is the literal "\0". */
  datatype Ptr = Null | Static | At(blk: nat, off: nat)

  /** struct Piece.  `sentinel` tells the begin/end nodes (whose `text` is NULL) apart. */
  class Piece {
    const sentinel: bool
    var prev: Piece?
    var next: Piece?
    var data: Ptr
    var len: nat

    constructor (sentinel: bool)
      ensures this.sentinel == sentinel && prev == null && next == null
      ensures data == Null && len == 0
    {
      this.sentinel := sentinel;
      prev, next, data, len := null, null, Null, 0;
    }
  }

  datatype Link = Link(prev: Piece?, next: Piece?)
  type LinkMap = map<Piece, Link>

  datatype Version = Version(parent: nat, lo: nat, hi: nat, mid: seq<Piece>, chain: seq<Piece>)

  ghost predicate NoDup<T>(s: seq<T>) {
    forall i, j :: 0 <= i < j < |s| ==> s[i] != s[j]
  }

  ghost predicate Spliced(v: Version, base: seq<Piece>) {
    1 <= v.lo <= v.hi < |base| && v.chain == base[..v.lo] + v.mid + base[v.hi..]
  }

  ghost predicate Fresh(vs: seq<Version>, v: nat)
    requires v < |vs|
  {
    forall u, p :: 0 <= u < v && p in vs[v].mid ==> p !in vs[u].chain
  }

  ghost predicate GoodVersion(vs: seq<Version>, v: nat)
    requires v < |vs|
  {
    && NoDup(vs[v].chain)
    && (v > 0 ==> vs[v].parent < v && Spliced(vs[v], vs[vs[v].parent].chain) && Fresh(vs, v))
  }

  ghost predicate Tree(vs: seq<Version>) {
    && |vs| > 0
    && |vs[0].chain| >= 2
    && forall v :: 0 <= v < |vs| ==> GoodVersion(vs, v)
  }

  /** `a` lies on the path from version `v` to the root. */
  ghost predicate Anc(vs: seq<Version>, a: nat, v: nat)
    requires Tree(vs) && v < |vs|
    decreases v
  {
    a == v || (v > 0 && (assert GoodVersion(vs, v); Anc(vs, a, vs[v].parent)))
  }

  lemma {:induction false} AncLeq(vs: seq<Version>, a: nat, v: nat)
    requires Tree(vs) && v < |vs| && Anc(vs, a, v)
    ensures a <= v
    decreases v
  {
    if a != v {
      assert GoodVersion(vs, v);
      AncLeq(vs, a, vs[v].parent);
    }
  }

  lemma SpliceMembers(v: Version, base: seq<Piece>, p: Piece)
    requires Spliced(v, base)
    ensures p in v.chain <==> p in base[..v.lo] || p in v.mid || p in base[v.hi..]
    ensures p in v.chain && p !in v.mid ==> p in base
  {
  }

  /** A piece created by version `w` occurs only in versions that descend from `w`. */
  lemma {:induction false} CreatedBelow(vs: seq<Version>, w: nat, u: nat, p: Piece)
    requires Tree(vs) && 0 < w < |vs| && u < |vs|
    requires p in vs[w].mid && p in vs[u].chain
    ensures Anc(vs, w, u)
    decreases u
  {
    assert GoodVersion(vs, w) && GoodVersion(vs, u);
    if u > w {
      SpliceMembers(vs[w], vs[vs[w].parent].chain, p);
      SpliceMembers(vs[u], vs[vs[u].parent].chain, p);
      CreatedBelow(vs, w, vs[u].parent, p);
    }
  }

  /** A piece removed by version `w` never comes back in a descendant of `w`. */
  lemma {:induction false} RemovedBelow(vs: seq<Version>, w: nat, u: nat, i: nat)
    requires Tree(vs) && 0 < w < |vs| && u < |vs| && Anc(vs, w, u)
    requires vs[w].lo <= i < vs[w].hi
    ensures vs[w].parent < w && i < |vs[vs[w].parent].chain|
    ensures vs[vs[w].parent].chain[i] !in vs[u].chain
    decreases u
  {
    assert GoodVersion(vs, w) && GoodVersion(vs, u);
    var base := vs[vs[w].parent].chain;
    assert GoodVersion(vs, vs[w].parent);
    assert base[i] in base;
    if u > w {
      SpliceMembers(vs[u], vs[vs[u].parent].chain, base[i]);
      AncLeq(vs, w, vs[u].parent);
      RemovedBelow(vs, w, vs[u].parent, i);
    } else {
      AncLeq(vs, w, u);
      assert base[i] !in vs[w].mid;
      forall k | 0 <= k < |vs[w].chain| ensures vs[w].chain[k] != base[i] {
        var lo, m := vs[w].lo, |vs[w].mid|;
        if k < lo {
          assert vs[w].chain[k] == base[k];
        } else if k < lo + m {
          assert vs[w].chain[k] == vs[w].mid[k - lo];
        } else {
          assert vs[w].chain[k] == base[k - lo - m + vs[w].hi];
        }
      }
    }
  }

  // ----- links -----

  function PrevOf(ch: seq<Piece>, i: nat): Piece?
    requires i < |ch|
  {
    if i > 0 then ch[i - 1] else null
  }

  function NextOf(ch: seq<Piece>, i: nat): Piece?
    requires i < |ch|
  {
    if i + 1 < |ch| then ch[i + 1] else null
  }

  /** Piece number `i` of the chain has exactly the neighbours the chain gives it. */
  ghost predicate LinkedAt(ls: LinkMap, ch: seq<Piece>, i: nat)
    requires i < |ch|
  {
    ch[i] in ls && ls[ch[i]] == Link(PrevOf(ch, i), NextOf(ch, i))
  }

  ghost predicate Linked(ls: LinkMap, ch: seq<Piece>) {
    forall i :: 0 <= i < |ch| ==> LinkedAt(ls, ch, i)
  }

  /** The pieces that version `v` took out of the chain still know their old neighbours. */
  ghost predicate OldLinks(vs: seq<Version>, v: nat, ls: LinkMap)
    requires Tree(vs) && 0 < v < |vs|
  {
    assert GoodVersion(vs, v);
    forall i :: vs[v].lo <= i < vs[v].hi ==> LinkedAt(ls, vs[vs[v].parent].chain, i)
  }

  /** The pieces that version `v` put into the chain still know the neighbours they had there. */
  ghost predicate NewLinks(vs: seq<Version>, v: nat, ls: LinkMap)
    requires Tree(vs) && 0 < v < |vs|
  {
    assert GoodVersion(vs, v);
    forall i :: vs[v].lo <= i < vs[v].lo + |vs[v].mid| ==> LinkedAt(ls, vs[v].chain, i)
  }

  ghost predicate LinkInv(vs: seq<Version>, cur: nat, ls: LinkMap)
    requires Tree(vs)
  {
    && cur < |vs|
    && Linked(ls, vs[cur].chain)
    && forall v :: 0 < v < |vs| ==>
         if Anc(vs, v, cur) then OldLinks(vs, v, ls) else NewLinks(vs, v, ls)
  }

  /** What `span_swap` does to the links: the two pieces around the stretch `to[a+1..b]`
      are made to point at it. */
  ghost function Relink(ls: LinkMap, to: seq<Piece>, a: nat, b: nat): LinkMap
    requires a < b < |to| && to[a] in ls && to[b] in ls
  {
    var one := ls[to[a] := ls[to[a]].(next := to[a + 1])];
    one[to[b] := one[to[b]].(prev := to[b - 1])]
  }

  /** Relinking around a replaced stretch turns a chain linked as `from` into one linked as `to`. */
  lemma RelinkSplices(ls: LinkMap, from: seq<Piece>, to: seq<Piece>, lo: nat, n: nat, m: nat)
    requires NoDup(from) && NoDup(to) && Linked(ls, from)
    requires 1 <= lo && lo + n < |from| && lo + m < |to|
    requires |to| == |from| - n + m
    requires forall i :: 0 <= i < lo ==> to[i] == from[i]
    requires forall i :: lo + m <= i < |to| ==> to[i] == from[i - m + n]
    requires forall i :: lo <= i < lo + m ==> LinkedAt(ls, to, i)
    ensures to[lo - 1] in ls && to[lo + m] in ls
    ensures Linked(Relink(ls, to, lo - 1, lo + m), to)
  {
    assert LinkedAt(ls, from, lo - 1) && LinkedAt(ls, from, lo + n);
    var ls' := Relink(ls, to, lo - 1, lo + m);
    forall i | 0 <= i < |to| ensures LinkedAt(ls', to, i) {
      assert i != lo - 1 ==> to[i] != to[lo - 1];
      assert i != lo + m ==> to[i] != to[lo + m];
      if i < lo {
        assert LinkedAt(ls, from, i);
      } else if i >= lo + m {
        assert LinkedAt(ls, from, i - m + n);
        assert i > lo + m ==> to[i - 1] == from[i - 1 - m + n];
      } else {
        assert LinkedAt(ls, to, i);
      }
    }
  }

  lemma RelinkFrame(ls: LinkMap, to: seq<Piece>, a: nat, b: nat, ch: seq<Piece>, i: nat)
    requires a < b < |to| && to[a] in ls && to[b] in ls
    requires i < |ch| && ch[i] != to[a] && ch[i] != to[b] && LinkedAt(ls, ch, i)
    ensures LinkedAt(Relink(ls, to, a, b), ch, i)
  {
  }

  lemma StretchKept(ls: LinkMap, to: seq<Piece>, a: nat, b: nat, ch: seq<Piece>, lo: nat, hi: nat)
    requires a < b < |to| && to[a] in ls && to[b] in ls && lo <= hi <= |ch|
    requires forall i :: lo <= i < hi ==> LinkedAt(ls, ch, i) && ch[i] != to[a] && ch[i] != to[b]
    ensures forall i :: lo <= i < hi ==> LinkedAt(Relink(ls, to, a, b), ch, i)
  {
    forall i | lo <= i < hi ensures LinkedAt(Relink(ls, to, a, b), ch, i) {
      RelinkFrame(ls, to, a, b, ch, i);
    }
  }

  /** Links of pieces outside the chain survive relinking inside it: everything an applied
      version removed and everything an unapplied one created is outside. */
  lemma OthersKept(vs: seq<Version>, at: nat, ls: LinkMap, v: nat, to: seq<Piece>, a: nat, b: nat)
    requires Tree(vs) && at < |vs| && 0 < v < |vs|
    requires a < b < |to| && to[a] in ls && to[b] in ls
    requires to[a] in vs[at].chain && to[b] in vs[at].chain
    ensures Anc(vs, v, at) && OldLinks(vs, v, ls) ==> OldLinks(vs, v, Relink(ls, to, a, b))
    ensures !Anc(vs, v, at) && NewLinks(vs, v, ls) ==> NewLinks(vs, v, Relink(ls, to, a, b))
  {
    assert GoodVersion(vs, v);
    var base := vs[vs[v].parent].chain;
    if Anc(vs, v, at) && OldLinks(vs, v, ls) {
      forall i | vs[v].lo <= i < vs[v].hi ensures LinkedAt(Relink(ls, to, a, b), base, i) {
        RemovedBelow(vs, v, at, i);
        RelinkFrame(ls, to, a, b, base, i);
      }
    }
    if !Anc(vs, v, at) && NewLinks(vs, v, ls) {
      forall i | vs[v].lo <= i < vs[v].lo + |vs[v].mid|
        ensures LinkedAt(Relink(ls, to, a, b), vs[v].chain, i)
      {
        assert vs[v].chain[i] == vs[v].mid[i - vs[v].lo];
        if vs[v].chain[i] in vs[at].chain { CreatedBelow(vs, v, at, vs[v].chain[i]); }
        RelinkFrame(ls, to, a, b, vs[v].chain, i);
      }
    }
  }

  /** The pieces a change put in keep their links while the old ones are linked back in. */
  lemma CreatedKept(vs: seq<Version>, v: nat, ls: LinkMap)
    requires Tree(vs) && 0 < v < |vs| && vs[v].parent < |vs| && Linked(ls, vs[v].chain)
    requires 1 <= vs[v].lo <= vs[v].hi < |vs[vs[v].parent].chain|
    requires vs[vs[v].parent].chain[vs[v].lo - 1] in ls && vs[vs[v].parent].chain[vs[v].hi] in ls
    ensures NewLinks(vs, v, Relink(ls, vs[vs[v].parent].chain, vs[v].lo - 1, vs[v].hi))
  {
    hide Relink, LinkedAt;
    assert GoodVersion(vs, v);
    var base, ch, lo, hi, m := vs[vs[v].parent].chain, vs[v].chain, vs[v].lo, vs[v].hi, |vs[v].mid|;
    assert base[hi] == ch[lo + m] && base[lo - 1] == ch[lo - 1];
    StretchKept(ls, base, lo - 1, hi, ch, lo, lo + m);
  }

  lemma UndoChain(vs: seq<Version>, v: nat, ls: LinkMap)
    requires Tree(vs) && 0 < v < |vs| && vs[v].parent < |vs| && Linked(ls, vs[v].chain)
    requires OldLinks(vs, v, ls)
    ensures 1 <= vs[v].lo <= vs[v].hi < |vs[vs[v].parent].chain|
    ensures var base, a, b := vs[vs[v].parent].chain, vs[v].lo - 1, vs[v].hi;
            && base[a] in ls && base[b] in ls && base[a] in vs[v].chain && base[b] in vs[v].chain
            && Linked(Relink(ls, base, a, b), base)
  {
    hide Relink, LinkedAt;
    assert GoodVersion(vs, v);
    var u := vs[v].parent;
    assert GoodVersion(vs, u);
    var base, ch, lo, hi, m := vs[u].chain, vs[v].chain, vs[v].lo, vs[v].hi, |vs[v].mid|;
    assert base[hi] == ch[lo + m] && base[lo - 1] == ch[lo - 1];
    RelinkSplices(ls, ch, base, lo, m, hi - lo);
  }

  /** Undoing the change that led to version `v` restores every link of its parent's chain. */
  lemma UndoStep(vs: seq<Version>, v: nat, ls: LinkMap)
    requires Tree(vs) && 0 < v < |vs| && LinkInv(vs, v, ls)
    ensures vs[v].parent < v && 1 <= vs[v].lo <= vs[v].hi < |vs[vs[v].parent].chain|
    ensures var base := vs[vs[v].parent].chain;
            && base[vs[v].lo - 1] in ls && base[vs[v].hi] in ls
            && LinkInv(vs, vs[v].parent, Relink(ls, base, vs[v].lo - 1, vs[v].hi))
  {
    hide Relink, LinkedAt, Linked, OldLinks, NewLinks, Spliced, NoDup;
    assert GoodVersion(vs, v);
    var u := vs[v].parent;
    var base, lo, hi := vs[u].chain, vs[v].lo, vs[v].hi;
    assert Anc(vs, v, v) && OldLinks(vs, v, ls);
    UndoChain(vs, v, ls);
    var ls' := Relink(ls, base, lo - 1, hi);
    forall w | 0 < w < |vs|
      ensures if Anc(vs, w, u) then OldLinks(vs, w, ls') else NewLinks(vs, w, ls')
    {
      if w == v {
        if Anc(vs, v, u) { AncLeq(vs, v, u); }
        CreatedKept(vs, v, ls);
      } else {
        assert Anc(vs, w, v) <==> Anc(vs, w, u);
        OthersKept(vs, v, ls, w, base, lo - 1, hi);
      }
    }
  }

  /** The pieces a change takes out keep their links while the new ones are linked in. */
  lemma RemovedKept(vs: seq<Version>, v: nat, ls: LinkMap)
    requires Tree(vs) && 0 < v < |vs| && vs[v].parent < |vs| && Linked(ls, vs[vs[v].parent].chain)
    requires 1 <= vs[v].lo && vs[v].lo + |vs[v].mid| < |vs[v].chain|
    requires vs[v].chain[vs[v].lo - 1] in ls && vs[v].chain[vs[v].lo + |vs[v].mid|] in ls
    ensures OldLinks(vs, v, Relink(ls, vs[v].chain, vs[v].lo - 1, vs[v].lo + |vs[v].mid|))
  {
    hide Relink, LinkedAt;
    assert GoodVersion(vs, v);
    var base, lo, hi := vs[vs[v].parent].chain, vs[v].lo, vs[v].hi;
    assert GoodVersion(vs, vs[v].parent);
    StretchKept(ls, vs[v].chain, lo - 1, lo + |vs[v].mid|, base, lo, hi);
  }

  lemma RedoChain(vs: seq<Version>, v: nat, ls: LinkMap)
    requires Tree(vs) && 0 < v < |vs| && vs[v].parent < |vs| && Linked(ls, vs[vs[v].parent].chain)
    requires NewLinks(vs, v, ls)
    ensures 1 <= vs[v].lo && vs[v].lo + |vs[v].mid| < |vs[v].chain|
    ensures var ch, b := vs[v].chain, vs[v].lo + |vs[v].mid|;
            && ch[vs[v].lo - 1] in ls && ch[b] in ls
            && ch[vs[v].lo - 1] in vs[vs[v].parent].chain && ch[b] in vs[vs[v].parent].chain
            && Linked(Relink(ls, ch, vs[v].lo - 1, b), ch)
  {
    hide Relink, LinkedAt;
    assert GoodVersion(vs, v);
    var u := vs[v].parent;
    assert GoodVersion(vs, u);
    var base, ch, lo, hi, m := vs[u].chain, vs[v].chain, vs[v].lo, vs[v].hi, |vs[v].mid|;
    assert base[hi] == ch[lo + m] && base[lo - 1] == ch[lo - 1];
    RelinkSplices(ls, base, ch, lo, hi - lo, m);
  }

  /** Redoing the change that leads to version `v` restores every link of its chain. */
  lemma RedoStep(vs: seq<Version>, v: nat, ls: LinkMap)
    requires Tree(vs) && 0 < v < |vs| && LinkInv(vs, vs[v].parent, ls)
    ensures 1 <= vs[v].lo && vs[v].lo + |vs[v].mid| < |vs[v].chain|
    ensures var ch, b := vs[v].chain, vs[v].lo + |vs[v].mid|;
            && ch[vs[v].lo - 1] in ls && ch[b] in ls
            && LinkInv(vs, v, Relink(ls, ch, vs[v].lo - 1, b))
  {
    hide Relink, LinkedAt, Linked, OldLinks, NewLinks, Spliced, NoDup;
    assert GoodVersion(vs, v);
    var u := vs[v].parent;
    var ch, lo, m := vs[v].chain, vs[v].lo, |vs[v].mid|;
    if Anc(vs, v, u) { AncLeq(vs, v, u); }
    assert NewLinks(vs, v, ls);
    RedoChain(vs, v, ls);
    var ls' := Relink(ls, ch, lo - 1, lo + m);
    forall w | 0 < w < |vs|
      ensures if Anc(vs, w, v) then OldLinks(vs, w, ls') else NewLinks(vs, w, ls')
    {
      if w == v {
        RemovedKept(vs, v, ls);
      } else {
        assert Anc(vs, w, v) <==> Anc(vs, w, u);
        OthersKept(vs, u, ls, w, ch, lo - 1, lo + m);
      }
    }
  }

  // ----- a new version -----

  ghost predicate CanAppend(vs: seq<Version>, ver: Version) {
    && Tree(vs)
    && ver.parent < |vs|
    && NoDup(ver.chain)
    && Spliced(ver, vs[ver.parent].chain)
    && forall u, p :: 0 <= u < |vs| && p in ver.mid ==> p !in vs[u].chain
  }

  lemma AppendTree(vs: seq<Version>, ver: Version)
    requires CanAppend(vs, ver)
    ensures Tree(vs + [ver])
  {
    var vs' := vs + [ver];
    forall v | 0 <= v < |vs'| ensures GoodVersion(vs', v) {
      if v < |vs| { assert GoodVersion(vs, v); }
    }
  }

  lemma {:induction false} AppendAnc(vs: seq<Version>, ver: Version, a: nat, v: nat)
    requires CanAppend(vs, ver) && Tree(vs + [ver]) && v < |vs|
    ensures Anc(vs + [ver], a, v) == Anc(vs, a, v)
    decreases v
  {
    if a != v && v > 0 {
      assert GoodVersion(vs, v);
      AppendAnc(vs, ver, a, vs[v].parent);
    }
  }

  /** A freshly allocated, not yet applied version whose new pieces already point into the
      chain keeps the link invariant. */
  lemma AppendLinks(vs: seq<Version>, ver: Version, ls: LinkMap, ls': LinkMap)
    requires CanAppend(vs, ver) && LinkInv(vs, ver.parent, ls)
    requires forall p :: p in ls ==> p in ls' && ls'[p] == ls[p]
    requires forall i :: ver.lo <= i < ver.lo + |ver.mid| ==> LinkedAt(ls', ver.chain, i)
    ensures Tree(vs + [ver]) && LinkInv(vs + [ver], ver.parent, ls')
  {
    AppendTree(vs, ver);
    var vs', cur := vs + [ver], ver.parent;
    forall i | 0 <= i < |vs[cur].chain| ensures LinkedAt(ls', vs'[cur].chain, i) {
      assert LinkedAt(ls, vs[cur].chain, i);
    }
    forall w | 0 < w < |vs'|
      ensures if Anc(vs', w, cur) then OldLinks(vs', w, ls') else NewLinks(vs', w, ls')
    {
      AppendAnc(vs, ver, w, cur);
      if w == |vs| {
        if Anc(vs, w, cur) { AncLeq(vs, w, cur); }
      } else if Anc(vs, w, cur) {
        assert GoodVersion(vs, w);
        forall i | vs[w].lo <= i < vs[w].hi
          ensures LinkedAt(ls', vs[vs[w].parent].chain, i)
        {
          assert LinkedAt(ls, vs[vs[w].parent].chain, i);
        }
      } else {
        assert GoodVersion(vs, w);
        forall i | vs[w].lo <= i < vs[w].lo + |vs[w].mid| ensures LinkedAt(ls', vs[w].chain, i) {
          assert LinkedAt(ls, vs[w].chain, i);
        }
      }
    }
  }
}
