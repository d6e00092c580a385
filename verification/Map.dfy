/** The crit-bit map: a tree of nodes updated in place through pointers to cells. */
module Maps {
  import opened Bytes
  import opened Bits
  import opened CritBit

  // ----- the heap below a cell -----

  ghost predicate NodesAre(h: Heap)
    reads h.Keys
  {
    forall n :: n in h ==> h[n] == NodeVal(n.left, n.right, n.byteNum, n.bitNum)
  }

  function ChildCell(v: NodeVal, d: bool): Cell {
    if d then v.right else v.left
  }

  /** The position of the bit a node looks at. */
  function PosOf(v: NodeVal): Option<nat> {
    if v.bitNum < 8 then Some(Pos(v.byteNum, v.bitNum)) else None
  }

  /** The cell and everything below it form the tree. */
  ghost predicate Holds(h: Heap, c: Cell, t: Tree)
    decreases t
  {
    match t
    case Leaf(k, v) => c == Cell(Str(k), v)
    case Fork(n, at, l, r) =>
      && c == Cell(Inner(n), 0) && n in h && PosOf(h[n]) == Some(at)
      && n !in Nodes(l) && n !in Nodes(r) && Nodes(l) !! Nodes(r)
      && Holds(h, h[n].left, l) && Holds(h, h[n].right, r)
  }

  lemma {:induction false} HoldsFrame(h: Heap, h': Heap, c: Cell, t: Tree)
    requires Holds(h, c, t) && forall n :: n in Nodes(t) ==> n in h' && (n in h ==> h'[n] == h[n])
    ensures Holds(h', c, t)
    decreases t
  {
    if t.Fork? {
      HoldsFrame(h, h', h[t.node].left, t.left);
      HoldsFrame(h, h', h[t.node].right, t.right);
    }
  }

  lemma {:induction false} HoldsNodes(h: Heap, c: Cell, t: Tree)
    requires Holds(h, c, t)
    ensures forall n :: n in Nodes(t) ==> n in h
    decreases t
  {
    if t.Fork? {
      HoldsNodes(h, h[t.node].left, t.left);
      HoldsNodes(h, h[t.node].right, t.right);
    }
  }

  // ----- places in a tree -----

  /** The way from the root to a cell. */
  type Path = seq<bool>

  predicate Reaches(t: Tree, p: Path) {
    p == [] || (t.Fork? && Reaches(Child(t, p[0]), p[1..]))
  }

  function Sub(t: Tree, p: Path): Tree
    requires Reaches(t, p)
  {
    if p == [] then t else Sub(Child(t, p[0]), p[1..])
  }

  function WithChild(t: Tree, d: bool, s: Tree): Tree
    requires t.Fork?
  {
    if d then t.(right := s) else t.(left := s)
  }

  /** The tree with another subtree at that place. */
  function Replace(t: Tree, p: Path, s: Tree): Tree
    requires Reaches(t, p)
  {
    if p == [] then s else WithChild(t, p[0], Replace(Child(t, p[0]), p[1..], s))
  }

  /** One step further. */
  lemma {:induction false} Extend(t: Tree, p: Path, d: bool, s: Tree)
    requires Reaches(t, p) && Sub(t, p).Fork?
    ensures Reaches(t, p + [d]) && Sub(t, p + [d]) == Child(Sub(t, p), d)
    ensures Replace(t, p + [d], s) == Replace(t, p, WithChild(Sub(t, p), d, s))
  {
    if p != [] {
      assert (p + [d])[1..] == p[1..] + [d];
      Extend(Child(t, p[0]), p[1..], d, s);
    } else {
      assert (p + [d])[1..] == [];
    }
  }

  /** A pointer to a cell: to the map itself or into a node. */
  datatype Loc = Root | In(node: Node, d: bool)

  function CellAt(h: Heap, top: Cell, loc: Loc): Cell {
    if loc.In? && loc.node in h then ChildCell(h[loc.node], loc.d) else top
  }

  /** `loc` points at the cell at the end of the path. */
  ghost predicate PointsTo(t: Tree, p: Path, loc: Loc) {
    && Reaches(t, p)
    && if p == [] then loc == Root
       else loc.In? && t.Fork? && if |p| == 1 then loc == In(t.node, p[0]) else PointsTo(Child(t, p[0]), p[1..], loc)
  }

  lemma StartAt(t: Tree)
    ensures PointsTo(t, [], Root)
  {
  }

  lemma {:induction false} PointsStep(t: Tree, p: Path, loc: Loc, d: bool)
    requires PointsTo(t, p, loc) && Sub(t, p).Fork?
    ensures PointsTo(t, p + [d], In(Sub(t, p).node, d))
  {
    if p == [] {
      assert (p + [d])[1..] == [];
    } else {
      assert (p + [d])[1..] == p[1..] + [d];
      if |p| == 1 {
        PointsStep(Child(t, p[0]), [], Root, d);
        assert p[1..] == [];
      } else {
        PointsStep(Child(t, p[0]), p[1..], loc, d);
      }
    }
  }

  lemma {:induction false} SubNodes(t: Tree, p: Path)
    requires Reaches(t, p)
    ensures Nodes(Sub(t, p)) <= Nodes(t)
  {
    if p != [] { SubNodes(Child(t, p[0]), p[1..]); }
  }

  /** The cell a pointer leads to holds the subtree at that place, and is not part of it. */
  lemma {:induction false} CellThere(h: Heap, top: Cell, t: Tree, p: Path, loc: Loc)
    requires Holds(h, top, t) && PointsTo(t, p, loc)
    ensures Holds(h, CellAt(h, top, loc), Sub(t, p))
    ensures loc.In? ==> loc.node in h && loc.node in Nodes(t) && loc.node !in Nodes(Sub(t, p))
    decreases |p|
  {
    if p != [] {
      var s, c := Child(t, p[0]), ChildCell(h[t.node], p[0]);
      SubNodes(s, p[1..]);
      if |p| == 1 {
        assert p[1..] == [];
      } else {
        CellThere(h, c, s, p[1..], loc);
      }
    }
  }

  function Write(v: NodeVal, d: bool, c: Cell): NodeVal {
    if d then v.(right := c) else v.(left := c)
  }

  /** `h'` is `h` after writing `c` to `loc`, as far as the nodes in `keep` are concerned. */
  ghost predicate Written(h: Heap, h': Heap, loc: Loc, c: Cell, keep: set<Node>) {
    forall n :: n in keep ==> WriteTo(h, h', loc, c, n)
  }

  ghost predicate WriteTo(h: Heap, h': Heap, loc: Loc, c: Cell, n: Node) {
    n in h && n in h' && h'[n] == if loc.In? && loc.node == n then Write(h[n], loc.d, c) else h[n]
  }

  /** A fork with one side replaced. */
  lemma Rebuilt(h: Heap, h': Heap, top: Cell, t: Tree, d: bool, s: Tree)
    requires Holds(h, top, t) && t.Fork? && t.node in h' && PosOf(h'[t.node]) == PosOf(h[t.node])
    requires ChildCell(h'[t.node], !d) == ChildCell(h[t.node], !d) && Holds(h', ChildCell(h'[t.node], d), s)
    requires forall n :: n in Nodes(Child(t, !d)) ==> n in h && n in h' && h'[n] == h[n]
    requires t.node !in Nodes(s) && Nodes(s) !! Nodes(Child(t, !d))
    ensures Holds(h', top, WithChild(t, d, s))
  {
    HoldsFrame(h, h', ChildCell(h[t.node], !d), Child(t, !d));
  }

  lemma ForkParts(h: Heap, top: Cell, t: Tree, d: bool)
    requires Holds(h, top, t) && t.Fork?
    ensures t.node in h && Holds(h, ChildCell(h[t.node], d), Child(t, d))
    ensures t.node !in Nodes(Child(t, d)) && t.node !in Nodes(Child(t, !d))
    ensures Nodes(Child(t, d)) !! Nodes(Child(t, !d)) && Nodes(t) == {t.node} + Nodes(Child(t, d)) + Nodes(Child(t, !d))
    ensures top.u == Inner(t.node)
  {
  }

  lemma WrittenAt(h: Heap, h': Heap, loc: Loc, c: Cell, keep: set<Node>, n: Node)
    requires Written(h, h', loc, c, keep) && n in keep
    ensures WriteTo(h, h', loc, c, n)
  {
  }

  lemma WrittenLess(h: Heap, h': Heap, loc: Loc, c: Cell, keep: set<Node>, less: set<Node>)
    requires Written(h, h', loc, c, keep) && less <= keep
    ensures Written(h, h', loc, c, less)
  {
  }

  /** What lies beside the way into a fork. */
  lemma BesideWay(h: Heap, top: Cell, t: Tree, p: Path)
    requires Holds(h, top, t) && Reaches(t, p) && p != []
    ensures var l, r, u := Child(t, p[0]), Child(t, !p[0]), Sub(t, p);
            && Sub(l, p[1..]) == u && t.node !in Nodes(l) && Nodes(l) !! Nodes(r)
            && Nodes(l) - Nodes(u) <= Nodes(t) - Nodes(u) && {t.node} + Nodes(r) <= Nodes(t) - Nodes(u)
  {
    ForkParts(h, top, t, p[0]);
    SubNodes(Child(t, p[0]), p[1..]);
  }

  lemma {:induction false} ReplaceNodes(h: Heap, top: Cell, t: Tree, p: Path, s: Tree)
    requires Holds(h, top, t) && Reaches(t, p)
    ensures Nodes(Replace(t, p, s)) <= Nodes(s) + (Nodes(t) - Nodes(Sub(t, p)))
    decreases |p|
  {
    hide Holds;
    if p != [] {
      var d := p[0];
      ForkParts(h, top, t, d);
      BesideWay(h, top, t, p);
      ReplaceNodes(h, ChildCell(h[t.node], d), Child(t, d), p[1..], s);
      assert Nodes(Replace(t, p, s)) == {t.node} + Nodes(Replace(Child(t, d), p[1..], s)) + Nodes(Child(t, !d));
    }
  }

  /** Writing a cell replaces the subtree there. */
  lemma {:induction false} WriteReplaces(h: Heap, h': Heap, top: Cell, t: Tree, p: Path, loc: Loc, c: Cell, s: Tree)
    requires Holds(h, top, t) && PointsTo(t, p, loc) && Holds(h', c, s)
    requires Written(h, h', loc, c, Nodes(t) - Nodes(Sub(t, p)))
    requires Nodes(s) !! Nodes(t) - Nodes(Sub(t, p))
    ensures Holds(h', if p == [] then c else top, Replace(t, p, s))
    decreases |p|
  {
    hide Holds, Written, Nodes;
    if p != [] {
      var d := p[0];
      var l, keep := Child(t, d), Nodes(t) - Nodes(Sub(t, p));
      ForkParts(h, top, t, d);
      BesideWay(h, top, t, p);
      var cell := ChildCell(h[t.node], d);
      WrittenLess(h, h', loc, c, keep, Nodes(l) - Nodes(Sub(l, p[1..])));
      if |p| == 1 {
        assert p[1..] == [];
      } else {
        CellThere(h, cell, l, p[1..], loc);
        WriteReplaces(h, h', cell, l, p[1..], loc, c, s);
      }
      WrittenAt(h, h', loc, c, keep, t.node);
      forall n | n in Nodes(Child(t, !d)) ensures n in h && n in h' && h'[n] == h[n] {
        WrittenAt(h, h', loc, c, keep, n);
      }
      ReplaceNodes(h, cell, l, p[1..], s);
      Rebuilt(h, h', top, t, d, Replace(l, p[1..], s));
    }
  }

  // ----- walking down -----

  /** Which way `key` goes at a node. */
  predicate Direction(key: Key, byteNum: nat, bitNum: nat)
    requires bitNum < 8
  {
    byteNum < |key| && Bit(key[byteNum], bitNum)
  }

  lemma DirectionIs(key: Key, byteNum: nat, bitNum: nat)
    requires bitNum < 8
    ensures Direction(key, byteNum, bitNum) == KeyBit(key, Pos(byteNum, bitNum))
  {
    assert !Bit(0, bitNum);
  }

  lemma BitAt(key: Key, byteNum: nat, bitNum: nat)
    requires bitNum < 8
    ensures KeyBit(key, Pos(byteNum, bitNum)) == Bit(At(key, byteNum), bitNum)
  {
  }

  /** A node under a cell that holds a tree. */
  lemma AtFork(h: Heap, c: Cell, t: Tree, from: nat)
    requires Holds(h, c, t) && Good(t, from)
    ensures c.v == 0 <==> t.Fork?
    ensures t.Leaf? ==> c == Cell(Str(t.key), t.value)
    ensures t.Fork? ==>
              && c.u == Inner(t.node) && t.node in h && h[t.node].bitNum < 8
              && Pos(h[t.node].byteNum, h[t.node].bitNum) == t.at >= from
              && Good(t.left, t.at + 1) && Good(t.right, t.at + 1)
              && Holds(h, h[t.node].left, t.left) && Holds(h, h[t.node].right, t.right)
  {
  }

  /** `closest`. */
  method Closest(c: Cell, key: Key, ghost h: Heap, ghost t: Tree, ghost from: nat) returns (n: Cell)
    requires NodesAre(h) && Holds(h, c, t) && Good(t, from)
    ensures n == Cell(Str(ClosestOf(t, key).key), ClosestOf(t, key).value)
  {
    hide Holds, Good, KeyBit, Bit;
    n := c;
    ghost var s: Tree, f: nat := t, from;
    AtFork(h, n, s, f);
    while n.v == 0
      invariant Holds(h, n, s) && Good(s, f) && ClosestOf(s, key) == ClosestOf(t, key)
      invariant n.v == 0 <==> s.Fork?
      invariant s.Leaf? ==> n == Cell(Str(s.key), s.value)
      decreases s
    {
      AtFork(h, n, s, f);
      var node := n.u.node;
      var d := Direction(key, node.byteNum, node.bitNum);
      DirectionIs(key, node.byteNum, node.bitNum);
      n := if d then node.right else node.left;
      s, f := Child(s, d), s.at + 1;
      AtFork(h, n, s, f);
    }
  }

  // ----- comparing keys -----

  /** The terminator is where the string ends, and nowhere before. */
  lemma NulAt(k: Key, i: nat)
    requires NulFree(k)
    ensures At(k, i) == 0 <==> i >= |k|
  {
    if i < |k| { assert k[i] in k; }
  }

  lemma SameKey(j: Key, k: Key, i: nat)
    requires NulFree(j) && NulFree(k) && i <= |k| && At(k, i) == At(j, i) == 0
    requires forall h: nat :: h < i ==> At(j, h) == At(k, h)
    ensures j == k
  {
    NulAt(k, i);
    NulAt(j, i);
    forall h: nat | h < |k| ensures h < |j| && j[h] == k[h] {
      assert At(j, h) == At(k, h) && k[h] in k;
    }
    assert i > 0 ==> At(k, i - 1) == At(j, i - 1);
  }

  lemma DiffIs(j: Key, k: Key, byteNum: nat, bitNum: nat)
    requires bitNum < 8 && Bit(At(j, byteNum), bitNum) != Bit(At(k, byteNum), bitNum)
    requires forall h: nat :: h < byteNum ==> At(j, h) == At(k, h)
    requires forall m: nat :: bitNum < m < 8 ==> Bit(At(j, byteNum), m) == Bit(At(k, byteNum), m)
    ensures FirstDiff(j, k, Pos(byteNum, bitNum))
  {
    hide Bit;
    forall q: nat | q < Pos(byteNum, bitNum) ensures KeyBit(j, q) == KeyBit(k, q) {
      if q / 8 < byteNum { assert At(j, q / 8) == At(k, q / 8); }
    }
  }

  /** Where two keys differ first; None if they are the same. */
  method Difference(j: Key, k: Key) returns (d: Option<(nat, nat)>)
    requires NulFree(j) && NulFree(k)
    ensures d == None <==> j == k
    ensures d.Some? ==> d.value.1 < 8 && FirstDiff(j, k, Pos(d.value.0, d.value.1))
  {
    hide Bit, NulFree, SameBefore;
    var byteNum := 0;
    while At(j, byteNum) == At(k, byteNum)
      invariant byteNum <= |k| && forall h: nat :: h < byteNum ==> At(j, h) == At(k, h)
      decreases |k| - byteNum
    {
      if At(k, byteNum) == 0 {
        SameKey(j, k, byteNum);
        return None;
      }
      byteNum := byteNum + 1;
    }
    var bitNum := HighestBit(At(j, byteNum), At(k, byteNum));
    DiffIs(j, k, byteNum, bitNum);
    d := Some((byteNum, bitNum));
  }

  // ----- insertion -----

  /** The heap after a write. */
  function Stored(h: Heap, loc: Loc, c: Cell): Heap {
    if loc.In? && loc.node in h then h[loc.node := Write(h[loc.node], loc.d, c)] else h
  }

  lemma StoredIs(h: Heap, loc: Loc, c: Cell)
    requires loc.In? ==> loc.node in h
    ensures Stored(h, loc, c) == if loc.In? then h[loc.node := Write(h[loc.node], loc.d, c)] else h
  {
  }

  /** A node whose one child is the new leaf and whose other child is `other`. */
  function Branch(key: Key, value: nat, other: Cell, byteNum: nat, bitNum: nat): NodeVal
    requires bitNum < 8
  {
    if KeyBit(key, Pos(byteNum, bitNum)) then NodeVal(other, Cell(Str(key), value), byteNum, bitNum)
    else NodeVal(Cell(Str(key), value), other, byteNum, bitNum)
  }

  /** The new node, with the cell found moved below it, holds the subtree with the new leaf. */
  lemma BranchHolds(h: Heap, loc: Loc, s: Tree, n: Node, key: Key, value: nat, other: Cell, byteNum: nat, bitNum: nat)
    requires bitNum < 8 && n in h && h[n] == Branch(key, value, other, byteNum, bitNum) && Holds(h, other, s)
    requires n !in Nodes(s) && (loc.In? ==> loc.node !in Nodes(s) && loc.node != n)
    ensures Holds(Stored(h, loc, Cell(Inner(n), 0)), Cell(Inner(n), 0), Beside(s, key, value, n, Pos(byteNum, bitNum)))
    ensures Nodes(Beside(s, key, value, n, Pos(byteNum, bitNum))) == {n} + Nodes(s)
  {
    HoldsNodes(h, other, s);
    HoldsFrame(h, Stored(h, loc, Cell(Inner(n), 0)), other, s);
  }

  /** All of an insertion. */
  lemma PutHolds(h: Heap, top: Cell, t: Tree, p: Path, loc: Loc, n: Node, key: Key, value: nat, byteNum: nat,
                 bitNum: nat)
    requires bitNum < 8 && Holds(h, top, t) && PointsTo(t, p, loc) && n !in h
    requires Sub(t, p).Fork? ==> Sub(t, p).at > Pos(byteNum, bitNum)
    requires var d := Pos(byteNum, bitNum);
             Insert(t, key, value, n, d) == Replace(t, p, Insert(Sub(t, p), key, value, n, d))
    ensures var c := Cell(Inner(n), 0);
            var h' := Stored(h[n := Branch(key, value, CellAt(h, top, loc), byteNum, bitNum)], loc, c);
            Holds(h', if loc == Root then c else top, Insert(t, key, value, n, Pos(byteNum, bitNum)))
  {
    hide KeyBit, Holds;
    var s, c, other := Sub(t, p), Cell(Inner(n), 0), CellAt(h, top, loc);
    var h1 := h[n := Branch(key, value, other, byteNum, bitNum)];
    var h' := Stored(h1, loc, c);
    CellThere(h, top, t, p, loc);
    HoldsNodes(h, top, t);
    HoldsNodes(h, other, s);
    HoldsFrame(h, h1, other, s);
    BranchHolds(h1, loc, s, n, key, value, other, byteNum, bitNum);
    forall m | m in Nodes(t) - Nodes(s) ensures WriteTo(h, h', loc, c, m) {}
    WriteReplaces(h, h', top, t, p, loc, c, Beside(s, key, value, n, Pos(byteNum, bitNum)));
  }

  /** The loop that finds where to insert keeps the value of the insertion. */
  lemma InsertStep(t: Tree, p: Path, key: Key, value: nat, n: Node, d: nat)
    requires Reaches(t, p) && Sub(t, p).Fork? && Sub(t, p).at <= d
    requires Insert(t, key, value, n, d) == Replace(t, p, Insert(Sub(t, p), key, value, n, d))
    ensures var b := KeyBit(key, Sub(t, p).at); Reaches(t, p + [b]) && Sub(t, p + [b]) == Child(Sub(t, p), b)
    ensures var b := KeyBit(key, Sub(t, p).at);
            Insert(t, key, value, n, d) == Replace(t, p + [b], Insert(Sub(t, p + [b]), key, value, n, d))
  {
    var b := KeyBit(key, Sub(t, p).at);
    Extend(t, p, b, Insert(Child(Sub(t, p), b), key, value, n, d));
  }

  lemma InsertForks(t: Tree, k: Key, v: nat, n: Node, d: nat)
    ensures Insert(t, k, v, n, d).Fork?
  {
  }

  lemma LeafHolds(h: Heap, key: Key, value: nat)
    requires NulFree(key) && value != 0
    ensures Holds(h, Cell(Str(key), value), Leaf(key, value)) && Good(Leaf(key, value), 0)
    ensures Content(Leaf(key, value)) == map[key := value]
  {
  }

  // ----- removal -----

  /** The loop of `map_delete` keeps the value of the removal. */
  lemma RemoveStep(t: Tree, p: Path, key: Key)
    requires t.Fork? && Reaches(t, p) && Sub(t, p).Fork? && Child(Sub(t, p), KeyBit(key, Sub(t, p).at)).Fork?
    requires Remove(t, key) == Replace(t, p, Remove(Sub(t, p), key))
    ensures var b := KeyBit(key, Sub(t, p).at);
            && Reaches(t, p + [b]) && Sub(t, p + [b]) == Child(Sub(t, p), b)
            && Remove(t, key) == Replace(t, p + [b], Remove(Sub(t, p + [b]), key))
  {
    var b := KeyBit(key, Sub(t, p).at);
    Extend(t, p, b, Remove(Child(Sub(t, p), b), key));
  }

  /** All of a removal: the cell of a fork is overwritten with that of one of its children. */
  lemma DeleteHolds(h: Heap, top: Cell, t: Tree, p: Path, loc: Loc, d: bool)
    requires Holds(h, top, t) && PointsTo(t, p, loc) && Sub(t, p).Fork? && Sub(t, p).node in h
    ensures var c := ChildCell(h[Sub(t, p).node], d);
            Holds(Stored(h, loc, c), if loc == Root then c else top, Replace(t, p, Child(Sub(t, p), d)))
  {
    hide Holds;
    var s := Sub(t, p);
    CellThere(h, top, t, p, loc);
    ForkParts(h, CellAt(h, top, loc), s, d);
    var c := ChildCell(h[s.node], d);
    var h' := Stored(h, loc, c);
    HoldsNodes(h, top, t);
    HoldsNodes(h, c, Child(s, d));
    HoldsFrame(h, h', c, Child(s, d));
    forall m | m in Nodes(t) - Nodes(s) ensures WriteTo(h, h', loc, c, m) {}
    WriteReplaces(h, h', top, t, p, loc, c, Child(s, d));
  }

  /** Taking over the entries of a fork side by side. */
  lemma CopyBoth(m: map<Key, nat>, t: Tree, from: nat)
    requires Good(t, from) && t.Fork?
    ensures m + Content(t) == m + Content(t.left) + Content(t.right)
    ensures m == m + Content(t) ==> m == m + Content(t.left) && m == m + Content(t.right)
  {
    Sides(t, true);
    Sides(t, false);
    if m == m + Content(t) {
      forall k | k in Content(t) ensures k in m && m[k] == Content(t)[k] {
        assert k in (m + Content(t)) && (m + Content(t))[k] == Content(t)[k];
      }
      assert m == m + Content(t.left) && m == m + Content(t.right);
    }
  }

  lemma LeafIs(t: Tree, from: nat)
    requires Good(t, from) && t.Leaf?
    ensures NulFree(t.key) && t.value != 0 && Content(t) == map[t.key := t.value]
  {
  }

  lemma OnlyLeaf(t: Tree)
    requires t.Leaf?
    ensures Content(t) == map[t.key := t.value]
  {
  }

  lemma HasKeys(t: Tree, from: nat)
    requires Good(t, from)
    ensures Content(t) != map[]
  {
    ClosestIn(t, [], from);
  }

  // ----- iteration -----

  /** A handler that is shown the entries `es` one after the other, after having seen `seen`,
      has now seen `out`; `more` is false if it asked to stop. */
  ghost predicate Shown(handle: seq<Entry> -> bool, seen: seq<Entry>, es: seq<Entry>, out: seq<Entry>, more: bool) {
    && seen <= out <= seen + es
    && (forall i :: |seen| < i < |out| ==> handle(out[..i]))
    && if more then out == seen + es && (es != [] ==> handle(out)) else |seen| < |out| && !handle(out)
  }

  lemma ShownOne(handle: seq<Entry> -> bool, seen: seq<Entry>, e: Entry)
    ensures Shown(handle, seen, [e], seen + [e], handle(seen + [e]))
  {
    var out := seen + [e];
    assert seen <= out <= seen + [e];
    if handle(out) {
      assert Shown(handle, seen, [e], out, true);
    } else {
      assert Shown(handle, seen, [e], out, false);
    }
  }

  lemma ShownBoth(handle: seq<Entry> -> bool, seen: seq<Entry>, a: seq<Entry>, mid: seq<Entry>, b: seq<Entry>,
                  out: seq<Entry>, more: bool)
    requires Shown(handle, seen, a, mid, true) && Shown(handle, mid, b, out, more)
    ensures Shown(handle, seen, a + b, out, more)
  {
    assert mid + b == seen + (a + b);
    assert out[..|seen|] == mid[..|seen|] == seen;
    assert more && b == [] ==> out == mid;
    assert a + b == [] ==> a == [] && b == [];
    forall i | |seen| < i < |out| ensures handle(out[..i]) {
      if i < |mid| { assert out[..i] == mid[..i]; }
      if i == |mid| { assert out[..i] == mid; }
    }
  }

  lemma ShownLess(handle: seq<Entry> -> bool, seen: seq<Entry>, a: seq<Entry>, b: seq<Entry>, out: seq<Entry>)
    requires Shown(handle, seen, a, out, false)
    ensures Shown(handle, seen, a + b, out, false)
  {
    assert seen + a + b == seen + (a + b);
  }

  /** `iterate`. */
  method IterateCell(c: Cell, handle: seq<Entry> -> bool, seen: seq<Entry>, ghost h: Heap, ghost t: Tree,
                     ghost from: nat)
    returns (out: seq<Entry>, more: bool)
    requires NodesAre(h) && Holds(h, c, t) && Good(t, from)
    ensures Shown(handle, seen, Entries(t), out, more)
    decreases t
  {
    hide Holds, Good, Shown;
    AtFork(h, c, t, from);
    if c.v != 0 {
      out := seen + [Entry(c.u.key, c.v)];
      more := handle(out);
      ShownOne(handle, seen, Entry(c.u.key, c.v));
      return;
    }
    out, more := IterateCell(c.u.node.left, handle, seen, h, t.left, t.at + 1);
    if !more {
      ShownLess(handle, seen, Entries(t.left), Entries(t.right), out);
      return;
    }
    ghost var mid := out;
    out, more := IterateCell(c.u.node.right, handle, out, h, t.right, t.at + 1);
    ShownBoth(handle, seen, Entries(t.left), mid, Entries(t.right), out, more);
  }

  // ----- prefixes -----

  /** `map_prefix` from a non-empty map's cell. */
  method PrefixCell(c: Cell, prefix: Key, ghost h: Heap, ghost t: Tree) returns (r: Cell)
    requires NodesAre(h) && Holds(h, c, t) && Good(t, 0) && NulFree(prefix)
    ensures if prefix <= ClosestOf(t, prefix).key then Holds(h, r, Top(t, prefix)) else r == Cell(Nil, 0)
  {
    hide Holds, Good, KeyBit, Bit, NulFree;
    var n, top := c, c;
    ghost var s: Tree, f: nat, u := t, 0, t;
    AtFork(h, n, s, f);
    while n.v == 0
      invariant Holds(h, n, s) && Good(s, f) && ClosestOf(s, prefix) == ClosestOf(t, prefix)
      invariant Holds(h, top, u) && (u == s || (u.Fork? && u.at >= 8 * |prefix|)) && Top(t, prefix) == Top(u, prefix)
      invariant u != s ==> f >= 8 * |prefix|
      invariant n.v == 0 <==> s.Fork?
      invariant s.Leaf? ==> n == Cell(Str(s.key), s.value)
      decreases s
    {
      AtFork(h, n, s, f);
      var node := n.u.node;
      var b := At(prefix, node.byteNum);
      NulAt(prefix, node.byteNum);
      var direction := Bit(b, node.bitNum);
      BitAt(prefix, node.byteNum, node.bitNum);
      n := if direction then node.right else node.left;
      s, f := Child(s, direction), s.at + 1;
      if b != 0 { top, u := n, s; }
      AtFork(h, n, s, f);
    }
    AtFork(h, n, s, f);
    if !(prefix <= n.u.key) { return Cell(Nil, 0); }
    r := top;
  }

  // ----- the map -----

  class Map {
    var top: Cell
    ghost var heap: Heap
    ghost var tree: Option<Tree>

    ghost predicate Shaped()
      reads this, heap.Keys
    {
      && NodesAre(heap)
      && if top.u == Nil then tree == None
         else tree.Some? && Holds(heap, top, tree.value) && Good(tree.value, 0)
    }

    ghost predicate Valid()
      reads this, heap.Keys
    {
      Shaped() == true
    }

    /** The finite map this stands for; 0 is the NULL no key is mapped to. */
    ghost function Model(): (m: map<Key, nat>)
      reads this
    {
      if tree.Some? then Content(tree.value) else map[]
    }

    /** `map_new`. */
    constructor ()
      ensures Valid() && Model() == map[] && heap == map[] && top.v == 0
    {
      top, heap, tree := Cell(Nil, 0), map[], None;
    }

    lemma TreeIs()
      requires Valid()
      ensures NodesAre(heap) && (top.u == Nil <==> tree == None)
      ensures tree.Some? ==> Holds(heap, top, tree.value) && Good(tree.value, 0) && Model() == Content(tree.value)
    {
    }

    lemma IsValid()
      requires NodesAre(heap) && tree.Some? && top.u != Nil && Holds(heap, top, tree.value) && Good(tree.value, 0)
      ensures Valid() && Model() == Content(tree.value)
    {
    }

    /** `map_get`, with 0 for NULL. */
    method Get(key: Key) returns (v: nat)
      requires Valid() && NulFree(key)
      ensures v == if key in Model() then Model()[key] else 0
      ensures key in Model() ==> v != 0
    {
      hide Holds, Good, Content, NulFree;
      TreeIs();
      v := 0;
      if top.u != Nil {
        var n := Closest(top, key, heap, tree.value, 0);
        ClosestIn(tree.value, key, 0);
        if key == n.u.key { v := n.v; }
      }
    }

    // ----- reading and writing cells -----

    /** `*loc`. */
    method ReadCell(loc: Loc) returns (c: Cell)
      requires NodesAre(heap) && (loc.In? ==> loc.node in heap)
      ensures c == CellAt(heap, top, loc)
    {
      c := match loc case Root => top case In(m, d) => if d then m.right else m.left;
    }

    /** `*loc = c`. */
    method SetCell(loc: Loc, c: Cell)
      requires NodesAre(heap) && (loc.In? ==> loc.node in heap)
      modifies this`top, this`heap, heap.Keys
      ensures NodesAre(heap) && heap.Keys == old(heap.Keys)
      ensures loc == Root ==> top == c && heap == old(heap)
      ensures loc.In? ==> top == old(top) && heap == old(heap)[loc.node := Write(old(heap)[loc.node], loc.d, c)]
    {
      match loc
      case Root =>
        top := c;
      case In(node, d) =>
        heap := heap[node := Write(heap[node], d, c)];
        if d { node.right := c; } else { node.left := c; }
    }

    /** `malloc` of a node. */
    method NewNode(left: Cell, right: Cell, byteNum: nat, bitNum: nat) returns (n: Node)
      requires NodesAre(heap)
      modifies this`heap
      ensures NodesAre(heap) && fresh(n) && n !in old(heap)
      ensures heap == old(heap)[n := NodeVal(left, right, byteNum, bitNum)]
    {
      n := new Node(left, right, byteNum, bitNum);
      heap := heap[n := NodeVal(left, right, byteNum, bitNum)];
    }

    /** `newn->child[!new_dir] = *n; *n = newn`. */
    method MoveBelow(n: Node, loc: Loc, dir: bool, ghost h: Heap)
      requires NodesAre(heap) && n in heap && n !in h && heap == h[n := heap[n]] && (loc.In? ==> loc.node in h)
      modifies this`top, this`heap, heap.Keys
      ensures NodesAre(heap) && heap.Keys == old(heap.Keys)
      ensures var other, c := CellAt(h, old(top), loc), Cell(Inner(n), 0);
              && heap == Stored(h[n := Write(old(heap)[n], !dir, other)], loc, c)
              && top == if loc == Root then c else old(top)
    {
      hide NodesAre, Stored, Write;
      var other := ReadCell(loc);
      SetCell(In(n, !dir), other);
      ghost var h1 := heap;
      assert h1 == h[n := Write(old(heap)[n], !dir, other)];
      SetCell(loc, Cell(Inner(n), 0));
      StoredIs(h1, loc, Cell(Inner(n), 0));
    }

    // ----- insertion -----

    /** The second walk of `map_put`: not to the closest key, but to the first cell below which
        every key differs from the new one in that bit. */
    method FindPlace(key: Key, value: nat, byteNum: nat, bitNum: nat, n: Node, ghost t: Tree)
      returns (loc: Loc, ghost p: Path)
      requires NodesAre(heap) && Holds(heap, top, t) && Good(t, 0) && bitNum < 8
      ensures PointsTo(t, p, loc)
      ensures Sub(t, p).Fork? ==> Sub(t, p).at > Pos(byteNum, bitNum)
      ensures var d := Pos(byteNum, bitNum);
              Insert(t, key, value, n, d) == Replace(t, p, Insert(Sub(t, p), key, value, n, d))
      ensures var c := CellAt(heap, top, loc);
              c.v == 0 ==> c.u.Inner? && c.u.node in heap && PosOf(heap[c.u.node]).Some?
                           && PosOf(heap[c.u.node]).value > Pos(byteNum, bitNum)
    {
      hide Holds, Good, KeyBit, Bit, Insert, PointsTo;
      loc, p := Root, [];
      StartAt(t);
      var c := top;
      ghost var s: Tree, f: nat := t, 0;
      AtFork(heap, c, s, f);
      while c.v == 0
        invariant PointsTo(t, p, loc) && Reaches(t, p) && s == Sub(t, p) && Holds(heap, c, s) && Good(s, f)
        invariant Insert(t, key, value, n, Pos(byteNum, bitNum))
                  == Replace(t, p, Insert(s, key, value, n, Pos(byteNum, bitNum)))
        invariant c.v == 0 <==> s.Fork?
        decreases s
      {
        AtFork(heap, c, s, f);
        var node := c.u.node;
        if node.byteNum > byteNum { break; }
        if node.byteNum == byteNum && node.bitNum < bitNum { break; }
        var d := Direction(key, node.byteNum, node.bitNum);
        DirectionIs(key, node.byteNum, node.bitNum);
        InsertStep(t, p, key, value, n, Pos(byteNum, bitNum));
        PointsStep(t, p, loc, d);
        c, loc := if d then node.right else node.left, In(node, d);
        p, s, f := p + [d], Child(s, d), s.at + 1;
        AtFork(heap, c, s, f);
      }
      AtFork(heap, c, s, f);
      CellThere(heap, top, t, p, loc);
      AtFork(heap, CellAt(heap, top, loc), s, f);
    }

    /** `map_put`. */
    method Put(key: Key, value: nat) returns (ok: bool)
      requires Valid() && NulFree(key)
      modifies this, heap.Keys
      ensures Valid() && fresh(heap.Keys - old(heap.Keys)) && old(heap.Keys) <= heap.Keys
      ensures ok <==> value != 0 && key !in old(Model())
      ensures Model() == if ok then old(Model())[key := value] else old(Model())
      ensures !ok ==> top == old(top) && heap == old(heap)
    {
      hide Holds, Good, KeyBit, Bit, Insert, PointsTo, Content, NulFree;
      TreeIs();
      if value == 0 { return false; }
      if top.u == Nil {
        top := Cell(Str(key), value);
        tree := Some(Leaf(key, value));
        LeafHolds(heap, key, value);
        return true;
      }
      ghost var t := tree.value;
      var n := Closest(top, key, heap, t, 0);
      ClosestIn(t, key, 0);
      var diff := Difference(n.u.key, key);
      if diff == None { return false; }
      var (byteNum, bitNum) := diff.value;
      ok := true;
      PutNew(key, value, byteNum, bitNum);
    }

    /** The part of `map_put` for a new key that first differs in the given bit. */
    method PutNew(key: Key, value: nat, byteNum: nat, bitNum: nat)
      requires Valid() && NulFree(key) && tree.Some? && value != 0 && bitNum < 8
      requires FirstDiff(ClosestOf(tree.value, key).key, key, Pos(byteNum, bitNum))
      modifies this, heap.Keys
      ensures Valid() && fresh(heap.Keys - old(heap.Keys)) && old(heap.Keys) <= heap.Keys
      ensures key !in old(Model()) && Model() == old(Model())[key := value]
    {
      hide Map.Valid, NodesAre, Holds, Good, KeyBit, Bit, Insert, PointsTo, Content, NulFree, FirstDiff;
      TreeIs();
      ghost var t, h, was := tree.value, heap, top;
      var dir := Bit(At(key, byteNum), bitNum);
      var leaf := Cell(Str(key), value);
      var n := NewNode(leaf, leaf, byteNum, bitNum);
      HoldsNodes(h, top, t);
      HoldsFrame(h, heap, top, t);
      var loc; ghost var p;
      loc, p := FindPlace(key, value, byteNum, bitNum, n, t);
      CellThere(h, top, t, p, loc);
      BitAt(key, byteNum, bitNum);
      MoveBelow(n, loc, dir, h);
      assert Branch(key, value, CellAt(h, was, loc), byteNum, bitNum)
             == Write(NodeVal(leaf, leaf, byteNum, bitNum), !dir, CellAt(h, was, loc));
      InsertGood(t, key, value, n, Pos(byteNum, bitNum), 0);
      PutHolds(h, was, t, p, loc, n, key, value, byteNum, bitNum);
      tree := Some(Insert(t, key, value, n, Pos(byteNum, bitNum)));
      InsertForks(t, key, value, n, Pos(byteNum, bitNum));
      AtFork(heap, top, tree.value, 0);
      IsValid();
    }

    // ----- removal -----

    /** `map_delete`.  A map that loses its last key keeps that key's value in its root cell. */
    method Delete(key: Key) returns (value: nat)
      requires Valid() && NulFree(key)
      modifies this, heap.Keys
      ensures Valid() && heap.Keys == old(heap.Keys)
      ensures value == if key in old(Model()) then old(Model())[key] else 0
      ensures Model() == old(Model()) - {key}
      ensures key in old(Model()) && Model() == map[] ==> top.v == value != 0
    {
      hide Holds, Good, KeyBit, Bit, PointsTo, Content, NulFree;
      TreeIs();
      if top.u == Nil { return 0; }
      ghost var t := tree.value;
      var n, parent, d; ghost var p;
      n, parent, d, p := FindLeaf(key, t);
      ClosestIn(t, key, 0);
      if key != n.u.key { return 0; }
      value := n.v;
      if parent == None {
        AtFork(heap, top, t, 0);
        OnlyLeaf(t);
        top := top.(u := Nil);
        tree := None;
      } else {
        RemoveGood(t, key, 0);
        RaiseSibling(t, p, parent.value, !d);
        tree := Some(Remove(t, key));
        HasKeys(Remove(t, key), 0);
        AtFork(heap, top, Remove(t, key), 0);
      }
    }

    /** The walk of `map_delete`: the closest leaf, and the cell of the fork above it. */
    method FindLeaf(key: Key, ghost t: Tree) returns (n: Cell, parent: Option<Loc>, d: bool, ghost p: Path)
      requires NodesAre(heap) && Holds(heap, top, t) && Good(t, 0)
      ensures n == Cell(Str(ClosestOf(t, key).key), ClosestOf(t, key).value)
      ensures parent == None <==> t.Leaf?
      ensures parent.Some? ==> PointsTo(t, p, parent.value) && Reaches(t, p) && Sub(t, p).Fork?
      ensures parent.Some? ==> Remove(t, key) == Replace(t, p, Child(Sub(t, p), !d))
    {
      hide Holds, Good, KeyBit, Bit, PointsTo;
      parent, d, p, n := None, false, [], top;
      var loc := Root;
      ghost var q: Path, s: Tree, f: nat := [], t, 0;
      StartAt(t);
      AtFork(heap, n, s, f);
      while n.v == 0
        invariant PointsTo(t, q, loc) && Reaches(t, q) && s == Sub(t, q) && Holds(heap, n, s) && Good(s, f)
        invariant ClosestOf(s, key) == ClosestOf(t, key)
        invariant n.v == 0 <==> s.Fork?
        invariant s.Leaf? ==> n == Cell(Str(s.key), s.value)
        invariant s.Fork? ==> t.Fork? && Remove(t, key) == Replace(t, q, Remove(s, key))
        invariant if parent == None then q == [] && s == t
                  else t.Fork? && PointsTo(t, p, parent.value) && Reaches(t, p) && Sub(t, p).Fork?
        invariant parent.Some? && s.Leaf? ==> Remove(t, key) == Replace(t, p, Child(Sub(t, p), !d))
        decreases s
      {
        AtFork(heap, n, s, f);
        var node := n.u.node;
        parent, p := Some(loc), q;
        d := Direction(key, node.byteNum, node.bitNum);
        DirectionIs(key, node.byteNum, node.bitNum);
        if Child(s, d).Fork? { RemoveStep(t, q, key); } else { Extend(t, q, d, s); }
        PointsStep(t, q, loc, d);
        n, loc := if d then node.right else node.left, In(node, d);
        q, s, f := q + [d], Child(s, d), s.at + 1;
        AtFork(heap, n, s, f);
      }
    }

    /** `*parent = old->child[!direction]`. */
    method RaiseSibling(ghost t: Tree, ghost p: Path, parent: Loc, d: bool)
      requires NodesAre(heap) && Holds(heap, top, t) && PointsTo(t, p, parent) && Reaches(t, p) && Sub(t, p).Fork?
      modifies this`top, this`heap, heap.Keys
      ensures NodesAre(heap) && heap.Keys == old(heap.Keys)
      ensures Holds(heap, top, Replace(t, p, Child(Sub(t, p), d)))
    {
      hide Holds, NodesAre, PointsTo, Stored, Write;
      CellThere(heap, top, t, p, parent);
      ForkParts(heap, CellAt(heap, top, parent), Sub(t, p), d);
      DeleteHolds(heap, top, t, p, parent, d);
      ghost var h := heap;
      var cell := ReadCell(parent);
      var node := cell.u.node;
      var c := ReadCell(In(node, d));
      SetCell(parent, c);
      StoredIs(h, parent, c);
    }

    // ----- copying -----

    /** `copy`: the entries below a cell replace those with the same keys.  The cell may be one of
        this very map, which then has all of them already. */
    method CopyCell(c: Cell, ghost h: Heap, ghost t: Tree, ghost from: nat) returns (ok: bool)
      requires Valid() && NodesAre(h) && Holds(h, c, t) && Good(t, from)
      requires h.Keys !! heap.Keys || (h == heap && Model() == Model() + Content(t))
      modifies this, heap.Keys
      ensures Valid() && fresh(heap.Keys - old(heap.Keys)) && old(heap.Keys) <= heap.Keys
      ensures ok && Model() == old(Model()) + Content(t)
      ensures old(Model()) == old(Model()) + Content(t) ==> top == old(top) && heap == old(heap)
      decreases t
    {
      hide Map.Valid, Model, Holds, Good, Content, NulFree;
      AtFork(h, c, t, from);
      if c.v == 0 {
        ghost var m := Model();
        CopyBoth(m, t, from);
        ok := CopyCell(c.u.node.left, h, t.left, t.at + 1);
        TreeIs();
        ok := CopyCell(c.u.node.right, h, t.right, t.at + 1);
      } else {
        LeafIs(t, from);
        ok := Put(c.u.key, c.v);
        if !ok {
          var v := Get(c.u.key);
          if v != c.v {
            var _ := Delete(c.u.key);
            ok := Put(c.u.key, c.v);
          } else {
            ok := true;
          }
        }
      }
    }

    /** `map_copy`. */
    method Copy(src: Map?) returns (ok: bool)
      requires Valid() && (src != null && src != this ==> src.Valid() && src.heap.Keys !! heap.Keys)
      modifies this, heap.Keys
      ensures Valid() && fresh(heap.Keys - old(heap.Keys)) && old(heap.Keys) <= heap.Keys
      ensures ok && Model() == old(Model()) + if src == null then map[] else old(src.Model())
      ensures src != null && src != this ==> src.Valid() && src.Model() == old(src.Model())
    {
      hide Holds, Good, Content, NodesAre;
      if src == null || src.top.u == Nil { return true; }
      src.TreeIs();
      ok := CopyCell(src.top, src.heap, src.tree.value, 0);
    }

    // ----- reading all or part of it -----

    /** The entries in the order `map_iterate` visits them. */
    ghost function InOrder(): seq<Entry>
      reads this
    {
      if tree.Some? then Entries(tree.value) else []
    }

    /** They are the entries of the map, each once, by strictly increasing key. */
    lemma InOrderIs()
      requires Valid()
      ensures forall i, j :: 0 <= i < j < |InOrder()| ==> Less(InOrder()[i].key, InOrder()[j].key)
      ensures forall k, v :: Entry(k, v) in InOrder() <==> k in Model() && Model()[k] == v
      ensures |InOrder()| == |Model()|
    {
      hide Less, Content, Good, Holds;
      TreeIs();
      if tree.Some? { EntriesSorted(tree.value, 0); }
    }

    /** `map_iterate`, for a handler whose decision to go on may depend on all it has seen. */
    method Iterate(handle: seq<Entry> -> bool) returns (seen: seq<Entry>, more: bool)
      requires Valid()
      ensures Shown(handle, [], InOrder(), seen, more)
    {
      hide Holds, Good, Shown;
      TreeIs();
      if top.u == Nil {
        ShownNothing(handle);
        return [], true;
      }
      seen, more := IterateCell(top, handle, [], heap, tree.value, 0);
    }

    /** `map_first`: the entry with the least key. */
    method First() returns (e: Option<Entry>)
      requires Valid()
      ensures e == None <==> Model() == map[]
      ensures e.Some? ==> e.value.key in Model() && Model()[e.value.key] == e.value.value
      ensures e.Some? ==> forall k :: k in Model() && k != e.value.key ==> Less(e.value.key, k)
    {
      hide Less, Content, Shown;
      var seen, more := Iterate(es => false);
      InOrderIs();
      ShownFirst(InOrder(), seen, more);
      ghost var es := InOrder();
      if seen == [] { return None; }
      e := Some(seen[0]);
      assert Entry(e.value.key, e.value.value) == es[0] && es[0] in es;
      forall k | k in Model() && k != e.value.key ensures Less(e.value.key, k) {
        assert Entry(k, Model()[k]) in es;
        var i :| 0 <= i < |es| && es[i] == Entry(k, Model()[k]);
      }
    }

    /** `map_prefix`: a cell that holds exactly the keys with the prefix. */
    method Prefix(prefix: Key) returns (c: Cell, ghost s: Option<Tree>, ghost from: nat)
      requires Valid() && NulFree(prefix)
      ensures if top.u == Nil then s == None && c == top
              else if s == None then c == Cell(Nil, 0)
              else Holds(heap, c, s.value) && Good(s.value, from)
      ensures WithPrefix(Model(), prefix) == if s == None then map[] else Content(s.value)
      ensures c.u == Nil <==> WithPrefix(Model(), prefix) == map[]
    {
      hide Holds, Good, Content, NulFree;
      TreeIs();
      from := 0;
      if top.u == Nil { return top, None, 0; }
      c := PrefixCell(top, prefix, heap, tree.value);
      PrefixGood(tree.value, prefix);
      s := if prefix <= ClosestOf(tree.value, prefix).key then Some(CritBit.Top(tree.value, prefix)) else None;
      from := TopGood(tree.value, prefix, 0);
      if s.Some? {
        HasKeys(s.value, from);
        AtFork(heap, c, s.value, from);
      }
    }

    /** `map_closest`: the value of the key, or else of the only key it is a prefix of, or else
        NULL.  That is what it yields exactly if the map has keys or its root cell holds no
        value: a map that lost its last key answers with the value of that key. */
    method ClosestValue(prefix: Key) returns (v: nat)
      requires Valid() && NulFree(prefix)
      ensures v == Unambiguous(Model(), prefix) <==> Model() != map[] || top.v == 0
      ensures Model() == map[] ==> v == top.v
      ensures Model() != map[] ==> IsClosest(Model(), prefix, v)
    {
      hide Holds, Good, Content, NulFree, IsClosest;
      UnambiguousMeans(Model(), prefix);
      TreeIs();
      v := Get(prefix);
      if tree.Some? { HasKeys(tree.value, 0); }
      if v == 0 {
        var c; ghost var s, from;
        c, s, from := Prefix(prefix);
        v := c.v;
        if s.Some? { AtFork(heap, c, s.value, from); }
        UnambiguousIs(Model(), prefix, s, from);
      }
    }
  }

  lemma ShownNothing(handle: seq<Entry> -> bool)
    ensures Shown(handle, [], [], [], true)
  {
  }

  lemma ShownFirst(es: seq<Entry>, seen: seq<Entry>, more: bool)
    requires Shown((x: seq<Entry>) => false, [], es, seen, more)
    ensures if es == [] then seen == [] else seen != [] && seen[0] == es[0]
  {
    assert [] + es == es;
  }

  lemma {:induction false} TopGood(t: Tree, p: Key, from: nat) returns (f: nat)
    requires Good(t, from)
    ensures Good(CritBit.Top(t, p), f)
  {
    if t.Fork? && t.at < 8 * |p| { f := TopGood(Child(t, KeyBit(p, t.at)), p, t.at + 1); } else { f := from; }
  }

  /** The value of the key, or of the only one that starts with it; else 0. */
  ghost function Unambiguous(m: map<Key, nat>, p: Key): nat {
    if p in m then m[p]
    else
      var s := WithPrefix(m, p);
      if |s| == 1 then var k :| k in s; s[k] else 0
  }

  /** `k` is a key with the prefix, and there is no other. */
  ghost predicate OnlyWith(m: map<Key, nat>, p: Key, k: Key) {
    k in m && p <= k && forall j :: j in m && p <= j ==> j == k
  }

  /** A key is found even if it is a prefix of others; what is no key stands for the only key it
      is a prefix of, and for nothing if there are several or none. */
  ghost predicate IsClosest(m: map<Key, nat>, p: Key, v: nat) {
    if p in m then v == m[p]
    else
      && (forall k :: OnlyWith(m, p, k) ==> v == m[k])
      && ((forall k :: !OnlyWith(m, p, k)) ==> v == 0)
  }

  lemma UnambiguousMeans(m: map<Key, nat>, p: Key)
    ensures IsClosest(m, p, Unambiguous(m, p))
  {
    if p !in m {
      var s := WithPrefix(m, p);
      forall k | OnlyWith(m, p, k) ensures Unambiguous(m, p) == m[k] {
        assert s.Keys == {k};
        assert |s| == |s.Keys| == 1;
      }
      if |s| == 1 { OneKey(m, p); }
    }
  }

  lemma OneKey(m: map<Key, nat>, p: Key)
    requires |WithPrefix(m, p)| == 1
    ensures exists k :: OnlyWith(m, p, k)
  {
    var s := WithPrefix(m, p);
    assert |s.Keys| == 1;
    var k :| k in s.Keys;
    forall j | j in m && p <= j ensures j == k {
      assert j in s.Keys;
      if j != k { TwoKeys(s.Keys, j, k); }
    }
    assert OnlyWith(m, p, k);
  }

  lemma UnambiguousIs(m: map<Key, nat>, p: Key, t: Option<Tree>, from: nat)
    requires p !in m && (t.Some? ==> Good(t.value, from))
    requires WithPrefix(m, p) == if t == None then map[] else Content(t.value)
    ensures Unambiguous(m, p) == if t.Some? && t.value.Leaf? then t.value.value else 0
  {
    hide Good, WithPrefix;
    if t.Some? {
      OneOrMore(t.value, from);
      if t.value.Leaf? {
        assert |Content(t.value).Keys| == |{t.value.key}|;
      } else {
        var j, k :| j in Content(t.value) && k in Content(t.value) && j != k;
        TwoKeys(Content(t.value).Keys, j, k);
      }
    }
  }

  lemma TwoKeys(s: set<Key>, j: Key, k: Key)
    requires j in s && k in s && j != k
    ensures |s| >= 2
  {
    assert s == {j, k} + (s - {j, k});
  }

  /** A leaf is one key; a fork has at least two. */
  lemma OneOrMore(t: Tree, from: nat)
    requires Good(t, from)
    ensures t.Leaf? ==> Content(t) == map[t.key := t.value] && Content(t).Keys == {t.key}
    ensures t.Fork? ==> exists j, k :: j in Content(t) && k in Content(t) && j != k
  {
    if t.Fork? {
      ClosestIn(t.left, [], t.at + 1);
      ClosestIn(t.right, [], t.at + 1);
      Sides(t, true);
      Sides(t, false);
      var j, k := ClosestOf(t.left, []).key, ClosestOf(t.right, []).key;
      assert j in Content(t) && k in Content(t) && j != k;
    }
  }

  /** A map emptied by a deletion shows the value it no longer holds. */
  method StaleValue(key: Key, value: nat) returns (v: nat)
    requires NulFree(key) && value != 0
    ensures v == value
  {
    var m := new Map();
    var _ := m.Put(key, value);
    var _ := m.Delete(key);
    v := m.ClosestValue(key);
  }
}
