/** Crit-bit trees as values. */
module CritBit {
  import opened Bits

  /** The union in struct Map. */
  datatype Item = Nil | Str(key: Key) | Inner(node: Node)

  /** struct Map: a key and its value, or an internal node with a NULL (0) value. */
  datatype Cell = Cell(u: Item, v: nat)

  /** struct Node. */
  class Node {
    var left: Cell
    var right: Cell
    var byteNum: nat
    var bitNum: nat

    constructor (left: Cell, right: Cell, byteNum: nat, bitNum: nat)
      ensures this.left == left && this.right == right && this.byteNum == byteNum && this.bitNum == bitNum
    {
      this.left, this.right, this.byteNum, this.bitNum := left, right, byteNum, bitNum;
    }
  }

  datatype NodeVal = NodeVal(left: Cell, right: Cell, byteNum: nat, bitNum: nat)
  type Heap = map<Node, NodeVal>

  /** The tree below a cell; `at` is the position of the bit a fork splits by. */
  datatype Tree = Leaf(key: Key, value: nat) | Fork(node: Node, at: nat, left: Tree, right: Tree)

  function Child(t: Tree, d: bool): Tree
    requires t.Fork?
  {
    if d then t.right else t.left
  }

  function Nodes(t: Tree): set<Node> {
    match t
    case Leaf(_, _) => {}
    case Fork(n, _, l, r) => {n} + Nodes(l) + Nodes(r)
  }

  /** The finite map a tree stands for. */
  function Content(t: Tree): map<Key, nat> {
    match t
    case Leaf(k, v) => map[k := v]
    case Fork(_, _, l, r) => Content(l) + Content(r)
  }

  /** All keys under a fork agree before its bit, and are split by it. */
  ghost predicate Splits(t: Tree)
    requires t.Fork?
  {
    && (forall k :: k in Content(t.left) ==> !KeyBit(k, t.at))
    && (forall k :: k in Content(t.right) ==> KeyBit(k, t.at))
    && (forall j, k :: j in Content(t) && k in Content(t) ==> SameBefore(j, k, t.at))
  }

  /** The tree invariant: bit positions grow along every path. */
  ghost predicate Good(t: Tree, from: nat) {
    match t
    case Leaf(k, v) => NulFree(k) && v != 0
    case Fork(_, at, l, r) => from <= at && Good(l, at + 1) && Good(r, at + 1) && Splits(t)
  }

  // ----- lookup -----

  /** The leaf `closest` ends at. */
  function ClosestOf(t: Tree, k: Key): (l: Tree)
    ensures l.Leaf?
  {
    match t
    case Leaf(_, _) => t
    case Fork(_, at, l, r) => ClosestOf(if KeyBit(k, at) then r else l, k)
  }

  lemma {:induction false} ClosestIn(t: Tree, k: Key, from: nat)
    requires Good(t, from)
    ensures var c := ClosestOf(t, k);
            c.key in Content(t) && Content(t)[c.key] == c.value && NulFree(c.key) && c.value != 0
    ensures k in Content(t) ==> ClosestOf(t, k).key == k
  {
    if t.Fork? {
      ClosestIn(t.left, k, t.at + 1);
      ClosestIn(t.right, k, t.at + 1);
      var c := ClosestOf(t, k);
      assert c.key in Content(t.left) ==> c.key !in Content(t.right);
    }
  }

  lemma {:induction false} KeysNulFree(t: Tree, from: nat, k: Key)
    requires Good(t, from) && k in Content(t)
    ensures NulFree(k) && Content(t)[k] != 0
  {
    if t.Fork? {
      if k in Content(t.right) { KeysNulFree(t.right, t.at + 1, k); } else { KeysNulFree(t.left, t.at + 1, k); }
    }
  }

  // ----- insertion -----

  /** The new leaf beside `t`, split by bit `d` of its key. */
  function Beside(t: Tree, k: Key, v: nat, n: Node, d: nat): Tree {
    if KeyBit(k, d) then Fork(n, d, t, Leaf(k, v)) else Fork(n, d, Leaf(k, v), t)
  }

  function Insert(t: Tree, k: Key, v: nat, n: Node, d: nat): Tree {
    if t.Fork? && t.at <= d then
      if KeyBit(k, t.at) then t.(right := Insert(t.right, k, v, n, d)) else t.(left := Insert(t.left, k, v, n, d))
    else Beside(t, k, v, n, d)
  }

  /** `d` is the first bit in which the keys differ. */
  ghost predicate FirstDiff(j: Key, k: Key, d: nat) {
    SameBefore(j, k, d) && KeyBit(j, d) != KeyBit(k, d)
  }

  /** What differs from the closest key in bit `d`, and agrees before, differs so from all keys. */
  lemma DiffersFromAll(t: Tree, k: Key, d: nat, from: nat)
    requires Good(t, from) && FirstDiff(ClosestOf(t, k).key, k, d) && (t.Fork? ==> t.at > d)
    ensures forall j :: j in Content(t) ==> FirstDiff(j, k, d)
  {
    hide KeyBit, NulFree;
    ClosestIn(t, k, from);
    var c := ClosestOf(t, k).key;
    forall j | j in Content(t) ensures FirstDiff(j, k, d) {
      if t.Fork? { assert SameBefore(j, c, t.at); }
    }
  }

  lemma SameBoth(i: Key, j: Key, k: Key, d: nat)
    requires SameBefore(i, k, d) && SameBefore(j, k, d)
    ensures SameBefore(i, j, d) && SameBefore(k, k, d) && SameBefore(k, i, d)
  {
    hide KeyBit;
  }

  lemma BesideSplits(t: Tree, k: Key, v: nat, n: Node, d: nat)
    requires forall j :: j in Content(t) ==> FirstDiff(j, k, d)
    ensures k !in Content(t) && Splits(Beside(t, k, v, n, d))
    ensures Content(Beside(t, k, v, n, d)) == Content(t)[k := v]
  {
    hide KeyBit, SameBefore;
    assert k in Content(t) ==> FirstDiff(k, k, d);
    var leaf, t' := Leaf(k, v), Beside(t, k, v, n, d);
    assert Content(leaf) == map[k := v];
    ContentOf(t', !KeyBit(k, d));
    assert Content(t) + map[k := v] == Content(t)[k := v];
    SameSelf(k, d);
    forall i, j | i in Content(t') && j in Content(t') ensures SameBefore(i, j, d) { SameBoth(i, j, k, d); }
  }

  lemma SameSelf(k: Key, d: nat)
    ensures SameBefore(k, k, d)
  {
  }

  lemma BesideGood(t: Tree, k: Key, v: nat, n: Node, d: nat, from: nat)
    requires Good(t, from) && from <= d && NulFree(k) && v != 0 && FirstDiff(ClosestOf(t, k).key, k, d)
    requires t.Fork? ==> t.at > d
    ensures k !in Content(t) && Good(Beside(t, k, v, n, d), from)
    ensures Content(Beside(t, k, v, n, d)) == Content(t)[k := v]
  {
    hide KeyBit, NulFree, SameBefore, Splits, FirstDiff;
    DiffersFromAll(t, k, d, from);
    BesideSplits(t, k, v, n, d);
    assert Good(t, d + 1);
  }

  /** Insertion puts the new key where it belongs: not beside the closest key, but beside the
      first subtree whose keys all differ from it in bit `d`. */
  lemma {:induction false} InsertGood(t: Tree, k: Key, v: nat, n: Node, d: nat, from: nat)
    requires Good(t, from) && from <= d && NulFree(k) && v != 0 && FirstDiff(ClosestOf(t, k).key, k, d)
    ensures k !in Content(t) && Good(Insert(t, k, v, n, d), from)
    ensures Content(Insert(t, k, v, n, d)) == Content(t)[k := v]
  {
    hide KeyBit, NulFree;
    if t.Fork? && t.at <= d {
      ClosestIn(t, k, from);
      var c, s := ClosestOf(t, k).key, Child(t, KeyBit(k, t.at));
      ClosestIn(s, k, t.at + 1);
      assert KeyBit(c, t.at) == KeyBit(k, t.at);
      InsertGood(s, k, v, n, d, t.at + 1);
      InsertFork(t, k, v, Insert(s, k, v, n, d), c, from);
    } else {
      BesideGood(t, k, v, n, d, from);
    }
  }

  /** One level up. */
  lemma InsertFork(t: Tree, k: Key, v: nat, s': Tree, c: Key, from: nat)
    requires Good(t, from) && t.Fork? && c in Content(t) && SameBefore(c, k, t.at)
    requires var s := Child(t, KeyBit(k, t.at));
             k !in Content(s) && Good(s', t.at + 1) && Content(s') == Content(s)[k := v]
    ensures var t' := if KeyBit(k, t.at) then t.(right := s') else t.(left := s');
            k !in Content(t) && Good(t', from) && Content(t') == Content(t)[k := v]
  {
    hide KeyBit, NulFree, Splits, SameBefore;
    var d := KeyBit(k, t.at);
    var t' := if d then t.(right := s') else t.(left := s');
    Sides(t, d);
    Sides(t, !d);
    PutAside(Content(Child(t, d)), Content(Child(t, !d)), k, v);
    ContentOf(t, d);
    ContentOf(t', d);
    SplitsMore(t, t', k, c);
  }

  /** Which side comes first does not matter, as no key is on both. */
  lemma ContentOf(t: Tree, d: bool)
    requires t.Fork? && Content(t.left).Keys !! Content(t.right).Keys
    ensures Content(t) == Content(Child(t, d)) + Content(Child(t, !d))
  {
  }

  lemma PutAside(a: map<Key, nat>, b: map<Key, nat>, k: Key, v: nat)
    requires k !in b
    ensures a[k := v] + b == (a + b)[k := v]
  {
  }

  lemma TakeAside(a: map<Key, nat>, b: map<Key, nat>, k: Key)
    requires k !in b
    ensures (a - {k}) + b == (a + b) - {k}
  {
  }

  /** One more key, on the side its bit says. */
  lemma SplitsMore(t: Tree, t': Tree, k: Key, c: Key)
    requires t.Fork? && t'.Fork? && t'.at == t.at && Splits(t) && c in Content(t) && SameBefore(c, k, t.at)
    requires var d := KeyBit(k, t.at);
             && Content(Child(t', d)).Keys == Content(Child(t, d)).Keys + {k}
             && Content(Child(t', !d)).Keys == Content(Child(t, !d)).Keys
    ensures Splits(t')
  {
    hide KeyBit;
    forall i, j | i in Content(t') && j in Content(t') ensures SameBefore(i, j, t.at) {
      var i0, j0 := if i == k then c else i, if j == k then c else j;
      assert i0 in Content(t) && j0 in Content(t);
      assert SameBefore(i0, j0, t.at);
    }
  }

  // ----- removal -----

  /** The tree without the leaf `closest` ends at: its sibling moves up. */
  function Remove(t: Tree, k: Key): Tree
    requires t.Fork?
  {
    var d := KeyBit(k, t.at);
    if Child(t, d).Leaf? then Child(t, !d)
    else if d then t.(right := Remove(t.right, k)) else t.(left := Remove(t.left, k))
  }

  /** What has fewer keys on either side is split all the same. */
  lemma SplitsFewer(t: Tree, t': Tree)
    requires t.Fork? && t'.Fork? && t'.at == t.at && Splits(t)
    requires Content(t'.left).Keys <= Content(t.left).Keys && Content(t'.right).Keys <= Content(t.right).Keys
    ensures Splits(t')
  {
    hide SameBefore, KeyBit;
  }

  /** Either side of a fork has its own keys. */
  lemma Sides(t: Tree, d: bool)
    requires t.Fork? && Splits(t)
    ensures Content(t).Keys == Content(Child(t, d)).Keys + Content(Child(t, !d)).Keys
    ensures Content(Child(t, d)).Keys !! Content(Child(t, !d)).Keys
    ensures forall k :: k in Content(Child(t, d)) ==> KeyBit(k, t.at) == d && Content(t)[k] == Content(Child(t, d))[k]
  {
    hide SameBefore, KeyBit;
    assert Content(t).Keys == Content(t.left).Keys + Content(t.right).Keys;
  }

  lemma {:induction false} RemoveGood(t: Tree, k: Key, from: nat)
    requires Good(t, from) && t.Fork? && k in Content(t)
    ensures Good(Remove(t, k), from) && Content(Remove(t, k)) == Content(t) - {k}
  {
    hide SameBefore, KeyBit, NulFree, Splits;
    var d := KeyBit(k, t.at);
    Sides(t, d);
    Sides(t, !d);
    var s := Child(t, d);
    if s.Fork? {
      RemoveGood(s, k, t.at + 1);
      SplitsFewer(t, Remove(t, k));
    }
    TakeAside(Content(s), Content(Child(t, !d)), k);
    ContentOf(t, d);
    if s.Fork? { ContentOf(Remove(t, k), d); }
  }

  // ----- order -----

  datatype Entry = Entry(key: Key, value: nat)

  /** The leaves from left to right, which is how `iterate` visits them. */
  function Entries(t: Tree): seq<Entry> {
    match t
    case Leaf(k, v) => [Entry(k, v)]
    case Fork(_, _, l, r) => Entries(l) + Entries(r)
  }

  /** Two keys that first differ in bit `p` are ordered by it. */
  lemma BitOrder(j: Key, k: Key, p: nat)
    requires NulFree(j) && NulFree(k) && SameBefore(j, k, p) && !KeyBit(j, p) && KeyBit(k, p)
    ensures Less(j, k)
  {
    var i := p / 8;
    forall h: nat | h < i ensures At(j, h) == At(k, h) {
      forall n: nat | n < 8 ensures Bit(At(j, h), n) == Bit(At(k, h), n) {
        assert KeyBit(j, Pos(h, n)) == KeyBit(k, Pos(h, n));
      }
      ByteBits(At(j, h), At(k, h));
    }
    forall m: nat | 7 - p % 8 < m < 8 ensures Bit(At(j, i), m) == Bit(At(k, i), m) {
      assert KeyBit(j, Pos(i, m)) == KeyBit(k, Pos(i, m));
    }
    ByteOrder(At(j, i), At(k, i), 7 - p % 8);
    assert i > |j| ==> At(k, |j|) == At(j, |j|);
    assert LessAt(j, k, i);
  }

  /** `iterate` visits the keys in strictly increasing order, each one once. */
  lemma {:induction false} EntriesSorted(t: Tree, from: nat)
    requires Good(t, from)
    ensures forall i, j :: 0 <= i < j < |Entries(t)| ==> Less(Entries(t)[i].key, Entries(t)[j].key)
    ensures forall i :: 0 <= i < |Entries(t)| ==>
              Entries(t)[i].key in Content(t) && Content(t)[Entries(t)[i].key] == Entries(t)[i].value
    ensures forall k :: k in Content(t) ==> Entry(k, Content(t)[k]) in Entries(t)
    ensures |Entries(t)| == |Content(t)|
  {
    hide Less, SameBefore, KeyBit, NulFree;
    if t.Fork? {
      EntriesSorted(t.left, t.at + 1);
      EntriesSorted(t.right, t.at + 1);
      Sides(t, true);
      Sides(t, false);
      var e, l, n := Entries(t), Entries(t.left), |Entries(t.left)|;
      forall i, j | 0 <= i < j < |e| ensures Less(e[i].key, e[j].key) {
        if i < n <= j {
          assert e[i].key in Content(t.left) && e[j].key in Content(t.right);
          KeysNulFree(t, from, e[i].key);
          KeysNulFree(t, from, e[j].key);
          BitOrder(e[i].key, e[j].key, t.at);
        }
      }
      assert |Content(t)| == |Content(t.left)| + |Content(t.right)| by { UnionSize(Content(t.left), Content(t.right)); }
    }
  }

  lemma UnionSize(a: map<Key, nat>, b: map<Key, nat>)
    requires a.Keys !! b.Keys
    ensures |a + b| == |a| + |b|
  {
    assert (a + b).Keys == a.Keys + b.Keys;
  }

  // ----- prefixes -----

  /** `j` starts with `p`, in terms of bits. */
  lemma PrefixBits(j: Key, p: Key)
    requires NulFree(j) && NulFree(p)
    ensures p <= j <==> SameBefore(j, p, 8 * |p|)
  {
    if p <= j {
      forall q: nat | q < 8 * |p| ensures KeyBit(j, q) == KeyBit(p, q) {
        assert At(j, q / 8) == At(p, q / 8);
      }
    }
    if SameBefore(j, p, 8 * |p|) {
      forall i: nat | i < |p| ensures i < |j| && j[i] == p[i] {
        forall n: nat | n < 8 ensures Bit(At(j, i), n) == Bit(At(p, i), n) {
          assert KeyBit(j, Pos(i, n)) == KeyBit(p, Pos(i, n));
        }
        ByteBits(At(j, i), At(p, i));
        assert p[i] in p;
      }
      assert |p| > 0 ==> At(j, |p| - 1) == p[|p| - 1];
      assert p == j[..|p|];
    }
  }

  /** The subtree `map_prefix` returns if the prefix occurs: behind the last fork that looks at
      one of its bits. */
  function Top(t: Tree, p: Key): Tree {
    if t.Fork? && t.at < 8 * |p| then Top(Child(t, KeyBit(p, t.at)), p) else t
  }

  /** Keys with the prefix are all below that subtree. */
  lemma {:induction false} TopHasAll(t: Tree, p: Key, from: nat, k: Key)
    requires Good(t, from) && NulFree(p) && k in Content(t) && p <= k
    ensures k in Content(Top(t, p)) && Content(Top(t, p))[k] == Content(t)[k]
  {
    hide KeyBit, SameBefore;
    if t.Fork? && t.at < 8 * |p| {
      KeysNulFree(t, from, k);
      PrefixBits(k, p);
      BitOf(k, p, t.at);
      Sides(t, true);
      Sides(t, false);
      TopHasAll(Child(t, KeyBit(p, t.at)), p, t.at + 1, k);
    }
  }

  lemma BitOf(j: Key, k: Key, p: nat)
    requires SameBefore(j, k, 8 * |k|) && p < 8 * |k|
    ensures KeyBit(j, p) == KeyBit(k, p)
  {
  }

  /** And if the leaf the walk ends at has the prefix, so have all keys below it. */
  lemma {:induction false} TopHasOnly(t: Tree, p: Key, from: nat, k: Key)
    requires Good(t, from) && NulFree(p) && k in Content(Top(t, p))
    ensures k in Content(t) && ClosestOf(t, p) == ClosestOf(Top(t, p), p) && NulFree(k)
    ensures p <= k <==> p <= ClosestOf(t, p).key
  {
    hide KeyBit, NulFree;
    if t.Fork? && t.at < 8 * |p| {
      Sides(t, true);
      Sides(t, false);
      TopHasOnly(Child(t, KeyBit(p, t.at)), p, t.at + 1, k);
    } else {
      KeysNulFree(t, from, k);
      ClosestIn(t, p, from);
      PrefixBits(k, p);
      PrefixBits(ClosestOf(t, p).key, p);
      if t.Fork? { assert SameBefore(k, ClosestOf(t, p).key, t.at); }
    }
  }

  /** The entries of a finite map whose keys have a prefix. */
  function WithPrefix(m: map<Key, nat>, p: Key): map<Key, nat> {
    map k | k in m && p <= k :: m[k]
  }

  /** What `map_prefix` returns stands for exactly the keys with the prefix. */
  lemma PrefixGood(t: Tree, p: Key)
    requires Good(t, 0) && NulFree(p)
    ensures WithPrefix(Content(t), p) == if p <= ClosestOf(t, p).key then Content(Top(t, p)) else map[]
  {
    hide KeyBit, NulFree, SameBefore;
    forall k | k in Content(t) && p <= k
      ensures k in Content(Top(t, p)) && Content(Top(t, p))[k] == Content(t)[k] && p <= ClosestOf(t, p).key
    {
      TopHasAll(t, p, 0, k);
      TopHasOnly(t, p, 0, k);
    }
    forall k | k in Content(Top(t, p)) ensures k in Content(t) && (p <= k <==> p <= ClosestOf(t, p).key) {
      TopHasOnly(t, p, 0, k);
    }
  }
}
