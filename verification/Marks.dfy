/** Marks: positions remembered as the addresses of bytes. */
module Marks {
  import opened Bytes
  import opened History
  import opened Extents
  import opened UndoTree
  import opened Store
  import opened Revisions
  import opened PieceChain
  import opened Editing
  import opened Cache
  import opened Insertion
  import opened Deletion
  import opened Iterators

  /** A Mark: EMARK, the address of the end sentinel, or that of a byte. */
  datatype Mark = NoMark | EndMark | Byte(addr: Ptr)

  // ----- what marks mean -----

  /** The position of an address in a document without repeated addresses. */
  ghost function PositionOf(addrs: seq<Ptr>, a: Ptr): Option<nat> {
    if exists i :: 0 <= i < |addrs| && addrs[i] == a then
      var i :| 0 <= i < |addrs| && addrs[i] == a; Some(i)
    else
      None
  }

  lemma PositionIs(addrs: seq<Ptr>, a: Ptr, i: nat)
    requires NoDup(addrs) && i < |addrs| && addrs[i] == a
    ensures PositionOf(addrs, a) == Some(i)
  {
  }

  lemma NoPosition(addrs: seq<Ptr>, a: Ptr)
    requires a !in addrs
    ensures PositionOf(addrs, a) == None
  {
  }

  /** Where a mark points in a given state of the document, if anywhere. */
  ghost function Resolve(s: State, m: Mark): Option<nat> {
    match m
    case NoMark => None
    case EndMark => Some(|s.addrs|)
    case Byte(a) => PositionOf(s.addrs, a)
  }

  /** The mark of a position in a given state. */
  function MarkOf(s: State, pos: nat): Mark {
    if pos == |s.addrs| then EndMark else if pos < |s.addrs| then Byte(s.addrs[pos]) else NoMark
  }

  // ----- marks and edits -----

  /** A mark resolves to the position it was set at, exactly if that lies in the document. */
  lemma MarkRoundTrip(s: State, pos: nat)
    requires NoDup(s.addrs)
    ensures Resolve(s, MarkOf(s, pos)) == if pos <= |s.addrs| then Some(pos) else None
  {
    if pos < |s.addrs| { PositionIs(s.addrs, s.addrs[pos], pos); }
  }

  /** Where a mark belongs after an insertion: with its byte. */
  function Moved(q: nat, n: nat, pos: nat): Option<nat> {
    Some(if q <= pos then pos + n else pos)
  }

  /** And after a deletion. */
  function Kept(q: nat, len: nat, pos: nat): Option<nat> {
    if pos < q then Some(pos) else if pos < q + len then None else Some(pos - len)
  }

  /** An insertion that is not in place moves the marks at and behind it along, and no others. */
  lemma MarkAfterInsert(a: State, b: State, q: nat, data: seq<byte>, pos: nat)
    requires InsertedAt(a, b, q, data) && NoDup(a.addrs) && NoDup(b.addrs) && pos <= |a.addrs|
    ensures Resolve(b, MarkOf(a, pos)) == Moved(q, |data|, pos)
  {
    if pos < |a.addrs| {
      PositionIs(b.addrs, a.addrs[pos], if q <= pos then pos + |data| else pos);
    }
  }

  /** A deletion that is not in place loses exactly the marks in the range, and moves those
      behind it along. */
  lemma MarkAfterDelete(a: State, b: State, q: nat, len: nat, pos: nat)
    requires RemovedAt(a, b, q, len) && NoDup(a.addrs) && NoDup(b.addrs) && pos <= |a.addrs|
    ensures Resolve(b, MarkOf(a, pos)) == Kept(q, len, pos)
  {
    if pos < q {
      PositionIs(b.addrs, a.addrs[pos], pos);
    } else if pos < q + len {
      forall i | 0 <= i < |b.addrs| ensures b.addrs[i] != a.addrs[pos] {
        assert b.addrs[i] == a.addrs[if i < q then i else i + len];
      }
      NoPosition(b.addrs, a.addrs[pos]);
    } else if pos < |a.addrs| {
      PositionIs(b.addrs, a.addrs[pos], pos - len);
    }
  }

  /** An insertion in place moves marks as if it had happened at the end of the cached piece.  So
      a mark follows its byte exactly if that is not behind the insertion in the same piece. */
  lemma MarkInsertedInPlace(a: State, b: State, q: nat, data: seq<byte>, end: nat, pos: nat)
    requires InsertedInPlace(a, b, q, data, end) && NoDup(a.addrs) && NoDup(b.addrs) && pos <= |a.addrs| && data != []
    ensures Resolve(b, MarkOf(a, pos)) == Moved(end, |data|, pos)
    ensures Resolve(b, MarkOf(a, pos)) == Moved(q, |data|, pos) <==> !(q <= pos < end)
  {
    if pos < |a.addrs| {
      PositionIs(b.addrs, a.addrs[pos], if end <= pos then pos + |data| else pos);
    }
  }

  /** A deletion in place loses the marks of the last bytes of the cached piece.  So a mark
      follows its byte exactly if that precedes the range, or is behind that piece, or is itself
      deleted and one of those last bytes. */
  lemma MarkRemovedInPlace(a: State, b: State, q: nat, len: nat, end: nat, pos: nat)
    requires RemovedInPlace(a, b, q, len, end) && NoDup(a.addrs) && NoDup(b.addrs) && pos <= |a.addrs| && len > 0
    ensures Resolve(b, MarkOf(a, pos)) == Kept(end - len, len, pos)
    ensures Resolve(b, MarkOf(a, pos)) == Kept(q, len, pos) <==> pos < q || pos >= end || end - len <= pos < q + len
  {
    MarkAfterDelete(a, State(Removed(a.text, end - len, len), b.addrs, b.chain), end - len, len, pos);
  }

  /** Whatever happened in between: back at a revision, every mark set there points where it
      pointed then, even if its byte was deleted on the way. */
  lemma MarkComesBack(trace: seq<Doc>, ops: seq<Op>, pos: nat)
    requires Run(trace, ops) && WellFormed(trace[0]) && !trace[0].open && trace[|ops|].cur == trace[0].cur
    requires NoDup(trace[0].Now().addrs) && pos <= |trace[0].Now().addrs|
    ensures WellFormed(trace[|ops|])
    ensures Resolve(trace[|ops|].Now(), MarkOf(trace[0].Now(), pos)) == Some(pos)
  {
    ComingBack(trace, ops);
    MarkRoundTrip(trace[0].Now(), pos);
  }

  // ----- setting and resolving marks -----

  /** `text_mark_set`. */
  method MarkSet(t: Text, pos: nat) returns (m: Mark)
    requires t.Valid()
    ensures t.doc.cur < |t.doc.nodes| && NoDup(t.doc.Now().addrs)
    ensures m == MarkOf(t.doc.Now(), pos)
  {
    hide Text.Represents, StoreInv, HistInv, StatesInv, WellFormed, Addrs, Offset;
    StateNow(t);
    t.ChainIs(0);
    if pos == t.size { return EndMark; }
    var p, off; ghost var k;
    p, off, k := PieceGetExtern(t, pos);
    if p == null { return NoMark; }
    t.ChainIs(k);
    AddressAt(t.st, k, off);
    m := Byte(Plus(p.data, off));
  }

  /** Setting a mark, inserting, and resolving the mark: it is where it belongs exactly if not
      behind the insertion in a piece edited in place, all of which the old state tells. */
  method TrackInsert(t: Text, q: nat, data: seq<byte>, pos: nat) returns (now: Option<nat>)
    requires t.Valid() && data != [] && q <= t.size && pos <= t.size
    modifies t, t.repr
    ensures t.Valid()
    ensures now == Moved(q, |data|, pos) <==>
              !(old(InsertsInPlace(t, q, |data|)) && q <= pos && old(CachedBeyond(t, pos)))
  {
    hide Text.Inv, WellFormed, CachedStretch, Room, Resolve, MarkOf, InsertedInPlace, InsertedAt, UndoTree.Edited,
         Moved;
    AddressesDiffer(t);
    var m := MarkSet(t, pos);
    ghost var a := t.doc.Now();
    ghost var start: nat, end: nat := 0, 0;
    if InsertsInPlace(t, q, |data|) {
      start, end :| CachedStretch(t, start, end) && start < q <= end;
      BeyondIs(t, pos, start, end);
    }
    var ok, inPlace := Insert(t, q, data);
    AddressesDiffer(t);
    now := MarkGet(t, m);
    if inPlace {
      assert GrewInPlace(old(t.doc), t.doc, q, data, end);
      MarkInsertedInPlace(a, t.doc.Now(), q, data, end, pos);
    } else {
      MarkAfterInsert(a, t.doc.Now(), q, data, pos);
    }
  }

  /** Likewise for a deletion, except that a mark that is to be lost may be among those that are. */
  method TrackDelete(t: Text, q: nat, len: nat, pos: nat) returns (now: Option<nat>)
    requires t.Valid() && len > 0 && q + len <= t.size && pos <= t.size
    modifies t, t.repr
    ensures t.Valid()
    ensures now == Kept(q, len, pos) <==>
              !(old(DeletesInPlace(t, q, len)) && q <= pos && old(CachedBeyond(t, pos)))
              || (pos < q + len && !old(CachedBeyond(t, pos + len)))
  {
    hide Text.Inv, WellFormed, CachedStretch, Room, Resolve, MarkOf, RemovedInPlace, RemovedAt, UndoTree.Edited, Kept;
    AddressesDiffer(t);
    var m := MarkSet(t, pos);
    ghost var a := t.doc.Now();
    ghost var start: nat, end: nat := 0, 0;
    if DeletesInPlace(t, q, len) {
      start, end :| CachedStretch(t, start, end) && start < q && q + len <= end;
      BeyondIs(t, pos, start, end);
      BeyondIs(t, pos + len, start, end);
    }
    var ok, inPlace := Delete(t, q, len);
    AddressesDiffer(t);
    now := MarkGet(t, m);
    if inPlace {
      assert ShrankInPlace(old(t.doc), t.doc, q, len, end);
      MarkRemovedInPlace(a, t.doc.Now(), q, len, end, pos);
    } else {
      MarkAfterDelete(a, t.doc.Now(), q, len, pos);
    }
  }

  /** The cached piece ends behind that position. */
  ghost predicate CachedBeyond(t: Text, pos: nat)
    reads t`cache, t`doc, t`st
  {
    exists start: nat, end: nat :: CachedStretch(t, start, end) && pos < end
  }

  lemma BeyondIs(t: Text, pos: nat, start: nat, end: nat)
    requires t.Inv() && CachedStretch(t, start, end)
    ensures CachedBeyond(t, pos) <==> pos < end
  {
    hide Text.Inv, CachedStretch;
    if CachedBeyond(t, pos) {
      var s: nat, e: nat :| CachedStretch(t, s, e) && pos < e;
      OneStretch(t, start, end, s, e);
    }
  }

  /** It does happen: after typing "abc", deleting the "b" loses the mark of the "c", which is
      still there, and leaves that of the "b" on the "c". */
  method MarksSlip() returns (b: Option<nat>, c: Option<nat>)
    ensures b == Some(1) && c == None
  {
    hide Text.Inv, WellFormed, CachedStretch, Room, InsertsInPlace, RemovedInPlace, InsertedAt, UndoTree.Edited;
    var t := Text.Load([], false);
    NotOpen(t, 0, 3);
    var _, inPlace := Insert(t, 0, [97, 98, 99]);
    AddressesDiffer(t);
    ghost var a := t.doc.Now();
    var markB := MarkSet(t, 1);
    var markC := MarkSet(t, 2);
    label L:
    assert CachedStretch(t, 0, 3) && DeletesInPlace(t, 1, 1);
    var _, gone := Delete(t, 1, 1);
    AddressesDiffer(t);
    assert ShrankInPlace(old@L(t.doc), t.doc, 1, 1, 3);
    b := MarkGet(t, markB);
    c := MarkGet(t, markC);
    MarkRemovedInPlace(a, t.doc.Now(), 1, 1, 3, 1);
    MarkRemovedInPlace(a, t.doc.Now(), 1, 1, 3, 2);
  }

  lemma NotOpen(t: Text, pos: nat, n: nat)
    requires !t.doc.open
    ensures !InsertsInPlace(t, pos, n)
  {
  }

  lemma AddressesDiffer(t: Text)
    requires t.Inv()
    ensures t.doc.cur < |t.doc.nodes| && NoDup(t.doc.Now().addrs) && |t.doc.Now().addrs| == |t.doc.Now().text| == t.size
  {
    hide Text.Represents, StoreInv, HistInv, StatesInv;
    StateNow(t);
    t.ChainIs(0);
  }

  /** The address of byte `i` of piece number `k`. */
  lemma AddressAt(s: Store, k: nat, i: nat)
    requires StoreInv(s) && s.at < |s.vs| && k < |s.vs[s.at].chain| && i < PieceAt(s, k).len
    ensures PieceAt(s, k).data.At? && Offset(s, k) + i < |Addrs(s.vs[s.at].chain, s.ext)|
    ensures Addrs(s.vs[s.at].chain, s.ext)[Offset(s, k) + i] == Plus(PieceAt(s, k).data, i)
  {
    hide Addrs, NoDup, LinkInv, SpanIs, GoodVersion, Tree;
    var ch, e := s.vs[s.at].chain, PieceAt(s, k);
    assert ChainAt(s, s.at) && ch[k] in ch;
    AddrsSplit(ch, k, k + 1, s.ext);
    assert ch[k..k + 1] == [ch[k]];
    AddrsOne(ch[k], s.ext);
    CellsLength(e);
    assert Addrs(ch, s.ext)[Offset(s, k) + i] == Cells(e)[i];
  }

  /** `start <= mark && mark < end` for the bytes of a piece. */
  predicate Holds(data: Ptr, len: nat, a: Ptr) {
    data.At? && a.At? && a.blk == data.blk && data.off <= a.off < data.off + len
  }

  /** `text_mark_get`, with None for EPOS. */
  method MarkGet(t: Text, m: Mark) returns (pos: Option<nat>)
    requires t.Valid()
    ensures t.doc.cur < |t.doc.nodes| && pos == Resolve(t.doc.Now(), m)
  {
    hide Text.Inv, WellFormed, PositionOf;
    StateNow(t);
    HealthyParts(t);
    if m == NoMark { return None; }
    if m == EndMark { return Some(t.size); }
    pos := FindAddress(t, m.addr);
  }

  /** The loop of `text_mark_get`. */
  method FindAddress(t: Text, a: Ptr) returns (pos: Option<nat>)
    requires t.Represents() && StoreInv(t.st)
    ensures t.st.at < |t.st.vs| && pos == PositionOf(Addrs(t.Chain(), t.st.ext), a)
  {
    hide Text.Represents, StoreInv, Addrs, Offset, PositionOf, Holds;
    t.ChainIs(0);
    t.ChainIs(1);
    t.SizeIs();
    Sentinels(t.st);
    ghost var addrs := Addrs(t.Chain(), t.st.ext);
    var cur := 0;
    var p := t.begin.next;
    ghost var k := 1;
    while p.next != null
      invariant 1 <= k < |t.Chain()| && p == t.Chain()[k]
      invariant cur == Offset(t.st, k) <= |addrs| && a !in addrs[..cur]
      decreases |t.Chain()| - k
    {
      t.ChainIs(k);
      NextOffset(t.st, k);
      if Holds(p.data, p.len, a) {
        HeldAt(t.st, k, a);
        PositionIs(addrs, a, cur + a.off - p.data.off);
        return Some(cur + a.off - p.data.off);
      }
      NotInPiece(t.st, k, a);
      cur := cur + p.len;
      p := p.next;
      k := k + 1;
    }
    t.ChainIs(k);
    assert addrs[..cur] == addrs;
    NoPosition(addrs, a);
    pos := None;
  }

  lemma HeldAt(s: Store, k: nat, a: Ptr)
    requires StoreInv(s) && s.at < |s.vs| && k < |s.vs[s.at].chain| && Holds(PieceAt(s, k).data, PieceAt(s, k).len, a)
    ensures PieceAt(s, k).data.At? && a.At? && PieceAt(s, k).data.off <= a.off
    ensures Offset(s, k) + a.off - PieceAt(s, k).data.off < |Addrs(s.vs[s.at].chain, s.ext)|
    ensures Addrs(s.vs[s.at].chain, s.ext)[Offset(s, k) + a.off - PieceAt(s, k).data.off] == a
  {
    AddressAt(s, k, a.off - PieceAt(s, k).data.off);
  }

  lemma NotInPiece(s: Store, k: nat, a: Ptr)
    requires StoreInv(s) && s.at < |s.vs| && k < |s.vs[s.at].chain|
    requires !Holds(PieceAt(s, k).data, PieceAt(s, k).len, a)
    requires Offset(s, k) <= |Addrs(s.vs[s.at].chain, s.ext)| && a !in Addrs(s.vs[s.at].chain, s.ext)[..Offset(s, k)]
    ensures Offset(s, k + 1) <= |Addrs(s.vs[s.at].chain, s.ext)|
    ensures a !in Addrs(s.vs[s.at].chain, s.ext)[..Offset(s, k + 1)]
  {
    hide StoreInv, Addrs, Offset;
    NextOffset(s, k);
    var addrs := Addrs(s.vs[s.at].chain, s.ext);
    forall i | 0 <= i < Offset(s, k + 1) ensures i < |addrs| && addrs[i] != a {
      if i < Offset(s, k) {
        assert addrs[i] == addrs[..Offset(s, k)][i];
      } else {
        AddressAt(s, k, i - Offset(s, k));
      }
    }
  }
}
