/** Where the cursor goes.  Undo and redo return the place of what they took back or brought back. */
module Cursors {
  import opened Bytes
  import opened UndoTree
  import opened Revisions
  import opened PieceChain
  import opened Editing
  import opened Session
  import Cache
  import Deletion
  import Insertion

  /** The parts, one after the other. */
  function Joined(parts: seq<seq<byte>>): seq<byte> {
    if parts == [] then [] else Joined(parts[..|parts| - 1]) + parts[|parts| - 1]
  }

  lemma InsertedOn(s: seq<byte>, pos: nat, a: seq<byte>, b: seq<byte>)
    requires pos <= |s|
    ensures pos + |a| <= |Inserted(s, pos, a)|
    ensures Inserted(Inserted(s, pos, a), pos + |a|, b) == Inserted(s, pos, a + b)
  {
    var x := Inserted(s, pos, a);
    assert x[..pos + |a|] == s[..pos] + a && x[pos + |a|..] == s[pos..];
  }

  /** `typed` has been inserted at `pos`, as one open revision: undoing it leads to its start,
      and redoing it to its end. */
  ghost predicate Typed(d0: Doc, d: Doc, spots: seq<Spot>, pos: nat, typed: seq<byte>) {
    && d0.cur < |d0.nodes| && d.cur < |d.nodes| && d == Edited(d0, d.Now()) && d.cur == |d0.nodes| && d.open
    && pos <= |d0.Now().text| && d.Now().text == Inserted(d0.Now().text, pos, typed)
    && d.cur == |spots| - 1
    && var s := spots[d.cur]; s.first == pos && s.grown > 0 && s.last + s.grown == pos + |typed|
  }

  lemma TypedMore(d0: Doc, d: Doc, d': Doc, spots: seq<Spot>, spots': seq<Spot>, pos: nat, typed: seq<byte>,
                  part: seq<byte>, inPlace: bool)
    requires Typed(d0, d, spots, pos, typed) && !d0.open && part != []
    requires d'.cur < |d'.nodes| && d' == Edited(d, d'.Now())
    requires pos + |typed| <= |d.Now().text| && d'.Now().text == Inserted(d.Now().text, pos + |typed|, part)
    requires if inPlace then SpotGrown(d.cur, spots, spots', |part|)
             else SpotAdded(d.open, d.cur, spots, spots', pos + |typed|, |part|)
    ensures Typed(d0, d', spots', pos, typed + part)
  {
    InsertedOn(d0.Now().text, pos, typed, part);
  }

  method TypeFirst(t: Text, pos: nat, part: seq<byte>)
    requires t.Valid() && !t.doc.open && part != [] && t.doc.cur < |t.doc.nodes| && pos <= |t.doc.Now().text|
    modifies t, t.repr
    ensures t.Valid() && fresh(t.repr - old(t.repr)) && Typed(old(t.doc), t.doc, t.Spots(), pos, part)
  {
    hide Text.Inv, WellFormed, Insertion.InsertedAt, UndoTree.Edited, SpotsOf, SpotGrown, SpotAdded, Inserted, Typed,
         Cache.CachedStretch, Cache.GrewInPlace, Cache.InsertsInPlace;
    ghost var d0 := t.doc;
    t.TipsNow();
    ghost var spots := t.Spots();
    var ok; ghost var inPlace;
    ok, inPlace := Insertion.Insert(t, pos, part);
    TypedFirst(d0, t.doc, spots, t.Spots(), pos, part);
  }

  method TypeMore(t: Text, at: nat, part: seq<byte>, ghost d0: Doc, ghost pos: nat, ghost typed: seq<byte>)
    requires t.Valid() && !d0.open && part != [] && Typed(d0, t.doc, t.Spots(), pos, typed) && at == pos + |typed|
    modifies t, t.repr
    ensures t.Valid() && fresh(t.repr - old(t.repr)) && Typed(d0, t.doc, t.Spots(), pos, typed + part)
  {
    hide Text.Inv, WellFormed, Insertion.InsertedAt, UndoTree.Edited, SpotsOf, SpotGrown, SpotAdded, Inserted, Typed,
         Cache.CachedStretch, Cache.GrewInPlace, Cache.InsertsInPlace;
    ghost var d, spots := t.doc, t.Spots();
    TypedIs(d0, d, spots, pos, typed);
    var ok; ghost var inPlace;
    ok, inPlace := Insertion.Insert(t, at, part);
    TypedMore(d0, d, t.doc, spots, t.Spots(), pos, typed, part, inPlace);
  }

  /** Type some text at one place, piece by piece: however the pieces are stored, in place or not,
      they are one revision from `pos` to their end. */
  method Type(t: Text, pos: nat, parts: seq<seq<byte>>)
    requires t.Valid() && !t.doc.open && parts != [] && forall i :: 0 <= i < |parts| ==> parts[i] != []
    requires t.doc.cur < |t.doc.nodes| && pos <= |t.doc.Now().text|
    modifies t, t.repr
    ensures t.Valid() && fresh(t.repr - old(t.repr)) && Typed(old(t.doc), t.doc, t.Spots(), pos, Joined(parts))
  {
    hide Text.Valid, SpotsOf, Typed, Joined;
    JoinedMore(parts, 1);
    TypeFirst(t, pos, parts[0]);
    var at, i := pos + |parts[0]|, 1;
    while i < |parts|
      invariant 1 <= i <= |parts| && t.Valid() && fresh(t.repr - old(t.repr)) && at == pos + |Joined(parts[..i])|
      invariant Typed(old(t.doc), t.doc, t.Spots(), pos, Joined(parts[..i]))
    {
      JoinedMore(parts, i + 1);
      TypeMore(t, at, parts[i], old(t.doc), pos, Joined(parts[..i]));
      at := at + |parts[i]|;
      i := i + 1;
    }
    assert parts[..i] == parts;
  }

  lemma JoinedMore(parts: seq<seq<byte>>, i: nat)
    requires 0 < i <= |parts|
    ensures Joined(parts[..i]) == Joined(parts[..i - 1]) + parts[i - 1]
    ensures i == 1 ==> Joined(parts[..i]) == parts[0]
  {
    assert parts[..i][..i - 1] == parts[..i - 1];
  }

  lemma TypedIs(d0: Doc, d: Doc, spots: seq<Spot>, pos: nat, typed: seq<byte>)
    requires Typed(d0, d, spots, pos, typed)
    ensures d.cur < |d.nodes| && d.open && pos + |typed| <= |d.Now().text|
  {
  }

  lemma TypedFirst(d0: Doc, d: Doc, spots: seq<Spot>, spots': seq<Spot>, pos: nat, part: seq<byte>)
    requires !d0.open && d0.cur < |d0.nodes| == |spots| && d.cur < |d.nodes| && d == Edited(d0, d.Now()) && part != []
    requires pos <= |d0.Now().text| && d.Now().text == Inserted(d0.Now().text, pos, part)
    requires SpotAdded(d0.open, d0.cur, spots, spots', pos, |part|)
    ensures Typed(d0, d, spots', pos, part)
  {
  }

  /** `len` bytes at `pos` are gone, as one open revision. */
  ghost predicate Erased(d0: Doc, d: Doc, spots: seq<Spot>, pos: nat, len: nat) {
    && d0.cur < |d0.nodes| && d.cur < |d.nodes| && d == Edited(d0, d.Now()) && d.cur == |d0.nodes| && d.open
    && pos + len <= |d0.Now().text| && d.Now().text == Removed(d0.Now().text, pos, len)
    && d.cur == |spots| - 1 && spots[d.cur] == Spot(pos, pos, -(len as int))
  }

  method Erase(t: Text, pos: nat, len: nat)
    requires t.Valid() && !t.doc.open && len > 0 && t.doc.cur < |t.doc.nodes| && pos + len <= |t.doc.Now().text|
    modifies t, t.repr
    ensures t.Valid() && fresh(t.repr - old(t.repr)) && Erased(old(t.doc), t.doc, t.Spots(), pos, len)
  {
    hide Text.Inv, WellFormed, Deletion.RemovedAt, SpotsOf, SpotGrown, Removed, Cache.CachedStretch,
         Cache.ShrankInPlace, Cache.DeletesInPlace;
    t.TipsNow();
    var ok; ghost var inPlace;
    ok, inPlace := Deletion.Delete(t, pos, len);
  }

  /** Undo, and redo again. */
  method UndoRedo(t: Text) returns (u: nat, r: nat, ghost between: Doc)
    requires t.Valid()
    modifies t, t.repr
    ensures t.Valid() && t.repr == old(t.repr) && WellFormed(old(t.doc)) && between == Undone(old(t.doc))
    ensures old(t.doc.cur) > 0 ==>
              && t.doc == UndoTree.Snapshot(old(t.doc)) && old(t.doc.cur) < |old(t.Spots())|
              && u == old(t.Spots())[old(t.doc.cur)].first && r == Landing(old(t.Spots())[old(t.doc.cur)])
  {
    hide Text.Inv, NextPath, SpotsOf, Landing, TreeNodes;
    t.TipsNow();
    ghost var d := t.doc;
    if d.cur > 0 {
      NextPathParent(d.nodes, d.cur);
      RedoAfterUndo(d);
    }
    UndoKeeps(d);
    u := t.Undo();
    between := t.doc;
    UndoKeeps(between);
    r := t.Redo();
  }

  /** Any commands, and then undo and redo: back at a closed revision, they lead where they did. */
  method RunUndoRedo(t: Text, cs: seq<Command>, times: Revision -> int)
    returns (u: nat, r: nat, ghost trace: seq<Doc>, ghost ops: seq<Op>, ghost between: Doc)
    requires t.Valid() && 0 < t.doc.cur < |t.doc.nodes| && !t.doc.open
    requires t.doc.nodes[t.doc.cur].parent < |t.doc.nodes|
    modifies t, t.repr
    ensures t.Valid() && |ops| == |cs| && (forall i :: 0 <= i < |cs| ==> Means(cs[i], ops[i]))
    ensures Run(trace, ops) && trace[0] == old(t.doc) && old(t.doc.cur) < |old(t.Spots())|
    ensures trace[|cs|].cur == old(t.doc.cur) ==>
              && u == old(t.Spots())[old(t.doc.cur)].first && r == Landing(old(t.Spots())[old(t.doc.cur)])
              && between.cur < |between.nodes|
              && between.Now() == old(t.doc.nodes)[old(t.doc.nodes)[old(t.doc.cur)].parent].state
              && t.doc.cur < |t.doc.nodes| && t.doc.Now() == old(t.doc).Now()
  {
    hide Text.Inv, NextPath, TreeNodes, SpotsOf, Run, Means, Landing;
    ghost var d := t.doc;
    t.TipsNow();
    trace, ops := RunAll(t, cs, times);
    ClosedForever(trace, ops, |cs|);
    ghost var e := t.doc;
    u, r, between := UndoRedo(t);
    assert e.cur == d.cur ==> d.Closed(d.cur) && d.Closed(d.nodes[d.cur].parent);
  }

  /** Back in time, and forth again. */
  method EarlierLater(t: Text) returns (e: nat, l: nat)
    requires t.Valid() && 0 < t.doc.cur < |t.doc.nodes| && t.doc.nodes[t.doc.cur].parent == t.doc.cur - 1
    modifies t, t.repr
    ensures t.Valid() && t.repr == old(t.repr) && t.doc.cur == old(t.doc.cur) < |old(t.Spots())|
    ensures e == old(t.Spots())[old(t.doc.cur)].first && l == Landing(old(t.Spots())[old(t.doc.cur)])
  {
    hide Text.Inv, NextPath, SpotsOf, Landing, TreeNodes, Rebranch, Arrives;
    t.TipsNow();
    ghost var d := t.doc;
    LaterAfterEarlier(d);
    e := t.Earlier();
    EarlierIs(d);
    l := t.Later();
  }

  lemma EarlierIs(d: Doc)
    requires WellFormed(d) && d.cur > 0
    ensures UndoTree.Earlier(d).cur == d.cur - 1 && |UndoTree.Earlier(d).nodes| == |d.nodes|
  {
  }

  /** `text_snapshot`, after an edit that opened a revision. */
  method Close(t: Text, ghost d0: Doc)
    requires t.Valid() && d0.cur < |d0.nodes| && !d0.open
    requires t.doc.cur < |t.doc.nodes| && t.doc == Edited(d0, t.doc.Now())
    modifies t
    ensures t.Valid() && t.repr == old(t.repr) && t.Spots() == old(t.Spots())
    ensures !t.doc.open && 0 < t.doc.cur == |d0.nodes| < |t.doc.nodes| && t.doc.Now() == old(t.doc).Now()
    ensures t.doc.nodes[t.doc.cur].parent == d0.cur && t.doc.nodes[d0.cur].state == d0.Now()
  {
    hide Text.Inv, NextPath, TreeNodes;
    t.Snapshot();
  }

  lemma TypedEnds(d0: Doc, d: Doc, spots: seq<Spot>, pos: nat, typed: seq<byte>)
    requires Typed(d0, d, spots, pos, typed)
    ensures d0.cur < |d0.nodes| && d.cur < |d.nodes| && d == Edited(d0, d.Now()) && d.cur == |d0.nodes| < |spots|
    ensures pos <= |d0.Now().text| && d.Now().text == Inserted(d0.Now().text, pos, typed)
    ensures spots[d.cur].first == pos && Landing(spots[d.cur]) == pos + |typed|
    ensures !d0.open ==> d.nodes[d.cur].parent == d0.cur
  {
  }

  lemma ErasedEnds(d0: Doc, d: Doc, spots: seq<Spot>, pos: nat, len: nat)
    requires Erased(d0, d, spots, pos, len)
    ensures d0.cur < |d0.nodes| && d.cur < |d.nodes| && d == Edited(d0, d.Now()) && d.cur == |d0.nodes| < |spots|
    ensures pos + len <= |d0.Now().text| && d.Now().text == Removed(d0.Now().text, pos, len)
    ensures spots[d.cur].first == pos && Landing(spots[d.cur]) == pos
    ensures !d0.open ==> d.nodes[d.cur].parent == d0.cur
  {
  }

  /** What was typed is undone to where typing began, and redone to where it ended, whatever
      has happened since. */
  method TypeUndoRedo(t: Text, pos: nat, parts: seq<seq<byte>>, cs: seq<Command>, times: Revision -> int)
    returns (u: nat, r: nat, ghost trace: seq<Doc>, ghost ops: seq<Op>, ghost between: Doc)
    requires t.Valid() && !t.doc.open && parts != [] && forall i :: 0 <= i < |parts| ==> parts[i] != []
    requires t.doc.cur < |t.doc.nodes| && pos <= |t.doc.Now().text|
    modifies t, t.repr
    ensures t.Valid() && |ops| == |cs| && (forall i :: 0 <= i < |cs| ==> Means(cs[i], ops[i])) && Run(trace, ops)
    ensures trace[0].cur == |old(t.doc).nodes| < |trace[0].nodes|
    ensures trace[0].Now().text == Inserted(old(t.doc).Now().text, pos, Joined(parts))
    ensures trace[|cs|].cur == trace[0].cur ==>
              && u == pos && r == pos + |Joined(parts)|
              && between.cur < |between.nodes| && between.Now() == old(t.doc).Now()
              && t.doc.cur < |t.doc.nodes| && t.doc.Now() == trace[0].Now()
  {
    hide Text.Valid, SpotsOf, Joined, Inserted, Run, Means, Typed, UndoTree.Edited, Landing;
    Type(t, pos, parts);
    TypedEnds(old(t.doc), t.doc, t.Spots(), pos, Joined(parts));
    Close(t, old(t.doc));
    u, r, trace, ops, between := RunUndoRedo(t, cs, times);
  }

  /** A deletion is undone and redone at its place. */
  method EraseUndoRedo(t: Text, pos: nat, len: nat, cs: seq<Command>, times: Revision -> int)
    returns (u: nat, r: nat, ghost trace: seq<Doc>, ghost ops: seq<Op>, ghost between: Doc)
    requires t.Valid() && !t.doc.open && len > 0 && t.doc.cur < |t.doc.nodes| && pos + len <= |t.doc.Now().text|
    modifies t, t.repr
    ensures t.Valid() && |ops| == |cs| && (forall i :: 0 <= i < |cs| ==> Means(cs[i], ops[i])) && Run(trace, ops)
    ensures trace[0].cur == |old(t.doc).nodes| < |trace[0].nodes|
    ensures trace[0].Now().text == Removed(old(t.doc).Now().text, pos, len)
    ensures trace[|cs|].cur == trace[0].cur ==>
              && u == r == pos
              && between.cur < |between.nodes| && between.Now() == old(t.doc).Now()
              && t.doc.cur < |t.doc.nodes| && t.doc.Now() == trace[0].Now()
  {
    hide Text.Valid, SpotsOf, Removed, Run, Means, Erased, UndoTree.Edited, Landing;
    Erase(t, pos, len);
    ErasedEnds(old(t.doc), t.doc, t.Spots(), pos, len);
    Close(t, old(t.doc));
    u, r, trace, ops, between := RunUndoRedo(t, cs, times);
  }

  /** Earlier and later lead to the same places, from the newest revision. */
  method TypeEarlierLater(t: Text, pos: nat, parts: seq<seq<byte>>) returns (e: nat, l: nat)
    requires t.Valid() && !t.doc.open && parts != [] && forall i :: 0 <= i < |parts| ==> parts[i] != []
    requires t.doc.cur + 1 == |t.doc.nodes| && pos <= |t.doc.Now().text|
    modifies t, t.repr
    ensures t.Valid() && e == pos && l == pos + |Joined(parts)|
  {
    hide Text.Valid, SpotsOf, Joined, Inserted, Typed, UndoTree.Edited, Landing;
    Type(t, pos, parts);
    TypedEnds(old(t.doc), t.doc, t.Spots(), pos, Joined(parts));
    e, l := EarlierLater(t);
  }

  method EraseEarlierLater(t: Text, pos: nat, len: nat) returns (e: nat, l: nat)
    requires t.Valid() && !t.doc.open && len > 0 && t.doc.cur + 1 == |t.doc.nodes|
    requires pos + len <= |t.doc.Now().text|
    modifies t, t.repr
    ensures t.Valid() && e == l == pos
  {
    hide Text.Valid, SpotsOf, Removed, Erased, UndoTree.Edited, Landing;
    Erase(t, pos, len);
    ErasedEnds(old(t.doc), t.doc, t.Spots(), pos, len);
    e, l := EarlierLater(t);
  }
}
