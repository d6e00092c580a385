/** Replaying a transcript on a text: with a running offset, change by change. */
module Replay {
  import opened Bytes
  import opened UndoTree
  import opened PieceChain
  import opened Editing
  import opened Insertion
  import opened Deletion
  import opened Ranges
  import opened Transcripts

  /** What lies behind all changes is copied. */
  lemma {:induction false} SubstitutedCut(text: seq<byte>, cs: seq<Change>, from: nat, m: nat)
    requires Sorted(cs) && Inside(cs, from, m) && from <= m <= |text|
    ensures Inside(cs, from, |text|) && Inside(cs, from, |text[..m]|)
    ensures Substituted(text, cs, from) == Substituted(text[..m], cs, from) + text[m..]
  {
    hide Sorted, Inside, Transcripts.Text, Resume;
    InsideMore(cs, from, m, |text|);
    if cs == [] {
      assert text[from..] == text[..m][from..] + text[m..];
    } else {
      SortedTail(cs, from, m);
      SortedTail(cs, from, |text|);
      SubstitutedCut(text, cs[1..], Resume(cs[0]), m);
      assert text[..m][from..cs[0].range.start] == text[from..cs[0].range.start];
    }
  }

  /** One more change behind the others. */
  lemma SubstitutedMore(text: seq<byte>, cs: seq<Change>, c: Change)
    requires Sorted(cs + [c]) && Inside(cs + [c], 0, |text|)
    ensures Sorted(cs) && Inside(cs, 0, c.range.start) && c.range.start <= c.range.end <= |text|
    ensures Inside(cs, 0, |text|) && Inside(cs, 0, |text[..c.range.start]|)
    ensures Substituted(text, cs + [c], 0)
            == Substituted(text[..c.range.start], cs, 0) + Transcripts.Text(c) + text[Resume(c)..]
    ensures Substituted(text, cs, 0) == Substituted(text[..c.range.start], cs, 0) + text[c.range.start..]
  {
    hide Sorted, Inside, Transcripts.Text, Substituted, Single, Resume;
    SortedInit(cs, c, 0, |text|);
    var one := Single(text, c);
    SubstitutedTail(text, cs, c, 0);
    SinglePieces(text, c);
    SubstitutedCut(one, cs, 0, c.range.start);
    SubstitutedCut(text, cs, 0, c.range.start);
    Assoc(Substituted(text[..c.range.start], cs, 0), Transcripts.Text(c), text[Resume(c)..]);
  }

  lemma SinglePieces(text: seq<byte>, c: Change)
    requires c.range.start <= c.range.end <= |text|
    ensures c.range.start <= |Single(text, c)| && c.range.start <= Resume(c) <= |text|
    ensures Single(text, c)[..c.range.start] == text[..c.range.start]
    ensures Single(text, c)[c.range.start..] == Transcripts.Text(c) + text[Resume(c)..]
  {
  }

  lemma RepeatedNone(data: seq<byte>, n: int)
    ensures n <= 0 ==> Repeated(data, n) == [] == Repeated(data, 0)
  {
  }

  /** The data, inserted once more in front. */
  lemma RepeatedMore(data: seq<byte>, n: nat)
    ensures Repeated(data, n + 1) == data + Repeated(data, n)
  {
  }

  /** The document after some edits of one revision. */
  ghost predicate EditedTo(d0: Doc, d: Doc) {
    d.cur < |d.nodes| && d0.cur < |d0.nodes| && (d == d0 || d == Edited(d0, d.Now()))
  }

  lemma EditedAgain(d0: Doc, d: Doc, d': Doc)
    requires EditedTo(d0, d) && d0.cur < |d0.nodes| && d'.cur < |d'.nodes|
    requires d' == d || d' == Edited(d, d'.Now())
    ensures EditedTo(d0, d')
  {
  }

  /** Deleting the range succeeds, and changes the text, exactly if it lies in it. */
  ghost predicate RangeDeleted(d: Doc, d': Doc, r: Filerange, ok: bool) {
    && EditedTo(d, d')
    && var text := d.Now().text;
       && (ok <==> r.Valid() && (r.start == r.end || r.end <= |text|))
       && d'.Now().text == if ok && r.start < r.end then Removed(text, r.start, r.end - r.start) else text
  }

  /** `text_delete_range`. */
  method DeleteRange(t: PieceChain.Text, r: Filerange) returns (ok: bool)
    requires t.Valid()
    modifies t, t.repr
    ensures t.Valid() && fresh(t.repr - old(t.repr)) && RangeDeleted(old(t.doc), t.doc, r, ok)
  {
    hide Text.Inv, WellFormed, UndoTree.Edited;
    StateNow(t);
    if !r.Valid() { return false; }
    ghost var inPlace;
    ok, inPlace := Delete(t, r.start, r.end - r.start);
  }

  /** The data has been inserted `n` times at `pos`. */
  ghost predicate InsertedTimes(d: Doc, d': Doc, pos: nat, data: seq<byte>, n: nat) {
    && EditedTo(d, d') && pos <= |d.Now().text|
    && d'.Now().text == Inserted(d.Now().text, pos, Repeated(data, n))
  }

  lemma OnceMore(d: Doc, d1: Doc, d2: Doc, pos: nat, data: seq<byte>, n: nat)
    requires InsertedTimes(d, d1, pos, data, n) && d2.cur < |d2.nodes|
    requires if data == [] then d2 == d1
             else d2 == Edited(d1, d2.Now()) && d2.Now().text == Inserted(d1.Now().text, pos, data)
    ensures InsertedTimes(d, d2, pos, data, n + 1)
  {
    hide Edited, EditedTo, Inserted, Repeated;
    TimesIs(d, d1, pos, data, n);
    EditedAgain(d, d1, d2);
    RepeatedMore(data, n);
    if data == [] {
      assert data + Repeated(data, n) == Repeated(data, n);
    } else {
      InsertedTwice(d.Now().text, pos, Repeated(data, n), data);
    }
    EditedIs(d, d2);
  }

  lemma TimesIs(d: Doc, d': Doc, pos: nat, data: seq<byte>, n: nat)
    requires InsertedTimes(d, d', pos, data, n)
    ensures d.cur < |d.nodes| && d'.cur < |d'.nodes| && pos <= |d.Now().text|
    ensures pos <= |d'.Now().text|
  {
  }

  /** `for (i = 0; i < count; i++) text_insert(...)`. */
  method InsertTimes(t: PieceChain.Text, pos: nat, data: seq<byte>, count: int, ghost d0: Doc) returns (added: nat)
    requires t.Valid() && d0 == t.doc && t.doc.cur < |t.doc.nodes| && pos <= |t.doc.Now().text|
    modifies t, t.repr
    ensures t.Valid() && fresh(t.repr - old(t.repr))
    ensures InsertedTimes(d0, t.doc, pos, data, if count > 0 then count else 0) && added == |Repeated(data, count)|
  {
    hide Text.Inv, WellFormed, UndoTree.Edited, EditedTo;
    assert EditedTo(d0, t.doc) by { NotEdited(t.doc); }
    added := 0;
    var i := 0;
    while i < count
      invariant t.Valid() && fresh(t.repr - old(t.repr))
      invariant 0 <= i && (i <= count || i == 0) && InsertedTimes(d0, t.doc, pos, data, i)
                && added == |Repeated(data, i)|
      invariant t.doc.cur < |t.doc.nodes|
    {
      ghost var d1 := t.doc;
      var ok; ghost var inPlace;
      ok, inPlace := Insert(t, pos, data);
      OnceMore(d0, d1, t.doc, pos, data, i);
      added := added + |data|;
      i := i + 1;
    }
  }

  lemma NotEdited(d: Doc)
    requires d.cur < |d.nodes|
    ensures EditedTo(d, d)
  {
  }

  /** The text after one change at its place `p`, `q` being where it goes on. */
  lemma OneChange(d0: Doc, d1: Doc, d2: Doc, c: Change, p: nat, q: nat, r: nat)
    requires EditedTo(d0, d1) && p <= q <= |d0.Now().text| && r == (if c.delete then q else p)
    requires d1.Now().text == d0.Now().text[..p] + d0.Now().text[r..]
    requires if c.insert then InsertedTimes(d1, d2, p, c.data, if c.count > 0 then c.count else 0) else d2 == d1
    ensures EditedTo(d0, d2) && d2.Now().text == d0.Now().text[..p] + Transcripts.Text(c) + d0.Now().text[r..]
  {
    hide Edited, EditedTo, Repeated;
    EditedIs(d0, d1);
    NotEdited(d1);
    EditedOn(d0, d1, d2);
    var a, b := d0.Now().text[..p], d0.Now().text[r..];
    assert (a + b)[..p] == a && (a + b)[p..] == b;
    RepeatedNone(c.data, c.count);
  }

  /** One round of the loop in `sam_cmd`. */
  method ReplayChange(t: PieceChain.Text, c: SamChange, delta: int, ghost v: Change) returns (delta': int)
    requires t.Valid() && c !in t.repr && t.doc.cur < |t.doc.nodes| && |t.doc.Now().text| < EPOS
    requires v == c.Value() && v.range.start <= v.range.end
    requires 0 <= v.range.start + delta && v.range.end + delta <= |t.doc.Now().text|
    modifies t, t.repr, c`range
    ensures t.Valid() && fresh(t.repr - old(t.repr)) && EditedTo(old(t.doc), t.doc)
    ensures var text := old(t.doc).Now().text;
            t.doc.Now().text == text[..v.range.start + delta]
                                + (if v.insert then Repeated(v.data, v.count) else [])
                                + text[(if v.delete then v.range.end else v.range.start) + delta..]
    ensures delta' == delta + |t.doc.Now().text| - |old(t.doc).Now().text|
  {
    hide Text.Inv, WellFormed, UndoTree.Edited, EditedTo, Inserted, InsertedTimes, Removed;
    ghost var d0 := t.doc;
    delta' := delta;
    c.range := Filerange(c.range.start + delta, c.range.end + delta);
    var start, end := c.range.start, c.range.end;
    NotEdited(d0);
    if c.delete {
      var ok := DeleteRange(t, c.range);
      DeletedIs(d0, t.doc, c.range, ok);
      delta' := delta' - (end - start);
    }
    ghost var d1 := t.doc;
    EditedIs(d0, d1);
    Whole(d0.Now().text, start);
    assert d1.Now().text == d0.Now().text[..start] + d0.Now().text[if c.delete then end else start..];
    if c.insert {
      var added := InsertTimes(t, c.range.start, c.data, c.count, t.doc);
      delta' := delta' + added;
    }
    OneChange(d0, d1, t.doc, v, start, end, if v.delete then end else start);
  }

  lemma Whole(text: seq<byte>, p: nat)
    requires p <= |text|
    ensures text == text[..p] + text[p..]
  {
  }

  lemma EditedIs(d0: Doc, d: Doc)
    requires EditedTo(d0, d)
    ensures d0.cur < |d0.nodes| && d.cur < |d.nodes|
  {
  }

  lemma DeletedIs(d: Doc, d': Doc, r: Filerange, ok: bool)
    requires RangeDeleted(d, d', r, ok) && r.start <= r.end <= |d.Now().text| < EPOS
    ensures EditedTo(d, d') && d'.Now().text == d.Now().text[..r.start] + d.Now().text[r.end..]
  {
    hide Edited;
    assert r.start == r.end ==> d.Now().text == d.Now().text[..r.start] + d.Now().text[r.end..];
  }

  /** How much the changes add. */
  function Added(cs: seq<Change>): nat {
    if cs == [] then 0 else |Transcripts.Text(cs[0])| + Added(cs[1..])
  }

  lemma {:induction false} AddedBound(text: seq<byte>, cs: seq<Change>, from: nat)
    requires Sorted(cs) && Inside(cs, from, |text|) && from <= |text|
    ensures |Substituted(text, cs, from)| <= |text| - from + Added(cs)
  {
    hide Transcripts.Text;
    if cs != [] {
      SortedTail(cs, from, |text|);
      AddedBound(text, cs[1..], Resume(cs[0]));
    }
  }

  lemma {:induction false} AddedPrefix(cs: seq<Change>, i: nat)
    requires i <= |cs|
    ensures Added(cs[..i]) <= Added(cs)
  {
    if i > 0 {
      assert cs[..i][1..] == cs[1..][..i - 1];
      AddedPrefix(cs[1..], i - 1);
    }
  }

  /** The text after the first `i` changes; `delta` is how much longer it has become. */
  ghost predicate Replayed(text: seq<byte>, cs: seq<Change>, i: nat, now: seq<byte>, delta: int) {
    && i <= |cs| && Sorted(cs[..i]) && Inside(cs[..i], 0, |text|)
    && now == Substituted(text, cs[..i], 0) && |now| == |text| + delta
  }

  lemma SortedPrefix(cs: seq<Change>, i: nat, to: nat)
    requires Sorted(cs) && Inside(cs, 0, to) && i <= |cs|
    ensures Sorted(cs[..i]) && Inside(cs[..i], 0, to)
  {
  }

  /** Before change `i`: where its range has moved to, and that the text still fits. */
  lemma BeforeChange(text: seq<byte>, cs: seq<Change>, i: nat, now: seq<byte>, delta: int)
    requires Sorted(cs) && Inside(cs, 0, |text|) && |text| + Added(cs) < EPOS && i < |cs|
    requires Replayed(text, cs, i, now, delta)
    ensures cs[i].range.start <= cs[i].range.end <= |text| && |now| < EPOS
    ensures 0 <= cs[i].range.start + delta && cs[i].range.end + delta <= |now|
  {
    hide Transcripts.Text, Substituted, Sorted, Inside, Added;
    SortedPrefix(cs, i + 1, |text|);
    assert cs[..i + 1] == cs[..i] + [cs[i]];
    SubstitutedMore(text, cs[..i], cs[i]);
    AddedBound(text, cs[..i], 0);
    AddedPrefix(cs, i);
  }

  /** After it. */
  lemma AfterChange(text: seq<byte>, cs: seq<Change>, i: nat, now: seq<byte>, delta: int, now': seq<byte>, delta': int)
    requires Sorted(cs) && Inside(cs, 0, |text|) && i < |cs| && Replayed(text, cs, i, now, delta)
    requires 0 <= cs[i].range.start + delta && cs[i].range.start <= Resume(cs[i]) && Resume(cs[i]) + delta <= |now|
    requires now' == now[..cs[i].range.start + delta] + Transcripts.Text(cs[i]) + now[Resume(cs[i]) + delta..]
    requires delta' == delta + |Transcripts.Text(cs[i])| - (Resume(cs[i]) - cs[i].range.start)
    ensures Replayed(text, cs, i + 1, now', delta')
  {
    hide Transcripts.Text, Substituted, Sorted, Inside;
    var c := cs[i];
    SortedPrefix(cs, i + 1, |text|);
    assert cs[..i + 1] == cs[..i] + [c];
    SubstitutedMore(text, cs[..i], c);
    var head := Substituted(text[..c.range.start], cs[..i], 0);
    assert now == head + text[c.range.start..] && |head| == c.range.start + delta;
    assert now[..|head|] == head && now[Resume(c) + delta..] == text[Resume(c)..];
  }

  /** All changes lie inside the document, which stays below EPOS bytes. */
  ghost predicate Fits(d: Doc, cs: seq<Change>) {
    d.cur < |d.nodes| && Inside(cs, 0, |d.Now().text|) && |d.Now().text| + Added(cs) < EPOS
  }

  /** The document is the old one with all changes made at once. */
  ghost predicate AllMade(d: Doc, cs: seq<Change>, d': Doc) {
    && d.cur < |d.nodes| && d'.cur < |d'.nodes|
    && Sorted(cs) && Inside(cs, 0, |d.Now().text|)
    && d'.Now().text == Substituted(d.Now().text, cs, 0)
  }

  /** The transcript is no part of the text. */
  ghost predicate Apart(t: PieceChain.Text, tr: Transcript)
    reads t`repr, tr`list
  {
    tr !in t.repr && forall c :: c in tr.list ==> c !in t.repr
  }

  /** The loop of `sam_cmd`. */
  method ReplayAll(t: PieceChain.Text, tr: Transcript)
    requires t.Valid() && tr.Valid() && Fits(t.doc, tr.cells) && Apart(t, tr)
    modifies t, t.repr, tr.list`range
    ensures t.Valid() && EditedTo(old(t.doc), t.doc) && AllMade(old(t.doc), tr.cells, t.doc)
    ensures t.doc.Now().text == ByteByByte(old(t.doc).Now().text, tr.cells, 0)
  {
    hide Text.Inv, WellFormed, UndoTree.Edited, EditedTo, Inside, Sorted, Substituted, Added, Replayed, ByteByByte;
    ghost var d0, cs, list := t.doc, tr.cells, tr.list;
    ghost var text := d0.Now().text;
    NotEdited(d0);
    var delta := 0;
    ghost var i := 0;
    ReplayStart(text, cs);
    var c := tr.changes;
    assert tr.Linked();
    while c != null
      invariant t.Valid() && fresh(t.repr - old(t.repr)) && t.doc.cur < |t.doc.nodes| && EditedTo(d0, t.doc)
      invariant i <= |list| && c == NodeAt(list, i) && tr.cells == cs && tr !in t.repr
      invariant forall j :: 0 <= j < |list| ==> LinkAt(list, j)
      invariant forall j :: i <= j < |list| ==> ValueAt(list, cs, j)
      invariant Replayed(text, cs, i, t.doc.Now().text, delta)
      decreases |list| - i
    {
      assert LinkAt(list, i) && ValueAt(list, cs, i);
      ghost var d1, delta0 := t.doc, delta;
      BeforeChange(text, cs, i, d1.Now().text, delta);
      delta := ReplayChange(t, c, delta, cs[i]);
      EditedOn(d0, d1, t.doc);
      AfterChange(text, cs, i, d1.Now().text, delta0, t.doc.Now().text, delta);
      c := c.next;
      i := i + 1;
    }
    ReplayEnd(text, cs, t.doc.Now().text, delta);
    SubstitutedBytes(text, cs, 0);
  }

  lemma ReplayStart(text: seq<byte>, cs: seq<Change>)
    ensures Replayed(text, cs, 0, text, 0)
  {
    assert cs[..0] == [];
  }

  lemma ReplayEnd(text: seq<byte>, cs: seq<Change>, now: seq<byte>, delta: int)
    requires Replayed(text, cs, |cs|, now, delta)
    ensures Sorted(cs) && Inside(cs, 0, |text|) && now == Substituted(text, cs, 0)
  {
    assert cs[..|cs|] == cs;
  }

  lemma EditedOn(d0: Doc, d1: Doc, d2: Doc)
    requires EditedTo(d0, d1) && EditedTo(d1, d2)
    ensures EditedTo(d0, d2) && d2.cur < |d2.nodes|
  {
    EditedAgain(d0, d1, d2);
  }

  /** The part of `sam_cmd` that applies a transcript without conflicts: all changes at once,
      as one revision, which a single undo takes back. */
  method Apply(t: PieceChain.Text, tr: Transcript)
    requires t.Valid() && tr.Valid() && Fits(t.doc, tr.cells) && Apart(t, tr)
    modifies t, t.repr, tr.list`range
    ensures t.Valid() && AllMade(old(t.doc), tr.cells, t.doc) && OneUndo(old(t.doc), t.doc)
    ensures t.doc.Now().text == ByteByByte(old(t.doc).Now().text, tr.cells, 0)
  {
    hide Text.Inv, WellFormed, Inside, Sorted, Substituted, Added, EditedTo, ByteByByte;
    ghost var d := t.doc;
    t.Snapshot();
    SnapshotKeeps(d);
    ReplayAll(t, tr);
    ghost var e := t.doc;
    t.Snapshot();
    SnapshotKeeps(e);
    OneRevision(d, e);
  }

  /** The document is complete, and either at the same revision as before or one undo from it. */
  ghost predicate OneUndo(d: Doc, d': Doc) {
    && d.cur < |d.nodes| && d'.cur < |d'.nodes| && !d'.open && TreeNodes(d'.nodes)
    && ((d'.cur == d.cur && d'.Now() == d.Now()) || (Undone(d').cur == d.cur && Undone(d').Now() == d.Now()))
  }

  lemma SnapshotKeeps(d: Doc)
    ensures WellFormed(d) ==> WellFormed(UndoTree.Snapshot(d))
    ensures d.cur < |d.nodes| ==> UndoTree.Snapshot(d).cur < |UndoTree.Snapshot(d).nodes|
    ensures d.cur < |d.nodes| ==> UndoTree.Snapshot(d).Now() == d.Now()
  {
  }

  lemma OneRevision(d: Doc, e: Doc)
    requires d.cur < |d.nodes| && EditedTo(UndoTree.Snapshot(d), e) && WellFormed(e)
    ensures OneUndo(d, UndoTree.Snapshot(e))
  {
  }
}
