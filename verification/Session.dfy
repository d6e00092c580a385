/** Whole editing sessions: every sequence of calls on a text is a run of its undo tree. */
module Session {
  import opened Bytes
  import opened History
  import opened UndoTree
  import opened Revisions
  import opened PieceChain
  import opened Editing
  import Cache
  import Deletion
  import Insertion

  /** What a user may call. */
  datatype Command =
    | Insert(pos: nat, data: seq<byte>)
    | Delete(pos: nat, len: nat)
    | Snapshot
    | Undo
    | Redo
    | Earlier
    | Later
    | Restore(time: int)
    | Save

  /** The operation a command amounts to; which revision a restore picks depends on the clock. */
  ghost predicate Means(c: Command, op: Op) {
    match c
    case Insert(pos, data) => op == InsertOp(pos, data)
    case Delete(pos, len) => op == DeleteOp(pos, len)
    case Snapshot => op == SnapshotOp
    case Undo => op == UndoOp
    case Redo => op == RedoOp
    case Earlier => op == EarlierOp
    case Later => op == LaterOp
    case Restore(_) => op.RestoreOp?
    case Save => op == SaveOp
  }

  function Abs(n: int): nat { if n < 0 then -n else n }

  /** Clocks that do not run backwards: no revision is younger than its successor. */
  ghost predicate Monotone(revs: seq<Revision>, times: Revision -> int) {
    forall i, j :: 0 <= i < j < |revs| ==> times(revs[i]) <= times(revs[j])
  }

  /** No revision was made closer to that time. */
  ghost predicate Closest(revs: seq<Revision>, times: Revision -> int, time: int, rev: Revision) {
    forall r :: r in revs ==> Abs(times(rev) - time) <= Abs(times(r) - time)
  }

  /** The time asked for is behind the current revision, and closer to it than to the next one. */
  ghost predicate SkipsCurrent(revs: seq<Revision>, times: Revision -> int, time: int, cur: nat) {
    cur + 1 < |revs| && times(revs[cur]) < time && time - times(revs[cur]) < times(revs[cur + 1]) - time
  }

  /** Where the two loops of `text_restore` leave off. */
  ghost predicate Between(revs: seq<Revision>, times: Revision -> int, time: int, r: nat)
    requires r < |revs|
  {
    && (time <= times(revs[r]) || r == |revs| - 1)
    && (r == 0 || times(revs[r - 1]) < time || times(revs[r]) == time)
  }

  /** What comes of preferring the earlier neighbour if it is closer and not the current revision. */
  lemma PicksClosest(revs: seq<Revision>, times: Revision -> int, time: int, cur: nat, r: nat, p: nat)
    requires Monotone(revs, times) && cur < |revs| && r < |revs| && Between(revs, times, time, r)
    requires p == if r > 0 && r - 1 != cur && Abs(times(revs[r - 1]) - time) < Abs(times(revs[r]) - time) then r - 1
             else r
    ensures Closest(revs, times, time, revs[p]) <==> !SkipsCurrent(revs, times, time, cur)
    ensures forall v :: v in revs && Abs(times(v) - time) == Abs(times(revs[p]) - time) ==> times(v) <= times(revs[p])
  {
    forall v | v in revs && Abs(times(v) - time) == Abs(times(revs[p]) - time) ensures times(v) <= times(revs[p]) {
      var i :| 0 <= i < |revs| && revs[i] == v;
      assert i < r ==> i == r - 1 || times(revs[i]) <= times(revs[r - 1]);
      assert i > r ==> times(revs[r]) <= times(revs[i]);
    }
    if SkipsCurrent(revs, times, time, cur) {
      assert r == cur + 1;
      assert Abs(times(revs[cur]) - time) < Abs(times(revs[p]) - time) && revs[cur] in revs;
    } else {
      forall v | v in revs ensures Abs(times(revs[p]) - time) <= Abs(times(v) - time) {
        var i :| 0 <= i < |revs| && revs[i] == v;
        assert i < r ==> i == r - 1 || times(revs[i]) <= times(revs[r - 1]);
        assert i > r ==> times(revs[r]) <= times(revs[i]);
      }
    }
  }

  lemma TimesGrow(revs: seq<Revision>, times: Revision -> int, r: nat)
    requires Monotone(revs, times) && 0 < r < |revs|
    ensures times(revs[r - 1]) <= times(revs[r])
  {
  }

  lemma NextIsNoCloser(revs: seq<Revision>, times: Revision -> int, time: int, r: nat)
    requires Monotone(revs, times) && r + 1 < |revs| && Between(revs, times, time, r)
    ensures Abs(times(revs[r]) - time) <= Abs(times(revs[r + 1]) - time)
  {
  }

  /** The first loop of `text_restore`: back while the revision is too young. */
  method WalkBack(t: Text, times: Revision -> int, time: int) returns (rev: Revision, ghost r: nat)
    requires t.Inv()
    ensures r < |t.h.revs| && rev == t.h.revs[r]
    ensures time >= times(rev) || rev.earlier == null
    ensures r <= t.doc.cur && forall i :: r < i <= t.doc.cur ==> i < |t.h.revs| && time < times(t.h.revs[i])
  {
    hide Text.Inv, TreeNodes;
    t.InvFields(0);
    rev := t.history;
    r := t.doc.cur;
    t.InvPointers(r);
    while time < times(rev) && rev.earlier != null
      invariant r < |t.h.revs| && rev == t.h.revs[r]
      invariant rev.earlier == if r > 0 then t.h.revs[r - 1] else null
      invariant r <= t.doc.cur < |t.h.revs| && forall i :: r < i <= t.doc.cur ==> time < times(t.h.revs[i])
      decreases r
    {
      rev, r := rev.earlier, r - 1;
      t.InvPointers(r);
    }
  }

  /** And the second: on while it is too old. */
  method WalkOn(t: Text, times: Revision -> int, time: int) returns (rev: Revision, ghost r: nat)
    requires t.Inv()
    ensures r < |t.h.revs| && rev == t.h.revs[r]
    ensures Monotone(t.h.revs, times) ==> Between(t.h.revs, times, time, r)
    ensures Monotone(t.h.revs, times) ==>
              && (time <= times(rev) || rev.later == null)
              && (rev.earlier == null || times(rev.earlier) < time || times(rev) == time)
  {
    hide Text.Inv, TreeNodes, Monotone;
    ghost var revs := t.h.revs;
    rev, r := WalkBack(t, times, time);
    if Monotone(revs, times) && r > 0 { TimesGrow(revs, times, r); }
    t.InvPointers(r);
    while time > times(rev) && rev.later != null
      invariant r < |revs| && rev == revs[r]
      invariant rev.later == if r + 1 < |revs| then revs[r + 1] else null
      invariant Monotone(revs, times) && !(time > times(revs[r]) && r + 1 < |revs|) ==> Between(revs, times, time, r)
      decreases |revs| - r
    {
      rev, r := rev.later, r + 1;
      t.InvPointers(r);
    }
    t.InvPointers(r);
  }

  /** The choice `text_restore` makes, for any record of when revisions were made.  It is the
      revision closest to that time exactly if that is not the current one seen from behind,
      which the comparison of neighbours leaves out; of two as close, it is the younger one. */
  method FindRevision(t: Text, times: Revision -> int, time: int) returns (rev: Revision, ghost r: nat)
    requires t.Inv()
    ensures r < |t.h.revs| && rev == t.h.revs[r]
    ensures Monotone(t.h.revs, times) ==>
              (Closest(t.h.revs, times, time, rev) <==> !SkipsCurrent(t.h.revs, times, time, t.doc.cur))
    ensures Monotone(t.h.revs, times) ==> forall v ::
              v in t.h.revs && Abs(times(v) - time) == Abs(times(rev) - time) ==> times(v) <= times(rev)
  {
    hide Text.Inv, TreeNodes, Monotone, Closest, SkipsCurrent, Between;
    ghost var revs := t.h.revs;
    rev, r := WalkOn(t, times, time);
    t.InvPointers(r);
    t.InvFields(if r > 0 then r - 1 else 0);
    ghost var r0 := r;
    var diff := Abs(times(rev) - time);
    if rev.earlier != null && rev.earlier != t.history && Abs(times(rev.earlier) - time) < diff {
      rev, r := rev.earlier, r - 1;
      t.InvPointers(r);
    }
    if Monotone(revs, times) && r == r0 && r + 1 < |revs| { NextIsNoCloser(revs, times, time, r); }
    if rev.later != null && rev.later != t.history && Abs(times(rev.later) - time) < diff {
      rev, r := rev.later, r + 1;
    }
    if Monotone(revs, times) { PicksClosest(revs, times, time, t.doc.cur, r0, r); }
  }

  /** It does happen: of two revisions made at 0 and at 10, the first one being current, a request
      for time 1 picks the second. */
  method SkipsCloser() returns (t: Text, rev: Revision, ghost times: Revision -> int)
    ensures t.Inv() && Monotone(t.h.revs, times) && rev in t.h.revs && !Closest(t.h.revs, times, 1, rev)
    ensures t.doc.cur < |t.h.revs| && times(t.h.revs[t.doc.cur]) == 0 && times(rev) == 10
  {
    hide Text.Inv, TreeNodes, WellFormed, NextPath, SpotsOf, SpotAdded, SpotGrown, Cache.CachedStretch,
         Cache.GrewInPlace, Cache.InsertsInPlace, Insertion.InsertedAt;
    t := Text.Load([], false);
    var _, _ := Insertion.Insert(t, 0, [97]);
    var _ := t.Undo();
    t.InvFields(0);
    t.InvFields(1);
    var now := t.history;
    var clock := (r: Revision) => if r == now then 0 else 10;
    times := clock;
    ghost var r;
    rev, r := FindRevision(t, clock, 1);
    assert SkipsCurrent(t.h.revs, clock, 1, 0);
  }

  /** `text_restore`: traverses to some revision. */
  method RestoreTime(t: Text, times: Revision -> int, time: int) returns (pos: nat, ghost r: nat)
    requires t.Valid()
    modifies t, t.repr
    ensures t.Valid() && t.repr == old(t.repr) && TreeNodes(old(t.doc.nodes)) && r < |old(t.doc.nodes)|
    ensures t.doc == Traversed(old(t.doc), r)
    ensures r == old(t.doc.cur) ==> pos == t.lines.pos && t.lines == old(t.lines)
    ensures t.Spots() == old(t.Spots()) && old(t.doc.cur) < |old(t.doc.nodes)| == |t.Spots()|
    ensures r != old(t.doc.cur) ==> ArrivedAt(old(t.doc.nodes), t.Spots(), old(t.doc.cur), r, pos)
    ensures r != old(t.doc.cur) ==>
              Arrives(t.h, t.st.chg, old(t.doc.nodes), old(t.doc.cur), r, pos) && t.lines == LineCache(0, 1)
    ensures r < |old(t.h.revs)| && old(t.doc.cur) < |old(t.h.revs)|
    ensures Monotone(old(t.h.revs), times) ==>
              (Closest(old(t.h.revs), times, time, old(t.h.revs)[r])
               <==> !SkipsCurrent(old(t.h.revs), times, time, old(t.doc.cur)))
  {
    hide Text.Inv, WellFormed, TreeNodes, Monotone, Closest, SkipsCurrent, Arrives, ArrivedAt, SpotsOf;
    t.InvFields(0);
    var rev;
    rev, r := FindRevision(t, times, time);
    t.InvPointers(r);
    pos := t.HistoryTraverseTo(rev, r);
  }

  lemma LinesNow(t: Text)
    requires t.Inv()
    ensures t.doc.cur < |t.doc.nodes| && LinesOk(t.lines, t.doc.Now().text)
  {
    hide Text.Represents, HistInv, StatesInv;
  }

  lemma FollowSame(l: LineCache, d: Doc, d': Doc)
    requires d.cur < |d.nodes| && d'.cur < |d'.nodes| && LinesOk(l, d.Now().text) && d'.Now().text == d.Now().text
    ensures LinesFollow(l, d, l, d')
  {
  }

  lemma FollowStart(l: LineCache, d: Doc, d': Doc)
    requires d.cur < |d.nodes| && d'.cur < |d'.nodes|
    ensures LinesFollow(l, d, LineCache(0, 1), d')
  {
  }

  /** An edit behind the cached line leaves it as it was. */
  lemma FollowEdit(l: LineCache, d: Doc, l': LineCache, d': Doc, pos: nat)
    requires d.cur < |d.nodes| && d'.cur < |d'.nodes| && LinesOk(l, d.Now().text)
    requires l' == if pos < l.pos then LineCache(0, 1) else l
    requires pos <= |d.Now().text| && pos <= |d'.Now().text| && d'.Now().text[..pos] == d.Now().text[..pos]
    ensures LinesFollow(l, d, l', d')
  {
    if l.pos <= pos {
      assert d'.Now().text[..l.pos] == d'.Now().text[..pos][..l.pos] == d.Now().text[..l.pos];
    }
  }

  lemma InsertFollows(l: LineCache, d: Doc, l': LineCache, d': Doc, pos: nat, data: seq<byte>)
    requires d.cur < |d.nodes| && d'.cur < |d'.nodes| && LinesOk(l, d.Now().text) && pos <= |d.Now().text|
    requires l' == (if pos < l.pos then LineCache(0, 1) else l) && d'.Now().text == Inserted(d.Now().text, pos, data)
    ensures LinesFollow(l, d, l', d')
  {
    hide LinesFollow, LinesOk;
    FollowEdit(l, d, l', d', pos);
  }

  lemma DeleteFollows(l: LineCache, d: Doc, l': LineCache, d': Doc, pos: nat, len: nat)
    requires d.cur < |d.nodes| && d'.cur < |d'.nodes| && LinesOk(l, d.Now().text) && pos + len <= |d.Now().text|
    requires l' == (if pos < l.pos then LineCache(0, 1) else l) && d'.Now().text == Removed(d.Now().text, pos, len)
    ensures LinesFollow(l, d, l', d')
  {
    hide LinesFollow, LinesOk;
    FollowEdit(l, d, l', d', pos);
  }

  method PerformInsert(t: Text, pos: nat, data: seq<byte>)
    requires t.Valid()
    modifies t, t.repr
    ensures t.Valid() && fresh(t.repr - old(t.repr))
    ensures WellFormed(old(t.doc)) && Step(old(t.doc), InsertOp(pos, data), t.doc)
    ensures LinesFollow(old(t.lines), old(t.doc), t.lines, t.doc)
    ensures SpotsKept(old(t.doc), old(t.Spots()), t.Spots())
  {
    hide Text.Inv, TreeNodes, NextPath, Insertion.InsertedAt, SpotsOf, SpotAdded, SpotGrown, SpotsKept,
         UndoTree.Edited, Inserted, LinesFollow, LinesOk, Cache.CachedStretch, Cache.GrewInPlace,
         Cache.InsertsInPlace;
    ghost var d, l, spots := t.doc, t.lines, t.Spots();
    LinesNow(t);
    t.TipsNow();
    SpotsSame(d, spots);
    FollowSame(l, d, d);
    var ok; ghost var inPlace;
    ok, inPlace := Insertion.Insert(t, pos, data);
    if data != [] && ok {
      SpotsEdited(d, spots, t.Spots(), pos, |data|);
      InsertFollows(l, d, t.lines, t.doc, pos, data);
    }
  }

  method PerformDelete(t: Text, pos: nat, len: nat)
    requires t.Valid()
    modifies t, t.repr
    ensures t.Valid() && fresh(t.repr - old(t.repr))
    ensures WellFormed(old(t.doc)) && Step(old(t.doc), DeleteOp(pos, len), t.doc)
    ensures LinesFollow(old(t.lines), old(t.doc), t.lines, t.doc)
    ensures SpotsKept(old(t.doc), old(t.Spots()), t.Spots())
  {
    hide Text.Inv, TreeNodes, NextPath, Deletion.RemovedAt, SpotsOf, SpotAdded, SpotGrown, SpotsKept, UndoTree.Edited,
         Removed, LinesFollow, LinesOk, Cache.CachedStretch, Cache.ShrankInPlace, Cache.DeletesInPlace;
    ghost var d, l, spots := t.doc, t.lines, t.Spots();
    LinesNow(t);
    t.TipsNow();
    SpotsSame(d, spots);
    FollowSame(l, d, d);
    var ok; ghost var inPlace;
    ok, inPlace := Deletion.Delete(t, pos, len);
    if len != 0 && ok {
      SpotsEdited(d, spots, t.Spots(), pos, -(len as int));
      DeleteFollows(l, d, t.lines, t.doc, pos, len);
    }
  }

  /** A command that edits, or closes the revision. */
  method PerformEdit(t: Text, c: Command) returns (ghost op: Op)
    requires t.Valid() && (c.Insert? || c.Delete? || c.Snapshot? || c.Save?)
    modifies t, t.repr
    ensures t.Valid() && fresh(t.repr - old(t.repr))
    ensures Means(c, op) && WellFormed(old(t.doc)) && Step(old(t.doc), op, t.doc)
    ensures LinesFollow(old(t.lines), old(t.doc), t.lines, t.doc)
    ensures SpotsKept(old(t.doc), old(t.Spots()), t.Spots())
  {
    hide Text.Inv, TreeNodes, NextPath, SpotsOf, SpotsKept, LinesFollow, LinesOk, UndoTree.Edited;
    ghost var d, l := t.doc, t.lines;
    LinesNow(t);
    t.TipsNow();
    SpotsSame(d, t.Spots());
    match c {
      case Insert(pos, data) =>
        op := InsertOp(pos, data);
        PerformInsert(t, pos, data);
      case Delete(pos, len) =>
        op := DeleteOp(pos, len);
        PerformDelete(t, pos, len);
      case Snapshot =>
        op := SnapshotOp;
        t.Snapshot();
        FollowSame(l, d, t.doc);
      case Save =>
        op := SaveOp;
        t.MarkSaved();
        FollowSame(l, d, t.doc);
    }
  }

  /** A command that goes to another revision. */
  method PerformMove(t: Text, c: Command, times: Revision -> int) returns (ghost op: Op)
    requires t.Valid() && !(c.Insert? || c.Delete? || c.Snapshot? || c.Save?)
    modifies t, t.repr
    ensures t.Valid() && fresh(t.repr - old(t.repr))
    ensures Means(c, op) && WellFormed(old(t.doc)) && Step(old(t.doc), op, t.doc)
    ensures LinesFollow(old(t.lines), old(t.doc), t.lines, t.doc)
    ensures SpotsKept(old(t.doc), old(t.Spots()), t.Spots())
  {
    hide Text.Inv, TreeNodes, NextPath, LinesFollow, LinesOk, Arrives, Rebranch, SpotsOf, SpotsKept;
    ghost var l, d := t.lines, t.doc;
    LinesNow(t);
    t.TipsNow();
    SpotsSame(d, t.Spots());
    match c {
      case Undo =>
        op := UndoOp;
        var _ := t.Undo();
      case Redo =>
        op := RedoOp;
        var _ := t.Redo();
      case Earlier =>
        op := EarlierOp;
        var _ := t.Earlier();
      case Later =>
        op := LaterOp;
        var _ := t.Later();
      case Restore(time) =>
        var pos; ghost var r;
        pos, r := RestoreTime(t, times, time);
        op := RestoreOp(r);
    }
    StepKeeps(d, op, t.doc);
    if t.lines == LineCache(0, 1) { FollowStart(l, d, t.doc); } else { FollowSame(l, d, t.doc); }
  }

  lemma StepIs(c: Command, op: Op, d: Doc, d': Doc)
    requires Means(c, op) && WellFormed(d) && Step(d, op, d')
    ensures (c == Undo ==> d' == Undone(d)) && (c == Redo ==> d' == Redone(d))
    ensures (c == Earlier ==> d' == UndoTree.Earlier(d)) && (c == Later ==> d' == UndoTree.Later(d))
    ensures (c == Snapshot ==> d' == UndoTree.Snapshot(d)) && (c == Save ==> d' == UndoTree.Saved(d))
  {
  }

  /** One command is one step. */
  method Perform(t: Text, c: Command, times: Revision -> int) returns (ghost op: Op)
    requires t.Valid()
    modifies t, t.repr
    ensures t.Valid() && fresh(t.repr - old(t.repr))
    ensures Means(c, op) && WellFormed(old(t.doc)) && Step(old(t.doc), op, t.doc)
    ensures var d := old(t.doc);
            && (c == Undo ==> t.doc == Undone(d)) && (c == Redo ==> t.doc == Redone(d))
            && (c == Earlier ==> t.doc == UndoTree.Earlier(d)) && (c == Later ==> t.doc == UndoTree.Later(d))
            && (c == Snapshot ==> t.doc == UndoTree.Snapshot(d)) && (c == Save ==> t.doc == UndoTree.Saved(d))
    ensures LinesFollow(old(t.lines), old(t.doc), t.lines, t.doc)
    ensures SpotsKept(old(t.doc), old(t.Spots()), t.Spots())
  {
    hide Text.Inv, WellFormed, Step, Means, LinesFollow, SpotsOf, SpotsKept;
    ghost var d := t.doc;
    if c.Insert? || c.Delete? || c.Snapshot? || c.Save? {
      op := PerformEdit(t, c);
    } else {
      op := PerformMove(t, c, times);
    }
    StepIs(c, op, d, t.doc);
  }

  /** A sequence of commands is a run, so whatever holds of all runs holds of all texts. */
  method RunAll(t: Text, cs: seq<Command>, times: Revision -> int) returns (ghost trace: seq<Doc>, ghost ops: seq<Op>)
    requires t.Valid()
    modifies t, t.repr
    ensures t.Valid() && fresh(t.repr - old(t.repr)) && WellFormed(old(t.doc))
    ensures |ops| == |cs| && (forall i :: 0 <= i < |cs| ==> Means(cs[i], ops[i]))
    ensures Run(trace, ops) && trace[0] == old(t.doc) && trace[|cs|] == t.doc
    ensures SpotsKept(old(t.doc), old(t.Spots()), t.Spots())
  {
    hide Text.Inv, WellFormed, Step, Means, SpotsOf, SpotsKept, Keeps;
    trace, ops := [t.doc], [];
    t.TipsNow();
    SpotsSame(t.doc, t.Spots());
    var i := 0;
    while i < |cs|
      invariant i <= |cs| && |ops| == i && t.Valid() && fresh(t.repr - old(t.repr))
      invariant forall j :: 0 <= j < i ==> Means(cs[j], ops[j])
      invariant Run(trace, ops) && trace[0] == old(t.doc) && trace[i] == t.doc
      invariant SpotsKept(old(t.doc), old(t.Spots()), t.Spots())
    {
      ghost var d, spots := t.doc, t.Spots();
      ClosedForever(trace, ops, i);
      ghost var op := Perform(t, cs[i], times);
      SpotsKeptOn(old(t.doc), d, old(t.Spots()), spots, t.Spots());
      RunMore(trace, ops, op, t.doc);
      trace, ops := trace + [t.doc], ops + [op];
      i := i + 1;
    }
  }

  /** After any commands that lead back to a closed revision, the document is again the very same
      chain of pieces, with every `prev` and `next` as it was. */
  method ComeBack(t: Text, cs: seq<Command>, times: Revision -> int)
    requires t.Valid() && !t.doc.open
    modifies t, t.repr
    ensures t.Valid() && t.st.at < |t.st.vs| && old(t.st.at < |t.st.vs|)
    ensures t.doc.cur == old(t.doc.cur) ==>
              && t.Chain() == old(t.Chain())
              && (forall p :: p in old(t.Chain()) ==> p.prev == old(p.prev) && p.next == old(p.next))
              && t.doc.cur < |t.doc.nodes| && old(t.doc.cur < |t.doc.nodes|) && t.doc.Now() == old(t.doc.Now())
  {
    hide Text.Inv, TreeNodes, NextPath, Step, Means;
    StateNow(t);
    ghost var ch := t.Chain();
    LinksOf(t);
    ghost var trace, ops := RunAll(t, cs, times);
    StateNow(t);
    LinksOf(t);
    if t.doc.cur == old(t.doc.cur) { ComingBack(trace, ops); }
  }

  lemma LinksOf(t: Text)
    requires t.Inv()
    ensures t.st.at < |t.st.vs|
    ensures forall i :: 0 <= i < |t.Chain()| ==>
              t.Chain()[i].prev == PrevOf(t.Chain(), i) && t.Chain()[i].next == NextOf(t.Chain(), i)
  {
    hide Text.Inv, Text.Represents;
    HealthyParts(t);
    t.ChainIs(0);
    forall i | 0 <= i < |t.Chain()|
      ensures t.Chain()[i].prev == PrevOf(t.Chain(), i) && t.Chain()[i].next == NextOf(t.Chain(), i)
    {
      t.ChainIs(i);
    }
  }

  /** From loading to asking whether there is anything to save: a document that is said to be
      unmodified shows what it showed when it was last saved, or what was loaded. */
  method EditFile(content: seq<byte>, mapped: bool, cs: seq<Command>, times: Revision -> int)
    returns (t: Text, modified: bool, ghost trace: seq<Doc>, ghost ops: seq<Op>)
    ensures t.Valid() && |ops| == |cs| && (forall i :: 0 <= i < |cs| ==> Means(cs[i], ops[i]))
    ensures Run(trace, ops) && trace[|cs|] == t.doc && trace[0].cur < |trace[0].nodes| && trace[0].Now().text == content
    ensures var saved := trace[LastSave(ops, |ops|)];
            && saved.cur < |saved.nodes| && t.doc.cur < |t.doc.nodes|
            && (!modified ==> t.doc.Now().text == saved.Now().text)
  {
    hide Text.Inv, TreeNodes, NextPath, Step, Means;
    t := Text.Load(content, mapped);
    trace, ops := RunAll(t, cs, times);
    UnmodifiedIsSaved(trace, ops);
    modified := t.Modified();
  }

  lemma RunMore(trace: seq<Doc>, ops: seq<Op>, op: Op, d: Doc)
    requires Run(trace, ops) && WellFormed(trace[|ops|]) && Step(trace[|ops|], op, d)
    ensures Run(trace + [d], ops + [op])
  {
    hide WellFormed, Step;
    forall i | 0 <= i <= |ops| ensures StepAt(trace + [d], ops + [op], i) {
      if i < |ops| { assert StepAt(trace, ops, i); }
    }
  }
}
