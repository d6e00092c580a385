/** The undo tree as its users see it. */
module UndoTree {

  // Revisions have contents; one is current, each knows which child `redo` follows, and one was
  // saved.  The `Text` class is proved against these functions; this module proves what whole
  // runs of them guarantee.

  import opened Bytes
  import opened History

  /** Everything a revision pins down: the bytes, the address of each byte (what marks are
      made of), and the piece chain itself. */
  datatype State = State(text: seq<byte>, addrs: seq<Ptr>, chain: seq<Piece>)

  /** A revision: its parent, the child a redo goes to, and its contents. */
  datatype Node = Node(parent: nat, next: Option<nat>, state: State)

  datatype Doc = Doc(nodes: seq<Node>, cur: nat, open: bool, saved: nat) {
    /** The contents of the document. */
    function Now(): State
      requires cur < |nodes|
    {
      nodes[cur].state
    }

    /** Revision `r` exists and takes no further changes. */
    predicate Closed(r: nat) {
      r < |nodes| && !(open && r == cur)
    }
  }

  // ----- the tree -----

  ghost predicate TreeNodes(nodes: seq<Node>) {
    && |nodes| > 0
    && (forall i {:trigger nodes[i].parent} :: 0 < i < |nodes| ==> nodes[i].parent < i)
    && (forall i {:trigger nodes[i].next} :: 0 <= i < |nodes| && nodes[i].next.Some? ==>
          i < nodes[i].next.value < |nodes| && nodes[nodes[i].next.value].parent == i)
  }

  /** Following `next` from the root leads to `r`. */
  ghost predicate NextPath(nodes: seq<Node>, r: nat)
    requires TreeNodes(nodes) && r < |nodes|
    decreases r
  {
    r == 0 || (nodes[nodes[r].parent].next == Some(r) && NextPath(nodes, nodes[r].parent))
  }

  ghost predicate AncNode(nodes: seq<Node>, a: nat, r: nat)
    requires TreeNodes(nodes) && r < |nodes|
    decreases r
  {
    a == r || (r > 0 && AncNode(nodes, a, nodes[r].parent))
  }

  lemma {:induction false} AncNodeLeq(nodes: seq<Node>, a: nat, r: nat)
    requires TreeNodes(nodes) && r < |nodes| && AncNode(nodes, a, r)
    ensures a <= r
    decreases r
  {
    if a != r { AncNodeLeq(nodes, a, nodes[r].parent); }
  }

  lemma {:induction false} RootIsAnc(nodes: seq<Node>, r: nat)
    requires TreeNodes(nodes) && r < |nodes|
    ensures AncNode(nodes, 0, r)
    decreases r
  {
    if r > 0 { RootIsAnc(nodes, nodes[r].parent); }
  }

  /** From an ancestor of `r`, the redo pointer leads one step closer to `r`. */
  lemma {:induction false} NextTowards(nodes: seq<Node>, a: nat, r: nat)
    requires TreeNodes(nodes) && r < |nodes| && NextPath(nodes, r)
    requires AncNode(nodes, a, r) && a != r
    ensures a < |nodes| && nodes[a].next.Some? && AncNode(nodes, nodes[a].next.value, r)
    ensures a < nodes[a].next.value <= r
    decreases r
  {
    AncNodeLeq(nodes, a, r);
    var p := nodes[r].parent;
    if a == p {
      assert nodes[a].next == Some(r);
    } else {
      NextTowards(nodes, a, p);
    }
  }

  /** Two revisions on the `next` path are ordered by ancestry, and `seq` tells how. */
  lemma {:induction false} SamePath(nodes: seq<Node>, h: nat, r: nat)
    requires TreeNodes(nodes) && h <= r < |nodes|
    requires NextPath(nodes, h) && NextPath(nodes, r)
    ensures AncNode(nodes, h, r)
    decreases h + r
  {
    if h < r {
      var p := nodes[r].parent;
      if h <= p {
        SamePath(nodes, h, p);
      } else {
        SamePath(nodes, p, h);
        NextTowards(nodes, p, h);
      }
    }
  }

  // ----- switching branches -----

  /** Make the redo pointers lead from the root to `r` (`history_change_branch`). */
  ghost function Rebranch(nodes: seq<Node>, r: nat): (res: seq<Node>)
    requires TreeNodes(nodes) && r < |nodes|
    ensures TreeNodes(res) && |res| == |nodes|
    ensures forall i :: 0 <= i < |nodes| ==>
              res[i].parent == nodes[i].parent && res[i].state == nodes[i].state
    decreases r
  {
    if r == 0 then nodes
    else
      Rebranch(Redirected(nodes, r), nodes[r].parent)
  }

  /** The undo tree after one pointer is redirected. */
  ghost function Redirected(nodes: seq<Node>, r: nat): (res: seq<Node>)
    requires r < |nodes| && nodes[r].parent < |nodes|
    ensures |res| == |nodes|
    ensures forall i :: 0 <= i < |nodes| ==> res[i].parent == nodes[i].parent && res[i].state == nodes[i].state
    ensures TreeNodes(nodes) && r > 0 ==> TreeNodes(res)
  {
    nodes[nodes[r].parent := nodes[nodes[r].parent].(next := Some(r))]
  }

  lemma RebranchStep(nodes: seq<Node>, r: nat)
    requires TreeNodes(nodes) && 0 < r < |nodes|
    ensures nodes[r].parent < r && TreeNodes(Redirected(nodes, r))
    ensures Rebranch(nodes, r) == Rebranch(Redirected(nodes, r), nodes[r].parent)
  {
  }

  /** A branch switch from `was` towards `r`, done for everything below `i`. */
  ghost predicate Switching(was: seq<Node>, nodes: seq<Node>, i: nat, r: nat, changed: bool) {
    && TreeNodes(was) && TreeNodes(nodes) && |nodes| == |was| && i < |was| && r < |was|
    && Rebranch(nodes, i) == Rebranch(was, r)
    && (changed <==> nodes != was)
    && forall j :: 0 <= j < i ==> nodes[j] == was[j]
  }

  lemma SwitchStart(nodes: seq<Node>, r: nat)
    requires TreeNodes(nodes) && r < |nodes|
    ensures Switching(nodes, nodes, r, r, false)
  {
  }

  lemma SwitchStep(was: seq<Node>, nodes: seq<Node>, i: nat, r: nat, changed: bool)
    requires Switching(was, nodes, i, r, changed) && i > 0
    ensures nodes[i].parent < i
    ensures Switching(was, Redirected(nodes, i), nodes[i].parent, r,
                      changed || Redirected(nodes, i) != nodes)
  {
    hide Rebranch, TreeNodes;
    RebranchStep(nodes, i);
  }

  lemma SwitchDone(was: seq<Node>, nodes: seq<Node>, r: nat, changed: bool)
    requires Switching(was, nodes, 0, r, changed)
    ensures nodes == Rebranch(was, r) && (changed <==> nodes != was)
  {
    hide Rebranch, TreeNodes;
    RebranchRoot(nodes);
  }

  lemma RebranchRoot(nodes: seq<Node>)
    requires TreeNodes(nodes)
    ensures Rebranch(nodes, 0) == nodes
  {
  }

  lemma {:induction false} SameAncestors(nodes: seq<Node>, nodes': seq<Node>, a: nat, r: nat)
    requires TreeNodes(nodes) && TreeNodes(nodes') && r < |nodes| == |nodes'|
    requires forall i :: 0 <= i < |nodes| ==> nodes'[i].parent == nodes[i].parent
    ensures AncNode(nodes', a, r) == AncNode(nodes, a, r)
    decreases r
  {
    if a != r && r > 0 { SameAncestors(nodes, nodes', a, nodes[r].parent); }
  }

  /** Only proper ancestors of `r` have their redo pointer changed. */
  lemma {:induction false} RebranchOnly(nodes: seq<Node>, r: nat, i: nat)
    requires TreeNodes(nodes) && r < |nodes| && i < |nodes|
    requires Rebranch(nodes, r)[i].next != nodes[i].next
    ensures AncNode(nodes, i, r) && i != r
    decreases r
  {
    if r > 0 {
      var p := nodes[r].parent;
      var nodes' := Redirected(nodes, r);
      if i != p {
        RebranchOnly(nodes', p, i);
        SameAncestors(nodes, nodes', i, p);
        AncNodeLeq(nodes, i, p);
      }
    }
  }

  lemma {:induction false} RebranchLeads(nodes: seq<Node>, r: nat)
    requires TreeNodes(nodes) && r < |nodes|
    ensures NextPath(Rebranch(nodes, r), r)
    decreases r
  {
    if r > 0 {
      var p := nodes[r].parent;
      var nodes' := Redirected(nodes, r);
      RebranchLeads(nodes', p);
      if Rebranch(nodes', p)[p].next != nodes'[p].next { RebranchOnly(nodes', p, p); }
    }
  }

  /** Nothing changes exactly when `r` was on the redo path already. */
  lemma {:induction false} RebranchSame(nodes: seq<Node>, r: nat)
    requires TreeNodes(nodes) && r < |nodes|
    ensures Rebranch(nodes, r) == nodes <==> NextPath(nodes, r)
    decreases r
  {
    RebranchLeads(nodes, r);
    if r > 0 && NextPath(nodes, r) {
      var p := nodes[r].parent;
      assert Redirected(nodes, r) == nodes;
      RebranchSame(nodes, p);
    }
  }

  /** Where a branch switch away from `h` leaves the old path, `r`'s path begins. */
  lemma LeavesAtFork(nodes: seq<Node>, h: nat, r: nat, x: nat)
    requires TreeNodes(nodes) && h < |nodes| && r < |nodes| && NextPath(nodes, h)
    requires 0 < x < |nodes| && AncNode(nodes, x, h)
    requires Rebranch(nodes, r)[nodes[x].parent].next != Some(x)
    ensures AncNode(nodes, nodes[x].parent, r) && nodes[x].parent != r
  {
    OnPath(nodes, h, x);
    RebranchOnly(nodes, r, nodes[x].parent);
  }

  lemma AncNodeSelf(nodes: seq<Node>, x: nat)
    requires TreeNodes(nodes) && x < |nodes|
    ensures AncNode(nodes, x, x)
  {
  }

  lemma {:induction false} AncNodeUp(nodes: seq<Node>, x: nat, h: nat)
    requires TreeNodes(nodes) && h < |nodes| && x < |nodes| && AncNode(nodes, x, h)
    ensures x > 0 ==> nodes[x].parent < x && AncNode(nodes, nodes[x].parent, h)
    decreases h
  {
    if x != h { AncNodeUp(nodes, x, nodes[h].parent); }
  }

  /** Where leaving the old branch ends, the way to `r` begins. */
  lemma ForkIsAnc(nodes: seq<Node>, h: nat, r: nat, c: nat)
    requires TreeNodes(nodes) && h < |nodes| && r < |nodes| && c < |nodes| && NextPath(nodes, h)
    requires var nodes' := Rebranch(nodes, r);
             c == 0 || exists x :: 0 < x < |nodes| && AncNode(nodes', x, h)
                                && c == nodes'[x].parent && nodes'[c].next != Some(x)
    ensures AncNode(Rebranch(nodes, r), c, r)
  {
    var nodes' := Rebranch(nodes, r);
    if c == 0 {
      RootIsAnc(nodes', r);
    } else {
      var x :| 0 < x < |nodes| && AncNode(nodes', x, h) && c == nodes'[x].parent && nodes'[c].next != Some(x);
      SameAncestors(nodes, nodes', x, h);
      LeavesAtFork(nodes, h, r, x);
      SameAncestors(nodes, nodes', c, r);
    }
  }

  /** It is also an ancestor of where we came from. */
  lemma ForkBehind(nodes: seq<Node>, h: nat, r: nat, c: nat)
    requires TreeNodes(nodes) && h < |nodes| && r < |nodes| && c < |nodes|
    requires var nodes' := Rebranch(nodes, r);
             c == 0 || exists x :: 0 < x < |nodes| && AncNode(nodes', x, h)
                                   && c == nodes'[x].parent && nodes'[c].next != Some(x)
    ensures AncNode(nodes, c, h)
  {
    if c == 0 {
      RootIsAnc(nodes, h);
    } else {
      var nodes' := Rebranch(nodes, r);
      var x :| 0 < x < |nodes| && AncNode(nodes', x, h) && c == nodes'[x].parent && nodes'[c].next != Some(x);
      SameAncestors(nodes, nodes', x, h);
      AncNodeUp(nodes, x, h);
    }
  }

  /** A proper ancestor is one of the parent, too. */
  lemma AncNodeStep(nodes: seq<Node>, a: nat, r: nat)
    requires TreeNodes(nodes) && r < |nodes| && AncNode(nodes, a, r) && a != r
    ensures r > 0 && AncNode(nodes, a, nodes[r].parent)
  {
  }

  lemma {:induction false} OnPath(nodes: seq<Node>, h: nat, x: nat)
    requires TreeNodes(nodes) && h < |nodes| && NextPath(nodes, h)
    requires 0 < x < |nodes| && AncNode(nodes, x, h)
    ensures nodes[nodes[x].parent].next == Some(x)
    decreases h
  {
    if x != h { OnPath(nodes, nodes[h].parent, x); }
  }

  /** Every ancestor of a revision on the redo path is on it. */
  lemma {:induction false} AncOnPath(nodes: seq<Node>, a: nat, r: nat)
    requires TreeNodes(nodes) && r < |nodes| && NextPath(nodes, r) && AncNode(nodes, a, r)
    ensures a < |nodes| && NextPath(nodes, a)
    decreases r
  {
    if a != r { AncOnPath(nodes, a, nodes[r].parent); }
  }

  // ----- operations -----

  ghost predicate WellFormed(d: Doc) {
    && TreeNodes(d.nodes)
    && d.cur < |d.nodes| && d.saved < |d.nodes|
    && (d.open ==> 0 < d.cur == |d.nodes| - 1 && d.saved != d.cur)
    && NextPath(d.nodes, d.cur)
  }

  /** A change to the contents: it goes into the open revision, or opens a new child. */
  function Edited(d: Doc, st: State): Doc
    requires d.cur < |d.nodes|
  {
    if d.open then
      d.(nodes := d.nodes[d.cur := d.nodes[d.cur].(state := st)])
    else
      var n := |d.nodes|;
      Doc(d.nodes[d.cur := d.nodes[d.cur].(next := Some(n))] + [Node(d.cur, None, st)],
          n, true, d.saved)
  }

  function Snapshot(d: Doc): Doc { d.(open := false) }

  function Undone(d: Doc): Doc
    requires d.cur < |d.nodes|
  {
    if d.cur == 0 then Snapshot(d) else Snapshot(d).(cur := d.nodes[d.cur].parent)
  }

  function Redone(d: Doc): Doc
    requires d.cur < |d.nodes|
  {
    match d.nodes[d.cur].next
    case None => Snapshot(d)
    case Some(n) => Snapshot(d).(cur := n)
  }

  /** `history_traverse_to`: whatever the detour, we end up at `r` and can redo along the way
      we would have come. */
  ghost function Traversed(d: Doc, r: nat): (d': Doc)
    requires TreeNodes(d.nodes) && r < |d.nodes|
    ensures WellFormed(d) ==> WellFormed(d')
  {
    RebranchLeads(d.nodes, r);
    if r == d.cur then d else Doc(Rebranch(d.nodes, r), r, false, d.saved)
  }

  ghost function Earlier(d: Doc): Doc
    requires TreeNodes(d.nodes) && d.cur < |d.nodes|
  {
    if d.cur == 0 then d else Traversed(d, d.cur - 1)
  }

  ghost function Later(d: Doc): Doc
    requires TreeNodes(d.nodes)
  {
    if d.cur + 1 < |d.nodes| then Traversed(d, d.cur + 1) else d
  }

  function Saved(d: Doc): Doc { d.(saved := d.cur, open := false) }

  lemma EditedWellFormed(d: Doc, st: State)
    requires WellFormed(d)
    ensures WellFormed(Edited(d, st)) && Edited(d, st).Now() == st
  {
    var d' := Edited(d, st);
    if d.open {
      NextPathExtends(d.nodes, d'.nodes, d.cur);
    } else {
      assert TreeNodes(d'.nodes);
      NextPathExtends(d.nodes, d'.nodes, d.cur);
    }
  }

  lemma {:induction false} NextPathExtends(nodes: seq<Node>, nodes': seq<Node>, r: nat)
    requires TreeNodes(nodes) && TreeNodes(nodes') && r < |nodes| <= |nodes'|
    requires forall i :: 0 <= i < |nodes| ==> nodes'[i].parent == nodes[i].parent
    requires forall i :: 0 <= i < r ==> nodes'[i].next == nodes[i].next
    ensures NextPath(nodes', r) == NextPath(nodes, r)
    decreases r
  {
    if r > 0 { NextPathExtends(nodes, nodes', nodes[r].parent); }
  }

  // ----- runs -----

  datatype Op =
    | InsertOp(pos: nat, data: seq<byte>)
    | DeleteOp(pos: nat, len: nat)
    | SnapshotOp
    | UndoOp
    | RedoOp
    | EarlierOp
    | LaterOp
    | RestoreOp(target: nat)
    | SaveOp

  /** One operation.  An edit fixes the new text; which pieces and addresses carry it is up to
      the piece store. */
  ghost predicate Step(d: Doc, op: Op, d': Doc)
    requires WellFormed(d)
  {
    match op
    case InsertOp(pos, data) =>
      (if data == [] || pos > |d.Now().text| then d' == d
       else d'.cur < |d'.nodes| && d' == Edited(d, d'.Now())
            && d'.Now().text == Inserted(d.Now().text, pos, data))
    case DeleteOp(pos, len) =>
      (if len == 0 || pos + len > |d.Now().text| then d' == d
       else d'.cur < |d'.nodes| && d' == Edited(d, d'.Now())
            && d'.Now().text == Removed(d.Now().text, pos, len))
    case SnapshotOp => d' == Snapshot(d)
    case UndoOp => d' == Undone(d)
    case RedoOp => d' == Redone(d)
    case EarlierOp => d' == Earlier(d)
    case LaterOp => d' == Later(d)
    case RestoreOp(r) => r < |d.nodes| && d' == Traversed(d, r)
    case SaveOp => d' == Saved(d)
  }

  /** Every revision closed in `d` is closed in `d'` too, with the same parent and contents. */
  ghost predicate Keeps(d: Doc, d': Doc) {
    forall r: nat :: d.Closed(r) ==>
      d'.Closed(r) && d'.nodes[r].state == d.nodes[r].state
      && d'.nodes[r].parent == d.nodes[r].parent
  }

  lemma EditKeeps(d: Doc, st: State)
    requires WellFormed(d)
    ensures WellFormed(Edited(d, st)) && Keeps(d, Edited(d, st)) && Edited(d, st).saved == d.saved
  {
    hide NextPath;
    EditedWellFormed(d, st);
  }

  lemma MoveKeeps(d: Doc, r: nat)
    requires WellFormed(d) && r < |d.nodes|
    ensures WellFormed(Traversed(d, r)) && Keeps(d, Traversed(d, r)) && Traversed(d, r).saved == d.saved
  {
    hide NextPath, TreeNodes;
  }

  lemma UndoKeeps(d: Doc)
    requires WellFormed(d)
    ensures WellFormed(Undone(d)) && Keeps(d, Undone(d)) && WellFormed(Redone(d)) && Keeps(d, Redone(d))
    ensures Undone(d).saved == Redone(d).saved == d.saved
  {
  }

  /** One step keeps the tree well formed and every closed revision exactly as it is. */
  lemma StepKeeps(d: Doc, op: Op, d': Doc)
    requires WellFormed(d) && Step(d, op, d')
    ensures WellFormed(d') && Keeps(d, d')
    ensures d'.saved == if op == SaveOp then d.cur else d.saved
    ensures op == SaveOp ==> d'.Now() == d.Now() && !d'.open
  {
    hide NextPath, TreeNodes, Edited, Traversed, Undone, Redone;
    match op
    case InsertOp(pos, data) =>
      if data != [] && pos <= |d.Now().text| { EditKeeps(d, d'.Now()); }
    case DeleteOp(pos, len) =>
      if len != 0 && pos + len <= |d.Now().text| { EditKeeps(d, d'.Now()); }
    case SnapshotOp =>
    case UndoOp => UndoKeeps(d);
    case RedoOp => UndoKeeps(d);
    case EarlierOp =>
      if d.cur > 0 { MoveKeeps(d, d.cur - 1); }
    case LaterOp =>
      if d.cur + 1 < |d.nodes| { MoveKeeps(d, d.cur + 1); }
    case RestoreOp(r) => MoveKeeps(d, r);
    case SaveOp =>
  }

  ghost predicate StepAt(trace: seq<Doc>, ops: seq<Op>, i: nat)
    requires i < |ops| && i + 1 < |trace|
  {
    WellFormed(trace[i]) ==> Step(trace[i], ops[i], trace[i + 1])
  }

  /** A run: `trace[i+1]` is `trace[i]` after `ops[i]`. */
  ghost predicate Run(trace: seq<Doc>, ops: seq<Op>) {
    && |trace| == |ops| + 1
    && forall i :: 0 <= i < |ops| ==> StepAt(trace, ops, i)
  }

  /** Over every run, whatever branches it visits, a revision closed once keeps its bytes, its
      addresses and its chain of pieces for ever. */
  lemma {:induction false} ClosedForever(trace: seq<Doc>, ops: seq<Op>, n: nat)
    requires Run(trace, ops) && WellFormed(trace[0]) && n <= |ops|
    ensures WellFormed(trace[n]) && Keeps(trace[0], trace[n])
    decreases n
  {
    if n > 0 {
      ClosedForever(trace, ops, n - 1);
      assert StepAt(trace, ops, n - 1);
      StepKeeps(trace[n - 1], ops[n - 1], trace[n]);
      KeepsTransitive(trace[0], trace[n - 1], trace[n]);
    }
  }

  lemma KeepsTransitive(d: Doc, e: Doc, f: Doc)
    requires Keeps(d, e) && Keeps(e, f)
    ensures Keeps(d, f)
  {
  }

  /** Coming back to a revision that was once left, or snapshotted, shows exactly what it showed then. */
  lemma ComingBack(trace: seq<Doc>, ops: seq<Op>)
    requires Run(trace, ops) && WellFormed(trace[0])
    requires !trace[0].open && trace[|ops|].cur == trace[0].cur
    ensures WellFormed(trace[|ops|]) && trace[|ops|].Now() == trace[0].Now()
  {
    ClosedForever(trace, ops, |ops|);
  }

  /** The step after which the document was last written to disk; 0 is the load. */
  function LastSave(ops: seq<Op>, n: nat): (k: nat)
    requires n <= |ops|
    ensures k <= n
  {
    if n == 0 then 0 else if ops[n - 1] == SaveOp then n else LastSave(ops, n - 1)
  }

  lemma {:induction false} SavedStays(trace: seq<Doc>, ops: seq<Op>, n: nat)
    requires Run(trace, ops) && n <= |ops|
    requires WellFormed(trace[0]) && trace[0].saved == trace[0].cur && !trace[0].open
    ensures var k := LastSave(ops, n);
            && WellFormed(trace[k]) && WellFormed(trace[n])
            && trace[n].saved == trace[k].cur && trace[n].Closed(trace[k].cur)
            && trace[n].nodes[trace[k].cur].state == trace[k].Now()
    decreases n
  {
    if n > 0 {
      SavedStays(trace, ops, n - 1);
      assert StepAt(trace, ops, n - 1);
      StepKeeps(trace[n - 1], ops[n - 1], trace[n]);
    }
  }

  /** `text_modified` may be trusted: when it says no, the bytes are those last saved or loaded. */
  lemma UnmodifiedIsSaved(trace: seq<Doc>, ops: seq<Op>)
    requires Run(trace, ops)
    requires WellFormed(trace[0]) && trace[0].saved == trace[0].cur && !trace[0].open
    ensures var last, k := trace[|ops|], LastSave(ops, |ops|);
            && WellFormed(last) && WellFormed(trace[k])
            && (last.saved == last.cur ==> last.Now().text == trace[k].Now().text)
  {
    SavedStays(trace, ops, |ops|);
  }

  // ----- undo, redo, earlier, later -----

  /** Redo takes back an undo that did something: same revision, same bytes. */
  lemma RedoAfterUndo(d: Doc)
    requires WellFormed(d) && d.cur > 0
    ensures Redone(Undone(d)) == Snapshot(d)
  {
  }

  /** `text_later` after a `text_earlier` that moved returns to the same revision. */
  lemma LaterAfterEarlier(d: Doc)
    requires WellFormed(d) && d.cur > 0
    ensures WellFormed(Earlier(d))
    ensures Later(Earlier(d)).cur == d.cur && Later(Earlier(d)).Now() == d.Now()
  {
  }

  /** An undo, a redo and a snapshot close the revision, even a redo that has nothing to redo: the
      next edit is a revision of its own, and a single undo takes back just that. */
  lemma EditedAlone(d: Doc, e: Doc, st: State)
    requires WellFormed(d) && (e == Undone(d) || e == Redone(d) || e == Snapshot(d) || e == Saved(d))
    ensures WellFormed(e) && Edited(e, st).cur == |e.nodes| && Edited(e, st).Now() == st
    ensures Undone(Edited(e, st)).cur == e.cur && Undone(Edited(e, st)).Now() == e.Now()
  {
  }

  /** Going on from the newest revision changes nothing: an open one stays open, and what is
      edited next still belongs to it. */
  lemma EditedFurther(d: Doc, st: State)
    requires WellFormed(d) && d.cur + 1 == |d.nodes|
    ensures WellFormed(Later(d)) && Later(d) == d
    ensures d.open ==> Edited(Later(d), st).cur == d.cur && Undone(Edited(Later(d), st)).cur == d.nodes[d.cur].parent
  {
  }

  ghost predicate SameStates(d: Doc, d': Doc) {
    && |d'.nodes| == |d.nodes|
    && forall i :: 0 <= i < |d.nodes| ==> d'.nodes[i].state == d.nodes[i].state
  }

  /** `n` steps back from `d` one sees revision `d.cur - n`, as it was. */
  ghost predicate StepsBack(d: Doc, n: nat, e: Doc) {
    && WellFormed(e) && SameStates(d, e)
    && n <= d.cur && e.cur == d.cur - n
    && e.Now() == d.nodes[d.cur - n].state
  }

  lemma OneEarlier(d: Doc, n: nat, e: Doc, op: Op, e': Doc)
    requires StepsBack(d, n, e) && n < d.cur && op == EarlierOp && Step(e, op, e')
    ensures StepsBack(d, n + 1, e')
  {
  }

  lemma StepsNone(d: Doc)
    requires WellFormed(d)
    ensures StepsBack(d, 0, d)
  {
  }

  lemma StepsFrom(d: Doc, n: nat, e: Doc)
    requires StepsBack(d, n, e)
    ensures WellFormed(e)
  {
  }

  /** Stepping `text_earlier` visits every revision ever made, newest first, whichever branch
      it is on, and shows each as it was. */
  lemma {:induction false} EarlierVisitsAll(trace: seq<Doc>, ops: seq<Op>, n: nat)
    requires Run(trace, ops) && WellFormed(trace[0]) && n <= |ops| && n <= trace[0].cur
    requires forall i :: 0 <= i < n ==> ops[i] == EarlierOp
    ensures StepsBack(trace[0], n, trace[n])
    decreases n
  {
    hide Step, StepsBack, WellFormed;
    StepsNone(trace[0]);
    if n > 0 {
      EarlierVisitsAll(trace, ops, n - 1);
      StepsFrom(trace[0], n - 1, trace[n - 1]);
      assert StepAt(trace, ops, n - 1);
      OneEarlier(trace[0], n - 1, trace[n - 1], ops[n - 1], trace[n]);
    }
  }
}
