/** The x and y commands: a range cut into matches and gaps, or into lines. */
module Extraction {
  import opened Bytes
  import opened History
  import opened UndoTree
  import opened Store
  import opened PieceChain
  import opened Editing
  import opened Iterators
  import opened Lines
  import opened Ranges
  import opened Transcripts
  import opened Replay

  /** A regex search: from a position, over a length, possibly not at the beginning of a line;
      any deterministic function. */
  type Search = (nat, nat, bool) -> Option<Filerange>

  /** It finds matches where it is told to look. */
  ghost predicate Proper(search: Search) {
    forall s: nat, n: nat, b: bool :: search(s, n, b).Some? ==>
      s <= search(s, n, b).value.start <= search(s, n, b).value.end <= s + n
  }

  /** And no empty ones. */
  ghost predicate NonEmpty(search: Search) {
    forall s: nat, n: nat, b: bool :: search(s, n, b).Some? ==>
      search(s, n, b).value.start < search(s, n, b).value.end
  }

  /** REG_NOTBOL. */
  function NotBol(text: seq<byte>, a: nat, start: nat): bool {
    start > a && start - 1 < |text| && text[start - 1] != NEWLINE
  }

  /** The ranges the loop of `extract` executes its command for: matches for x, gaps for y. */
  function Extracted(search: Search, text: seq<byte>, x: bool, a: nat, end: nat, start: nat,
                     last: Option<nat>): seq<Filerange>
    requires Proper(search)
    decreases end + 1 - start
  {
    if start > end then []
    else match search(start, end - start, NotBol(text, a, start))
      case None => if x then [] else [RangeNew(start, end)]
      case Some(m) =>
        if m.start == m.end && last == Some(m.start) then
          Extracted(search, text, x, a, end, start + 1, last)
        else if m.start == m.end == end && start > a && end - 1 < |text| && text[end - 1] == NEWLINE then []
        else
          var r := if x || last == None then RangeNew(m.start, m.end) else RangeNew(last.value, m.start);
          [r] + Extracted(search, text, x, a, end, if m.start == m.end then m.end + 1 else m.end, Some(m.end))
  }

  /** The matches, one after the other. */
  function Matches(search: Search, text: seq<byte>, a: nat, end: nat, start: nat): seq<Filerange>
    requires Proper(search) && NonEmpty(search)
    decreases end + 1 - start
  {
    if start > end then []
    else match search(start, end - start, NotBol(text, a, start))
      case None => []
      case Some(m) => [m] + Matches(search, text, a, end, m.end)
  }

  /** Gap, match, gap, ..., gap: they tile the range. */
  ghost predicate Tile(ms: seq<Filerange>, gaps: seq<Filerange>, start: nat, end: nat) {
    && |gaps| == |ms| + 1
    && (forall i :: 0 <= i < |gaps| ==> gaps[i].start <= gaps[i].end)
    && (forall i :: 0 <= i < |ms| ==> ms[i].start < ms[i].end)
    && gaps[0].start == start && gaps[|ms|].end == end
    && (forall i :: 0 <= i < |ms| ==> gaps[i].end == ms[i].start && ms[i].end == gaps[i + 1].start)
  }

  /** For a search that never finds anything empty, the ranges of x are the matches. */
  lemma {:induction false} XIsMatches(search: Search, text: seq<byte>, a: nat, end: nat, start: nat, last: Option<nat>)
    requires Proper(search) && NonEmpty(search)
    ensures Extracted(search, text, true, a, end, start, last) == Matches(search, text, a, end, start)
    decreases end + 1 - start
  {
    if start <= end {
      var m := search(start, end - start, NotBol(text, a, start));
      if m.Some? { XIsMatches(search, text, a, end, m.value.end, Some(m.value.end)); }
    }
  }

  /** And those of x and y tile the range, alternating. */
  lemma {:induction false} XAndYTile(search: Search, text: seq<byte>, a: nat, end: nat, start: nat)
    requires Proper(search) && NonEmpty(search) && start <= end
    ensures Tile(Matches(search, text, a, end, start), Extracted(search, text, false, a, end, start, Some(start)),
            start, end)
    decreases end + 1 - start
  {
    var m := search(start, end - start, NotBol(text, a, start));
    if m.Some? {
      XAndYTile(search, text, a, end, m.value.end);
      var ms, gaps := Matches(search, text, a, end, m.value.end),
                      Extracted(search, text, false, a, end, m.value.end, Some(m.value.end));
      TileMore(ms, gaps, m.value, RangeNew(start, m.value.start), end);
    }
  }

  lemma TileMore(ms: seq<Filerange>, gaps: seq<Filerange>, m: Filerange, g: Filerange, end: nat)
    requires Tile(ms, gaps, m.end, end) && g.start <= g.end == m.start < m.end
    ensures Tile([m] + ms, [g] + gaps, g.start, end)
  {
  }

  /** In order within the range, none overlapping the next. */
  ghost predicate Ordered(rs: seq<Filerange>, from: nat, end: nat) {
    && (forall i :: 0 <= i < |rs| ==> from <= rs[i].start <= rs[i].end <= end)
    && (forall i, j :: 0 <= i < j < |rs| ==> rs[i].end <= rs[j].start)
  }

  lemma OrderedMore(r: Filerange, rs: seq<Filerange>, from: nat, next: nat, end: nat)
    requires from <= r.start <= r.end <= next && r.end <= end && Ordered(rs, next, end)
    ensures Ordered([r] + rs, from, end)
  {
  }

  lemma OrderedLess(rs: seq<Filerange>, from: nat, next: nat, end: nat)
    requires from <= next && Ordered(rs, next, end)
    ensures Ordered(rs, from, end)
  {
  }

  /** Whatever the search finds, the ranges of x are in order. */
  lemma {:induction false} XOrdered(search: Search, text: seq<byte>, a: nat, end: nat, start: nat, last: Option<nat>)
    requires Proper(search)
    ensures Ordered(Extracted(search, text, true, a, end, start, last), start, end)
    decreases end + 1 - start
  {
    hide Ordered;
    OrderedNone(start, end);
    if start > end { return; }
    var m := search(start, end - start, NotBol(text, a, start));
    if m == None {
      assert Extracted(search, text, true, a, end, start, last) == [];
    } else if m.value.start == m.value.end && last == Some(m.value.start) {
      XOrdered(search, text, a, end, start + 1, last);
      OrderedLess(Extracted(search, text, true, a, end, start + 1, last), start, start + 1, end);
    } else {
      var next := if m.value.start == m.value.end then m.value.end + 1 else m.value.end;
      XOrdered(search, text, a, end, next, Some(m.value.end));
      OrderedMore(m.value, Extracted(search, text, true, a, end, next, Some(m.value.end)), start, next, end);
    }
  }

  lemma OrderedNone(from: nat, end: nat)
    ensures Ordered([], from, end)
  {
  }

  // ----- what the search is told, and what becomes of empty matches -----

  /** Position `p` lies behind `a` and not at the start of a line. */
  predicate MidLine(text: seq<byte>, a: nat, p: nat) {
    a < p <= |text| && !StartsLine(text, p)
  }

  /** The search is told exactly the truth about the beginning of a line: how it would answer
      when told otherwise never matters. */
  lemma {:induction false} RightFlags(search: Search, other: Search, text: seq<byte>, x: bool, a: nat, end: nat,
                                      start: nat, last: Option<nat>)
    requires Proper(search) && Proper(other)
    requires forall s: nat, n: nat :: search(s, n, MidLine(text, a, s)) == other(s, n, MidLine(text, a, s))
    ensures Extracted(search, text, x, a, end, start, last) == Extracted(other, text, x, a, end, start, last)
    decreases end + 1 - start
  {
    hide Extracted, Proper;
    if start > end {
      NoMore(search, text, x, a, end, start, last);
      NoMore(other, text, x, a, end, start, last);
    } else {
      FlagIs(text, a, start);
      OneRound(search, text, x, a, end, start, last, []);
      OneRound(other, text, x, a, end, start, last, []);
      var m := search(start, end - start, MidLine(text, a, start));
      assert m == other(start, end - start, MidLine(text, a, start));
      if m.Some? {
        if m.value.start == m.value.end && last == Some(m.value.start) {
          RightFlags(search, other, text, x, a, end, start + 1, last);
        } else {
          RightFlags(search, other, text, x, a, end,
                     if m.value.start == m.value.end then m.value.end + 1 else m.value.end, Some(m.value.end));
        }
      }
    }
  }

  lemma FlagIs(text: seq<byte>, a: nat, p: nat)
    ensures NotBol(text, a, p) == MidLine(text, a, p)
  {
  }

  /** It finds lines only where they start, or where it is told to look if it is not told that
      this is amid a line: `^`. */
  ghost predicate Anchored(search: Search, text: seq<byte>) {
    forall s: nat, n: nat, b: bool :: search(s, n, b).Some? ==>
      if search(s, n, b).value.start == s then !b else StartsLine(text, search(s, n, b).value.start)
  }

  /** Then every range of x begins where a line does, or where the whole range does. */
  lemma {:induction false} AnchoredStarts(search: Search, text: seq<byte>, a: nat, end: nat, start: nat,
                                          last: Option<nat>, k: nat)
    requires Proper(search) && Anchored(search, text) && a <= start && end <= |text|
    requires k < |Extracted(search, text, true, a, end, start, last)|
    ensures var p := Extracted(search, text, true, a, end, start, last)[k].start; p == a || StartsLine(text, p)
    decreases end + 1 - start
  {
    hide Extracted, Proper, StartsLine;
    NoMore(search, text, true, a, end, start, last);
    OneRound(search, text, true, a, end, start, last, []);
    FlagIs(text, a, start);
    var m := search(start, end - start, NotBol(text, a, start));
    var empty := m.value.start == m.value.end;
    if empty && last == Some(m.value.start) {
      AnchoredStarts(search, text, a, end, start + 1, last, k);
    } else if k > 0 {
      AnchoredStarts(search, text, a, end, if empty then m.value.end + 1 else m.value.end, Some(m.value.end), k - 1);
    }
  }

  /** A position inside a range or at one of its ends. */
  predicate Meets(rs: seq<Filerange>, q: nat) {
    exists i :: 0 <= i < |rs| && rs[i].start <= q <= rs[i].end
  }

  lemma MeetsMore(r: Filerange, rs: seq<Filerange>, q: nat)
    requires (r.start <= q <= r.end) || Meets(rs, q)
    ensures Meets([r] + rs, q)
  {
    assert ([r] + rs)[0] == r;
    if Meets(rs, q) {
      var i :| 0 <= i < |rs| && rs[i].start <= q <= rs[i].end;
      assert ([r] + rs)[i + 1] == rs[i];
    }
  }

  /** Nothing that can be found is passed over.  If the search, asked from anywhere up to `q` and
      told the truth, finds something that starts by `q`, then a range of x meets `q`, unless `q`
      is the end behind a final newline, where one more empty match is dropped. */
  lemma {:induction false} NothingMissed(search: Search, text: seq<byte>, a: nat, end: nat, start: nat,
                                         last: Option<nat>, q: nat)
    requires Proper(search) && start <= q <= end
    requires forall s: nat, n: nat :: start <= s <= q <= s + n ==>
               search(s, n, MidLine(text, a, s)).Some? && search(s, n, MidLine(text, a, s)).value.start <= q
    ensures || Meets(Extracted(search, text, true, a, end, start, last), q)
            || last == Some(q) || (q == end && 0 < end <= |text| && text[end - 1] == NEWLINE)
    decreases end + 1 - start
  {
    hide Meets, Extracted, Proper;
    FlagIs(text, a, start);
    OneRound(search, text, true, a, end, start, last, []);
    var m := search(start, end - start, MidLine(text, a, start)).value;
    var next := if m.start == m.end then m.end + 1 else m.end;
    if m.start == m.end && last == Some(m.start) {
      if q > start {
        NothingMissed(search, text, a, end, start + 1, last, q);
      }
    } else if m.start == m.end == end && start > a && end - 1 < |text| && text[end - 1] == NEWLINE {
      assert q == end;
    } else {
      var more := Extracted(search, text, true, a, end, next, Some(m.end));
      if q > m.end { NothingMissed(search, text, a, end, next, Some(m.end), q); }
      if q <= m.end || Meets(more, q) { MeetsMore(m, more, q); }
    }
  }

  /** An empty range never begins where the range before it ends. */
  ghost predicate Spaced(rs: seq<Filerange>, last: Option<nat>) {
    && (rs != [] && rs[0].start == rs[0].end ==> last != Some(rs[0].start))
    && forall i :: 0 < i < |rs| && rs[i].start == rs[i].end ==> rs[i - 1].end < rs[i].start
  }

  lemma SpacedMore(r: Filerange, rs: seq<Filerange>, last: Option<nat>)
    requires Spaced(rs, Some(r.end)) && (r.start == r.end ==> last != Some(r.start))
    requires forall i :: 0 <= i < |rs| ==> r.end <= rs[i].start
    ensures Spaced([r] + rs, last)
  {
  }

  /** ... nor at the end behind a final newline, unless it is found at once. */
  lemma {:induction false} EmptyRanges(search: Search, text: seq<byte>, a: nat, end: nat, start: nat,
                                       last: Option<nat>)
    requires Proper(search) && a <= start
    ensures var rs := Extracted(search, text, true, a, end, start, last);
            && Spaced(rs, last)
            && (start > a && 0 < end <= |text| && text[end - 1] == NEWLINE ==> Filerange(end, end) !in rs)
    decreases end + 1 - start
  {
    hide Spaced, Extracted, Proper;
    SpacedNone(last);
    if start > end {
      NoMore(search, text, true, a, end, start, last);
      return;
    }
    OneRound(search, text, true, a, end, start, last, []);
    var m := search(start, end - start, NotBol(text, a, start));
    if m.None? { return; }
    var empty := m.value.start == m.value.end;
    if empty && last == Some(m.value.start) {
      EmptyRanges(search, text, a, end, start + 1, last);
    } else {
      var next := if empty then m.value.end + 1 else m.value.end;
      XOrdered(search, text, a, end, next, Some(m.value.end));
      if next > a { EmptyRanges(search, text, a, end, next, Some(m.value.end)); }
      SpacedMore(m.value, Extracted(search, text, true, a, end, next, Some(m.value.end)), last);
    }
  }

  lemma SpacedNone(last: Option<nat>)
    ensures Spaced([], last)
  {
  }

  /** The ranges of y lie between those of x, from `from` on.  A last one may follow, and that one
      may begin a byte late. */
  ghost predicate Between(ms: seq<Filerange>, gaps: seq<Filerange>, from: nat, end: nat) {
    && |ms| <= |gaps| <= |ms| + 1
    && (forall i :: 0 <= i < |ms| ==> GapAt(ms, gaps, from, i))
    && var e := if ms == [] then from else ms[|ms| - 1].end;
       |gaps| == |ms| + 1 ==> gaps[|ms|] == Filerange(e, end) || gaps[|ms|] == Filerange(e + 1, end)
  }

  ghost predicate GapAt(ms: seq<Filerange>, gaps: seq<Filerange>, from: nat, i: nat)
    requires i < |ms| && i < |gaps|
  {
    gaps[i] == Filerange(if i == 0 then from else ms[i - 1].end, ms[i].start)
  }

  lemma BetweenMore(m: Filerange, ms: seq<Filerange>, gaps: seq<Filerange>, from: nat, end: nat)
    requires Between(ms, gaps, m.end, end)
    ensures Between([m] + ms, [Filerange(from, m.start)] + gaps, from, end)
  {
    var all, gs := [m] + ms, [Filerange(from, m.start)] + gaps;
    forall i | 0 <= i < |all| ensures GapAt(all, gs, from, i) {
      if i > 0 {
        assert GapAt(ms, gaps, m.end, i - 1);
        assert gs[i] == gaps[i - 1] && all[i] == ms[i - 1] && all[i - 1] == if i == 1 then m else ms[i - 2];
      }
    }
    assert ms != [] ==> all[|all| - 1] == ms[|ms| - 1];
  }

  /** What y does for any search. */
  lemma {:induction false} YGaps(search: Search, text: seq<byte>, a: nat, end: nat, start: nat, last: nat)
    requires Proper(search) && last <= start <= last + 1 && start <= end + 1
    ensures Between(Extracted(search, text, true, a, end, start, Some(last)),
                    Extracted(search, text, false, a, end, start, Some(last)), last, end)
    decreases end + 1 - start
  {
    hide Extracted, Proper, Between;
    BetweenNone(last, end);
    NoMore(search, text, true, a, end, start, Some(last));
    NoMore(search, text, false, a, end, start, Some(last));
    if start > end { return; }
    OneRound(search, text, true, a, end, start, Some(last), []);
    OneRound(search, text, false, a, end, start, Some(last), []);
    var m := search(start, end - start, NotBol(text, a, start));
    if m.None? { return; }
    var empty := m.value.start == m.value.end;
    if empty && last == m.value.start {
      YGaps(search, text, a, end, start + 1, last);
    } else if !(empty && m.value.end == end && start > a && end - 1 < |text| && text[end - 1] == NEWLINE) {
      var next := if empty then m.value.end + 1 else m.value.end;
      YGaps(search, text, a, end, next, m.value.end);
      BetweenMore(m.value, Extracted(search, text, true, a, end, next, Some(m.value.end)),
                  Extracted(search, text, false, a, end, next, Some(m.value.end)), last, end);
    }
  }

  lemma BetweenNone(from: nat, end: nat)
    ensures Between([], [], from, end)
    ensures Between([], [Filerange(from, end)], from, end) && Between([], [Filerange(from + 1, end)], from, end)
  {
  }

  /** `^`, alone: it matches at the start of a line, and is empty. */
  function Caret(s: nat, n: nat, b: bool): Option<Filerange> {
    if b then None else Some(Filerange(s, s))
  }

  /** With `y/^/` the first byte of "ab" is in no match and in no gap. */
  lemma GapLost()
    ensures Proper(Caret)
    ensures Extracted(Caret, [97, 98], false, 0, 2, 0, Some(0)) == [Filerange(1, 2)]
    ensures Extracted(Caret, [97, 98], true, 0, 2, 0, None) == [Filerange(0, 0)]
  {
    assert NotBol([97, 98], 0, 1);
    assert Extracted(Caret, [97, 98], true, 0, 2, 1, Some(0)) == [];
    assert Extracted(Caret, [97, 98], false, 0, 2, 1, Some(0)) == [Filerange(1, 2)];
  }

  // ----- the loops of extract -----

  /** `text_byte_get`. */
  method ByteAt(t: PieceChain.Text, pos: nat) returns (b: Option<byte>)
    requires t.Represents() && StoreInv(t.st) && t.st.at < |t.st.vs|
    ensures b == if pos < |Content(t.st)| then Some(Content(t.st)[pos]) else None
  {
    hide PieceChain.Text.Represents, StoreInv, Content;
    t.SizeIs();
    var it := new Iterator(t, pos);
    if pos >= t.size { return None; }
    b := it.ByteGet(t);
  }

  /** `extract` with a regex.  The command is executed for each range in turn; the simulated
      run only counts. */
  method Extract(t: PieceChain.Text, search: Search, x: bool, range: Filerange, simulate: bool)
    returns (executed: seq<Filerange>, count: nat)
    requires t.Represents() && StoreInv(t.st) && t.st.at < |t.st.vs| && range.Valid() && Proper(search)
    ensures var rs := Extracted(search, Content(t.st), x, range.start, range.end, range.start,
                                if x then None else Some(range.start));
            if simulate then executed == [] && count == |rs| else executed == rs && count == 0
  {
    hide PieceChain.Text.Represents, StoreInv, Content, Extracted, Proper, RangeNew;
    ghost var text := Content(t.st);
    var start, end := range.start, range.end;
    var lastStart: Option<nat> := if x then None else Some(start);
    executed, count := [], 0;
    ghost var all, shown := Extracted(search, text, x, range.start, end, start, lastStart), [];
    while start <= end
      invariant shown + Extracted(search, text, x, range.start, end, start, lastStart) == all
      invariant executed == (if simulate then [] else shown) && count == if simulate then |shown| else 0
      invariant !x ==> lastStart.Some?
      invariant lastStart.Some? && start <= end ==> lastStart.value <= end
      decreases end + 1 - start
    {
      var notBol := false;
      if start > range.start {
        var c := ByteAt(t, start - 1);
        notBol := c.Some? && c.value != NEWLINE;
      }
      var found := search(start, end - start, notBol);
      var r := NO_RANGE;
      OneRound(search, text, x, range.start, end, start, lastStart, shown);
      if found.Some? {
        var m := found.value;
        r := if x then RangeNew(m.start, m.end) else RangeNew(lastStart.value, m.start);
        if m.start == m.end {
          if lastStart == Some(m.start) {
            start := start + 1;
            continue;
          }
          if end == m.start && start > range.start {
            var c := ByteAt(t, end - 1);
            if c == Some(NEWLINE) { break; }
          }
          start := m.end + 1;
        } else {
          start := m.end;
        }
      } else {
        if !x { r := RangeNew(start, end); }
        start := end + 1;
      }
      if r.Valid() {
        lastStart := Some(if found.Some? then found.value.end else start);
        if simulate { count := count + 1; } else { executed := executed + [r]; }
        shown := shown + [r];
      }
    }
    if start > end { NoMore(search, text, x, range.start, end, start, lastStart); }
  }

  lemma NoMore(search: Search, text: seq<byte>, x: bool, a: nat, end: nat, start: nat, last: Option<nat>)
    requires Proper(search)
    ensures start > end ==> Extracted(search, text, x, a, end, start, last) == []
  {
  }

  /** What the ranges are made of, one round at a time. */
  lemma OneRound(search: Search, text: seq<byte>, x: bool, a: nat, end: nat, start: nat, last: Option<nat>,
                 shown: seq<Filerange>)
    requires Proper(search) && start <= end
    ensures var rest := Extracted(search, text, x, a, end, start, last);
            var m := search(start, end - start, NotBol(text, a, start));
            if m == None then
              && rest == (if x then [] else [RangeNew(start, end)])
              && Extracted(search, text, x, a, end, end + 1, Some(end + 1)) == []
              && Extracted(search, text, x, a, end, end + 1, last) == []
            else
              && start <= m.value.start <= m.value.end <= end
              && var empty := m.value.start == m.value.end;
                 if empty && last == Some(m.value.start) then
                   rest == Extracted(search, text, x, a, end, start + 1, last)
                 else if empty && m.value.end == end && start > a && end - 1 < |text| && text[end - 1] == NEWLINE then
                   rest == []
                 else
                   var from := if x || last == None then m.value.start else last.value;
                   var r := RangeNew(from, if x || last == None then m.value.end else m.value.start);
                   var next := if empty then m.value.end + 1 else m.value.end;
                   var more := Extracted(search, text, x, a, end, next, Some(m.value.end));
                   rest == [r] + more && shown + rest == shown + [r] + more
  {
  }

  /** A stretch of lines: each range ends behind its only newline, or where the stretch ends. */
  ghost predicate LineTile(text: seq<byte>, rs: seq<Filerange>, start: nat, end: nat) {
    && (if rs == [] then start >= end else rs[0].start == start && rs[|rs| - 1].end == end)
    && (forall i :: 0 <= i < |rs| ==> LineRange(text, rs[i], end))
    && forall i :: 0 <= i < |rs| - 1 ==> rs[i].end == rs[i + 1].start
  }

  ghost predicate LineRange(text: seq<byte>, r: Filerange, end: nat) {
    && r.start < r.end <= |text| && (r.end == end || text[r.end - 1] == NEWLINE)
    && forall i :: r.start <= i < r.end - 1 ==> text[i] != NEWLINE
  }

  lemma LineTileTail(text: seq<byte>, rs: seq<Filerange>, start: nat, end: nat)
    requires LineTile(text, rs, start, end) && rs != []
    ensures rs[0].start == start < rs[0].end && LineRange(text, rs[0], end)
    ensures |rs| == 1 ==> rs[0].end == end
    ensures LineTile(text, rs[1..], rs[0].end, end)
  {
  }

  lemma {:induction false} LineTileEnds(text: seq<byte>, rs: seq<Filerange>, start: nat, end: nat)
    requires LineTile(text, rs, start, end) && rs != []
    ensures start < rs[0].end <= end
  {
    LineTileTail(text, rs, start, end);
    if |rs| > 1 { LineTileEnds(text, rs[1..], rs[0].end, end); }
  }

  /** There is only one way to cut a stretch into lines, so that what the simulated run counts
      is what the real one executes. */
  lemma {:induction false} LinesUnique(text: seq<byte>, rs: seq<Filerange>, qs: seq<Filerange>, start: nat, end: nat)
    requires LineTile(text, rs, start, end) && LineTile(text, qs, start, end)
    ensures rs == qs
  {
    if rs != [] { LineTileEnds(text, rs, start, end); }
    if qs != [] { LineTileEnds(text, qs, start, end); }
    if rs != [] && qs != [] {
      LineTileTail(text, rs, start, end);
      LineTileTail(text, qs, start, end);
      assert rs[0].end == qs[0].end;
      LinesUnique(text, rs[1..], qs[1..], rs[0].end, end);
      assert rs == [rs[0]] + rs[1..] && qs == [qs[0]] + qs[1..];
    }
  }

  lemma LineTileMore(text: seq<byte>, rs: seq<Filerange>, start: nat, at: nat, end: nat, r: Filerange)
    requires LineSoFar(text, rs, start, at, end) && r.start == at && LineRange(text, r, end)
    ensures LineSoFar(text, rs + [r], start, r.end, end)
  {
  }

  ghost predicate LineSoFar(text: seq<byte>, rs: seq<Filerange>, start: nat, at: nat, end: nat) {
    && (if rs == [] then start == at else rs[0].start == start && rs[|rs| - 1].end == at)
    && (forall i :: 0 <= i < |rs| ==> LineRange(text, rs[i], end))
    && forall i :: 0 <= i < |rs| - 1 ==> rs[i].end == rs[i + 1].start
  }

  /** `extract` without a regex: line by line, as far as the text goes. */
  method ExtractLines(t: PieceChain.Text, range: Filerange, simulate: bool)
    returns (executed: seq<Filerange>, count: nat, ghost rs: seq<Filerange>)
    requires t.Represents() && StoreInv(t.st) && t.st.at < |t.st.vs| && range.Valid()
    ensures |Content(t.st)| == t.size && LineTile(Content(t.st), rs, range.start, Min(range.end, t.size))
    ensures if simulate then executed == [] && count == |rs| else executed == rs && count == 0
    ensures !simulate ==> LineTile(Content(t.st), executed, range.start, Min(range.end, t.size))
  {
    hide PieceChain.Text.Represents, StoreInv, Content, LineSoFar, LineRange;
    ghost var text := Content(t.st);
    t.ChainIs(0);
    NextOffset(t.st, 0);
    t.SizeIs();
    var start, end := range.start, range.end;
    ghost var stop := Min(end, t.size);
    executed, count, rs := [], 0, [];
    LineStart(text, start, stop);
    while start < end
      invariant LineSoFar(text, rs, range.start, start, stop) && (start <= stop || rs == [])
      invariant executed == (if simulate then [] else rs) && count == if simulate then |rs| else 0
    {
      var next := LineNext(t, start);
      if next > end { next := end; }
      var r := RangeNew(start, next);
      if start == next || !r.Valid() { break; }
      LineIs(text, r, stop);
      LineTileMore(text, rs, range.start, start, stop, r);
      rs := rs + [r];
      if simulate { count := count + 1; } else { executed := executed + [r]; }
      start := next;
    }
    LineEnd(text, rs, range.start, start, stop);
  }

  lemma LineStart(text: seq<byte>, start: nat, end: nat)
    ensures LineSoFar(text, [], start, start, end)
  {
  }

  lemma LineEnd(text: seq<byte>, rs: seq<Filerange>, start: nat, at: nat, end: nat)
    requires LineSoFar(text, rs, start, at, end) && at >= end && (rs != [] ==> at <= end)
    ensures LineTile(text, rs, start, end)
  {
  }

  lemma LineIs(text: seq<byte>, r: Filerange, end: nat)
    requires r.start < r.end <= end <= |text|
    requires forall i :: r.start <= i < r.end - 1 ==> text[i] != NEWLINE
    requires r.end == end || text[r.end - 1] == NEWLINE
    ensures LineRange(text, r, end)
  {
  }
}
