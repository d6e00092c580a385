/** The set algebra of selections: merges of sorted lists of ranges. */
module Selections {
  import opened Bytes
  import opened Ranges

  /** Non-empty ranges in order, none overlapping the next. */
  predicate Sorted(a: seq<Filerange>) {
    && (forall i :: 0 <= i < |a| ==> a[i].start < a[i].end < EPOS)
    && forall i, j :: 0 <= i < j < |a| ==> a[i].end <= a[j].start
  }

  /** One of the ranges holds all of `[lo..hi]`. */
  predicate InOne(a: seq<Filerange>, lo: nat, hi: nat) {
    exists i :: 0 <= i < |a| && a[i].start <= lo && hi <= a[i].end
  }

  /** Position `p` and the next are selected by one range. */
  predicate Together(a: seq<Filerange>, p: nat) {
    InOne(a, p, p + 2)
  }

  /** None of the ranges meets `[lo..hi]`. */
  predicate Clear(a: seq<Filerange>, lo: nat, hi: nat) {
    forall i :: 0 <= i < |a| ==> a[i].end <= lo || hi <= a[i].start
  }

  /** Position `p` is selected. */
  predicate Covers(a: seq<Filerange>, p: nat) {
    exists i :: 0 <= i < |a| && a[i].Has(p)
  }

  lemma CoversIs(a: seq<Filerange>, p: nat)
    ensures Covers(a, p) <==> InOne(a, p, p + 1)
    ensures Covers(a, p) <==> !Clear(a, p, p + 1)
  {
    if Covers(a, p) {
      var k :| 0 <= k < |a| && a[k].Has(p);
      assert a[k].start <= p && p + 1 <= a[k].end;
    }
    if InOne(a, p, p + 1) {
      var k :| 0 <= k < |a| && a[k].start <= p && p + 1 <= a[k].end;
      assert a[k].Has(p);
    }
  }

  /** What is selected and which neighbours are selected together is all there is to a list:
      no two lists agree on both. */
  lemma {:induction false} Determined(a: seq<Filerange>, b: seq<Filerange>)
    requires Sorted(a) && Sorted(b)
    requires forall p: nat :: Covers(a, p) <==> Covers(b, p)
    requires forall p: nat :: Together(a, p) <==> Together(b, p)
    ensures a == b
  {
    hide Covers, InOne, Sorted;
    if a != [] && b != [] {
      FirstCovered(a, b);
      FirstCovered(b, a);
      FirstEnds(a, b);
      FirstEnds(b, a);
      SortedTail(a);
      SortedTail(b);
      forall p: nat ensures Covers(a[1..], p) <==> Covers(b[1..], p) {
        CoversRest(a, p);
        CoversRest(b, p);
      }
      forall p: nat ensures Together(a[1..], p) <==> Together(b[1..], p) {
        InOneRest(a, p, p + 2);
        InOneRest(b, p, p + 2);
        assert Together(a, p) <==> Together(b, p);
      }
      Determined(a[1..], b[1..]);
    } else if a != [] {
      FirstCovered(a, b);
    } else if b != [] {
      FirstCovered(b, a);
    }
  }

  lemma SortedTail(a: seq<Filerange>)
    requires Sorted(a) && a != []
    ensures Sorted(a[1..])
  {
  }

  /** Nothing is selected before the first range. */
  lemma FirstCovered(a: seq<Filerange>, b: seq<Filerange>)
    requires Sorted(a) && Sorted(b) && a != []
    requires forall p: nat :: Covers(a, p) ==> Covers(b, p)
    ensures b != [] && b[0].start <= a[0].start
  {
    assert a[0].Has(a[0].start) && Covers(a, a[0].start);
  }

  lemma FirstEnds(a: seq<Filerange>, b: seq<Filerange>)
    requires Sorted(a) && Sorted(b) && a != [] && b != [] && a[0].start == b[0].start
    requires forall p: nat :: Together(a, p) ==> Together(b, p)
    ensures a[0].end <= b[0].end
  {
    hide Together;
    TogetherFirst(a, b[0].end - 1);
    TogetherFirst(b, b[0].end - 1);
  }

  lemma TogetherFirst(a: seq<Filerange>, p: nat)
    requires Sorted(a) && a != []
    ensures p < a[0].end ==> (Together(a, p) <==> a[0].start <= p && p + 2 <= a[0].end)
  {
    assert forall k :: 0 < k < |a| ==> a[0].end <= a[k].start;
  }

  lemma CoversRest(a: seq<Filerange>, p: nat)
    requires Sorted(a) && a != []
    ensures Covers(a[1..], p) <==> Covers(a, p) && a[0].end <= p
  {
    CoversIs(a, p);
    CoversIs(a[1..], p);
    InOneRest(a, p, p + 1);
  }

  lemma InOneRest(a: seq<Filerange>, lo: nat, hi: nat)
    requires Sorted(a) && a != [] && lo < hi
    ensures InOne(a[1..], lo, hi) <==> InOne(a, lo, hi) && a[0].end <= lo
  {
    InOneFirst(a, 0, lo, hi);
    assert a[0..] == a && a[0 + 1..] == a[1..];
    if InOne(a[1..], lo, hi) {
      var k :| 0 <= k < |a[1..]| && a[1..][k].start <= lo && hi <= a[1..][k].end;
      assert a[0].end <= a[k + 1].start;
    }
  }

  lemma SortedNothing(u: Filerange)
    ensures Sorted([]) && Within([], u)
  {
  }

  lemma SortedPush(a: seq<Filerange>, r: Filerange)
    requires Sorted(a) && r.start < r.end < EPOS && (a != [] ==> a[|a| - 1].end <= r.start)
    ensures Sorted(a + [r])
  {
  }

  lemma SortedAt(a: seq<Filerange>, i: nat)
    requires Sorted(a) && i < |a|
    ensures a[i].start < a[i].end < EPOS && (i + 1 < |a| ==> a[i].end <= a[i + 1].start)
  {
  }

  predicate Within(a: seq<Filerange>, u: Filerange) {
    forall i :: 0 <= i < |a| ==> u.start <= a[i].start && a[i].end <= u.end
  }

  lemma InOneFirst(a: seq<Filerange>, i: nat, lo: nat, hi: nat)
    requires i < |a|
    ensures InOne(a[i..], lo, hi) <==> (a[i].start <= lo && hi <= a[i].end) || InOne(a[i + 1..], lo, hi)
  {
    if InOne(a[i..], lo, hi) {
      var k :| 0 <= k < |a[i..]| && a[i..][k].start <= lo && hi <= a[i..][k].end;
      if k > 0 { assert a[i + 1..][k - 1].start <= lo && hi <= a[i + 1..][k - 1].end; }
    }
    if a[i].start <= lo && hi <= a[i].end { assert a[i..][0].start <= lo && hi <= a[i..][0].end; }
    if InOne(a[i + 1..], lo, hi) {
      var k :| 0 <= k < |a[i + 1..]| && a[i + 1..][k].start <= lo && hi <= a[i + 1..][k].end;
      assert a[i..][k + 1].start <= lo && hi <= a[i..][k + 1].end;
    }
  }

  lemma InOnePush(a: seq<Filerange>, r: Filerange, lo: nat, hi: nat)
    ensures InOne(a + [r], lo, hi) <==> InOne(a, lo, hi) || (r.start <= lo && hi <= r.end)
  {
    if InOne(a, lo, hi) {
      var k :| 0 <= k < |a| && a[k].start <= lo && hi <= a[k].end;
      assert (a + [r])[k].start <= lo && hi <= (a + [r])[k].end;
    }
    if r.start <= lo && hi <= r.end { assert (a + [r])[|a|] == r; }
  }

  lemma InOneNothing(a: seq<Filerange>, lo: nat, hi: nat)
    ensures !InOne(a[|a|..], lo, hi) && !InOne([], lo, hi) && a[0..] == a
  {
  }

  /** What begins before the end of a range is in none of those behind it. */
  lemma NotBehind(a: seq<Filerange>, i: nat, lo: nat, hi: nat)
    requires Sorted(a) && i < |a| && lo < a[i].end && lo < hi
    ensures !InOne(a[i + 1..], lo, hi)
  {
    assert forall k :: i < k < |a| ==> a[i].end <= a[k].start;
  }

  /** The loop of `ka_selections_union`: what the lists, the current range and the result hold. */
  ghost predicate UnionSoFar(a: seq<Filerange>, b: seq<Filerange>, i: nat, j: nat, cur: Filerange,
                             sel: seq<Filerange>, lo: nat, hi: nat)
    requires i <= |a| && j <= |b|
  {
    InOne(a, lo, hi) || InOne(b, lo, hi) <==>
    InOne(sel, lo, hi) || (cur.start <= lo && hi <= cur.end) || InOne(a[i..], lo, hi) || InOne(b[j..], lo, hi)
  }

  lemma UnionStart(a: seq<Filerange>, b: seq<Filerange>, lo: nat, hi: nat)
    requires lo < hi
    ensures UnionSoFar(a, b, 0, 0, NO_RANGE, [], lo, hi)
  {
    InOneNothing(a, lo, hi);
    InOneNothing(b, lo, hi);
  }

  lemma UnionEnd(a: seq<Filerange>, b: seq<Filerange>, cur: Filerange, sel: seq<Filerange>, lo: nat, hi: nat)
    requires UnionSoFar(a, b, |a|, |b|, cur, sel, lo, hi) && (cur.Valid() || !(cur.start <= lo && hi <= cur.end))
    ensures InOne(if cur.Valid() then sel + [cur] else sel, lo, hi) <==> InOne(a, lo, hi) || InOne(b, lo, hi)
  {
    InOneNothing(a, lo, hi);
    InOneNothing(b, lo, hi);
    InOnePush(sel, cur, lo, hi);
  }

  /** Taking the next range of either list, into the current range or as a new one. */
  lemma UnionTake(a: seq<Filerange>, b: seq<Filerange>, i: nat, j: nat, fromA: bool,
                  cur: Filerange, sel: seq<Filerange>, cur': Filerange, sel': seq<Filerange>, lo: nat, hi: nat)
    requires i <= |a| && j <= |b| && (if fromA then i < |a| else j < |b|) && lo < hi <= lo + 2
    requires UnionSoFar(a, b, i, j, cur, sel, lo, hi)
    requires var r := if fromA then a[i] else b[j];
             || (Overlap(r, cur) && cur' == RangeUnion(r, cur) && sel' == sel)
             || (cur' == r && sel' == if cur.Valid() then sel + [cur] else sel)
    requires cur.Valid() || !(cur.start <= lo && hi <= cur.end)
    ensures UnionSoFar(a, b, if fromA then i + 1 else i, if fromA then j else j + 1, cur', sel', lo, hi)
  {
    hide InOne;
    if fromA { InOneFirst(a, i, lo, hi); } else { InOneFirst(b, j, lo, hi); }
    InOnePush(sel, cur, lo, hi);
  }

  /** `ka_selections_union`: the result selects what one of the lists does, and holds two
      neighbours in one range if one of the lists does. */
  method Union(a: seq<Filerange>, b: seq<Filerange>) returns (sel: seq<Filerange>)
    requires Sorted(a) && Sorted(b)
    ensures Sorted(sel)
    ensures forall p: nat :: Covers(sel, p) <==> Covers(a, p) || Covers(b, p)
    ensures forall p: nat :: Together(sel, p) <==> Together(a, p) || Together(b, p)
  {
    hide Covers, InOne, UnionSoFar, Sorted;
    var i, j, cur := 0, 0, NO_RANGE;
    sel := [];
    SortedNothing(NO_RANGE);
    forall lo: nat, hi: nat | lo < hi <= lo + 2 ensures UnionSoFar(a, b, 0, 0, cur, sel, lo, hi) {
      UnionStart(a, b, lo, hi);
    }
    while i < |a| || j < |b|
      invariant i <= |a| && j <= |b| && Sorted(sel)
      invariant cur == NO_RANGE || cur.start < cur.end < EPOS
      invariant cur == NO_RANGE ==> sel == [] && i == j == 0
      invariant cur != NO_RANGE && sel != [] ==> sel[|sel| - 1].end <= cur.start
      invariant cur != NO_RANGE ==> (i < |a| ==> cur.start <= a[i].start) && (j < |b| ==> cur.start <= b[j].start)
      invariant forall lo: nat, hi: nat :: lo < hi <= lo + 2 ==> UnionSoFar(a, b, i, j, cur, sel, lo, hi)
      decreases |a| - i + |b| - j
    {
      ghost var i0, j0, cur0, sel0 := i, j, cur, sel;
      if i < |a| { SortedAt(a, i); }
      if j < |b| { SortedAt(b, j); }
      if cur.Valid() { SortedPush(sel, cur); }
      if i < |a| && Overlap(a[i], cur) {
        cur := RangeUnion(a[i], cur);
        i := i + 1;
      } else if j < |b| && Overlap(b[j], cur) {
        cur := RangeUnion(b[j], cur);
        j := j + 1;
      } else {
        if cur.Valid() { sel := sel + [cur]; }
        if i == |a| {
          cur := b[j];
          j := j + 1;
        } else if j == |b| {
          cur := a[i];
          i := i + 1;
        } else if a[i].start < b[j].start {
          cur := a[i];
          i := i + 1;
        } else {
          cur := b[j];
          j := j + 1;
        }
      }
      forall lo: nat, hi: nat | lo < hi <= lo + 2 ensures UnionSoFar(a, b, i, j, cur, sel, lo, hi) {
        UnionTake(a, b, i0, j0, i > i0, cur0, sel0, cur, sel, lo, hi);
      }
    }
    ghost var cur0, sel0 := cur, sel;
    if cur.Valid() { SortedPush(sel, cur); }
    if cur.Valid() { sel := sel + [cur]; }
    forall p: nat ensures Covers(sel, p) <==> Covers(a, p) || Covers(b, p) {
      UnionEnd(a, b, cur0, sel0, p, p + 1);
      CoversIs(sel, p);
      CoversIs(a, p);
      CoversIs(b, p);
    }
    forall p: nat ensures Together(sel, p) <==> Together(a, p) || Together(b, p) {
      UnionEnd(a, b, cur0, sel0, p, p + 2);
    }
  }

  ghost predicate IntersectSoFar(a: seq<Filerange>, b: seq<Filerange>, i: nat, j: nat, result: seq<Filerange>,
                                 lo: nat, hi: nat)
    requires i <= |a| && j <= |b|
  {
    InOne(a, lo, hi) && InOne(b, lo, hi) <==>
    InOne(result, lo, hi) || (InOne(a[i..], lo, hi) && InOne(b[j..], lo, hi))
  }

  /** Past whichever of the two ranges ends first, with what they share taken. */
  lemma IntersectTake(a: seq<Filerange>, b: seq<Filerange>, i: nat, j: nat, result: seq<Filerange>, lo: nat, hi: nat)
    requires Sorted(a) && Sorted(b) && i < |a| && j < |b| && lo < hi
    requires IntersectSoFar(a, b, i, j, result, lo, hi)
    ensures var result' := if Overlap(a[i], b[j]) then result + [RangeIntersect(a[i], b[j])] else result;
            if a[i].end < b[j].end then IntersectSoFar(a, b, i + 1, j, result', lo, hi)
            else IntersectSoFar(a, b, i, j + 1, result', lo, hi)
  {
    hide InOne;
    InOneFirst(a, i, lo, hi);
    InOneFirst(b, j, lo, hi);
    if lo < a[i].end { NotBehind(a, i, lo, hi); }
    if lo < b[j].end { NotBehind(b, j, lo, hi); }
    InOnePush(result, RangeIntersect(a[i], b[j]), lo, hi);
  }

  /** `intersect`: a stretch is in one range of the result exactly if it is in one of both lists. */
  method Intersect(a: seq<Filerange>, b: seq<Filerange>) returns (result: seq<Filerange>)
    requires Sorted(a) && Sorted(b)
    ensures Sorted(result)
    ensures forall p: nat :: Covers(result, p) <==> Covers(a, p) && Covers(b, p)
    ensures forall lo: nat, hi: nat :: lo < hi ==>
              (InOne(result, lo, hi) <==> InOne(a, lo, hi) && InOne(b, lo, hi))
  {
    hide Covers, InOne, IntersectSoFar, Sorted;
    result := [];
    var i, j := 0, 0;
    SortedNothing(NO_RANGE);
    forall lo: nat, hi: nat | lo < hi ensures IntersectSoFar(a, b, 0, 0, [], lo, hi) {
      IntersectEnds(a, b, 0, 0, [], lo, hi);
    }
    while i < |a| && j < |b|
      invariant i <= |a| && j <= |b| && Sorted(result)
      invariant result != [] && i < |a| && j < |b| ==> result[|result| - 1].end <= Max(a[i].start, b[j].start)
      invariant forall lo: nat, hi: nat :: lo < hi ==> IntersectSoFar(a, b, i, j, result, lo, hi)
      decreases |a| - i + |b| - j
    {
      ghost var i0, j0, result0 := i, j, result;
      var r1, r2 := a[i], b[j];
      SortedAt(a, i);
      SortedAt(b, j);
      if Overlap(r1, r2) {
        SortedPush(result, RangeIntersect(r1, r2));
        result := result + [RangeIntersect(r1, r2)];
      }
      if r1.end < r2.end { i := i + 1; } else { j := j + 1; }
      forall lo: nat, hi: nat | lo < hi ensures IntersectSoFar(a, b, i, j, result, lo, hi) {
        IntersectTake(a, b, i0, j0, result0, lo, hi);
      }
    }
    forall lo: nat, hi: nat | lo < hi ensures InOne(result, lo, hi) <==> InOne(a, lo, hi) && InOne(b, lo, hi) {
      IntersectEnds(a, b, i, j, result, lo, hi);
    }
    forall p: nat ensures Covers(result, p) <==> Covers(a, p) && Covers(b, p) {
      CoversIs(result, p);
      CoversIs(a, p);
      CoversIs(b, p);
    }
  }

  /** The loop starts with everything to come, and stops when one list is used up. */
  lemma IntersectEnds(a: seq<Filerange>, b: seq<Filerange>, i: nat, j: nat, result: seq<Filerange>, lo: nat, hi: nat)
    requires i <= |a| && j <= |b|
    ensures i == j == 0 && result == [] ==> IntersectSoFar(a, b, i, j, result, lo, hi)
    ensures (i == |a| || j == |b|) && IntersectSoFar(a, b, i, j, result, lo, hi) ==>
              (InOne(result, lo, hi) <==> InOne(a, lo, hi) && InOne(b, lo, hi))
  {
    hide InOne;
    InOneNothing(a, lo, hi);
    InOneNothing(b, lo, hi);
  }

  /** Up to `pos` the gaps are known: what lies before it and meets no range is in one of them. */
  ghost predicate ComplementSoFar(a: seq<Filerange>, u: Filerange, i: nat, pos: nat, result: seq<Filerange>,
                                  lo: nat, hi: nat)
    requires i <= |a|
  {
    InOne(result, lo, hi) <==> u.start <= lo && hi <= pos && Clear(a[..i], lo, hi)
  }

  lemma ClearPush(a: seq<Filerange>, i: nat, lo: nat, hi: nat)
    requires i < |a|
    ensures Clear(a[..i + 1], lo, hi) <==> Clear(a[..i], lo, hi) && (a[i].end <= lo || hi <= a[i].start)
  {
    assert forall k :: 0 <= k < i ==> a[..i + 1][k] == a[..i][k] == a[k];
    assert a[..i + 1][i] == a[i];
  }

  /** All ranges before `i` end by `pos`. */
  lemma ClearBehind(a: seq<Filerange>, i: nat, pos: nat, lo: nat, hi: nat)
    requires Sorted(a) && i <= |a| && (i > 0 ==> pos == a[i - 1].end) && pos <= lo
    ensures Clear(a[..i], lo, hi)
  {
  }

  /** A range that ends at `pos` meets what begins before `pos` and ends behind it. */
  lemma ClearAcross(a: seq<Filerange>, i: nat, pos: nat, lo: nat, hi: nat)
    requires Sorted(a) && 0 < i <= |a| && pos == a[i - 1].end && lo < pos < hi
    ensures !Clear(a[..i], lo, hi)
  {
    assert a[..i][i - 1] == a[i - 1];
  }

  /** Past the next range, with the gap before it taken. */
  lemma ComplementTake(a: seq<Filerange>, u: Filerange, i: nat, pos: nat, result: seq<Filerange>, lo: nat, hi: nat)
    requires Sorted(a) && i < |a| && pos <= a[i].start && u.start <= pos && a[i].end <= u.end && lo < hi
    requires pos == if i == 0 then u.start else a[i - 1].end
    requires ComplementSoFar(a, u, i, pos, result, lo, hi)
    ensures ComplementSoFar(a, u, i + 1, a[i].end,
                            if pos < a[i].start then result + [RangeNew(pos, a[i].start)] else result, lo, hi)
  {
    hide InOne, Clear;
    ClearPush(a, i, lo, hi);
    if pos <= lo { ClearBehind(a, i, if i == 0 then u.start else pos, lo, hi); }
    if i > 0 && lo < pos < hi { ClearAcross(a, i, pos, lo, hi); }
    InOnePush(result, RangeNew(pos, a[i].start), lo, hi);
  }

  lemma WithinPush(a: seq<Filerange>, r: Filerange, u: Filerange)
    requires Within(a, u) && u.start <= r.start && r.end <= u.end
    ensures Within(a + [r], u)
  {
  }

  lemma WithinAt(a: seq<Filerange>, u: Filerange, i: nat)
    requires Within(a, u) && i < |a|
    ensures u.start <= a[i].start && a[i].end <= u.end
  {
  }

  /** `complement`: `a` must lie within the universe.  A stretch of it is in one range of the
      result exactly if it meets no range of `a`. */
  method Complement(a: seq<Filerange>, universe: Filerange) returns (result: seq<Filerange>)
    requires Sorted(a) && universe.Valid() && Within(a, universe)
    ensures Sorted(result) && Within(result, universe)
    ensures forall p: nat :: Covers(result, p) <==> universe.Has(p) && !Covers(a, p)
    ensures forall lo: nat, hi: nat :: lo < hi ==>
              (InOne(result, lo, hi) <==> universe.start <= lo && hi <= universe.end && Clear(a, lo, hi))
  {
    hide Covers, InOne, Clear, ComplementSoFar, Sorted, Within;
    result := [];
    var pos := universe.start;
    var i := 0;
    SortedNothing(universe);
    if a != [] { WithinAt(a, universe, 0); }
    forall lo: nat, hi: nat | lo < hi ensures ComplementSoFar(a, universe, 0, pos, [], lo, hi) {
      ComplementStart(a, universe, lo, hi);
    }
    while i < |a|
      invariant i <= |a| && Sorted(result) && Within(result, universe) && universe.start <= pos <= universe.end
      invariant pos == (if i == 0 then universe.start else a[i - 1].end) && (i < |a| ==> pos <= a[i].start)
      invariant result != [] ==> result[|result| - 1].end <= pos
      invariant forall lo: nat, hi: nat :: lo < hi ==> ComplementSoFar(a, universe, i, pos, result, lo, hi)
    {
      ghost var pos0, result0 := pos, result;
      SortedAt(a, i);
      WithinAt(a, universe, i);
      var r := a[i];
      if pos < r.start {
        SortedPush(result, RangeNew(pos, r.start));
        WithinPush(result, RangeNew(pos, r.start), universe);
        result := result + [RangeNew(pos, r.start)];
      }
      pos := r.end;
      i := i + 1;
      forall lo: nat, hi: nat | lo < hi ensures ComplementSoFar(a, universe, i, pos, result, lo, hi) {
        ComplementTake(a, universe, i - 1, pos0, result0, lo, hi);
      }
    }
    ghost var result0 := result;
    if pos < universe.end {
      SortedPush(result, RangeNew(pos, universe.end));
      WithinPush(result, RangeNew(pos, universe.end), universe);
      result := result + [RangeNew(pos, universe.end)];
    }
    forall lo: nat, hi: nat | lo < hi
      ensures InOne(result, lo, hi) <==> universe.start <= lo && hi <= universe.end && Clear(a, lo, hi)
    {
      ComplementEnd(a, universe, pos, result0, lo, hi);
    }
    forall p: nat ensures Covers(result, p) <==> universe.Has(p) && !Covers(a, p) {
      CoversIs(result, p);
      CoversIs(a, p);
    }
  }

  lemma ComplementStart(a: seq<Filerange>, u: Filerange, lo: nat, hi: nat)
    requires lo < hi
    ensures ComplementSoFar(a, u, 0, u.start, [], lo, hi)
  {
  }

  lemma ComplementEnd(a: seq<Filerange>, u: Filerange, pos: nat, result: seq<Filerange>, lo: nat, hi: nat)
    requires Sorted(a) && u.start <= pos <= u.end && lo < hi
    requires pos == if a == [] then u.start else a[|a| - 1].end
    requires ComplementSoFar(a, u, |a|, pos, result, lo, hi)
    ensures InOne(if pos < u.end then result + [RangeNew(pos, u.end)] else result, lo, hi)
            <==> u.start <= lo && hi <= u.end && Clear(a, lo, hi)
  {
    hide InOne, Clear;
    assert a[..|a|] == a;
    if pos <= lo { ClearBehind(a, |a|, if a == [] then u.start else pos, lo, hi); }
    if a != [] && lo < pos < hi { ClearAcross(a, |a|, pos, lo, hi); }
    InOnePush(result, RangeNew(pos, u.end), lo, hi);
  }

  /** `ka_selections_minus`, in a text of `size` bytes. */
  method Minus(a: seq<Filerange>, b: seq<Filerange>, size: nat) returns (sel: seq<Filerange>)
    requires size < EPOS && Sorted(a) && Sorted(b)
    requires Within(a, Filerange(0, size)) && Within(b, Filerange(0, size))
    ensures Sorted(sel)
    ensures forall p: nat :: Covers(sel, p) <==> Covers(a, p) && !Covers(b, p)
    ensures forall lo: nat, hi: nat :: lo < hi ==> (InOne(sel, lo, hi) <==> InOne(a, lo, hi) && Clear(b, lo, hi))
  {
    var rest := Complement(b, RangeNew(0, size));
    sel := Intersect(a, rest);
  }
}
