/** Ranges of byte positions. */
module Ranges {
  import opened Bytes

  /** A Filerange. */
  datatype Filerange = Filerange(start: nat, end: nat) {
    /** `text_range_valid`; a `size_t` that is not EPOS is below it. */
    predicate Valid() {
      start <= end < EPOS
    }

    predicate Has(p: nat) {
      start <= p < end
    }
  }

  /** `text_range_empty`. */
  const NO_RANGE := Filerange(EPOS, EPOS)

  /** `text_range_unlimited`. */
  const UNLIMITED := Filerange(0, EPOS - 1)

  /** `text_range_new`. */
  function RangeNew(a: nat, b: nat): (r: Filerange)
    ensures a < EPOS && b < EPOS ==> r.Valid()
    ensures forall p: nat :: r.Has(p) <==> (a <= p < b) || (b <= p < a)
  {
    Filerange(Min(a, b), Max(a, b))
  }

  /** `text_range_overlap`: two ranges share a position, if neither is empty. */
  predicate Overlap(r: Filerange, s: Filerange) {
    r.Valid() && s.Valid() && r.start < s.end && s.start < r.end
  }

  lemma OverlapShares(r: Filerange, s: Filerange)
    requires r.Valid() && s.Valid() && r.start < r.end && s.start < s.end
    ensures Overlap(r, s) <==> exists p: nat :: r.Has(p) && s.Has(p)
  {
    if Overlap(r, s) {
      assert r.Has(Max(r.start, s.start)) && s.Has(Max(r.start, s.start));
    }
  }

  /** An empty range overlaps those that reach beyond it on both sides. */
  lemma OverlapEmpty(r: Filerange, s: Filerange)
    requires r.Valid() && s.Valid() && r.start == r.end
    ensures Overlap(r, s) <==> s.start < r.start < s.end
    ensures Overlap(s, r) <==> s.start < r.start < s.end
  {
  }

  /** `text_range_union`: the least range that has both. */
  function RangeUnion(r: Filerange, s: Filerange): (u: Filerange)
    ensures r.Valid() && s.Valid() ==> u.Valid()
    ensures Overlap(r, s) ==> forall p: nat :: u.Has(p) <==> r.Has(p) || s.Has(p)
    ensures r.Valid() && s.Valid() ==>
              && u.start <= r.start && u.start <= s.start && r.end <= u.end && s.end <= u.end
              && (u.start == r.start || u.start == s.start) && (u.end == r.end || u.end == s.end)
    ensures !r.Valid() ==> u == s
    ensures r.Valid() && !s.Valid() ==> u == r
  {
    if !r.Valid() then s
    else if !s.Valid() then r
    else Filerange(Min(r.start, s.start), Max(r.end, s.end))
  }

  /** `text_range_intersect`. */
  function RangeIntersect(r: Filerange, s: Filerange): (u: Filerange)
    ensures u.Valid() <==> Overlap(r, s)
    ensures Overlap(r, s) ==> forall p: nat :: u.Has(p) <==> r.Has(p) && s.Has(p)
  {
    if !Overlap(r, s) then NO_RANGE else RangeNew(Max(r.start, s.start), Min(r.end, s.end))
  }
}
