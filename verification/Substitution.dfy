/** `x/re/ c/text/`, from the search to the changed text. */
module Substitution {
  import opened Bytes
  import opened UndoTree
  import opened PieceChain
  import opened Iterators
  import opened Lines
  import opened Ranges
  import opened Transcripts
  import opened Replay
  import opened Extraction

  /** What the command records for each range. */
  function ChangesFor(rs: seq<Filerange>, data: seq<byte>, count: int): seq<Change> {
    seq(|rs|, i requires 0 <= i < |rs| => Change(true, true, rs[i], data, count))
  }

  lemma ChangesSorted(rs: seq<Filerange>, data: seq<byte>, count: int, from: nat, end: nat)
    requires Ordered(rs, from, end)
    ensures Sorted(ChangesFor(rs, data, count)) && Inside(ChangesFor(rs, data, count), from, end)
  {
  }

  /** A range behind all recorded ones conflicts with none and is recorded last. */
  lemma NextRange(rs: seq<Filerange>, data: seq<byte>, count: int, i: nat, from: nat, end: nat)
    requires Ordered(rs, from, end) && i < |rs|
    ensures !Conflicts(ChangesFor(rs[..i], data, count), rs[i])
    ensures Recorded(ChangesFor(rs[..i], data, count), Change(true, true, rs[i], data, count))
            == ChangesFor(rs[..i + 1], data, count)
  {
    var cs := ChangesFor(rs[..i], data, count);
    PointIs(cs, rs[i].start);
    assert forall j :: 0 <= j < i ==> cs[j].range.end <= rs[i].start;
  }

  /** The stretches `gs` of the text with `ins` between any two of them. */
  function Woven(text: seq<byte>, gs: seq<Filerange>, ins: seq<byte>): seq<byte>
    requires forall i :: 0 <= i < |gs| ==> gs[i].start <= gs[i].end <= |text|
  {
    if gs == [] then []
    else if |gs| == 1 then text[gs[0].start..gs[0].end]
    else text[gs[0].start..gs[0].end] + ins + Woven(text, gs[1..], ins)
  }

  lemma TileRest(ms: seq<Filerange>, gaps: seq<Filerange>, start: nat, end: nat)
    requires Tile(ms, gaps, start, end) && ms != []
    ensures Tile(ms[1..], gaps[1..], ms[0].end, end)
    ensures gaps[0] == Filerange(start, ms[0].start) && start <= ms[0].start <= ms[0].end <= end
  {
    TileEnds(ms[1..], gaps[1..], ms[0].end, end);
  }

  lemma {:induction false} TileEnds(ms: seq<Filerange>, gaps: seq<Filerange>, start: nat, end: nat)
    requires Tile(ms, gaps, start, end)
    ensures start <= end && forall i :: 0 <= i < |gaps| ==> gaps[i].end <= end
  {
    if ms != [] { TileEnds(ms[1..], gaps[1..], ms[0].end, end); }
  }

  /** Replacing every match at once leaves the gaps, in order, with the data between them. */
  lemma {:induction false} ReplacedIsWoven(text: seq<byte>, ms: seq<Filerange>, gaps: seq<Filerange>, data: seq<byte>,
                                           count: int,
                                          start: nat, end: nat)
    requires Tile(ms, gaps, start, end) && end <= |text|
    requires Sorted(ChangesFor(ms, data, count)) && Inside(ChangesFor(ms, data, count), start, |text|)
    ensures forall i :: 0 <= i < |gaps| ==> gaps[i].start <= gaps[i].end <= |text|
    ensures start <= |text|
    ensures Substituted(text, ChangesFor(ms, data, count), start)
            == Woven(text, gaps, Repeated(data, count)) + text[end..]
  {
    TileEnds(ms, gaps, start, end);
    var cs := ChangesFor(ms, data, count);
    if ms == [] {
      assert cs == [] && gaps[0] == Filerange(start, end);
      assert text[start..] == text[start..end] + text[end..];
    } else {
      TileRest(ms, gaps, start, end);
      SortedTail(cs, start, |text|);
      assert cs[1..] == ChangesFor(ms[1..], data, count);
      ReplacedIsWoven(text, ms[1..], gaps[1..], data, count, ms[0].end, end);
    }
  }

  /** What executing `c/text/` for each range records. */
  method RecordAll(tr: Transcript, rs: seq<Filerange>, data: seq<byte>, count: int, ghost end: nat)
    requires tr.Valid() && tr.cells == [] && tr.list == [] && !tr.error && Ordered(rs, 0, end) && end < EPOS
    modifies tr
    ensures tr.Valid() && !tr.error && tr.cells == ChangesFor(rs, data, count) && fresh(set c | c in tr.list)
  {
    hide Conflicts, Recorded, ChangesFor;
    var i := 0;
    NoChanges(data, count);
    while i < |rs|
      invariant i <= |rs| && tr.Valid() && !tr.error && tr.cells == ChangesFor(rs[..i], data, count)
      invariant fresh(set c | c in tr.list)
    {
      NextRange(rs, data, count, i, 0, end);
      var ok := tr.Record(true, true, rs[i], data, count);
      i := i + 1;
    }
    assert rs[..i] == rs;
  }

  lemma NoChanges(data: seq<byte>, count: int)
    ensures forall rs: seq<Filerange> :: ChangesFor(rs[..0], data, count) == []
  {
  }

  /** The text with the ranges replaced. */
  ghost predicate Replaced(d: Doc, d': Doc, rs: seq<Filerange>, data: seq<byte>, count: int) {
    AllMade(d, ChangesFor(rs, data, count), d') && OneUndo(d, d')
  }

  /** The changed document stays below EPOS bytes. */
  ghost predicate Room(d: Doc, search: Search, range: Filerange, data: seq<byte>, count: int)
    requires Proper(search)
  {
    && d.cur < |d.nodes| && range.end <= |d.Now().text|
    && |d.Now().text| + Added(ChangesFor(Found(d, search, range), data, count)) < EPOS
  }

  /** The ranges the command is executed for. */
  ghost function Found(d: Doc, search: Search, range: Filerange): seq<Filerange>
    requires Proper(search) && d.cur < |d.nodes|
  {
    Extracted(search, d.Now().text, true, range.start, range.end, range.start, None)
  }

  /** `x/re/ c/text/`: never a conflict; every match replaced, as one revision. */
  method Substitute(t: PieceChain.Text, search: Search, range: Filerange, data: seq<byte>,
                    count: int) returns (conflict: bool)
    requires t.Valid() && range.Valid() && Proper(search) && Room(t.doc, search, range, data, count)
    modifies t, t.repr
    ensures t.Valid() && !conflict && Replaced(old(t.doc), t.doc, Found(old(t.doc), search, range), data, count)
  {
    hide PieceChain.Text.Inv, WellFormed, Content, Extracted, Ordered, Added, ChangesFor, AllMade, OneUndo, Inside,
         Sorted, Proper, Text.Represents;
    ContentIs(t);
    ghost var d := t.doc;
    var rs, n := Extract(t, search, true, range, false);
    XOrdered(search, d.Now().text, range.start, range.end, range.start, None);
    OrderedLess(rs, 0, range.start, range.end);
    ChangesSorted(rs, data, count, 0, range.end);
    InsideMore(ChangesFor(rs, data, count), 0, range.end, |d.Now().text|);
    var tr := new Transcript();
    RecordAll(tr, rs, data, count, range.end);
    conflict := tr.error;
    if !conflict { Apply(t, tr); }
  }

  /** For a search that never finds anything empty, the new text is the old one with exactly the
      enumerated matches replaced: everything before the range, the gaps that y would yield with
      the data between them, and everything behind the range. */
  lemma SubstituteMeans(d: Doc, d': Doc, search: Search, range: Filerange, data: seq<byte>, count: int)
    requires Proper(search) && NonEmpty(search) && d.cur < |d.nodes| && range.start <= range.end <= |d.Now().text|
    requires Replaced(d, d', Found(d, search, range), data, count)
    ensures var text := d.Now().text;
            var gaps := Extracted(search, text, false, range.start, range.end, range.start, Some(range.start));
            && Tile(Found(d, search, range), gaps, range.start, range.end)
            && (forall i :: 0 <= i < |gaps| ==> gaps[i].start <= gaps[i].end <= |text|)
            && d'.Now().text == text[..range.start] + Woven(text, gaps, Repeated(data, count)) + text[range.end..]
  {
    hide Extracted, Tile, Substituted, Woven, Sorted, Inside, ChangesFor, OneUndo;
    var text, ms := d.Now().text, Found(d, search, range);
    var gaps := Extracted(search, text, false, range.start, range.end, range.start, Some(range.start));
    var cs := ChangesFor(ms, data, count);
    XIsMatches(search, text, range.start, range.end, range.start, None);
    XAndYTile(search, text, range.start, range.end, range.start);
    XOrdered(search, text, range.start, range.end, range.start, None);
    ChangesSorted(ms, data, count, range.start, range.end);
    InsideMore(cs, range.start, range.end, |text|);
    ReplacedIsWoven(text, ms, gaps, data, count, range.start, range.end);
    SubstitutedFrom(text, cs, range.start);
  }

  /** Nothing before the first change moves. */
  lemma SubstitutedFrom(text: seq<byte>, cs: seq<Change>, from: nat)
    requires Sorted(cs) && Inside(cs, from, |text|) && from <= |text|
    ensures Inside(cs, 0, |text|) && Substituted(text, cs, 0) == text[..from] + Substituted(text, cs, from)
  {
    hide Sorted, Inside, Resume, Transcripts.Text, Substituted;
    InsideAll(cs, from, |text|);
    if cs != [] {
      SortedTail(cs, from, |text|);
      var s := cs[0].range.start;
      Prefixed(text, from, s);
      SubstitutedStep(text, cs, from);
      SubstitutedStep(text, cs, 0);
      var rest := Transcripts.Text(cs[0]) + Substituted(text, cs[1..], Resume(cs[0]));
      Assoc(text[..from], text[from..s], rest);
      Assoc(text[from..s], Transcripts.Text(cs[0]), Substituted(text, cs[1..], Resume(cs[0])));
      Assoc(text[0..s], Transcripts.Text(cs[0]), Substituted(text, cs[1..], Resume(cs[0])));
    } else {
      SubstitutedNone(text, cs, from);
    }
  }

  lemma SubstitutedStep(text: seq<byte>, cs: seq<Change>, from: nat)
    requires Sorted(cs) && Inside(cs, from, |text|) && from <= |text| && cs != []
    ensures from <= cs[0].range.start <= Resume(cs[0]) <= |text|
    ensures Sorted(cs[1..]) && Inside(cs[1..], Resume(cs[0]), |text|)
    ensures Substituted(text, cs, from)
            == text[from..cs[0].range.start] + Transcripts.Text(cs[0]) + Substituted(text, cs[1..], Resume(cs[0]))
  {
    hide Sorted, Inside, Transcripts.Text, Resume;
    SortedTail(cs, from, |text|);
  }

  lemma SubstitutedNone(text: seq<byte>, cs: seq<Change>, from: nat)
    requires cs == [] && from <= |text|
    ensures Substituted(text, cs, from) == text[from..] && Substituted(text, cs, 0) == text[..from] + text[from..]
  {
  }

  lemma Prefixed(text: seq<byte>, from: nat, s: nat)
    requires from <= s <= |text|
    ensures text[0..s] == text[..from] + text[from..s]
  {
  }

  lemma InsideAll(cs: seq<Change>, from: nat, to: nat)
    requires Inside(cs, from, to)
    ensures Inside(cs, 0, to)
  {
  }
}
