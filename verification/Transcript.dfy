/** The transcript of a sam command. */
module Transcripts {

  // Changes against the original text, recorded in a sorted list and then replayed with a
  // running offset.

  import opened Bytes
  import opened History
  import opened Ranges

  // ----- what a list of changes means -----

  /** A SamChange: `delete` the range, `insert` the data so many times, or both. */
  datatype Change = Change(insert: bool, delete: bool, range: Filerange, data: seq<byte>, count: int)

  /** The data, repeated. */
  function Repeated(data: seq<byte>, n: int): seq<byte>
    decreases if n > 0 then n else 0
  {
    if n <= 0 then [] else data + Repeated(data, n - 1)
  }

  /** What a change puts in place of its range. */
  function Text(c: Change): seq<byte> {
    if c.insert then Repeated(c.data, c.count) else []
  }

  /** Where the text goes on behind a change. */
  function Resume(c: Change): nat {
    if c.delete then c.range.end else c.range.start
  }

  /** In order, none overlapping the next, all inside a text of `size` bytes. */
  predicate Sorted(cs: seq<Change>) {
    && (forall i :: 0 <= i < |cs| ==> cs[i].range.start <= cs[i].range.end)
    && (forall i, j :: 0 <= i < j < |cs| ==> cs[i].range.end <= cs[j].range.start)
  }

  predicate Inside(cs: seq<Change>, from: nat, to: nat) {
    forall i :: 0 <= i < |cs| ==> from <= cs[i].range.start && cs[i].range.end <= to
  }

  /** All changes made at once: the untouched stretches of the text from `from` on, with the
      data of each change between them. */
  function Substituted(text: seq<byte>, cs: seq<Change>, from: nat): seq<byte>
    requires Sorted(cs) && Inside(cs, from, |text|) && from <= |text|
  {
    if cs == [] then text[from..]
    else text[from..cs[0].range.start] + Text(cs[0]) + Substituted(text, cs[1..], Resume(cs[0]))
  }

  /** One change, made on its own. */
  function Single(text: seq<byte>, c: Change): seq<byte>
    requires c.range.start <= c.range.end <= |text|
  {
    text[..c.range.start] + Text(c) + text[Resume(c)..]
  }

  /** All changes, the last one first, so that no position ever moves. */
  function LastFirst(text: seq<byte>, cs: seq<Change>): (r: seq<byte>)
    requires Sorted(cs) && Inside(cs, 0, |text|)
    decreases |cs|
  {
    if cs == [] then text
    else
      var n := |cs| - 1;
      var rest := Single(text, cs[n]);
      assert |text[..cs[n].range.start]| == cs[n].range.start;
      LastFirst(rest, cs[..n])
  }

  lemma SinglePrefix(text: seq<byte>, c: Change, i: nat, j: nat)
    requires c.range.start <= c.range.end <= |text| && i <= j <= c.range.start
    ensures |Single(text, c)| >= c.range.start && Single(text, c)[i..j] == text[i..j]
  {
  }

  lemma SingleFrom(text: seq<byte>, c: Change, i: nat)
    requires i <= c.range.start <= c.range.end <= |text|
    ensures |Single(text, c)| >= c.range.start
    ensures Single(text, c)[i..] == text[i..c.range.start] + Text(c) + text[Resume(c)..]
  {
  }

  lemma SortedTail(cs: seq<Change>, from: nat, to: nat)
    requires Sorted(cs) && Inside(cs, from, to) && cs != []
    ensures from <= cs[0].range.start <= Resume(cs[0]) <= cs[0].range.end <= to
    ensures Sorted(cs[1..]) && Inside(cs[1..], Resume(cs[0]), to)
  {
  }

  lemma SortedInit(cs: seq<Change>, c: Change, from: nat, to: nat)
    requires Sorted(cs + [c]) && Inside(cs + [c], from, to)
    ensures Sorted(cs) && Inside(cs, from, to) && Inside(cs, from, c.range.start)
    ensures from <= c.range.start <= c.range.end <= to
  {
    var all := cs + [c];
    assert all[|cs|] == c && forall i :: 0 <= i < |cs| ==> cs[i] == all[i];
  }

  /** A change behind all others touches only the tail. */
  lemma {:induction false} SubstitutedTail(text: seq<byte>, cs: seq<Change>, c: Change, from: nat)
    requires Sorted(cs + [c]) && Inside(cs + [c], from, |text|) && from <= |text|
    ensures c.range.start <= c.range.end <= |text|
    ensures Sorted(cs) && Inside(cs, from, |Single(text, c)|) && from <= |Single(text, c)|
    ensures Substituted(text, cs + [c], from) == Substituted(Single(text, c), cs, from)
  {
    hide Sorted, Inside, Single, Text, Resume;
    var all := cs + [c];
    SortedInit(cs, c, from, |text|);
    SingleFrom(text, c, from);
    InsideMore(cs, from, c.range.start, |Single(text, c)|);
    SortedTail(all, from, |text|);
    if cs == [] {
      assert all[1..] == [] && all[0] == c;
    } else {
      assert all[1..] == cs[1..] + [c] && all[0] == cs[0];
      SortedTail(cs, from, c.range.start);
      SubstitutedTail(text, cs[1..], c, Resume(cs[0]));
      SinglePrefix(text, c, from, cs[0].range.start);
    }
  }

  lemma InsideMore(cs: seq<Change>, from: nat, to: nat, to': nat)
    requires Inside(cs, from, to) && to <= to'
    ensures Inside(cs, from, to')
  {
  }

  /** Making all changes at once is making them from the last to the first. */
  lemma {:induction false} SimultaneousIsLastFirst(text: seq<byte>, cs: seq<Change>)
    requires Sorted(cs) && Inside(cs, 0, |text|)
    ensures Substituted(text, cs, 0) == LastFirst(text, cs)
    decreases |cs|
  {
    if cs != [] {
      var n := |cs| - 1;
      assert cs == cs[..n] + [cs[n]];
      SubstitutedTail(text, cs[..n], cs[n], 0);
      SimultaneousIsLastFirst(Single(text, cs[n]), cs[..n]);
    }
  }

  // ----- byte by byte -----

  /** Repeating takes the bytes of the data over and over, `n` times. */
  lemma {:induction false} RepeatedIs(data: seq<byte>, n: nat, j: nat, k: nat)
    requires j < n && k < |data|
    ensures |Repeated(data, n)| == n * |data| && j * |data| + k < |Repeated(data, n)|
    ensures Repeated(data, n)[j * |data| + k] == data[k]
    decreases n
  {
    RepeatedLength(data, n);
    RepeatedLength(data, n - 1);
    if j > 0 {
      RepeatedIs(data, n - 1, j - 1, k);
      assert j * |data| + k == |data| + ((j - 1) * |data| + k);
    }
  }

  lemma {:induction false} RepeatedLength(data: seq<byte>, n: nat)
    ensures |Repeated(data, n)| == n * |data|
  {
    if n > 0 { RepeatedLength(data, n - 1); }
  }

  /** What is inserted before byte `i`: the data of every change that starts there, in order. */
  function Put(cs: seq<Change>, i: nat): seq<byte> {
    if cs == [] then []
    else (if cs[0].insert && cs[0].range.start == i then Repeated(cs[0].data, cs[0].count) else []) + Put(cs[1..], i)
  }

  /** Byte `i` lies in a range that is deleted. */
  predicate Gone(cs: seq<Change>, i: nat) {
    exists k :: 0 <= k < |cs| && cs[k].delete && cs[k].range.start <= i < cs[k].range.end
  }

  /** Byte `i`, unless it is deleted. */
  ghost function Kept(text: seq<byte>, cs: seq<Change>, i: nat): seq<byte>
    requires i < |text|
  {
    if Gone(cs, i) then [] else [text[i]]
  }

  /** The text from byte `i` on: before each byte what is inserted there, and the byte itself
      unless it is deleted. */
  ghost function ByteByByte(text: seq<byte>, cs: seq<Change>, i: nat): seq<byte>
    requires i <= |text|
    decreases |text| - i
  {
    if i == |text| then Put(cs, i) else Put(cs, i) + Kept(text, cs, i) + ByteByByte(text, cs, i + 1)
  }

  lemma {:induction false} PutNone(cs: seq<Change>, i: nat)
    requires forall k :: 0 <= k < |cs| ==> cs[k].range.start > i
    ensures Put(cs, i) == []
  {
    if cs != [] { PutNone(cs[1..], i); }
  }

  lemma NotGone(text: seq<byte>, cs: seq<Change>, i: nat)
    requires i < |text| && forall k :: 0 <= k < |cs| ==> cs[k].range.start > i
    ensures Kept(text, cs, i) == [text[i]]
  {
  }

  /** A stretch where nothing happens. */
  lemma {:induction false} Untouched(text: seq<byte>, cs: seq<Change>, i: nat, j: nat)
    requires i <= j <= |text| && forall k :: 0 <= k < |cs| ==> cs[k].range.start >= j
    ensures ByteByByte(text, cs, i) == text[i..j] + ByteByByte(text, cs, j)
    decreases j - i
  {
    hide Put, Kept, ByteByByte;
    if i < j {
      ByteStep(text, cs, i);
      PutNone(cs, i);
      NotGone(text, cs, i);
      Untouched(text, cs, i + 1, j);
      OneByte(text, i, j, ByteByByte(text, cs, j));
    }
  }

  lemma OneByte(text: seq<byte>, i: nat, j: nat, rest: seq<byte>)
    requires i < j <= |text|
    ensures [] + [text[i]] + (text[i + 1..j] + rest) == text[i..j] + rest
  {
  }

  /** Behind the first change only the others matter. */
  lemma BehindOne(text: seq<byte>, cs: seq<Change>, i: nat)
    requires cs != [] && cs[0].range.start < i <= |text| && (cs[0].delete ==> cs[0].range.end <= i)
    ensures Put(cs, i) == Put(cs[1..], i) && (i < |text| ==> Kept(text, cs, i) == Kept(text, cs[1..], i))
  {
    hide Repeated;
    GoneRest(cs, i);
  }

  lemma GoneRest(cs: seq<Change>, i: nat)
    requires cs != []
    ensures Gone(cs, i) <==> (cs[0].delete && cs[0].range.start <= i < cs[0].range.end) || Gone(cs[1..], i)
  {
    if Gone(cs[1..], i) {
      var k :| 0 <= k < |cs[1..]| && cs[1..][k].delete && cs[1..][k].range.start <= i < cs[1..][k].range.end;
      assert cs[k + 1] == cs[1..][k];
    }
    if Gone(cs, i) {
      var k :| 0 <= k < |cs| && cs[k].delete && cs[k].range.start <= i < cs[k].range.end;
      assert k > 0 ==> cs[1..][k - 1] == cs[k];
    }
  }

  lemma {:induction false} BehindFirst(text: seq<byte>, cs: seq<Change>, i: nat)
    requires cs != [] && cs[0].range.start < i <= |text| && (cs[0].delete ==> cs[0].range.end <= i)
    ensures ByteByByte(text, cs, i) == ByteByByte(text, cs[1..], i)
    decreases |text| - i
  {
    hide Put, Kept;
    BehindOne(text, cs, i);
    if i < |text| { BehindFirst(text, cs, i + 1); }
  }

  /** Within a deleted range nothing remains. */
  lemma InsideOne(text: seq<byte>, cs: seq<Change>, i: nat)
    requires cs != [] && cs[0].delete && cs[0].range.start <= i < cs[0].range.end <= |text|
    requires forall k :: 1 <= k < |cs| ==> cs[k].range.start >= cs[0].range.end
    ensures Kept(text, cs, i) == [] && Put(cs[1..], i) == []
    ensures cs[0].range.start < i ==> Put(cs, i) == []
  {
    hide Repeated;
    GoneRest(cs, i);
    PutNone(cs[1..], i);
  }

  lemma {:induction false} InsideFirst(text: seq<byte>, cs: seq<Change>, i: nat)
    requires cs != [] && cs[0].delete && cs[0].range.start < i <= cs[0].range.end <= |text|
    requires forall k :: 1 <= k < |cs| ==> cs[k].range.start >= cs[0].range.end
    ensures ByteByByte(text, cs, i) == ByteByByte(text, cs[1..], cs[0].range.end)
    decreases |text| - i
  {
    hide Put, Kept;
    if i == cs[0].range.end {
      BehindFirst(text, cs, i);
    } else {
      InsideOne(text, cs, i);
      InsideFirst(text, cs, i + 1);
    }
  }

  lemma PutFirst(cs: seq<Change>)
    requires cs != []
    ensures Put(cs, cs[0].range.start) == Text(cs[0]) + Put(cs[1..], cs[0].range.start)
  {
  }

  /** Where the first change starts, if it deletes something. */
  lemma AtDeleted(text: seq<byte>, cs: seq<Change>)
    requires cs != [] && cs[0].delete && cs[0].range.start < cs[0].range.end <= |text|
    requires forall k :: 1 <= k < |cs| ==> cs[k].range.start >= cs[0].range.end
    ensures ByteByByte(text, cs, cs[0].range.start) == Text(cs[0]) + ByteByByte(text, cs[1..], cs[0].range.end)
  {
    hide Put, Kept, Text, ByteByByte;
    var i := cs[0].range.start;
    PutFirst(cs);
    ByteStep(text, cs, i);
    InsideOne(text, cs, i);
    InsideFirst(text, cs, i + 1);
    Regroup(Text(cs[0]), Put(cs[1..], i), Kept(text, cs, i), ByteByByte(text, cs[1..], cs[0].range.end));
  }

  /** ... and if not. */
  lemma AtOther(text: seq<byte>, cs: seq<Change>)
    requires cs != [] && cs[0].range.start <= |text| && (cs[0].delete ==> cs[0].range.end <= cs[0].range.start)
    ensures ByteByByte(text, cs, cs[0].range.start) == Text(cs[0]) + ByteByByte(text, cs[1..], cs[0].range.start)
  {
    hide Put, Kept, Text, ByteByByte;
    var i := cs[0].range.start;
    PutFirst(cs);
    ByteStep(text, cs, i);
    ByteStep(text, cs[1..], i);
    if i < |text| {
      KeptSame(text, cs, i);
      BehindFirst(text, cs, i + 1);
      Regroup(Text(cs[0]), Put(cs[1..], i), Kept(text, cs[1..], i), ByteByByte(text, cs[1..], i + 1));
    }
  }

  lemma ByteStep(text: seq<byte>, cs: seq<Change>, i: nat)
    requires i <= |text|
    ensures ByteByByte(text, cs, i)
            == if i == |text| then Put(cs, i) else Put(cs, i) + Kept(text, cs, i) + ByteByByte(text, cs, i + 1)
  {
  }

  lemma Assoc(a: seq<byte>, b: seq<byte>, c: seq<byte>)
    ensures a + (b + c) == a + b + c
  {
  }

  lemma Regroup(a: seq<byte>, b: seq<byte>, c: seq<byte>, d: seq<byte>)
    ensures (a + b) + c + d == a + (b + c + d)
    ensures b == c == [] ==> (a + b) + c + d == a + d
  {
  }

  lemma KeptSame(text: seq<byte>, cs: seq<Change>, i: nat)
    requires cs != [] && i < |text| && (cs[0].delete ==> cs[0].range.end <= i)
    ensures Kept(text, cs, i) == Kept(text, cs[1..], i)
  {
    GoneRest(cs, i);
  }

  lemma NothingLeft(text: seq<byte>)
    ensures ByteByByte(text, [], |text|) == []
  {
  }

  lemma SortedStarts(cs: seq<Change>, from: nat, to: nat)
    requires Sorted(cs) && Inside(cs, from, to) && cs != []
    ensures cs[0].range.start <= cs[0].range.end <= to
    ensures forall k :: 0 <= k < |cs| ==> cs[k].range.start >= cs[0].range.start
    ensures forall k :: 1 <= k < |cs| ==> cs[k].range.start >= cs[0].range.end
  {
  }

  lemma ResumeIs(c: Change)
    ensures Resume(c) == if c.delete then c.range.end else c.range.start
  {
  }

  /** Whatever mixture of deletions, insertions and both: making all changes at once deletes
      exactly the bytes of the ranges to delete, keeps every other byte in its place, and puts
      the data of each insertion where its range starts. */
  lemma {:induction false} SubstitutedBytes(text: seq<byte>, cs: seq<Change>, from: nat)
    requires Sorted(cs) && Inside(cs, from, |text|) && from <= |text|
    ensures Substituted(text, cs, from) == ByteByByte(text, cs, from)
  {
    hide Text, Resume, Put, Kept, ByteByByte, Sorted, Inside;
    if cs == [] {
      NothingLeft(text);
      Untouched(text, cs, from, |text|);
    } else {
      SortedTail(cs, from, |text|);
      SortedStarts(cs, from, |text|);
      Untouched(text, cs, from, cs[0].range.start);
      if cs[0].delete && cs[0].range.start < cs[0].range.end {
        AtDeleted(text, cs);
      } else {
        AtOther(text, cs);
      }
      ResumeIs(cs[0]);
      SubstitutedBytes(text, cs[1..], Resume(cs[0]));
      Assoc(text[from..cs[0].range.start], Text(cs[0]), ByteByByte(text, cs[1..], Resume(cs[0])));
    }
  }

  /** The bytes no range covers, in order. */
  ghost function Uncovered(text: seq<byte>, cs: seq<Change>, i: nat): seq<byte>
    requires i <= |text|
    decreases |text| - i
  {
    if i == |text| then []
    else (if exists k :: 0 <= k < |cs| && cs[k].range.Has(i) then [] else [text[i]]) + Uncovered(text, cs, i + 1)
  }

  /** Deletions alone leave exactly those. */
  lemma {:induction false} DeletionsLeave(text: seq<byte>, cs: seq<Change>, i: nat)
    requires i <= |text| && forall k :: 0 <= k < |cs| ==> cs[k].delete && !cs[k].insert
    ensures ByteByByte(text, cs, i) == Uncovered(text, cs, i)
    decreases |text| - i
  {
    hide Put, Kept, ByteByByte, Uncovered;
    NothingPut(cs, i);
    ByteStep(text, cs, i);
    UncoveredStep(text, cs, i);
    if i < |text| {
      KeptIs(text, cs, i);
      DeletionsLeave(text, cs, i + 1);
    }
  }

  lemma UncoveredStep(text: seq<byte>, cs: seq<Change>, i: nat)
    requires i <= |text|
    ensures Uncovered(text, cs, i) == if i == |text| then []
            else (if exists k :: 0 <= k < |cs| && cs[k].range.Has(i) then [] else [text[i]])
                 + Uncovered(text, cs, i + 1)
  {
  }

  lemma KeptIs(text: seq<byte>, cs: seq<Change>, i: nat)
    requires i < |text| && forall k :: 0 <= k < |cs| ==> cs[k].delete
    ensures Kept(text, cs, i) == if exists k :: 0 <= k < |cs| && cs[k].range.Has(i) then [] else [text[i]]
  {
    if k :| 0 <= k < |cs| && cs[k].range.Has(i) { assert Gone(cs, i); }
  }

  lemma {:induction false} NothingPut(cs: seq<Change>, i: nat)
    requires forall k :: 0 <= k < |cs| ==> !cs[k].insert
    ensures Put(cs, i) == []
  {
    if cs != [] { NothingPut(cs[1..], i); }
  }

  // ----- recording -----

  /** Two ranges share a position, or one lies strictly inside the other. */
  predicate Clash(r: Filerange, s: Filerange) {
    r.start < s.end && s.start < r.end
  }

  predicate Conflicts(cs: seq<Change>, r: Filerange) {
    exists i :: 0 <= i < |cs| && Clash(cs[i].range, r)
  }

  /** How many changes lie before position `pos`: where a scan from the head stops. */
  function PointFor(cs: seq<Change>, pos: nat): (k: nat)
    ensures k <= |cs|
  {
    if cs == [] || cs[0].range.end > pos then 0 else 1 + PointFor(cs[1..], pos)
  }

  lemma {:induction false} PointIs(cs: seq<Change>, pos: nat)
    ensures forall i :: 0 <= i < PointFor(cs, pos) ==> cs[i].range.end <= pos
    ensures PointFor(cs, pos) < |cs| ==> cs[PointFor(cs, pos)].range.end > pos
  {
    if cs != [] && cs[0].range.end <= pos { PointIs(cs[1..], pos); }
  }

  /** In a sorted list every change that ends by `pos` lies before the point, so a scan may
      start behind any one of them. */
  lemma PointFrom(cs: seq<Change>, pos: nat, i: nat)
    requires Sorted(cs) && i < |cs| && cs[i].range.end <= pos
    ensures i < PointFor(cs, pos)
  {
    PointIs(cs, pos);
    assert forall j :: 0 <= j < i ==> cs[j].range.end <= cs[i].range.start;
  }

  lemma PointUnique(cs: seq<Change>, pos: nat, k: nat)
    requires k <= PointFor(cs, pos) && (k < |cs| ==> cs[k].range.end > pos)
    ensures k == PointFor(cs, pos)
  {
    PointIs(cs, pos);
  }

  /** A new range conflicts with some recorded change exactly if it reaches into the first one
      behind its point. */
  lemma ConflictAtPoint(cs: seq<Change>, r: Filerange)
    requires Sorted(cs) && r.start <= r.end
    ensures var k := PointFor(cs, r.start); Conflicts(cs, r) <==> k < |cs| && cs[k].range.start < r.end
  {
    PointIs(cs, r.start);
    var k := PointFor(cs, r.start);
    if k < |cs| && cs[k].range.start < r.end { assert Clash(cs[k].range, r); }
    if Conflicts(cs, r) {
      var i :| 0 <= i < |cs| && Clash(cs[i].range, r);
      assert i > k ==> cs[k].range.end <= cs[i].range.start;
    }
  }

  function Recorded(cs: seq<Change>, c: Change): seq<Change> {
    var k := PointFor(cs, c.range.start);
    cs[..k] + [c] + cs[k..]
  }

  lemma RecordedSorted(cs: seq<Change>, c: Change)
    requires Sorted(cs) && c.range.start <= c.range.end && !Conflicts(cs, c.range)
    ensures Sorted(Recorded(cs, c))
  {
    PointIs(cs, c.range.start);
    ConflictAtPoint(cs, c.range);
    var k := PointFor(cs, c.range.start);
    forall i | k <= i < |cs| ensures c.range.end <= cs[i].range.start {
      assert i > k ==> cs[k].range.end <= cs[i].range.start;
    }
    SplicedSorted(cs, c, k);
  }

  lemma SplicedSorted(cs: seq<Change>, c: Change, k: nat)
    requires Sorted(cs) && k <= |cs| && c.range.start <= c.range.end
    requires forall i :: 0 <= i < k ==> cs[i].range.end <= c.range.start
    requires forall i :: k <= i < |cs| ==> c.range.end <= cs[i].range.start
    ensures Sorted(cs[..k] + [c] + cs[k..])
  {
    var rs := cs[..k] + [c] + cs[k..];
    assert forall i :: 0 <= i < |rs| ==> rs[i] == if i < k then cs[i] else if i == k then c else cs[i - 1];
  }

  /** One range ends by the start of the other. */
  predicate Beside(r: Filerange, s: Filerange) {
    r.end <= s.start || s.end <= r.start
  }

  lemma ConflictsAre(cs: seq<Change>, r: Filerange)
    ensures Conflicts(cs, r) <==> exists x :: x in cs && !Beside(x.range, r)
  {
    if Conflicts(cs, r) {
      var i :| 0 <= i < |cs| && Clash(cs[i].range, r);
      assert cs[i] in cs;
    }
  }

  /** `cs'` is `cs` with `c` behind every change that ends by its start, those at the same place
      included, and before all others. */
  ghost predicate InOrder(cs: seq<Change>, c: Change, cs': seq<Change>) {
    exists k :: 0 <= k <= |cs| && cs' == cs[..k] + [c] + cs[k..] && Behind(cs, c, k)
  }

  ghost predicate Behind(cs: seq<Change>, c: Change, k: nat) {
    && (forall i :: 0 <= i < k && i < |cs| ==> cs[i].range.end <= c.range.start)
    && (forall i :: k <= i < |cs| ==> c.range.start < cs[i].range.end)
  }

  lemma RecordedInOrder(cs: seq<Change>, c: Change)
    requires Sorted(cs)
    ensures InOrder(cs, c, Recorded(cs, c))
  {
    PointIs(cs, c.range.start);
    var k := PointFor(cs, c.range.start);
    assert forall i :: k < i < |cs| ==> cs[k].range.end <= cs[i].range.start <= cs[i].range.end;
    assert Behind(cs, c, k);
  }

  /** A SamChange in the list. */
  class SamChange {
    var insert: bool
    var delete: bool
    var range: Filerange
    var data: seq<byte>
    var count: int
    var next: SamChange?

    constructor (insert: bool, delete: bool, range: Filerange, next: SamChange?)
      ensures this.insert == insert && this.delete == delete && this.range == range && this.next == next
      ensures data == [] && count == 0
    {
      this.insert, this.delete, this.range, this.next := insert, delete, range, next;
      data, count := [], 0;
    }

    function Value(): Change
      reads this
    {
      Change(insert, delete, range, data, count)
    }
  }

  function NodeAt(list: seq<SamChange>, k: nat): SamChange? {
    if k < |list| then list[k] else null
  }

  ghost predicate LinkAt(list: seq<SamChange>, i: nat)
    requires i < |list|
    reads list[i]
  {
    list[i].next == NodeAt(list, i + 1)
  }

  ghost predicate ValueAt(list: seq<SamChange>, cells: seq<Change>, i: nat)
    requires i < |list| == |cells|
    reads list[i]
  {
    list[i].Value() == cells[i]
  }

  class Transcript {
    var changes: SamChange?
    var latest: SamChange?
    var error: bool
    ghost var list: seq<SamChange>
    ghost var cells: seq<Change>

    ghost predicate Linked()
      reads this, list
    {
      && NoDup(list) && changes == NodeAt(list, 0) && |cells| == |list|
      && (forall i :: 0 <= i < |list| ==> LinkAt(list, i) && ValueAt(list, cells, i))
      && (latest != null ==> latest in list)
    }

    ghost predicate Valid()
      reads this, list
    {
      Linked() && Sorted(cells)
    }

    /** `sam_transcript_init`. */
    constructor ()
      ensures Valid() && cells == [] && list == [] && !error
    {
      changes, latest, error, list, cells := null, null, false, [], [];
    }

    /** `sam_change_new`: record a change at its point, unless the range is invalid or reaches
        into a recorded change. */
    method ChangeNew(insert: bool, delete: bool, range: Filerange) returns (c: SamChange?)
      requires Valid()
      modifies this, list
      ensures Valid() && forall x :: x in list ==> x in old(list) || fresh(x)
      ensures c == null <==> !range.Valid() || Conflicts(old(cells), range)
      ensures c == null <==> !range.Valid() || !(forall x :: x in old(cells) ==> Beside(x.range, range))
      ensures error <==> old(error) || (range.Valid() && Conflicts(old(cells), range))
      ensures c == null ==> list == old(list) && cells == old(cells)
      ensures latest == if c != null then c else old(latest)
      ensures c != null ==> fresh(c) && |list| == |old(list)| + 1 && list[PointFor(old(cells), range.start)] == c
      ensures c != null ==> cells == Recorded(old(cells), Change(insert, delete, range, [], 0))
    {
      hide Sorted, Conflicts, PointFor, Beside;
      c := null;
      if !range.Valid() { return; }
      var prev, next; ghost var k;
      prev, next, k := FindPoint(range.start);
      ConflictAtPoint(cells, range);
      ConflictsAre(cells, range);
      assert k < |list| ==> ValueAt(list, cells, k);
      if next != null && next.range.start < range.end {
        error := true;
        return;
      }
      c := new SamChange(insert, delete, range, next);
      RecordedSorted(cells, c.Value());
      LinkIn(c, prev, k);
    }

    /** `*prev = new`. */
    method LinkIn(c: SamChange, prev: SamChange?, ghost k: nat)
      requires Linked() && c !in list && k <= |list| && c.next == NodeAt(list, k)
      requires prev == if k == 0 then null else list[k - 1]
      modifies this`changes, this`latest, this`list, this`cells, list`next
      ensures Linked() && k <= |old(cells)| && latest == c
      ensures list == old(list)[..k] + [c] + old(list)[k..]
      ensures cells == old(cells)[..k] + [c.Value()] + old(cells)[k..]
    {
      ghost var l, v := list, cells;
      if prev == null { changes := c; } else { prev.next := c; }
      latest := c;
      list, cells := l[..k] + [c] + l[k..], v[..k] + [c.Value()] + v[k..];
      forall i | 0 <= i < |list| ensures LinkAt(list, i) && ValueAt(list, cells, i) {
        ghost var j := if i < k then i else i - 1;
        if i != k {
          assert list[i] == l[j] && cells[i] == v[j] && (i != k - 1 ==> l[j] != prev);
          assert old(LinkAt(l, j) && ValueAt(l, v, j));
        }
      }
      assert list[k] == c;
    }

    /** The scan of `sam_change_new`, from the latest change if that lies before `pos`, or else
        from the head; either way it ends at the point for `pos`. */
    method FindPoint(pos: nat) returns (prev: SamChange?, next: SamChange?, ghost k: nat)
      requires Valid()
      ensures k == PointFor(cells, pos) <= |list| && next == NodeAt(list, PointFor(cells, pos))
      ensures prev == if PointFor(cells, pos) == 0 then null else list[PointFor(cells, pos) - 1]
    {
      k := 0;
      if latest != null && latest.range.end <= pos {
        prev, next := latest, latest.next;
        ghost var i: nat :| i < |list| && list[i] == latest;
        assert LinkAt(list, i) && ValueAt(list, cells, i);
        PointFrom(cells, pos, i);
        k := i + 1;
      } else {
        prev, next := null, changes;
      }
      while next != null && next.range.end <= pos
        invariant k <= PointFor(cells, pos) && next == NodeAt(list, k)
        invariant prev == if k == 0 then null else list[k - 1]
        decreases |list| - k
      {
        assert LinkAt(list, k) && ValueAt(list, cells, k);
        PointFrom(cells, pos, k);
        prev, next, k := next, next.next, k + 1;
      }
      assert k < |list| ==> ValueAt(list, cells, k);
      PointUnique(cells, pos, k);
    }

    /** `sam_insert`, `sam_change` and `sam_delete`, which leaves data and count empty. */
    method Record(insert: bool, delete: bool, range: Filerange, data: seq<byte>, count: int) returns (ok: bool)
      requires Valid()
      modifies this, list
      ensures Valid() && forall x :: x in list ==> x in old(list) || fresh(x)
      ensures ok <==> range.Valid() && !Conflicts(old(cells), range)
      ensures error <==> old(error) || (range.Valid() && Conflicts(old(cells), range))
      ensures ok <==> range.Valid() && forall x :: x in old(cells) ==> Beside(x.range, range)
      ensures cells == if ok then Recorded(old(cells), Change(insert, delete, range, data, count)) else old(cells)
      ensures ok ==> InOrder(old(cells), Change(insert, delete, range, data, count), cells)
    {
      hide Conflicts, PointFor, Recorded, InOrder, Beside;
      RecordedInOrder(cells, Change(insert, delete, range, data, count));
      var c := ChangeNew(insert, delete, range);
      ok := c != null;
      if ok {
        ghost var k := PointFor(old(cells), range.start);
        RecordedAt(old(cells), Change(insert, delete, range, [], 0), data, count);
        assert ValueAt(list, cells, k);
        Fill(c, k, data, count);
      }
    }

    /** `c->data = data; c->len = len; c->count = count`. */
    method Fill(c: SamChange, ghost k: nat, data: seq<byte>, count: int)
      requires Valid() && k < |list| && c == list[k]
      modifies c`data, c`count, this`cells
      ensures Valid() && k < |old(cells)| && cells == old(cells)[k := old(cells)[k].(data := data, count := count)]
    {
      assert ValueAt(list, cells, k);
      ghost var v := cells;
      c.data, c.count := data, count;
      cells := cells[k := cells[k].(data := data, count := count)];
      forall i | 0 <= i < |list| ensures LinkAt(list, i) && ValueAt(list, cells, i) {
        assert old(LinkAt(list, i) && ValueAt(list, v, i));
      }
    }
  }

  /** Data and count may be filled in later. */
  lemma RecordedAt(cs: seq<Change>, c: Change, data: seq<byte>, count: int)
    ensures var k := PointFor(cs, c.range.start);
            && k < |Recorded(cs, c)| && Recorded(cs, c)[k] == c
            && Recorded(cs, c)[k := c.(data := data, count := count)] == Recorded(cs, c.(data := data, count := count))
  {
  }
}
