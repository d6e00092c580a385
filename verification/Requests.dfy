/** Line numbers over whole sessions. */
module Requests {
  import opened Bytes
  import opened UndoTree
  import opened Revisions
  import opened PieceChain
  import opened Lines
  import opened Session

  /** What may happen to a text whose lines are asked for. */
  datatype Request = Do(c: Command) | LineAt(pos: nat) | StartOf(lineno: nat)

  /** What the request does to the document, and what it answers. */
  ghost predicate Served(r: Request, d: Doc, d': Doc, answer: Option<nat>) {
    match r
    case Do(c) => answer == None && WellFormed(d) && exists op :: Means(c, op) && Step(d, op, d')
    case LineAt(pos) => d' == d && d.cur < |d.nodes| && answer == Some(LineOn(d.Now().text, pos))
    case StartOf(n) => d' == d && d.cur < |d.nodes| && OnLine(d.Now().text, n, answer)
  }

  function LineOn(text: seq<byte>, pos: nat): nat {
    1 + Count(text[..Min(pos, |text|)], NEWLINE)
  }

  /** A position on line `n`, or None if there is no such line. */
  predicate OnLine(text: seq<byte>, n: nat, answer: Option<nat>) {
    if n == 0 then answer == Some(0)
    else if answer == None then n > 1 + Count(text, NEWLINE)
    else answer.value <= |text| && Count(text[..answer.value], NEWLINE) == n - 1
  }

  ghost predicate ServedAt(rs: seq<Request>, docs: seq<Doc>, answers: seq<Option<nat>>, i: nat)
    requires i < |rs| && i < |answers| && i + 1 < |docs|
  {
    Served(rs[i], docs[i], docs[i + 1], answers[i])
  }

  /** A request past the last line, when that line is not empty: it leaves the cache inside it. */
  ghost predicate Parks(r: Request, d: Doc, answer: Option<nat>) {
    r.StartOf? && answer == None && d.cur < |d.nodes| && !StartsLine(d.Now().text, |d.Now().text|)
  }

  ghost predicate NoneParked(rs: seq<Request>, docs: seq<Doc>, answers: seq<Option<nat>>, n: nat)
    requires n <= |rs| && n <= |answers| && n <= |docs|
  {
    forall i :: 0 <= i < n ==> !Parks(rs[i], docs[i], answers[i])
  }

  /** The answer is the first byte of the line. */
  ghost predicate FirstByte(r: Request, d: Doc, answer: Option<nat>) {
    r.StartOf? && answer.Some? ==> d.cur < |d.nodes| && StartsLine(d.Now().text, answer.value)
  }

  ghost predicate AtStart(l: LineCache, d: Doc) {
    d.cur < |d.nodes| && StartsLine(d.Now().text, l.pos)
  }

  /** What keeps the cache right keeps it at the start of a line. */
  lemma FollowsStart(l: LineCache, d: Doc, l': LineCache, d': Doc)
    requires AtStart(l, d) && LinesFollow(l, d, l', d')
    ensures AtStart(l', d')
  {
    if l' == l && l.pos > 0 {
      assert d'.Now().text[..l.pos][l.pos - 1] == d.Now().text[..l.pos][l.pos - 1];
    }
  }

  /** One request.  From a cache at the start of a line the answer is the first byte of the line
      asked for, and the cache stays at the start of a line exactly if it is not parked. */
  method ServeOne(t: Text, r: Request, times: Revision -> int) returns (answer: Option<nat>)
    requires t.Valid()
    modifies t, t.repr
    ensures t.Valid() && fresh(t.repr - old(t.repr))
    ensures Served(r, old(t.doc), t.doc, answer)
    ensures old(AtStart(t.lines, t.doc)) ==> FirstByte(r, old(t.doc), answer)
    ensures old(AtStart(t.lines, t.doc)) ==> (AtStart(t.lines, t.doc) <==> !Parks(r, old(t.doc), answer))
  {
    hide Text.Inv, TreeNodes, NextPath, Step, Means, Count;
    ghost var l, d := t.lines, t.doc;
    answer := None;
    match r {
      case Do(c) =>
        ghost var op := Perform(t, c, times);
        if AtStart(l, d) { FollowsStart(l, d, t.lines, t.doc); }
      case LineAt(pos) =>
        var n := LinenoByPos(t, pos);
        answer := Some(n);
      case StartOf(n) =>
        answer := PosByLineno(t, n);
    }
  }

  /** Any number of requests on a text whose cache is at the start of a line, as after loading:
      every answer is on the line asked for, and its first byte unless an earlier request parked
      the cache. */
  method Serve(t: Text, rs: seq<Request>, times: Revision -> int)
    returns (answers: seq<Option<nat>>, ghost docs: seq<Doc>)
    requires t.Valid() && AtStart(t.lines, t.doc)
    modifies t, t.repr
    ensures t.Valid() && fresh(t.repr - old(t.repr)) && |answers| == |rs| && |docs| == |rs| + 1
    ensures docs[0] == old(t.doc) && docs[|rs|] == t.doc
    ensures forall i :: 0 <= i < |rs| ==> ServedAt(rs, docs, answers, i)
    ensures forall i :: 0 <= i < |rs| && NoneParked(rs, docs, answers, i) ==> FirstByte(rs[i], docs[i], answers[i])
    ensures NoneParked(rs, docs, answers, |rs|) ==> AtStart(t.lines, t.doc)
  {
    hide Text.Inv, WellFormed, AtStart, Served, FirstByte, Parks;
    answers, docs := [], [t.doc];
    var i := 0;
    while i < |rs|
      invariant i <= |rs| && |answers| == i && |docs| == i + 1 && t.Valid() && fresh(t.repr - old(t.repr))
      invariant docs[0] == old(t.doc) && docs[i] == t.doc
      invariant forall j :: 0 <= j < i ==> ServedAt(rs, docs, answers, j)
      invariant forall j :: 0 <= j < i && NoneParked(rs, docs, answers, j) ==> FirstByte(rs[j], docs[j], answers[j])
      invariant NoneParked(rs, docs, answers, i) ==> AtStart(t.lines, t.doc)
    {
      ghost var as0, ds0 := answers, docs;
      var answer := ServeOne(t, rs[i], times);
      answers, docs := answers + [answer], docs + [t.doc];
      forall j | 0 <= j <= i
        ensures NoneParked(rs, docs, answers, j) == NoneParked(rs, ds0, as0, j)
        ensures ServedAt(rs, docs, answers, j)
      {
        if j < i { assert ServedAt(rs, ds0, as0, j); }
      }
      i := i + 1;
    }
  }

  /** And a parked cache is seen: after a request past the end, the one for the last line is
      answered with its first byte exactly if that is the first line, or empty. */
  method Parked(t: Text, n: nat) returns (p: Option<nat>)
    requires t.Valid() && t.doc.cur < |t.doc.nodes| && n > 1 + Count(t.doc.Now().text, NEWLINE)
    modifies t`lines
    ensures t.Valid() && t.doc == old(t.doc) && p.Some? && p.value <= |t.doc.Now().text|
    ensures var text := t.doc.Now().text;
            && Count(text[..p.value], NEWLINE) == Count(text, NEWLINE)
            && (StartsLine(text, p.value) <==> Count(text, NEWLINE) == 0 || StartsLine(text, |text|))
  {
    hide Text.Inv, WellFormed, Count;
    ghost var text := t.doc.Now().text;
    var _ := PosByLineno(t, n);
    var last := t.lines.lineno;
    assert text[..0] == [];
    p := PosByLineno(t, last);
  }
}
