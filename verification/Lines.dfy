/** Lines: the iterators that look for their ends, and the one-entry line number cache. */
module Lines {
  import opened Bytes
  import opened History
  import opened Extents
  import opened UndoTree
  import opened Store
  import opened Revisions
  import opened PieceChain
  import opened Editing
  import opened Iterators

  /** `p` is where a line starts. */
  predicate StartsLine(s: seq<byte>, p: nat) {
    p == 0 || (p <= |s| && s[p - 1] == NEWLINE)
  }

  lemma CountSplit(s: seq<byte>, a: nat, b: nat, c: nat)
    requires a <= b <= c <= |s|
    ensures Count(s[a..c], NEWLINE) == Count(s[a..b], NEWLINE) + Count(s[b..c], NEWLINE)
  {
    assert s[a..c] == s[a..b] + s[b..c];
    CountConcat(s[a..b], s[b..c], NEWLINE);
  }

  lemma CountNone(s: seq<byte>, a: nat, b: nat)
    requires a <= b <= |s| && forall i :: a <= i < b ==> s[i] != NEWLINE
    ensures Count(s[a..b], NEWLINE) == 0
  {
    CountAbsent(s[a..b], NEWLINE);
  }

  /** A stretch that ends with its only newline. */
  lemma CountOne(s: seq<byte>, a: nat, b: nat)
    requires a <= b < |s| && s[b] == NEWLINE && forall i :: a <= i < b ==> s[i] != NEWLINE
    ensures Count(s[a..b + 1], NEWLINE) == 1
  {
    CountSplit(s, a, b, b + 1);
    CountNone(s, a, b);
    assert s[b..b + 1] == [NEWLINE];
  }

  // ----- ends of lines -----

  /** `text_line_begin`. */
  method LineBegin(t: Text, pos: nat) returns (p: nat)
    requires t.Represents() && StoreInv(t.st)
    ensures t.st.at < |t.st.vs| && |Content(t.st)| == t.size
    ensures pos > t.size ==> p == pos
    ensures pos <= t.size ==> p <= pos && StartsLine(Content(t.st), p)
    ensures pos <= t.size ==> forall i :: p <= i < pos ==> Content(t.st)[i] != NEWLINE
  {
    hide Text.Represents, StoreInv, Content;
    t.SizeIs();
    var it := new Iterator(t, pos);
    var found := it.ByteFindPrev(t, NEWLINE);
    p := if found then it.pos + 1 else it.pos;
  }

  /** `text_line_end`. */
  method LineEnd(t: Text, pos: nat) returns (p: nat)
    requires t.Represents() && StoreInv(t.st)
    ensures t.st.at < |t.st.vs| && |Content(t.st)| == t.size
    ensures pos > t.size ==> p == pos
    ensures pos <= t.size ==> pos <= p <= t.size && (p == t.size || Content(t.st)[p] == NEWLINE)
    ensures pos <= t.size ==> forall i :: pos <= i < p ==> Content(t.st)[i] != NEWLINE
  {
    hide Text.Represents, StoreInv, Content;
    t.SizeIs();
    var it := new Iterator(t, pos);
    var _ := it.ByteFindNext(t, NEWLINE);
    p := it.pos;
  }

  /** `text_line_next`. */
  method LineNext(t: Text, pos: nat) returns (p: nat)
    requires t.Represents() && StoreInv(t.st)
    ensures t.st.at < |t.st.vs| && |Content(t.st)| == t.size
    ensures pos > t.size ==> p == pos
    ensures pos <= t.size ==> pos <= p <= t.size && ((pos < p && Content(t.st)[p - 1] == NEWLINE) || p == t.size)
    ensures pos <= t.size ==> forall i :: pos <= i < p - 1 ==> Content(t.st)[i] != NEWLINE
  {
    hide Text.Represents, StoreInv, Content;
    t.SizeIs();
    var it := new Iterator(t, pos);
    var found := it.ByteFindNext(t, NEWLINE);
    if found { var _ := it.ByteNext(t); }
    p := it.pos;
  }

  // ----- counting lines -----

  /** The next newline among the `n` bytes at `p`, in terms of the document. */
  method ScanLine(t: Text, p: Ptr, n: nat, ghost pos: nat) returns (m: Option<nat>)
    requires t.Represents() && t.st.at < |t.st.vs| && Shows(t.st, p, pos, n)
    ensures pos + n <= |Content(t.st)|
    ensures m.Some? ==> m.value < n && Count(Content(t.st)[pos..pos + m.value + 1], NEWLINE) == 1
    ensures m.Some? ==> Content(t.st)[pos + m.value] == NEWLINE
    ensures m == None ==> Count(Content(t.st)[pos..pos + n], NEWLINE) == 0
  {
    hide Text.Represents, Content, Stored, Read, Plus;
    m := ScanForward(t, p, NEWLINE, n);
    if m.Some? { CountOne(Content(t.st), pos, pos + m.value); } else { CountNone(Content(t.st), pos, pos + n); }
  }

  lemma ShowsRest(s: Store, p: Ptr, pos: nat, n: nat, d: nat, k: nat)
    requires s.at < |s.vs| && Shows(s, p, pos, n) && d + k <= n
    ensures Shows(s, Plus(p, d), pos + d, k)
  {
    hide Content;
    var q := Plus(p, d);
    assert forall i :: 0 <= i ==> Plus(q, i) == Plus(p, d + i);
    forall i | 0 <= i < k
      ensures Stored(s.mem, Plus(q, i)) && Read(s.mem, Plus(q, i)) == Content(s)[pos + d + i]
    {
      assert Plus(q, i) == Plus(p, d + i);
    }
    forall j | pos + d <= j < pos + d + k ensures Content(s)[j] == Read(s.mem, Plus(q, j - pos - d)) {
      assert Plus(q, j - pos - d) == Plus(p, j - pos);
    }
  }

  /** Where a scan of the rest of a piece has got to after `d` bytes. */
  lemma ScanAt(t: Text, it: Iterator, d: nat)
    requires StoreInv(t.st) && it.On(t.st) && d <= PieceAt(t.st, it.k).len - it.off
    ensures it.pos + PieceAt(t.st, it.k).len - it.off <= |Content(t.st)|
    ensures Minus(it.end, Plus(it.text, d)) == PieceAt(t.st, it.k).len - it.off - d
    ensures Shows(t.st, Plus(it.text, d), it.pos + d, PieceAt(t.st, it.k).len - it.off - d)
  {
    hide StoreInv, Content, Addrs, Offset, Shows;
    it.BytesAhead(t);
    NextOffset(t.st, it.k);
    ShowsRest(t.st, it.text, it.pos, PieceAt(t.st, it.k).len - it.off, d, PieceAt(t.st, it.k).len - it.off - d);
  }

  /** The part of `lines_count` that looks at one piece: newlines among the next `len` bytes. */
  method CountInPiece(t: Text, it: Iterator, len: nat) returns (lines: nat, rest: nat)
    requires t.Represents() && StoreInv(t.st) && it.On(t.st)
    ensures var n := Min(len, PieceAt(t.st, it.k).len - it.off);
            && rest == len - n && it.pos + n <= |Content(t.st)|
            && lines == Count(Content(t.st)[it.pos..it.pos + n], NEWLINE)
  {
    hide Text.Represents, StoreInv, Content, Shows, Offset, PieceAt, Plus, Minus, Count;
    ghost var size, d: nat := PieceAt(t.st, it.k).len - it.off, 0;
    ScanAt(t, it, 0);
    var start := it.text;
    PlusZero(start);
    CountNone(Content(t.st), it.pos, it.pos);
    lines, rest := 0, len;
    while rest > 0 && Minus(it.end, start) > 0
      invariant d <= size && rest == len - d && start == Plus(it.text, d)
      invariant lines == Count(Content(t.st)[it.pos..it.pos + d], NEWLINE)
      invariant Minus(it.end, start) == size - d
    {
      ScanAt(t, it, d);
      var n := Min(rest, Minus(it.end, start));
      ShowsRest(t.st, start, it.pos + d, size - d, 0, n);
      PlusZero(start);
      var m := ScanLine(t, start, n, it.pos + d);
      if m == None {
        CountSplit(Content(t.st), it.pos, it.pos + d, it.pos + d + n);
        rest := rest - n;
        return;
      }
      CountSplit(Content(t.st), it.pos, it.pos + d, it.pos + d + m.value + 1);
      lines := lines + 1;
      rest := rest - (m.value + 1);
      PlusPlus(it.text, d, m.value + 1);
      start := Plus(start, m.value + 1);
      d := d + m.value + 1;
      ScanAt(t, it, d);
    }
  }

  lemma PlusPlus(p: Ptr, a: nat, b: nat)
    ensures Plus(Plus(p, a), b) == Plus(p, a + b)
  {
  }

  lemma PlusZero(p: Ptr)
    ensures Plus(p, 0) == p
  {
  }

  /** `lines_count`. */
  method LinesCount(t: Text, pos: nat, len: nat) returns (lines: nat)
    requires t.Represents() && StoreInv(t.st) && pos + len <= t.size
    ensures t.st.at < |t.st.vs| && |Content(t.st)| == t.size
    ensures lines == Count(Content(t.st)[pos..pos + len], NEWLINE)
  {
    hide Text.Represents, StoreInv, Content, Addrs, Offset, Count;
    var it := new Iterator(t, pos);
    Sentinels(t.st);
    t.SizeIs();
    CountNone(Content(t.st), pos, pos);
    lines := 0;
    var rest: nat := len;
    while it.Valid()
      invariant it.On(t.st) && (it.Valid() <==> 0 < it.k < |t.Chain()| - 1)
      invariant rest <= len && pos <= it.pos <= t.size && it.pos == pos + len - rest
      invariant lines == Count(Content(t.st)[pos..it.pos], NEWLINE)
      decreases |t.Chain()| - it.k
    {
      var n, left := CountInPiece(t, it, rest);
      CountSplit(Content(t.st), pos, it.pos, pos + len - left);
      lines, rest := lines + n, left;
      if rest == 0 { return; }
      var _ := it.Next(t);
    }
  }

  /** The part of `lines_skip_forward` that looks at one piece: behind the next `lines` newlines. */
  method SkipInPiece(t: Text, it: Iterator, lines: nat) returns (left: nat, p: nat)
    requires t.Represents() && StoreInv(t.st) && it.On(t.st)
    ensures it.pos <= p <= it.pos + PieceAt(t.st, it.k).len - it.off <= |Content(t.st)| && left <= lines
    ensures Count(Content(t.st)[it.pos..p], NEWLINE) == lines - left
    ensures left > 0 ==> p == it.pos + PieceAt(t.st, it.k).len - it.off
    ensures left == 0 < lines ==> p > it.pos && Content(t.st)[p - 1] == NEWLINE
    ensures lines == 0 ==> p == it.pos
  {
    hide Text.Represents, StoreInv, Content, Shows, Offset, PieceAt, Plus, Minus, Count, Behind;
    ghost var c, size, d: nat := Content(t.st), PieceAt(t.st, it.k).len - it.off, 0;
    ScanAt(t, it, 0);
    var start := it.text;
    PlusZero(start);
    left, p := lines, it.pos;
    BehindNothing(c, p);
    while left > 0 && Minus(it.end, start) > 0
      invariant d <= size && left <= lines && p == it.pos + d && start == Plus(it.text, d)
      invariant Minus(it.end, start) == size - d && Behind(c, it.pos, p, lines - left)
    {
      ScanAt(t, it, d);
      var n := Minus(it.end, start);
      var m := ScanLine(t, start, n, it.pos + d);
      if m == None {
        BehindNone(c, it.pos, p, lines - left, p + n);
        p := p + n;
        return;
      }
      BehindOne(c, it.pos, p, lines - left, p + m.value);
      p := p + m.value + 1;
      PlusPlus(it.text, d, m.value + 1);
      start := Plus(start, m.value + 1);
      left := left - 1;
      d := d + m.value + 1;
      ScanAt(t, it, d);
    }
    BehindIs(c, it.pos, p, lines - left);
  }

  /** `p` is right behind the `n`-th newline after `from`. */
  ghost predicate Behind(c: seq<byte>, from: nat, p: nat, n: nat) {
    && from <= p <= |c| && Count(c[from..p], NEWLINE) == n
    && if n == 0 then p == from else p > from && c[p - 1] == NEWLINE
  }

  lemma BehindNothing(c: seq<byte>, p: nat)
    requires p <= |c|
    ensures Behind(c, p, p, 0)
  {
    CountNone(c, p, p);
  }

  lemma BehindNone(c: seq<byte>, from: nat, p: nat, n: nat, q: nat)
    requires Behind(c, from, p, n) && p <= q <= |c| && Count(c[p..q], NEWLINE) == 0
    ensures Count(c[from..q], NEWLINE) == n
  {
    CountSplit(c, from, p, q);
  }

  lemma BehindOne(c: seq<byte>, from: nat, p: nat, n: nat, q: nat)
    requires Behind(c, from, p, n) && p <= q < |c| && Count(c[p..q + 1], NEWLINE) == 1 && c[q] == NEWLINE
    ensures Behind(c, from, q + 1, n + 1)
  {
    CountSplit(c, from, p, q + 1);
  }

  lemma BehindIs(c: seq<byte>, from: nat, p: nat, n: nat)
    requires Behind(c, from, p, n)
    ensures from <= p <= |c| && Count(c[from..p], NEWLINE) == n
    ensures if n == 0 then p == from else p > from && c[p - 1] == NEWLINE
  {
  }

  /** `lines_skip_forward`: the position behind the next `lines` newlines, or the end. */
  method LinesSkipForward(t: Text, pos: nat, lines: nat) returns (p: nat, skipped: nat)
    requires t.Represents() && StoreInv(t.st) && pos <= t.size
    ensures t.st.at < |t.st.vs| && |Content(t.st)| == t.size
    ensures pos <= p <= t.size && skipped <= lines && Count(Content(t.st)[pos..p], NEWLINE) == skipped
    ensures skipped < lines ==> p == t.size
    ensures skipped == lines > 0 ==> p > pos && Content(t.st)[p - 1] == NEWLINE
  {
    hide Text.Represents, StoreInv, Content, Addrs, Offset, Count;
    var it := new Iterator(t, pos);
    Sentinels(t.st);
    t.SizeIs();
    CountNone(Content(t.st), pos, pos);
    p := pos;
    var left: nat := lines;
    while it.Valid()
      invariant it.On(t.st) && (it.Valid() <==> 0 < it.k < |t.Chain()| - 1)
      invariant left <= lines && (left > 0 || lines == 0) && pos <= it.pos == p <= t.size
      invariant it.k == 0 ==> t.size == 0
      invariant Count(Content(t.st)[pos..p], NEWLINE) == lines - left
      decreases |t.Chain()| - it.k
    {
      ghost var was := p;
      left, p := SkipInPiece(t, it, left);
      CountSplit(Content(t.st), pos, was, p);
      if left == 0 { break; }
      var _ := it.Next(t);
    }
    skipped := lines - left;
  }

  // ----- the line number cache -----

  method SetLines(t: Text, pos: nat, lineno: nat)
    requires t.Valid() && LinesOk(LineCache(pos, lineno), t.doc.Now().text)
    modifies t`lines
    ensures t.Valid() && t.lines == LineCache(pos, lineno)
  {
    hide StoreInv, HistInv, StatesInv, Text.Represents, WellFormed, LinesOk;
    t.lines := LineCache(pos, lineno);
  }

  /** What the methods above call the document is the text of the current revision. */
  lemma ContentIs(t: Text)
    requires t.Inv()
    ensures t.Represents() && StoreInv(t.st) && t.st.at < |t.st.vs| && t.doc.cur < |t.doc.nodes|
    ensures Content(t.st) == t.doc.Now().text && |t.doc.Now().text| == t.size && t !in t.repr
    ensures LinesOk(t.lines, t.doc.Now().text)
  {
    StateNow(t);
  }

  lemma CountUpTo(s: seq<byte>, a: nat, b: nat)
    requires a <= b <= |s|
    ensures Count(s[..b], NEWLINE) == Count(s[..a], NEWLINE) + Count(s[a..b], NEWLINE)
  {
    assert s[..b] == s[0..b] && s[..a] == s[0..a];
    CountSplit(s, 0, a, b);
  }

  /** `text_lineno_by_pos`. */
  method LinenoByPos(t: Text, pos: nat) returns (n: nat)
    requires t.Valid()
    modifies t`lines
    ensures t.Valid() && t.doc.cur < |t.doc.nodes|
    ensures var text := t.doc.Now().text;
            && n == 1 + Count(text[..Min(pos, |text|)], NEWLINE)
            && t.lines.lineno == n && t.lines.pos <= Min(pos, |text|) && StartsLine(text, t.lines.pos)
  {
    hide Text.Inv, WellFormed, Count, Content, StartsLine, Text.Represents;
    ContentIs(t);
    ghost var text := t.doc.Now().text;
    var at := if pos > t.size then t.size else pos;
    n := LinenoFromCache(t, at);
    var p := LineBegin(t, at);
    CountUpTo(text, p, at);
    CountNone(text, p, at);
    SetLines(t, p, n);
  }

  /** The line number of a position, counting from the cached one or from the start. */
  method LinenoFromCache(t: Text, at: nat) returns (n: nat)
    requires t.Represents() && StoreInv(t.st) && at <= t.size
    requires t.st.at < |t.st.vs| && LinesOk(t.lines, Content(t.st))
    ensures at <= |Content(t.st)| && n == 1 + Count(Content(t.st)[..at], NEWLINE)
  {
    hide Text.Represents, StoreInv, Content, Count;
    t.ChainIs(0);
    NextOffset(t.st, 0);
    t.SizeIs();
    ghost var text := Content(t.st);
    var from := t.lines.pos;
    n := t.lines.lineno;
    if at < from {
      CountUpTo(text, at, from);
      var diff := from - at;
      if diff < at {
        var c := LinesCount(t, at, diff);
        n := n - c;
      } else {
        var c := LinesCount(t, 0, at);
        assert text[0..0 + at] == text[..at];
        n := c + 1;
      }
    } else if at > from {
      CountUpTo(text, from, at);
      var c := LinesCount(t, from, at - from);
      n := n + c;
    }
  }

  /** Behind `asked` newlines from a position on line `n`, or at the end. */
  lemma Skipped(text: seq<byte>, pos: nat, n: nat, asked: nat, p: nat, skipped: nat)
    requires pos <= p <= |text| && n == 1 + Count(text[..pos], NEWLINE)
    requires skipped <= asked && Count(text[pos..p], NEWLINE) == skipped && (skipped < asked ==> p == |text|)
    ensures LinesOk(LineCache(p, n + skipped), text)
    ensures n + asked <= 1 + Count(text, NEWLINE) <==> skipped == asked
    ensures skipped < asked ==> n + skipped == 1 + Count(text, NEWLINE)
  {
    hide Count;
    CountUpTo(text, pos, p);
    CountUpTo(text, p, |text|);
    assert text[..|text|] == text;
    if p == |text| { CountNone(text, p, |text|); }
  }

  /** `text_pos_by_lineno`, with None for EPOS.  The result is always on the line asked for.
      It is the line's first byte unless the cache already was on that line, but not at its
      start; that happens when an earlier request past the last line left it at the end. */
  method PosByLineno(t: Text, lineno: nat) returns (p: Option<nat>)
    requires t.Valid()
    modifies t`lines
    ensures t.Valid() && t.doc.cur < |t.doc.nodes| && old(t.doc.cur) < |old(t.doc.nodes)|
    ensures lineno <= 1 ==> p == Some(0) && t.lines == old(t.lines)
    ensures var text := t.doc.Now().text;
            && (lineno >= 1 ==> (p == None <==> lineno > 1 + Count(text, NEWLINE)))
            && (lineno >= 1 && p.Some? ==> p.value <= |text| && Count(text[..p.value], NEWLINE) == lineno - 1)
            && (lineno >= 1 && p.Some? ==>
                  (StartsLine(text, p.value) <==>
                   lineno == 1 || lineno != old(t.lines.lineno) || StartsLine(text, old(t.lines.pos))))
            && (p == None ==> t.lines == LineCache(|text|, 1 + Count(text, NEWLINE)))
            && (lineno > 1 && p.Some? ==> t.lines == LineCache(p.value, lineno))
            && (lineno > 1 && StartsLine(text, old(t.lines.pos)) ==>
                  (StartsLine(text, t.lines.pos) <==> p.Some? || StartsLine(text, |text|)))
  {
    hide Text.Inv, WellFormed, Count, Content;
    ContentIs(t);
    ghost var text := t.doc.Now().text;
    CountNone(text, 0, 0);
    CountUpTo(text, 0, |text|);
    assert text[..0] == [] && text[..|text|] == text && text[0..0] == [];
    if lineno <= 1 { return Some(0); }
    if lineno > t.lines.lineno {
      var q, skipped := LinesSkipForward(t, t.lines.pos, lineno - t.lines.lineno);
      Skipped(text, t.lines.pos, t.lines.lineno, lineno - t.lines.lineno, q, skipped);
      SetLines(t, q, t.lines.lineno + skipped);
    } else if lineno < t.lines.lineno {
      var q, skipped := LinesSkipForward(t, 0, lineno - 1);
      Skipped(text, 0, 1, lineno - 1, q, skipped);
      SetLines(t, q, skipped + 1);
    } else {
      CountUpTo(text, t.lines.pos, |text|);
    }
    p := if t.lines.lineno == lineno then Some(t.lines.pos) else None;
  }

  /** Such a request: in "a\nb", asking for line 3 and then for line 2 yields the end of line 2. */
  method ParkedAtEnd(t: Text) returns (p: Option<nat>)
    requires t.Valid() && t.doc.cur < |t.doc.nodes| && t.doc.Now().text == [97, NEWLINE, 98]
    modifies t`lines
    ensures p == Some(3) && !StartsLine(t.doc.Now().text, 3)
  {
    hide Text.Inv, WellFormed, Count;
    ghost var text := t.doc.Now().text;
    CountOne(text, 0, 1);
    CountNone(text, 2, 3);
    CountNone(text, 0, 1);
    CountUpTo(text, 2, 3);
    assert text[..3] == text && text[..2] == text[0..2] && text[..1] == text[0..1] && text[..0] == text[0..0];
    CountNone(text, 0, 0);
    p := PosByLineno(t, 3);
    p := PosByLineno(t, 2);
  }
}
