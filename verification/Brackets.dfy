/** Matching brackets, with two scanners. */
module Brackets {
  import opened Bytes
  import opened UndoTree
  import opened Store
  import opened PieceChain
  import opened Iterators
  import opened Lines
  import opened Ranges

  const QUOTE: byte := 34

  // ----- what matches what -----

  /** Whether an odd number of double quotes precede position `i`; 0 when quotes are ignored. */
  function Level(s: seq<byte>, quotes: bool, i: nat): (l: nat)
    requires i <= |s|
    ensures l < 2
  {
    if quotes then Count(s[..i], QUOTE) % 2 else 0
  }

  /** How much position `i` adds to the nesting depth: only brackets on quote level `r` count. */
  function Weight(s: seq<byte>, a: byte, b: byte, quotes: bool, r: nat, i: nat): int
    requires i < |s|
  {
    if Level(s, quotes, i) != r then 0 else if s[i] == a then 1 else if s[i] == b then -1 else 0
  }

  /** The nesting depth before position `i`. */
  function Depth(s: seq<byte>, a: byte, b: byte, quotes: bool, r: nat, i: nat): int
    requires i <= |s|
  {
    if i == 0 then 0 else Depth(s, a, b, quotes, r, i - 1) + Weight(s, a, b, quotes, r, i - 1)
  }

  /** `a` at `p` and `b` at `q` belong together.  If the two differ, everything between them is
      nested deeper; if not, there is no further `a` on the same quote level between them. */
  ghost predicate Paired(s: seq<byte>, a: byte, b: byte, quotes: bool, p: nat, q: nat) {
    && p < q < |s| && s[p] == a && s[q] == b && Level(s, quotes, p) == Level(s, quotes, q)
    && var r := Level(s, quotes, p);
       if a == b then
         forall i :: p < i < q && s[i] == a ==> Level(s, quotes, i) != r
       else
         && Depth(s, a, b, quotes, r, q + 1) == Depth(s, a, b, quotes, r, p)
         && forall i :: p < i <= q ==> Depth(s, a, b, quotes, r, i) > Depth(s, a, b, quotes, r, p)
  }

  lemma LevelStep(s: seq<byte>, quotes: bool, i: nat)
    requires i < |s|
    ensures Level(s, quotes, i + 1) == if quotes && s[i] == QUOTE then 1 - Level(s, quotes, i) else Level(s, quotes, i)
  {
    assert s[..i + 1] == s[..i] + [s[i]];
    CountConcat(s[..i], [s[i]], QUOTE);
  }

  /** A bracket has at most one partner, on either side. */
  lemma PartnerUnique(s: seq<byte>, a: byte, b: byte, quotes: bool, p: nat, q: nat, p': nat, q': nat)
    requires Paired(s, a, b, quotes, p, q) && Paired(s, a, b, quotes, p', q')
    ensures p == p' <==> q == q'
  {
  }

  // ----- the scan of match_symbol -----

  /** Quotes matter unless they are what is being matched. */
  predicate Quotes(current: byte) {
    current != QUOTE
  }

  /** What the forward scan knows after looking at everything up to position `n`. */
  ghost predicate Ahead(s: seq<byte>, a: byte, b: byte, p: nat, n: nat, count: int, instring: bool) {
    && p < n <= |s| && s[p] == a
    && var quotes := Quotes(a); var r := Level(s, quotes, p);
       && (instring <==> Level(s, quotes, n) != r)
       && if a == b then
            count == 1 && forall i :: p < i < n && s[i] == a ==> Level(s, quotes, i) != r
          else
            && count == Depth(s, a, b, quotes, r, n) - Depth(s, a, b, quotes, r, p)
            && forall i :: p < i <= n ==> Depth(s, a, b, quotes, r, i) > Depth(s, a, b, quotes, r, p)
  }

  /** The two characters of a search: the same one, or two that are not quotes. */
  predicate Searchable(a: byte, b: byte) {
    a == b || (a != QUOTE && b != QUOTE)
  }

  lemma AheadStart(s: seq<byte>, a: byte, b: byte, p: nat)
    requires p < |s| && s[p] == a && Searchable(a, b)
    ensures Ahead(s, a, b, p, p + 1, 1, false)
  {
    LevelStep(s, Quotes(a), p);
  }

  /** One round of the forward scan. */
  lemma AheadStep(s: seq<byte>, a: byte, b: byte, p: nat, n: nat, count: int, instring: bool)
    requires Ahead(s, a, b, p, n, count, instring) && n < |s| && Searchable(a, b)
    ensures var c := s[n]; var in' := if c != a && c == QUOTE then !instring else instring;
            var less := if c == b then count - 1 else count;
            && (!in' && c == b && less == 0 <==> Paired(s, a, b, Quotes(a), p, n))
            && (Paired(s, a, b, Quotes(a), p, n) ||
                Ahead(s, a, b, p, n + 1, if in' then count else if c == a then less + 1 else less, in'))
  {
    LevelStep(s, Quotes(a), n);
  }

  /** What has been scanned contains no partner. */
  lemma AheadNone(s: seq<byte>, a: byte, b: byte, p: nat, n: nat, count: int, instring: bool, q: nat)
    requires Ahead(s, a, b, p, n, count, instring) && q < n
    ensures !Paired(s, a, b, Quotes(a), p, q)
  {
  }

  /** What the backward scan knows after looking at everything down to position `n`. */
  ghost predicate Below(s: seq<byte>, a: byte, b: byte, q: nat, n: nat, count: int, instring: bool) {
    && n <= q < |s| && s[q] == b
    && var quotes := Quotes(b); var r := Level(s, quotes, q);
       && (instring <==> Level(s, quotes, n) != r)
       && if a == b then
            count == 1 && forall i :: n <= i < q && s[i] == a ==> Level(s, quotes, i) != r
          else
            && count == Depth(s, a, b, quotes, r, n) - Depth(s, a, b, quotes, r, q + 1)
            && forall i :: n <= i <= q ==> Depth(s, a, b, quotes, r, i) > Depth(s, a, b, quotes, r, q + 1)
  }

  lemma BelowStart(s: seq<byte>, a: byte, b: byte, q: nat)
    requires q < |s| && s[q] == b && Searchable(a, b)
    ensures Below(s, a, b, q, q, 1, false)
  {
  }

  /** One round of the backward scan. */
  lemma BelowStep(s: seq<byte>, a: byte, b: byte, q: nat, n: nat, count: int, instring: bool)
    requires Below(s, a, b, q, n, count, instring) && n > 0 && Searchable(a, b)
    ensures var c := s[n - 1]; var in' := if c != b && c == QUOTE then !instring else instring;
            var less := if c == a then count - 1 else count;
            && (!in' && c == a && less == 0 <==> Paired(s, a, b, Quotes(b), n - 1, q))
            && (Paired(s, a, b, Quotes(b), n - 1, q) ||
                Below(s, a, b, q, n - 1, if in' then count else if c == b then less + 1 else less, in'))
  {
    LevelStep(s, Quotes(b), n - 1);
  }

  lemma BelowNone(s: seq<byte>, a: byte, b: byte, q: nat, n: nat, count: int, instring: bool, p: nat)
    requires Below(s, a, b, q, n, count, instring) && n <= p
    ensures !Paired(s, a, b, Quotes(b), p, q)
  {
  }

  /** The forward half of `match_symbol`. */
  method SearchForward(t: Text, it: Iterator, pos: nat, current: byte, search: byte, limits: Filerange)
    returns (m: nat)
    requires t.Represents() && StoreInv(t.st) && it !in t.repr && it.Settled(t.st) && it.pos == pos
    requires pos < |Content(t.st)| == t.size && Content(t.st)[pos] == current
    requires current != NUL && search != NUL && Searchable(current, search)
    modifies it
    ensures m != pos ==> pos < m < limits.end && Paired(Content(t.st), current, search, Quotes(current), pos, m)
    ensures m == pos ==> forall q :: pos < q < limits.end ==>
            !Paired(Content(t.st), current, search, Quotes(current), pos, q)
  {
    hide Text.Represents, StoreInv, Content, Ahead, Paired, Searchable, Quotes;
    ghost var text := Content(t.st);
    var count, instring := 1, false;
    AheadStart(text, current, search, pos);
    var c := it.ByteNext(t);
    while c.Some?
      invariant c.Some? ==> it.Settled(t.st) && pos < it.pos <= t.size && c.value == Peek(text, it.pos)
      invariant c.Some? ==> Ahead(text, current, search, pos, it.pos, count, instring)
      invariant c.None? ==> Ahead(text, current, search, pos, |text|, count, instring)
      decreases if c.Some? then t.size + 1 - it.pos else 0
    {
      if it.pos >= limits.end { break; }
      ghost var n, count0, instring0 := it.pos, count, instring;
      if c.value != current && c.value == QUOTE { instring := !instring; }
      if !instring {
        if c.value == search {
          count := count - 1;
          if count == 0 {
            AheadStep(text, current, search, pos, n, count0, instring0);
            return it.pos;
          }
        }
        if c.value == current { count := count + 1; }
      }
      if n < |text| { AheadStep(text, current, search, pos, n, count0, instring0); }
      c := it.ByteNext(t);
    }
    forall q | pos < q < limits.end
      ensures !Paired(text, current, search, Quotes(current), pos, q)
    {
      PairedInside(text, current, search, Quotes(current), pos, q);
      var n := if c.Some? then it.pos else |text|;
      if q < n { AheadNone(text, current, search, pos, n, count, instring, q); }
    }
    m := pos;
  }

  lemma PairedInside(s: seq<byte>, a: byte, b: byte, quotes: bool, p: nat, q: nat)
    ensures Paired(s, a, b, quotes, p, q) ==> p < q < |s|
  {
  }

  /** The backward half. */
  method SearchBackward(t: Text, it: Iterator, pos: nat, current: byte, search: byte, limits: Filerange)
    returns (m: nat)
    requires t.Represents() && StoreInv(t.st) && it !in t.repr && it.Settled(t.st) && it.pos == pos
    requires pos < |Content(t.st)| == t.size && Content(t.st)[pos] == current
    requires current != NUL && search != NUL && Searchable(search, current)
    modifies it
    ensures m != pos ==> limits.start <= m < pos && Paired(Content(t.st), search, current, Quotes(current), m, pos)
    ensures m == pos ==> forall p :: limits.start <= p < pos ==>
            !Paired(Content(t.st), search, current, Quotes(current), p, pos)
  {
    hide Text.Represents, StoreInv, Content, Below, Paired, Searchable, Quotes;
    ghost var text := Content(t.st);
    var count, instring := 1, false;
    BelowStart(text, search, current, pos);
    var c := it.BytePrev(t);
    while c.Some?
      invariant c.Some? ==> it.Settled(t.st) && it.pos < pos && c.value == Peek(text, it.pos)
      invariant Below(text, search, current, pos, if c.Some? then it.pos + 1 else 0, count, instring)
      decreases if c.Some? then it.pos + 1 else 0
    {
      if it.pos < limits.start { break; }
      ghost var n, count0, instring0 := it.pos + 1, count, instring;
      if c.value != current && c.value == QUOTE { instring := !instring; }
      if !instring {
        if c.value == search {
          count := count - 1;
          if count == 0 {
            BelowStep(text, search, current, pos, n, count0, instring0);
            return it.pos;
          }
        }
        if c.value == current { count := count + 1; }
      }
      BelowStep(text, search, current, pos, n, count0, instring0);
      c := it.BytePrev(t);
    }
    forall p | limits.start <= p < pos
      ensures !Paired(text, search, current, Quotes(current), p, pos)
    {
      BelowNone(text, search, current, pos, if c.Some? then it.pos + 1 else 0, count, instring, p);
    }
    m := pos;
  }

  /** `match_symbol`. */
  method MatchSymbol(t: Text, pos: nat, search: byte, direction: int, limits: Filerange) returns (m: nat)
    requires t.Represents() && StoreInv(t.st) && t.st.at < |t.st.vs| && pos < |Content(t.st)| == t.size
    requires Content(t.st)[pos] != NUL && search != NUL && Searchable(Content(t.st)[pos], search)
    ensures var text, c := Content(t.st), Content(t.st)[pos];
            if direction >= 0 then
              && (m != pos ==> pos < m < limits.end && Paired(text, c, search, Quotes(c), pos, m))
              && (m == pos ==> forall q :: pos < q < limits.end ==> !Paired(text, c, search, Quotes(c), pos, q))
            else
              && (m != pos ==> limits.start <= m < pos && Paired(text, search, c, Quotes(c), m, pos))
              && (m == pos ==> forall p :: limits.start <= p < pos ==> !Paired(text, search, c, Quotes(c), p, pos))
  {
    hide Text.Represents, StoreInv, Content, Paired, Quotes;
    var it := new Iterator(t, pos);
    var current := it.ByteGet(t);
    if current == None { return pos; }
    if direction >= 0 {
      m := SearchForward(t, it, pos, current.value, search, limits);
    } else {
      m := SearchBackward(t, it, pos, current.value, search, limits);
    }
  }

  // ----- text_bracket_match_symbol -----

  /** What a character is to bracket matching. */
  datatype Side = Opens(close: byte) | Closes(open: byte) | Both | Neither

  /** The cases of `switch (current)`: `(){}[]<>`, and the three kinds of quotes. */
  function SideOf(c: byte): Side {
    if c == 40 then Opens(41) else if c == 41 then Closes(40)
    else if c == 123 then Opens(125) else if c == 125 then Closes(123)
    else if c == 91 then Opens(93) else if c == 93 then Closes(91)
    else if c == 60 then Opens(62) else if c == 62 then Closes(60)
    else if c == QUOTE || c == 96 || c == 39 then Both
    else Neither
  }

  lemma SidesFit(c: byte)
    ensures SideOf(c).Opens? ==> SideOf(SideOf(c).close) == Closes(c) && SideOf(c).close != NUL
    ensures SideOf(c).Closes? ==> SideOf(SideOf(c).open) == Opens(c) && SideOf(c).open != NUL
    ensures !SideOf(c).Neither? ==> c != NUL
    ensures c == QUOTE ==> SideOf(c) == Both
  {
  }

  /** The partner of `a` at `p` behind it and before `end`; else `p`. */
  ghost function PartnerAfter(s: seq<byte>, a: byte, b: byte, p: nat, end: nat): nat {
    if exists q: nat :: q < end && Paired(s, a, b, Quotes(a), p, q) then
      var q: nat :| q < end && Paired(s, a, b, Quotes(a), p, q); q
    else p
  }

  /** The partner of `b` at `q` before it and not before `start`; else `q`. */
  ghost function PartnerBefore(s: seq<byte>, a: byte, b: byte, q: nat, start: nat): nat {
    if exists p: nat :: start <= p && Paired(s, a, b, Quotes(b), p, q) then
      var p: nat :| start <= p && Paired(s, a, b, Quotes(b), p, q); p
    else q
  }

  lemma AfterIs(s: seq<byte>, a: byte, b: byte, p: nat, end: nat, m: nat)
    requires m != p ==> m < end && Paired(s, a, b, Quotes(a), p, m)
    requires m == p ==> forall q :: p < q < end ==> !Paired(s, a, b, Quotes(a), p, q)
    ensures m == PartnerAfter(s, a, b, p, end)
  {
    var f := PartnerAfter(s, a, b, p, end);
    if f != p && m != p { PartnerUnique(s, a, b, Quotes(a), p, f, p, m); }
  }

  lemma BeforeIs(s: seq<byte>, a: byte, b: byte, q: nat, start: nat, m: nat)
    requires m != q ==> start <= m && Paired(s, a, b, Quotes(b), m, q)
    requires m == q ==> forall p :: start <= p < q ==> !Paired(s, a, b, Quotes(b), p, q)
    ensures m == PartnerBefore(s, a, b, q, start)
  {
    var f := PartnerBefore(s, a, b, q, start);
    if f != q && m != q { PartnerUnique(s, a, b, Quotes(b), f, q, m, q); }
  }

  function LineOf(s: seq<byte>, pos: nat): nat {
    1 + Count(s[..Min(pos, |s|)], NEWLINE)
  }

  /** The characters that make a quote before them a closing one, with the final NUL. */
  const SPECIAL: seq<byte> := [32, 9, NEWLINE, 41, 125, 93, 62, 46, 44, 58, 59, NUL]

  /** A quote matches the next or the previous one: the one on the same line, or the one its
      successor suggests. */
  ghost function QuoteMatch(s: seq<byte>, pos: nat, limits: Filerange): nat
    requires pos < |s|
  {
    var fw, bw := PartnerAfter(s, s[pos], s[pos], pos, limits.end), PartnerBefore(s, s[pos], s[pos], pos, limits.start);
    if fw == pos then bw
    else if bw == pos then fw
    else if LineOf(s, pos) != LineOf(s, fw) then bw
    else if LineOf(s, pos) != LineOf(s, bw) then fw
    else if Peek(s, pos + 1) in SPECIAL then bw
    else fw
  }

  /** The position matching `pos`, or `pos` itself. */
  ghost function MatchOf(s: seq<byte>, pos: nat, symbols: Option<seq<byte>>, limits: Filerange): nat {
    if pos >= |s| || (symbols.Some? && s[pos] !in symbols.value) then pos
    else match SideOf(s[pos])
      case Opens(close) => PartnerAfter(s, s[pos], close, pos, limits.end)
      case Closes(open) => PartnerBefore(s, open, s[pos], pos, limits.start)
      case Both => QuoteMatch(s, pos, limits)
      case Neither => pos
  }

  /** The pairs `()`, `{}`, `[]` and `<>`. */
  const PAIRS: seq<(byte, byte)> := [(40, 41), (123, 125), (91, 93), (60, 62)]

  /** Double quotes, backticks and apostrophes. */
  const QUOTES: seq<byte> := [34, 96, 39]

  /** `m` is the partner behind `pos`, or `pos` itself if there is none before the limit. */
  ghost predicate IsCloser(s: seq<byte>, a: byte, b: byte, pos: nat, limits: Filerange, m: nat) {
    if m == pos then forall q :: pos < q < limits.end ==> !Paired(s, a, b, true, pos, q)
    else pos < m < limits.end && Paired(s, a, b, true, pos, m)
  }

  /** `m` is the partner before `pos`, or `pos` itself if there is none from the limit on. */
  ghost predicate IsOpener(s: seq<byte>, a: byte, b: byte, pos: nat, limits: Filerange, m: nat) {
    if m == pos then forall p :: limits.start <= p < pos ==> !Paired(s, a, b, true, p, pos)
    else limits.start <= m < pos && Paired(s, a, b, true, m, pos)
  }

  /** What matches `pos`, as its user sees it.  A character matches only if it is one of the
      symbols asked for; a bracket matches its partner, a quote what `IsQuoteMatch` says. */
  ghost predicate IsMatch(s: seq<byte>, pos: nat, symbols: Option<seq<byte>>, limits: Filerange, m: nat) {
    if pos < |s| && (symbols.None? || s[pos] in symbols.value) then
      && (s[pos] in QUOTES ==> IsQuoteMatch(s, pos, limits, m))
      && (forall k :: 0 <= k < |PAIRS| && s[pos] == PAIRS[k].0 ==>
            IsCloser(s, PAIRS[k].0, PAIRS[k].1, pos, limits, m))
      && (forall k :: 0 <= k < |PAIRS| && s[pos] == PAIRS[k].1 ==>
            IsOpener(s, PAIRS[k].0, PAIRS[k].1, pos, limits, m))
      && (s[pos] !in QUOTES && (forall k :: 0 <= k < |PAIRS| ==> s[pos] != PAIRS[k].0 && s[pos] != PAIRS[k].1) ==>
            m == pos)
    else m == pos
  }

  /** Which brackets and quotes there are. */
  lemma SidesAre(c: byte)
    ensures c in QUOTES <==> SideOf(c) == Both
    ensures forall k :: 0 <= k < |PAIRS| ==>
              && (c == PAIRS[k].0 <==> SideOf(c) == Opens(PAIRS[k].1))
              && (c == PAIRS[k].1 <==> SideOf(c) == Closes(PAIRS[k].0))
    ensures SideOf(c).Opens? ==> exists k :: 0 <= k < |PAIRS| && PAIRS[k] == (c, SideOf(c).close)
    ensures SideOf(c).Closes? ==> exists k :: 0 <= k < |PAIRS| && PAIRS[k] == (SideOf(c).open, c)
  {
    assert PAIRS[0] == (40, 41) && PAIRS[1] == (123, 125) && PAIRS[2] == (91, 93) && PAIRS[3] == (60, 62);
  }

  lemma MatchMeans(s: seq<byte>, pos: nat, symbols: Option<seq<byte>>, limits: Filerange)
    ensures IsMatch(s, pos, symbols, limits, MatchOf(s, pos, symbols, limits))
  {
    hide Paired, SideOf, IsQuoteMatch, QuoteMatch, LineOf, PartnerAfter, PartnerBefore;
    if pos < |s| && (symbols.None? || s[pos] in symbols.value) {
      var c := s[pos];
      SidesFit(c);
      SidesAre(c);
      if SideOf(c) == Both { QuoteMatchMeans(s, pos, limits); }
      if SideOf(c).Opens? { AfterMeans(s, c, SideOf(c).close, pos, limits); }
      if SideOf(c).Closes? { BeforeMeans(s, SideOf(c).open, c, pos, limits); }
    }
  }

  lemma AfterMeans(s: seq<byte>, a: byte, b: byte, pos: nat, limits: Filerange)
    requires a != QUOTE
    ensures IsCloser(s, a, b, pos, limits, PartnerAfter(s, a, b, pos, limits.end))
  {
    hide Level, Depth;
    assert Quotes(a) == true;
    var f := PartnerAfter(s, a, b, pos, limits.end);
    forall q: nat | q < limits.end && Paired(s, a, b, true, pos, q) ensures f != pos {
      assert q < limits.end && Paired(s, a, b, Quotes(a), pos, q);
    }
  }

  lemma BeforeMeans(s: seq<byte>, a: byte, b: byte, pos: nat, limits: Filerange)
    requires b != QUOTE
    ensures IsOpener(s, a, b, pos, limits, PartnerBefore(s, a, b, pos, limits.start))
  {
    hide Level, Depth;
    assert Quotes(b) == true;
    var f := PartnerBefore(s, a, b, pos, limits.start);
    forall p: nat | limits.start <= p && Paired(s, a, b, true, p, pos) ensures f != pos {
      assert limits.start <= p && Paired(s, a, b, Quotes(b), p, pos);
    }
  }

  /** `text_bracket_match_symbol`; without `symbols`, `text_bracket_match`. */
  method BracketMatchSymbol(t: Text, pos: nat, symbols: Option<seq<byte>>, limits: Filerange) returns (m: nat)
    requires t.Valid()
    modifies t`lines
    ensures t.Valid() && t.doc.cur < |t.doc.nodes| && m == MatchOf(t.doc.Now().text, pos, symbols, limits)
    ensures IsMatch(t.doc.Now().text, pos, symbols, limits, m)
  {
    hide Text.Inv, Text.Represents, StoreInv, WellFormed, Content, Paired, Quotes, PartnerAfter, PartnerBefore,
         QuoteMatch, Peek, LinesOk, IsMatch;
    ContentIs(t);
    ghost var s := t.doc.Now().text;
    MatchMeans(s, pos, symbols, limits);
    var it := new Iterator(t, pos);
    var current := it.ByteGet(t);
    if current == None { return pos; }
    PeekIs(s, pos);
    if pos >= t.size { return pos; }
    if symbols.Some? && current.value !in symbols.value { return pos; }
    var c := current.value;
    SidesFit(c);
    match SideOf(c) {
      case Opens(close) =>
        m := MatchSymbol(t, pos, close, 1, limits);
        AfterIs(s, c, close, pos, limits.end, m);
      case Closes(open) =>
        m := MatchSymbol(t, pos, open, -1, limits);
        BeforeIs(s, open, c, pos, limits.start, m);
      case Both =>
        m := MatchQuote(t, it, pos, limits);
      case Neither =>
        m := pos;
    }
  }

  lemma PeekIs(s: seq<byte>, pos: nat)
    ensures pos < |s| ==> Peek(s, pos) == s[pos]
    ensures pos >= |s| ==> Peek(s, pos) == NUL && SideOf(NUL) == Neither
  {
  }

  /** The branch for quotes. */
  method MatchQuote(t: Text, it: Iterator, pos: nat, limits: Filerange) returns (m: nat)
    requires t.Valid() && t.doc.cur < |t.doc.nodes| && pos < |t.doc.Now().text| && SideOf(t.doc.Now().text[pos]) == Both
    requires it.Settled(t.st) && it.pos == pos && it !in t.repr
    modifies t`lines, it
    ensures t.Valid() && t.doc.cur < |t.doc.nodes| && m == QuoteMatch(t.doc.Now().text, pos, limits)
    ensures IsQuoteMatch(t.doc.Now().text, pos, limits, m)
  {
    hide Text.Inv, Text.Represents, StoreInv, WellFormed, Content, Quotes, Peek, QuoteMatch, IsQuoteMatch,
         PartnerAfter, PartnerBefore, SideOf, Count, LineOf,
         LinesOk;
    ContentIs(t);
    ghost var s := t.doc.Now().text;
    var fw, bw := BothWays(t, pos, limits);
    QuoteMatchIs(s, pos, limits, fw, bw);
    QuoteMatchMeans(s, pos, limits);
    if fw == pos { return bw; }
    if bw == pos { return fw; }
    var line, lineFw, lineBw := ThreeLines(t, pos, fw, bw);
    ContentIs(t);
    if line != lineFw { return bw; }
    if line != lineBw { return fw; }
    var direction := QuoteDirection(t, it);
    m := if direction >= 0 then fw else bw;
  }

  method BothWays(t: Text, pos: nat, limits: Filerange) returns (fw: nat, bw: nat)
    requires t.Represents() && StoreInv(t.st) && t.st.at < |t.st.vs| && pos < |Content(t.st)| == t.size
    requires SideOf(Content(t.st)[pos]) == Both
    ensures var s := Content(t.st);
            && fw == PartnerAfter(s, s[pos], s[pos], pos, limits.end)
            && bw == PartnerBefore(s, s[pos], s[pos], pos, limits.start)
  {
    hide Text.Represents, StoreInv, Content, Paired, Quotes, PartnerAfter, PartnerBefore, Peek;
    ghost var s := Content(t.st);
    PeekIs(s, pos);
    SidesFit(s[pos]);
    var it := new Iterator(t, pos);
    var b := it.ByteGet(t);
    var c := if b.Some? then b.value else NUL;
    fw := MatchSymbol(t, pos, c, 1, limits);
    bw := MatchSymbol(t, pos, c, -1, limits);
    AfterIs(s, c, c, pos, limits.end, fw);
    BeforeIs(s, c, c, pos, limits.start, bw);
  }

  /** What a quote matches, as its user sees it: itself exactly if it has no partner within the
      limits, else a partner.  One on the same line is preferred to one on another line; if both
      or neither are on it, the next character decides, or the one before is taken. */
  ghost predicate IsQuoteMatch(s: seq<byte>, pos: nat, limits: Filerange, m: nat)
    requires pos < |s|
  {
    && (m == pos <==> forall q: nat :: !QuotePartner(s, pos, limits, q))
    && (m != pos ==> QuotePartner(s, pos, limits, m))
    && (forall q: nat :: QuotePartner(s, pos, limits, q) && SameLine(s, q, pos) ==> SameLine(s, m, pos))
    && (forall p: nat, q: nat :: QuotePartner(s, pos, limits, p) && QuotePartner(s, pos, limits, q) && p < pos < q ==>
          if SameLine(s, p, pos) && SameLine(s, q, pos) then m == if Peek(s, pos + 1) in SPECIAL then p else q
          else !SameLine(s, q, pos) ==> m == p)
  }

  /** No newline separates the two positions. */
  predicate SameLine(s: seq<byte>, p: nat, q: nat) {
    forall i :: Min(p, q) <= i < Max(p, q) && i < |s| ==> s[i] != NEWLINE
  }

  lemma SameLineIs(s: seq<byte>, p: nat, q: nat)
    ensures SameLine(s, p, q) <==> LineOf(s, p) == LineOf(s, q)
  {
    hide Count;
    var a, b := Min(Min(p, q), |s|), Min(Max(p, q), |s|);
    CountSplit(s, 0, a, b);
    assert s[0..a] == s[..a] && s[0..b] == s[..b];
    CountAbsent(s[a..b], NEWLINE);
    if NEWLINE in s[a..b] {
      var k :| 0 <= k < |s[a..b]| && s[a..b][k] == NEWLINE;
      assert s[a + k] == NEWLINE;
    } else {
      forall i | a <= i < b ensures s[i] != NEWLINE { assert s[i] == s[a..b][i - a]; }
    }
  }

  /** The next or previous quote of its kind, on the same level of strings and within the limits. */
  ghost predicate QuotePartner(s: seq<byte>, pos: nat, limits: Filerange, q: nat)
    requires pos < |s|
  {
    || (q < limits.end && Paired(s, s[pos], s[pos], Quotes(s[pos]), pos, q))
    || (limits.start <= q && Paired(s, s[pos], s[pos], Quotes(s[pos]), q, pos))
  }

  lemma QuoteMatchMeans(s: seq<byte>, pos: nat, limits: Filerange)
    requires pos < |s|
    ensures IsQuoteMatch(s, pos, limits, QuoteMatch(s, pos, limits))
  {
    hide Paired, LineOf, Peek, SameLine;
    var c := s[pos];
    var fw, bw := PartnerAfter(s, c, c, pos, limits.end), PartnerBefore(s, c, c, pos, limits.start);
    PartnersAre(s, pos, limits, fw, bw);
    assert fw != pos ==> QuotePartner(s, pos, limits, fw);
    assert bw != pos ==> QuotePartner(s, pos, limits, bw);
    SameLineIs(s, fw, pos);
    SameLineIs(s, bw, pos);
    SameLineIs(s, pos, pos);
  }

  lemma PartnersAre(s: seq<byte>, pos: nat, limits: Filerange, fw: nat, bw: nat)
    requires pos < |s| && fw == PartnerAfter(s, s[pos], s[pos], pos, limits.end)
    requires bw == PartnerBefore(s, s[pos], s[pos], pos, limits.start)
    ensures bw <= pos <= fw
    ensures forall q: nat :: QuotePartner(s, pos, limits, q) <==> q != pos && (q == fw || q == bw)
  {
    hide Paired;
    var c := s[pos];
    forall q: nat ensures QuotePartner(s, pos, limits, q) <==> q != pos && (q == fw || q == bw) {
      if q < limits.end && Paired(s, c, c, Quotes(c), pos, q) {
        PairedEnds(s, c, c, Quotes(c), pos, q);
        AfterIs(s, c, c, pos, limits.end, q);
      }
      if limits.start <= q && Paired(s, c, c, Quotes(c), q, pos) {
        PairedEnds(s, c, c, Quotes(c), q, pos);
        BeforeIs(s, c, c, pos, limits.start, q);
      }
    }
    if fw != pos { PairedEnds(s, c, c, Quotes(c), pos, fw); }
    if bw != pos { PairedEnds(s, c, c, Quotes(c), bw, pos); }
  }

  lemma QuoteMatchIs(s: seq<byte>, pos: nat, limits: Filerange, fw: nat, bw: nat)
    requires pos < |s| && fw == PartnerAfter(s, s[pos], s[pos], pos, limits.end)
    requires bw == PartnerBefore(s, s[pos], s[pos], pos, limits.start)
    ensures QuoteMatch(s, pos, limits) ==
            if fw == pos then bw
            else if bw == pos then fw
            else if LineOf(s, pos) != LineOf(s, fw) then bw
            else if LineOf(s, pos) != LineOf(s, bw) then fw
            else if Peek(s, pos + 1) in SPECIAL then bw
            else fw
  {
  }

  method ThreeLines(t: Text, pos: nat, fw: nat, bw: nat) returns (line: nat, lineFw: nat, lineBw: nat)
    requires t.Valid()
    modifies t`lines
    ensures t.Valid() && t.doc.cur < |t.doc.nodes| && t.lines.pos <= |t.doc.Now().text|
    ensures var s := t.doc.Now().text;
            line == LineOf(s, pos) && lineFw == LineOf(s, fw) && lineBw == LineOf(s, bw)
  {
    hide Text.Inv, WellFormed, Count;
    line := LinenoByPos(t, pos);
    lineFw := LinenoByPos(t, fw);
    lineBw := LinenoByPos(t, bw);
  }

  /** A quote followed by white space or punctuation closes a string. */
  method QuoteDirection(t: Text, it: Iterator) returns (direction: int)
    requires t.Represents() && StoreInv(t.st) && it !in t.repr && it.Settled(t.st) && it.pos < t.size
    modifies it
    ensures direction == if Peek(Content(t.st), old(it.pos) + 1) in SPECIAL then -1 else 1
  {
    hide Text.Represents, StoreInv, Content, Peek;
    direction := 1;
    var next := it.ByteNext(t);
    if next.Some? && next.value in SPECIAL { direction := -1; }
  }

  /** For brackets, matching is an involution: the match of the match is where we started,
      whatever strings lie in between. */
  lemma MatchInvolution(s: seq<byte>, p: nat, limits: Filerange)
    requires p < |s| && (SideOf(s[p]).Opens? || SideOf(s[p]).Closes?) && limits.Has(p)
    ensures var q := MatchOf(s, p, None, limits);
            q != p ==> limits.Has(q) && MatchOf(s, q, None, limits) == p
  {
    hide Paired;
    SidesFit(s[p]);
    var q := MatchOf(s, p, None, limits);
    if q != p {
      match SideOf(s[p])
      case Opens(close) =>
        PairedInside(s, s[p], close, true, p, q);
        PairedEnds(s, s[p], close, true, p, q);
        BeforeIs(s, s[p], close, q, limits.start, p);
      case Closes(open) =>
        PairedInside(s, open, s[p], true, q, p);
        PairedEnds(s, open, s[p], true, q, p);
        AfterIs(s, open, s[p], q, limits.end, p);
    }
  }

  lemma PairedEnds(s: seq<byte>, a: byte, b: byte, quotes: bool, p: nat, q: nat)
    requires Paired(s, a, b, quotes, p, q)
    ensures p < q < |s| && s[p] == a && s[q] == b
  {
  }

  // ----- text_object_bracket -----

  /** 1 if an opening bracket stands at `pos`. */
  function OpenHere(s: seq<byte>, a: byte, pos: nat): nat {
    if pos < |s| && s[pos] == a then 1 else 0
  }

  /** The depth outside the innermost pair around `pos`, if there is one. */
  function Outside(s: seq<byte>, a: byte, b: byte, pos: nat): int
    requires pos <= |s|
  {
    Depth(s, a, b, false, 0, pos) + OpenHere(s, a, pos) - 1
  }

  /** What is known once everything from `n` to `pos` has been scanned to the left. */
  ghost predicate Leftward(s: seq<byte>, a: byte, b: byte, pos: nat, n: nat, owed: int) {
    && n <= pos <= |s| && owed == Depth(s, a, b, false, 0, n) - Outside(s, a, b, pos)
    && forall i :: n <= i <= pos ==> Depth(s, a, b, false, 0, i) > Outside(s, a, b, pos)
  }

  /** What is known once everything from `pos` to before `n` has been scanned to the right. */
  ghost predicate Rightward(s: seq<byte>, a: byte, b: byte, pos: nat, n: nat, closed: int) {
    && pos < n <= |s| && closed == Depth(s, a, b, false, 0, n) - Outside(s, a, b, pos)
    && forall i :: pos < i <= n ==> Depth(s, a, b, false, 0, i) > Outside(s, a, b, pos)
  }

  /** `o` opens the innermost pair around `pos`, if it is ever closed. */
  ghost predicate OpensAround(s: seq<byte>, a: byte, b: byte, pos: nat, o: nat) {
    && o <= pos <= |s| && o < |s| && s[o] == a && Depth(s, a, b, false, 0, o) == Outside(s, a, b, pos)
    && forall i :: o < i <= pos ==> Depth(s, a, b, false, 0, i) > Outside(s, a, b, pos)
  }

  ghost predicate ClosesAround(s: seq<byte>, a: byte, b: byte, pos: nat, e: nat) {
    && pos <= e < |s| && s[e] == b && Depth(s, a, b, false, 0, e + 1) == Outside(s, a, b, pos)
    && forall i :: pos < i <= e ==> Depth(s, a, b, false, 0, i) > Outside(s, a, b, pos)
  }

  /** One round of the scan to the left; `first` at `pos` itself. */
  lemma LeftwardStep(s: seq<byte>, a: byte, b: byte, pos: nat, n: nat, owed: int)
    requires a != b && n <= pos <= |s|
    requires if n == pos then owed == 1 else Leftward(s, a, b, pos, n + 1, owed)
    ensures if n < |s| && s[n] == a && owed == 1 then OpensAround(s, a, b, pos, n)
            else Leftward(s, a, b, pos, n,
                          if n < |s| && s[n] == a then owed - 1
                          else if n < |s| && s[n] == b && n != pos then owed + 1 else owed)
  {
  }

  lemma RightwardStep(s: seq<byte>, a: byte, b: byte, pos: nat, n: nat, closed: int)
    requires a != b && pos <= n < |s|
    requires if n == pos then closed == 1 else Rightward(s, a, b, pos, n, closed)
    ensures if s[n] == b && closed == 1 then ClosesAround(s, a, b, pos, n)
            else Rightward(s, a, b, pos, n + 1,
                           if s[n] == b then closed - 1 else if s[n] == a && n != pos then closed + 1 else closed)
  {
  }

  /** A pair of brackets around `pos`, quotes ignored. */
  ghost predicate Encloses(s: seq<byte>, a: byte, b: byte, pos: nat, o: nat, e: nat) {
    Paired(s, a, b, false, o, e) && o <= pos <= e
  }

  /** Both scans together find a pair, and it is the innermost one. */
  lemma FoundPair(s: seq<byte>, a: byte, b: byte, pos: nat, o: nat, e: nat)
    requires a != b && OpensAround(s, a, b, pos, o) && ClosesAround(s, a, b, pos, e)
    ensures Encloses(s, a, b, pos, o, e)
    ensures forall o': nat, e': nat :: Encloses(s, a, b, pos, o', e') ==> o' <= o && e <= e'
  {
  }

  lemma NoPairLeft(s: seq<byte>, a: byte, b: byte, pos: nat, owed: int, o: nat, e: nat)
    requires a != b && Leftward(s, a, b, pos, 0, owed)
    ensures !Encloses(s, a, b, pos, o, e)
  {
  }

  lemma NoPairRight(s: seq<byte>, a: byte, b: byte, pos: nat, closed: int, o: nat, e: nat)
    requires a != b && (pos >= |s| || Rightward(s, a, b, pos, |s|, closed))
    ensures !Encloses(s, a, b, pos, o, e)
  {
  }

  /** What `text_object_bracket` finds to the left: the bracket that opens the innermost pair
      around `pos`; for a quote, the last one up to `pos`. */
  ghost predicate OpeningIs(s: seq<byte>, a: byte, b: byte, pos: nat, o: Option<nat>) {
    if a != b then
      if o.Some? then OpensAround(s, a, b, pos, o.value)
      else forall o': nat, e: nat :: !Encloses(s, a, b, pos, o', e)
    else
      if o.Some? then
        o.value <= pos && o.value < |s| && s[o.value] == a && forall i :: o.value < i <= pos && i < |s| ==> s[i] != a
      else pos > |s| || forall i :: 0 <= i <= pos && i < |s| ==> s[i] != a
  }

  /** The state of the scan before it looks at position `n`. */
  ghost predicate LookingLeft(s: seq<byte>, a: byte, b: byte, pos: nat, n: nat, owed: int) {
    && n <= pos <= |s|
    && if a == b then owed == 1 && forall i :: n < i <= pos && i < |s| ==> s[i] != a
       else if n == pos then owed == 1
       else Leftward(s, a, b, pos, n + 1, owed)
  }

  lemma LookLeft(s: seq<byte>, a: byte, b: byte, pos: nat, n: nat, owed: int)
    requires LookingLeft(s, a, b, pos, n, owed)
    ensures n < |s| && s[n] == a && owed == 1 ==> OpeningIs(s, a, b, pos, Some(n))
    ensures var c := Peek(s, n);
            var now := if n < |s| && c == a then owed - 1 else if n < |s| && c == b && n != pos then owed + 1 else owed;
            !(n < |s| && s[n] == a && owed == 1) ==>
            if n > 0 then LookingLeft(s, a, b, pos, n - 1, now) else OpeningIs(s, a, b, pos, None)
  {
    hide Leftward, OpensAround, Encloses;
    if a != b {
      LeftwardStep(s, a, b, pos, n, owed);
      if n == 0 && !(n < |s| && s[n] == a && owed == 1) {
        var now := if n < |s| && s[n] == a then owed - 1 else if n < |s| && s[n] == b && n != pos then owed + 1
            else owed;
        forall o': nat, e: nat ensures !Encloses(s, a, b, pos, o', e) { NoPairLeft(s, a, b, pos, now, o', e); }
      }
    }
  }

  lemma NoOpening(s: seq<byte>, a: byte, b: byte, pos: nat)
    requires pos > |s| || |s| == 0
    ensures OpeningIs(s, a, b, pos, None)
  {
  }

  /** The first loop of `text_object_bracket`. */
  method FindOpening(t: Text, pos: nat, a: byte, b: byte) returns (o: Option<nat>)
    requires t.Represents() && StoreInv(t.st) && t.st.at < |t.st.vs| && a != NUL && b != NUL
    ensures OpeningIs(Content(t.st), a, b, pos, o)
  {
    hide Text.Represents, StoreInv, Content, LookingLeft, OpeningIs;
    ghost var s := Content(t.st);
    var it := new Iterator(t, pos);
    var owed := 1;
    var c := it.ByteGet(t);
    if pos <= |s| { LookingStart(s, a, b, pos); }
    if c == None { NoOpening(s, a, b, pos); }
    while c.Some?
      invariant c.Some? ==> it.Settled(t.st) && it.pos <= pos && c.value == Peek(s, it.pos)
      invariant if c.Some? then LookingLeft(s, a, b, pos, it.pos, owed) else OpeningIs(s, a, b, pos, None)
      decreases if c.Some? then it.pos + 1 else 0
    {
      LookLeft(s, a, b, pos, it.pos, owed);
      if c.value == a {
        owed := owed - 1;
        if owed == 0 { return Some(it.pos); }
      }
      if c.value != a && c.value == b && it.pos != pos { owed := owed + 1; }
      var _ := it.BytePrev(t);
      c := it.ByteGet(t);
    }
    o := None;
  }

  lemma LookingStart(s: seq<byte>, a: byte, b: byte, pos: nat)
    requires pos <= |s|
    ensures LookingLeft(s, a, b, pos, pos, 1) && LookingRight(s, a, b, pos, pos, 1)
  {
  }

  /** What it finds to the right: the bracket that closes that pair, or the next quote. */
  ghost predicate ClosingIs(s: seq<byte>, a: byte, b: byte, pos: nat, e: Option<nat>) {
    if a != b then
      if e.Some? then ClosesAround(s, a, b, pos, e.value)
      else forall o: nat, e': nat :: !Encloses(s, a, b, pos, o, e')
    else
      if e.Some? then
        pos <= e.value < |s| && s[e.value] == a && forall i :: pos <= i < e.value ==> s[i] != a
      else forall i :: pos <= i < |s| ==> s[i] != a
  }

  ghost predicate LookingRight(s: seq<byte>, a: byte, b: byte, pos: nat, n: nat, owed: int) {
    && pos <= n <= |s|
    && if a == b then owed == 1 && forall i :: pos <= i < n ==> s[i] != a
       else if n == pos then owed == 1
       else Rightward(s, a, b, pos, n, owed)
  }

  lemma LookRight(s: seq<byte>, a: byte, b: byte, pos: nat, n: nat, owed: int)
    requires LookingRight(s, a, b, pos, n, owed)
    ensures n == |s| ==> ClosingIs(s, a, b, pos, None)
    ensures n < |s| && s[n] == b && owed == 1 ==> ClosingIs(s, a, b, pos, Some(n))
    ensures n < |s| && !(s[n] == b && owed == 1) ==>
              LookingRight(s, a, b, pos, n + 1,
                           if s[n] == b then owed - 1 else if s[n] == a && n != pos then owed + 1 else owed)
  {
    hide Rightward, ClosesAround, Encloses;
    if a != b {
      if n < |s| {
        RightwardStep(s, a, b, pos, n, owed);
      } else {
        forall o: nat, e': nat ensures !Encloses(s, a, b, pos, o, e') { NoPairRight(s, a, b, pos, owed, o, e'); }
      }
    }
  }

  lemma NoClosing(s: seq<byte>, a: byte, b: byte, pos: nat)
    requires pos >= |s|
    ensures ClosingIs(s, a, b, pos, None)
  {
  }

  /** The second loop of `text_object_bracket`. */
  method FindClosing(t: Text, pos: nat, a: byte, b: byte) returns (e: Option<nat>)
    requires t.Represents() && StoreInv(t.st) && t.st.at < |t.st.vs| && a != NUL && b != NUL
    ensures ClosingIs(Content(t.st), a, b, pos, e)
  {
    hide Text.Represents, StoreInv, Content, LookingRight, ClosingIs;
    ghost var s := Content(t.st);
    var it := new Iterator(t, pos);
    var owed := 1;
    var c := it.ByteGet(t);
    if pos <= |s| { LookingStart(s, a, b, pos); }
    if pos >= |s| { NoClosing(s, a, b, pos); }
    while c.Some?
      invariant c.Some? ==> it.Settled(t.st) && it.pos <= |s| && c.value == Peek(s, it.pos)
      invariant if c.Some? then LookingRight(s, a, b, pos, it.pos, owed) else ClosingIs(s, a, b, pos, None)
      decreases if c.Some? then t.size + 1 - it.pos else 0
    {
      ghost var n := it.pos;
      LookRight(s, a, b, pos, n, owed);
      if c.value == b {
        owed := owed - 1;
        if owed == 0 { return Some(it.pos); }
      }
      if c.value != b && c.value == a && it.pos != pos { owed := owed + 1; }
      var _ := it.ByteNext(t);
      c := it.ByteGet(t);
    }
    e := None;
  }

  /** The pair of characters a text object is about. */
  function PairOf(kind: byte): Option<(byte, byte)> {
    match SideOf(kind)
    case Opens(close) => Some((kind, close))
    case Closes(open) => Some((open, kind))
    case Both => Some((kind, kind))
    case Neither => None
  }

  /** What a bracket object is, as its user sees it: the inside of the innermost pair around
      `pos`, exactly if there is one. */
  ghost predicate IsInside(s: seq<byte>, a: byte, b: byte, pos: nat, r: Option<Filerange>) {
    if r.Some? then
      && r.value.start > 0 && Encloses(s, a, b, pos, r.value.start - 1, r.value.end)
      && forall o: nat, e: nat :: Encloses(s, a, b, pos, o, e) ==> o < r.value.start && r.value.end <= e
    else forall o: nat, e: nat :: !Encloses(s, a, b, pos, o, e)
  }

  /** What a quote object is: on a quote, what lies between it and its match; else what lies
      between the nearest quotes on both sides, if there are such. */
  ghost predicate IsQuoted(s: seq<byte>, kind: byte, pos: nat, r: Option<Filerange>) {
    if pos < |s| && s[pos] in QUOTES then
      r.Some? && exists m: nat ::
        IsMatch(s, pos, None, UNLIMITED, m) && r.value == Filerange(Min(pos, m) + 1, Max(pos, m))
    else if r.Some? then
      && 0 < r.value.start <= pos < r.value.end < |s| && s[r.value.start - 1] == s[r.value.end] == kind
      && forall i :: r.value.start <= i < r.value.end ==> s[i] != kind
    else
      || pos > |s|
      || (forall i :: 0 <= i < pos && i < |s| ==> s[i] != kind)
      || (forall i :: pos <= i < |s| ==> s[i] != kind)
  }

  /** What the object of a kind is: a pair of brackets is named by either of them. */
  ghost predicate IsObject(s: seq<byte>, kind: byte, pos: nat, r: Option<Filerange>) {
    && (forall k :: 0 <= k < |PAIRS| && (kind == PAIRS[k].0 || kind == PAIRS[k].1) ==>
          IsInside(s, PAIRS[k].0, PAIRS[k].1, pos, r))
    && (kind in QUOTES ==> IsQuoted(s, kind, pos, r))
    && (kind !in QUOTES && (forall k :: 0 <= k < |PAIRS| ==> kind != PAIRS[k].0 && kind != PAIRS[k].1) ==> r == None)
  }

  lemma ObjectMeans(s: seq<byte>, kind: byte, pos: nat, r: Option<Filerange>)
    requires PairOf(kind) == None ==> r == None
    requires SideOf(kind).Opens? || SideOf(kind).Closes? ==>
               IsInside(s, PairOf(kind).value.0, PairOf(kind).value.1, pos, r)
    requires SideOf(kind) == Both ==> IsQuoted(s, kind, pos, r)
    ensures IsObject(s, kind, pos, r)
  {
    hide SideOf, IsInside, IsQuoted;
    SidesAre(kind);
  }

  lemma QuotedMeans(s: seq<byte>, kind: byte, pos: nat, r: Option<Filerange>)
    requires SideOf(kind) == Both
    requires if pos < |s| && SideOf(s[pos]) == Both then
               var m := MatchOf(s, pos, None, UNLIMITED);
               r == Some(Filerange(Min(pos, m) + 1, Max(pos, m)))
             else if r.Some? then
               && r.value.start > 0 && OpeningIs(s, kind, kind, pos, Some(r.value.start - 1))
               && ClosingIs(s, kind, kind, pos, Some(r.value.end))
             else OpeningIs(s, kind, kind, pos, None) || ClosingIs(s, kind, kind, pos, None)
    ensures IsQuoted(s, kind, pos, r)
  {
    hide SideOf, MatchOf, IsMatch;
    SidesAre(kind);
    if pos < |s| {
      SidesAre(s[pos]);
      MatchMeans(s, pos, None, UNLIMITED);
    }
  }

  /** `text_object_bracket`. */
  method ObjectBracket(t: Text, pos: nat, kind: byte) returns (r: Option<Filerange>)
    requires t.Valid()
    modifies t`lines
    ensures t.Valid() && t.doc.cur < |t.doc.nodes|
    ensures PairOf(kind) == None ==> r == None
    ensures IsObject(t.doc.Now().text, kind, pos, r)
  {
    hide Text.Inv, Text.Represents, StoreInv, WellFormed, Content, OpeningIs, ClosingIs, Encloses, MatchOf, LinesOk,
         IsMatch, IsObject, IsQuoted, IsInside, SideOf;
    r := None;
    ContentIs(t);
    ghost var s := t.doc.Now().text;
    var pair := PairOf(kind);
    SidesFit(kind);
    if pair == None {
      ObjectMeans(s, kind, pos, r);
      return;
    }
    var (a, b) := pair.value;
    if a == b {
      var it := new Iterator(t, pos);
      var c := it.ByteGet(t);
      PeekIs(s, pos);
      if c.Some? && SideOf(c.value) == Both {
        var m := BracketMatchSymbol(t, pos, None, UNLIMITED);
        r := Some(Filerange(Min(pos, m) + 1, Max(pos, m)));
        QuotedMeans(s, kind, pos, r);
        ObjectMeans(s, kind, pos, r);
        return;
      }
    }
    var o := FindOpening(t, pos, a, b);
    var e := FindClosing(t, pos, a, b);
    if o.Some? && e.Some? { r := Some(Filerange(o.value + 1, e.value)); }
    if a == b { QuotedMeans(s, kind, pos, r); } else { InsideMeans(s, a, b, pos, o, e); }
    ObjectMeans(s, kind, pos, r);
  }

  lemma InsideMeans(s: seq<byte>, a: byte, b: byte, pos: nat, o: Option<nat>, e: Option<nat>)
    requires a != b && OpeningIs(s, a, b, pos, o) && ClosingIs(s, a, b, pos, e)
    ensures IsInside(s, a, b, pos, if o.Some? && e.Some? then Some(Filerange(o.value + 1, e.value)) else None)
  {
    hide OpeningIs, ClosingIs, Encloses;
    FoundObject(s, a, b, pos, o, e);
  }

  lemma FoundObject(s: seq<byte>, a: byte, b: byte, pos: nat, o: Option<nat>, e: Option<nat>)
    requires OpeningIs(s, a, b, pos, o) && ClosingIs(s, a, b, pos, e)
    ensures a != b && o.Some? && e.Some? ==>
              && Encloses(s, a, b, pos, o.value, e.value)
              && forall o': nat, e': nat :: Encloses(s, a, b, pos, o', e') ==> o' <= o.value && e.value <= e'
    ensures a != b && (o == None || e == None) ==> forall o': nat, e': nat :: !Encloses(s, a, b, pos, o', e')
  {
    hide OpensAround, ClosesAround, Encloses;
    if a != b && o.Some? && e.Some? { FoundPair(s, a, b, pos, o.value, e.value); }
  }

  // ----- the two scanners -----

  /** The scan that ignores strings sees the brackets of both quote levels. */
  lemma {:induction false} DepthSplits(s: seq<byte>, a: byte, b: byte, i: nat)
    requires i <= |s|
    ensures Depth(s, a, b, false, 0, i) == Depth(s, a, b, true, 0, i) + Depth(s, a, b, true, 1, i)
  {
    if i > 0 { DepthSplits(s, a, b, i - 1); }
  }

  /** What the brackets on the other quote level than that of `o` add to the depth from `o` to `i`. */
  function Foreign(s: seq<byte>, a: byte, b: byte, o: nat, i: nat): int
    requires o <= |s| && i <= |s|
  {
    Depth(s, a, b, true, 1 - Level(s, true, o), i) - Depth(s, a, b, true, 1 - Level(s, true, o), o)
  }

  /** The brackets in strings between `o` and `e`, or outside of them if the two are in one, make
      up for each other, and never for those that count. */
  ghost predicate StringsBalance(s: seq<byte>, a: byte, b: byte, o: nat, e: nat)
    requires o <= e < |s|
  {
    && Level(s, true, e) == Level(s, true, o)
    && Foreign(s, a, b, o, e + 1) == 0
    && forall i :: o < i <= e ==>
         Foreign(s, a, b, o, i) < Depth(s, a, b, false, 0, i) - Depth(s, a, b, false, 0, o)
  }

  /** Two brackets that belong together if strings are ignored do so if they are not, exactly if
      the brackets in strings balance. */
  lemma ScannersAgree(s: seq<byte>, a: byte, b: byte, o: nat, e: nat)
    requires a != b && Paired(s, a, b, false, o, e)
    ensures Paired(s, a, b, true, o, e) <==> StringsBalance(s, a, b, o, e)
  {
    hide Depth;
    forall i: nat | i <= |s|
      ensures Depth(s, a, b, false, 0, i) == Depth(s, a, b, true, 0, i) + Depth(s, a, b, true, 1, i) {
      DepthSplits(s, a, b, i);
    }
  }

  /** Every bracket from `o` to `e` is on the quote level of `o`. */
  ghost predicate OneLevel(s: seq<byte>, a: byte, b: byte, o: nat, e: nat)
    requires o <= e < |s|
  {
    forall i :: o <= i <= e && (s[i] == a || s[i] == b) ==> Level(s, true, i) == Level(s, true, o)
  }

  lemma {:induction false} NothingForeign(s: seq<byte>, a: byte, b: byte, o: nat, e: nat, i: nat)
    requires o <= e < |s| && OneLevel(s, a, b, o, e) && o <= i <= e + 1
    ensures Foreign(s, a, b, o, i) == 0
  {
    if i > o {
      NothingForeign(s, a, b, o, e, i - 1);
      DepthStep(s, a, b, true, 1 - Level(s, true, o), i - 1);
    }
  }

  /** If all brackets between two are on one quote level, it makes no difference whether strings
      are ignored. */
  lemma SameOnOneLevel(s: seq<byte>, a: byte, b: byte, o: nat, e: nat)
    requires a != b && o <= e < |s| && OneLevel(s, a, b, o, e)
    ensures Paired(s, a, b, true, o, e) <==> Paired(s, a, b, false, o, e)
  {
    hide Depth;
    forall i: nat | o <= i <= e + 1
      ensures Depth(s, a, b, false, 0, i) == Depth(s, a, b, true, 0, i) + Depth(s, a, b, true, 1, i)
      ensures Foreign(s, a, b, o, i) == 0
    {
      DepthSplits(s, a, b, i);
      NothingForeign(s, a, b, o, e, i);
    }
  }

  /** `text_bracket_match` leads from either end of a bracket object to the other, exactly if the
      brackets in strings between them balance. */
  lemma ObjectMatches(s: seq<byte>, a: byte, b: byte, pos: nat, o: nat, e: nat, limits: Filerange)
    requires SideOf(a) == Opens(b) && Encloses(s, a, b, pos, o, e)
    requires limits.start <= o && e < limits.end
    ensures o < e < |s|
    ensures MatchOf(s, o, None, limits) == e <==> StringsBalance(s, a, b, o, e)
    ensures MatchOf(s, e, None, limits) == o <==> StringsBalance(s, a, b, o, e)
  {
    hide Paired, StringsBalance, Depth;
    SidesFit(a);
    PairedEnds(s, a, b, false, o, e);
    ScannersAgree(s, a, b, o, e);
    if Paired(s, a, b, true, o, e) {
      AfterIs(s, a, b, o, limits.end, e);
      BeforeIs(s, a, b, e, limits.start, o);
    }
  }

  /** It is so if all brackets of the object are on one quote level. */
  lemma OneLevelMatches(s: seq<byte>, a: byte, b: byte, pos: nat, o: nat, e: nat, limits: Filerange)
    requires SideOf(a) == Opens(b) && Encloses(s, a, b, pos, o, e)
    requires limits.start <= o && e < limits.end && o <= e < |s| && OneLevel(s, a, b, o, e)
    ensures MatchOf(s, o, None, limits) == e && MatchOf(s, e, None, limits) == o
  {
    hide Paired, StringsBalance, MatchOf;
    ObjectMatches(s, a, b, pos, o, e, limits);
    SameOnOneLevel(s, a, b, o, e);
    ScannersAgree(s, a, b, o, e);
  }

  /** With double quotes they need not: in `(")")` the object around the first bracket ends in
      the string, its match does not. */
  lemma ScannersDiffer()
    ensures var s: seq<byte> := [40, QUOTE, 41, QUOTE, 41];
            Paired(s, 40, 41, false, 0, 2) && Paired(s, 40, 41, true, 0, 4)
  {
    var s: seq<byte> := [40, QUOTE, 41, QUOTE, 41];
    LevelStep(s, true, 0);
    LevelStep(s, true, 1);
    LevelStep(s, true, 2);
    LevelStep(s, true, 3);
    assert Level(s, true, 0) == Level(s, true, 1) == Level(s, true, 4) == 0
           && Level(s, true, 2) == Level(s, true, 3) == 1;
    DepthStep(s, 40, 41, true, 0, 0);
    DepthStep(s, 40, 41, true, 0, 1);
    DepthStep(s, 40, 41, true, 0, 2);
    DepthStep(s, 40, 41, true, 0, 3);
    DepthStep(s, 40, 41, true, 0, 4);
    DepthStep(s, 40, 41, false, 0, 0);
    DepthStep(s, 40, 41, false, 0, 1);
    DepthStep(s, 40, 41, false, 0, 2);
  }

  lemma DepthStep(s: seq<byte>, a: byte, b: byte, quotes: bool, r: nat, i: nat)
    requires i < |s|
    ensures Depth(s, a, b, quotes, r, i + 1) == Depth(s, a, b, quotes, r, i) + Weight(s, a, b, quotes, r, i)
    ensures Depth(s, a, b, quotes, r, 0) == 0
  {
  }
}
