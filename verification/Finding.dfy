/** Searching for a string from a position on, or back from it, possibly on the same line only.

    Both searches back up to a remembered iterator after a partial match, and find the nearest
    occurrence all the same. */
module Finding {
  import opened Bytes
  import opened History
  import opened Extents
  import opened Store
  import opened PieceChain
  import opened Iterators

  /** The string stands at `q`. */
  predicate Occurs(text: seq<byte>, s: seq<byte>, q: nat) {
    q + |s| <= |text| && text[q..q + |s|] == s
  }

  predicate NoNewline(text: seq<byte>, from: nat, to: int) {
    forall i :: from <= i < to && i < |text| ==> text[i] != NEWLINE
  }

  /** An occurrence a forward search from `pos` may report: in line mode it may end, but not
      go on, at the line's newline. */
  predicate Ahead(text: seq<byte>, s: seq<byte>, pos: nat, line: bool, q: nat) {
    pos <= q && Occurs(text, s, q) && (line ==> NoNewline(text, pos, q + |s| - 1))
  }

  /** An occurrence a backward search may report. */
  predicate Behind(text: seq<byte>, s: seq<byte>, pos: nat, line: bool, q: nat) {
    q + |s| <= pos && Occurs(text, s, q) && (line ==> NoNewline(text, q + 1, pos))
  }

  /** `k` bytes of the string found so far from `q`, none before. */
  ghost predicate Trying(text: seq<byte>, s: seq<byte>, pos: nat, line: bool, q: nat, k: nat) {
    && pos <= q && k <= |s| && q + k <= |text| && text[q..q + k] == s[..k]
    && (forall q' :: pos <= q' < q ==> !Occurs(text, s, q'))
    && (line && k < |s| ==> NoNewline(text, pos, q + k))
    && (line && k == |s| > 0 ==> NoNewline(text, pos, q + k - 1))
  }

  lemma TryStart(text: seq<byte>, s: seq<byte>, pos: nat, line: bool)
    requires pos <= |text|
    ensures Trying(text, s, pos, line, pos, 0)
  {
  }

  /** The byte at `q + k` decides whether the string can stand at `q`. */
  lemma OccursByte(text: seq<byte>, s: seq<byte>, q: nat, k: nat)
    requires Occurs(text, s, q) && k < |s|
    ensures q + k < |text| && text[q + k] == s[k]
  {
    assert text[q..q + |s|][k] == text[q + k];
  }

  /** Behind a newline that does not end it, the line has no further occurrence. */
  lemma LineOver(text: seq<byte>, s: seq<byte>, pos: nat, q: nat, k: nat)
    requires Trying(text, s, pos, true, q, k) && k < |s| && q + k < |text| && text[q + k] == NEWLINE
    requires text[q + k] != s[k] || k + 1 < |s|
    ensures forall q': nat :: !Ahead(text, s, pos, true, q')
  {
    forall q': nat ensures !Ahead(text, s, pos, true, q') {
      if Ahead(text, s, pos, true, q') {
        assert q + k >= q' + |s| - 1;
        OccursByte(text, s, q', k);
        assert false;
      }
    }
  }

  /** One round of `find_next`. */
  lemma TryNext(text: seq<byte>, s: seq<byte>, pos: nat, line: bool, q: nat, k: nat)
    requires Trying(text, s, pos, line, q, k) && k < |s| && NUL !in s
    ensures var c := Peek(text, q + k);
            && (c == s[k] ==>
                 q + k < |text| && (k + 1 == |s| || !(line && c == NEWLINE) ==> Trying(text, s, pos, line, q, k + 1)))
            && (c == s[k] && k + 1 < |s| && line && c == NEWLINE ==> forall q': nat :: !Ahead(text, s, pos, line, q'))
            && (c != s[k] && !(line && c == NEWLINE) && q < |text| ==> Trying(text, s, pos, line, q + 1, 0))
            && (c != s[k] && line && c == NEWLINE ==> forall q': nat :: !Ahead(text, s, pos, line, q'))
            && (c != s[k] && q >= |text| ==> forall q': nat :: !Ahead(text, s, pos, line, q'))
  {
    var c := Peek(text, q + k);
    if c == s[k] {
      assert s[k] in s;
      assert text[q..q + k + 1] == s[..k + 1];
    } else if Occurs(text, s, q) {
      OccursByte(text, s, q, k);
    }
    if line && c == NEWLINE && (c != s[k] || k + 1 < |s|) { LineOver(text, s, pos, q, k); }
  }

  lemma TryDone(text: seq<byte>, s: seq<byte>, pos: nat, line: bool, q: nat)
    requires Trying(text, s, pos, line, q, |s|)
    ensures Ahead(text, s, pos, line, q) && forall q': nat :: Ahead(text, s, pos, line, q') ==> q <= q'
  {
    if s == [] && pos < q { assert Occurs(text, s, pos); }
  }

  /** No occurrence can be reported. */
  ghost predicate NoneAhead(text: seq<byte>, s: seq<byte>, pos: nat, line: bool) {
    forall q: nat :: !Ahead(text, s, pos, line, q)
  }

  /** `m` is the first occurrence, or `pos` if there is none. */
  ghost predicate FirstAhead(text: seq<byte>, s: seq<byte>, pos: nat, line: bool, m: nat) {
    if NoneAhead(text, s, pos, line) then m == pos
    else Ahead(text, s, pos, line, m) && forall q: nat :: Ahead(text, s, pos, line, q) ==> m <= q
  }

  /** The state of the search with `matched` bytes found before position `at`; `more` says that
      there is a byte to look at. */
  ghost predicate Searching(text: seq<byte>, s: seq<byte>, pos: nat, line: bool, at: nat, matched: nat, more: bool) {
    if more || (matched == |s| && at <= |text|) then
      matched <= at <= |text| && Trying(text, s, pos, line, at - matched, matched)
    else
      NoneAhead(text, s, pos, line) && (matched == |s| ==> at == pos && s == [])
  }

  lemma SearchStep(text: seq<byte>, s: seq<byte>, pos: nat, line: bool, at: nat, matched: nat)
    requires Searching(text, s, pos, line, at, matched, true) && matched < |s| && NUL !in s
    ensures var c := Peek(text, at);
            var matched' := if c == s[matched] then matched + 1 else 0;
            var at' := if c == s[matched] then at + 1 else at - matched + 1;
            && (c == s[matched] ==> at < |text|)
            && at - matched <= |text|
            && Searching(text, s, pos, line, Min(at', |text|), matched', at' <= |text| && !(line && c == NEWLINE))
  {
    hide Ahead, Trying;
    TryNext(text, s, pos, line, at - matched, matched);
  }

  lemma SearchStart(text: seq<byte>, s: seq<byte>, pos: nat, line: bool)
    ensures pos <= |text| ==> Searching(text, s, pos, line, pos, 0, true)
    ensures pos > |text| || |text| == 0 ==> Searching(text, s, pos, line, pos, 0, false)
  {
    if pos <= |text| { TryStart(text, s, pos, line); }
  }

  lemma SearchDone(text: seq<byte>, s: seq<byte>, pos: nat, line: bool, at: nat, matched: nat, more: bool)
    requires Searching(text, s, pos, line, at, matched, more) && matched <= |s| && (matched == |s| || !more)
    ensures matched == |s| ==> matched <= at
    ensures FirstAhead(text, s, pos, line, if matched == |s| then at - |s| else pos)
  {
    hide Trying, Occurs;
    if matched == |s| && at <= |text| { TryDone(text, s, pos, line, at - matched); }
  }

  /** Go on behind a byte that matched, or start again behind where the last attempt started. */
  method NextRound(t: Text, it: Iterator, sit: Iterator, same: bool, matched: nat) returns (n: nat)
    requires t.Represents() && StoreInv(t.st) && it !in t.repr && sit !in t.repr && it != sit && it.Settled(t.st)
    requires matched > 0 ==> sit.Settled(t.st) && sit.pos + matched == it.pos
    requires same ==> it.pos < t.size
    modifies it, sit
    ensures n == (if same then matched + 1 else 0) && it.piece != null
    ensures var at := if same then old(it.pos) + 1 else old(it.pos) - matched + 1;
            if at <= t.size then it.Settled(t.st) && it.pos == at else it.Back(t.st) && it.pos == t.size
    ensures n > 0 ==> sit.Settled(t.st) && sit.pos + n == it.pos
  {
    hide Text.Represents, StoreInv, PieceAt, Offset;
    t.SizeIs();
    NextOffset(t.st, it.k);
    n := matched;
    if same {
      if n == 0 { sit.Assign(it); }
      n := n + 1;
    } else if n > 0 {
      it.Assign(sit);
      n := 0;
    }
    var _ := it.ByteNext(t);
  }

  /** `find_next`: the first occurrence from `pos` on, or `pos`. */
  method FindNext(t: Text, pos: nat, str: Option<seq<byte>>, line: bool) returns (m: nat)
    requires t.Represents() && StoreInv(t.st) && t.st.at < |t.st.vs| && (str.Some? ==> NUL !in str.value)
    ensures str == None ==> m == pos
    ensures str.Some? ==> FirstAhead(Content(t.st), str.value, pos, line, m)
  {
    hide Text.Represents, StoreInv, Content, Searching, FirstAhead, Peek, Iterator.On, PieceAt;
    if str == None { return pos; }
    ghost var text := Content(t.st);
    var s := str.value;
    var matched := 0;
    var it := new Iterator(t, pos);
    var sit := new Iterator.Copy(it);
    SearchStart(text, s, pos, line);
    var c := it.ByteGet(t);
    var more := c.Some?;
    while matched < |s| && more
      invariant matched <= |s| && (more ==> c.Some?)
      invariant more ==> it.Settled(t.st) && it.pos <= |text| && c.value == Peek(text, it.pos)
      invariant Searching(text, s, pos, line, it.pos, matched, more)
      invariant more && 0 < matched < |s| ==> sit.Settled(t.st) && sit.pos == it.pos - matched
      decreases if more then |text| + 1 - (it.pos - matched) else 0, |s| - matched
    {
      SearchStep(text, s, pos, line, it.pos, matched);
      matched := NextRound(t, it, sit, c.value == s[matched], matched);
      if line && c.value == NEWLINE { more := false; break; }
      c := it.ByteGet(t);
      more := c.Some?;
    }
    SearchDone(text, s, pos, line, it.pos, matched, more);
    m := if matched == |s| then it.pos - |s| else pos;
  }

  // ----- backwards -----

  /** All but `k + 1` bytes of the string found so far before `e`, none behind. */
  ghost predicate TryingBack(text: seq<byte>, s: seq<byte>, pos: nat, line: bool, e: nat, k: nat) {
    && e <= pos <= |text| && k < |s| && |s| - 1 - k <= e
    && text[e - (|s| - 1 - k)..e] == s[k + 1..]
    && (forall q :: 0 <= q && e < q + |s| <= pos ==> !Occurs(text, s, q))
    && (line ==> NoNewline(text, e - (|s| - 1 - k), pos))
  }

  ghost predicate NoneBehind(text: seq<byte>, s: seq<byte>, pos: nat, line: bool) {
    forall q: nat :: !Behind(text, s, pos, line, q)
  }

  /** `m` is the last occurrence, or `pos` if there is none. */
  ghost predicate LastBehind(text: seq<byte>, s: seq<byte>, pos: nat, line: bool, m: nat) {
    if NoneBehind(text, s, pos, line) then m == pos
    else Behind(text, s, pos, line, m) && forall q: nat :: Behind(text, s, pos, line, q) ==> q <= m
  }

  /** One round of `find_prev`, looking at the byte before `at`. */
  lemma TryPrev(text: seq<byte>, s: seq<byte>, pos: nat, line: bool, at: nat, k: nat)
    requires k < |s| && TryingBack(text, s, pos, line, at + (|s| - 1 - k), k)
    ensures at == 0 ==> NoneBehind(text, s, pos, line)
    ensures at > 0 && text[at - 1] == s[k] && k == 0 ==> LastBehind(text, s, pos, line, at - 1)
    ensures at > 0 && text[at - 1] == s[k] && k > 0 && !(line && s[k] == NEWLINE) ==>
              TryingBack(text, s, pos, line, at + (|s| - 1 - k), k - 1)
    ensures at > 0 && !(text[at - 1] == s[k] && k == 0) && line && text[at - 1] == NEWLINE ==>
            NoneBehind(text, s, pos, line)
    ensures at > 0 && text[at - 1] != s[k] && !(line && text[at - 1] == NEWLINE) ==>
              TryingBack(text, s, pos, line, at + (|s| - 1 - k) - 1, |s| - 1)
  {
    var e := at + (|s| - 1 - k);
    if at > 0 && text[at - 1] == s[k] {
      assert text[at - 1..e] == s[k..];
      if k == 0 { assert s[0..] == s && Behind(text, s, pos, line, at - 1); }
    }
  }

  /** The same, in terms of what the code does next. */
  lemma StepPrev(text: seq<byte>, s: seq<byte>, pos: nat, line: bool, e: nat, at: nat, k: nat)
    requires k < |s| && 0 < at <= |text| && e == at + (|s| - 1 - k) && TryingBack(text, s, pos, line, e, k)
    requires !(text[at - 1] == s[k] && k == 0)
    ensures var same := text[at - 1] == s[k];
            if line && text[at - 1] == NEWLINE then NoneBehind(text, s, pos, line)
            else TryingBack(text, s, pos, line, if same then e else e - 1, if same then k - 1 else |s| - 1)
  {
    hide TryingBack, NoneBehind;
    TryPrev(text, s, pos, line, at, k);
  }

  lemma TryingIn(text: seq<byte>, s: seq<byte>, pos: nat, line: bool, e: nat, k: nat)
    requires TryingBack(text, s, pos, line, e, k)
    ensures e <= pos <= |text|
  {
  }

  lemma BackStart(text: seq<byte>, s: seq<byte>, pos: nat, line: bool)
    requires s != [] && pos <= |text|
    ensures TryingBack(text, s, pos, line, pos, |s| - 1)
  {
  }

  /** Go on before a byte that matched, or start again before where the last attempt ended. */
  method PrevRound(t: Text, it: Iterator, sit: Iterator, same: bool, matched: nat, last: nat) returns (n: nat)
    requires t.st.at < |t.st.vs| && it != sit && it.Settled(t.st) && (same ==> matched > 0) && matched <= last
    requires it.piece != null && (matched < last ==> sit.Settled(t.st) && sit.piece != null)
    modifies it, sit
    ensures n == (if same then matched - 1 else last) && it.Settled(t.st) && it.piece != null
    ensures it.pos == if same || matched == last then old(it.pos) else old(sit.pos)
    ensures n < last ==> sit.Settled(t.st) && sit.piece != null
    ensures n < last ==> sit.pos == if matched == last then old(it.pos) else old(sit.pos)
  {
    hide PieceAt, Offset;
    n := matched;
    if same {
      if n == last { sit.Assign(it); }
      n := n - 1;
    } else if n < last {
      it.Assign(sit);
      n := last;
    }
  }

  /** `find_prev`: the last occurrence before `pos`, or `pos`. */
  method FindPrev(t: Text, pos: nat, str: Option<seq<byte>>, line: bool) returns (m: nat)
    requires t.Represents() && StoreInv(t.st) && t.st.at < |t.st.vs|
    ensures str == None || str == Some([]) || pos > t.size ==> m == pos
    ensures str.Some? && str.value != [] && pos <= t.size ==> LastBehind(Content(t.st), str.value, pos, line, m)
  {
    hide Text.Represents, StoreInv, Content, TryingBack, LastBehind, NoneBehind, Peek, Iterator.On, PieceAt,
         Iterator.Settled;
    if str == None { return pos; }
    ghost var text := Content(t.st);
    var s := str.value;
    var it := new Iterator(t, pos);
    var sit := new Iterator.Copy(it);
    if s == [] { return pos; }
    var matched: nat := |s| - 1;
    ghost var at: nat, e: nat := pos, pos;
    var c := it.BytePrev(t);
    if pos > t.size { return pos; }
    BackStart(text, s, pos, line);
    while c.Some?
      invariant matched < |s| && at <= pos
      invariant e == at + (|s| - 1 - matched) && TryingBack(text, s, pos, line, e, matched)
      invariant c.Some? ==>
                at > 0 && it.Settled(t.st) && it.piece != null && it.pos == at - 1 && c.value == Peek(text, it.pos)
      invariant c == None ==> at == 0
      invariant c.Some? && matched < |s| - 1 ==>
                  sit.Settled(t.st) && sit.piece != null && sit.pos == e - 1
      decreases e, matched, if c.Some? then 1 else 0
    {
      TryingIn(text, s, pos, line, e, matched);
      PeekAt(text, at - 1);
      if c.value == s[matched] && matched == 0 {
        TryPrev(text, s, pos, line, at, matched);
        return it.pos;
      }
      StepPrev(text, s, pos, line, e, at, matched);
      at, e := if c.value == s[matched] then at - 1 else e - 1, if c.value == s[matched] then e else e - 1;
      matched := PrevRound(t, it, sit, c.value == s[matched], matched, |s| - 1);
      if line && c.value == NEWLINE {
        NoneIsLast(text, s, pos, line);
        return pos;
      }
      c := it.BytePrev(t);
    }
    TryPrev(text, s, pos, line, 0, matched);
    NoneIsLast(text, s, pos, line);
    m := pos;
  }

  lemma PeekAt(text: seq<byte>, i: nat)
    ensures i < |text| ==> Peek(text, i) == text[i]
  {
  }

  lemma NoneIsLast(text: seq<byte>, s: seq<byte>, pos: nat, line: bool)
    requires NoneBehind(text, s, pos, line)
    ensures LastBehind(text, s, pos, line, pos)
  {
  }
}
