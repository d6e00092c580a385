/** Bytes, byte strings and the few facts about splicing them that several modules share. */
module Bytes {

  newtype byte = x: int | 0 <= x < 256

  const NUL: byte := 0
  const NEWLINE: byte := 10

  /** `EPOS`: an invalid position, (size_t)-1. */
  const EPOS: nat := 0xFFFF_FFFF_FFFF_FFFF

  datatype Option<+T> = None | Some(value: T)

  function Min(a: nat, b: nat): nat { if a < b then a else b }

  function Max(a: nat, b: nat): nat { if a > b then a else b }

  function Inserted<T>(s: seq<T>, pos: nat, data: seq<T>): seq<T>
    requires pos <= |s|
  {
    s[..pos] + data + s[pos..]
  }

  function Removed<T>(s: seq<T>, pos: nat, len: nat): seq<T>
    requires pos + len <= |s|
  {
    s[..pos] + s[pos + len..]
  }

  lemma InsertedTwice<T>(s: seq<T>, pos: nat, a: seq<T>, b: seq<T>)
    requires pos <= |s|
    ensures Inserted(Inserted(s, pos, a), pos, b) == Inserted(s, pos, b + a)
  {
    assert Inserted(s, pos, a)[..pos] == s[..pos] && Inserted(s, pos, a)[pos..] == a + s[pos..];
  }

  /** Splicing at a boundary in the middle part. */
  lemma InsertedBetween<T>(l: seq<T>, x: seq<T>, born: seq<T>, y: seq<T>, r: seq<T>)
    ensures Inserted(l + (x + y) + r, |l| + |x|, born) == l + (x + born + y) + r
  {
    var s := l + (x + y) + r;
    assert s[..|l| + |x|] == l + x && s[|l| + |x|..] == y + r;
  }

  lemma RemovedBetween<T>(l: seq<T>, x: seq<T>, dead: seq<T>, y: seq<T>, r: seq<T>)
    ensures Removed(l + (x + dead + y) + r, |l| + |x|, |dead|) == l + (x + y) + r
  {
    var s := l + (x + dead + y) + r;
    assert s[..|l| + |x|] == l + x && s[|l| + |x| + |dead|..] == y + r;
  }

  /** How often `b` occurs in `s`. */
  function Count(s: seq<byte>, b: byte): nat {
    if s == [] then 0 else (if s[0] == b then 1 else 0) + Count(s[1..], b)
  }

  lemma {:induction false} CountConcat(s: seq<byte>, t: seq<byte>, b: byte)
    ensures Count(s + t, b) == Count(s, b) + Count(t, b)
  {
    if s == [] {
      assert s + t == t;
    } else {
      assert (s + t)[1..] == s[1..] + t;
      CountConcat(s[1..], t, b);
    }
  }

  lemma {:induction false} CountAbsent(s: seq<byte>, b: byte)
    ensures Count(s, b) == 0 <==> b !in s
  {
    if s != [] {
      CountAbsent(s[1..], b);
      assert b in s <==> s[0] == b || b in s[1..];
    }
  }
}
