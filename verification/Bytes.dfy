/** Byte strings and the sequence vocabulary shared by every component. */
module Bytes {
  type Byte = b: int | 0 <= b < 256

  const BEL: Byte := 0x07
  const BS: Byte := 0x08
  const TAB: Byte := 0x09
  const LF: Byte := 0x0a
  const CR: Byte := 0x0d
  const ESC: Byte := 0x1b
  const SEMICOLON: Byte := 0x3b
  const LBRACKET: Byte := 0x5b
  const BACKSLASH: Byte := 0x5c
  const RBRACKET: Byte := 0x5d

  datatype Option<+T> = None | Some(value: T)

  /** The last n elements of s, or all of s when it is shorter. */
  function Tail<T>(s: seq<T>, n: nat): (r: seq<T>)
    ensures |r| == if |s| <= n then |s| else n
  {
    if |s| <= n then s else s[|s| - n..]
  }

  lemma TailIsSuffix<T>(s: seq<T>, n: nat)
    ensures exists front :: s == front + Tail(s, n)
  {
    assert s == s[..|s| - |Tail(s, n)|] + Tail(s, n);
  }

  lemma Associative<T>(a: seq<T>, b: seq<T>, c: seq<T>)
    ensures a + (b + c) == (a + b) + c
  {
  }

  lemma FirstOff<T>(x: T, s: seq<T>)
    ensures ([x] + s)[0] == x && ([x] + s)[1..] == s
  {
  }

  /** Concatenation of a sequence of sequences. */
  function Flatten<T>(ss: seq<seq<T>>): seq<T> {
    if ss == [] then [] else ss[0] + Flatten(ss[1..])
  }

  lemma FlattenFront<T>(s: seq<T>, ss: seq<seq<T>>)
    ensures Flatten([s] + ss) == s + Flatten(ss)
  {
  }

  lemma {:induction false} FlattenConcat<T>(ss: seq<seq<T>>, tt: seq<seq<T>>)
    ensures Flatten(ss + tt) == Flatten(ss) + Flatten(tt)
  {
    if ss == [] {
      assert ss + tt == tt;
    } else {
      FlattenConcat(ss[1..], tt);
      FlattenFront(ss[0], ss[1..] + tt);
      assert ss + tt == [ss[0]] + (ss[1..] + tt);
      Associative(ss[0], Flatten(ss[1..]), Flatten(tt));
    }
  }

  /** Cutting to the last n elements may be done early: what is appended later pushes out the same elements. */
  lemma TailOfTail<T>(s: seq<T>, t: seq<T>, n: nat)
    ensures Tail(Tail(s, n) + t, n) == Tail(s + t, n)
  {
  }

  /** b put in front of the first piece. */
  function Before(b: Byte, r: seq<seq<Byte>>): seq<seq<Byte>>
    requires |r| > 0
  {
    r[0 := [b] + r[0]]
  }

  /** b put behind the last piece. */
  function Behind(r: seq<seq<Byte>>, b: Byte): seq<seq<Byte>>
    requires |r| > 0
  {
    r[|r| - 1 := r[|r| - 1] + [b]]
  }

  /** s cut at every occurrence of sep; always one piece more than there are separators. */
  function Split(s: seq<Byte>, sep: Byte): (r: seq<seq<Byte>>)
    ensures |r| > 0
  {
    if s == [] then [[]]
    else if s[0] == sep then [[]] + Split(s[1..], sep)
    else Before(s[0], Split(s[1..], sep))
  }

  lemma BeforeBehind(a: Byte, r: seq<seq<Byte>>, b: Byte)
    requires |r| > 0
    ensures Before(a, Behind(r, b)) == Behind(Before(a, r), b)
    ensures Before(a, r + [[]]) == Before(a, r) + [[]]
    ensures Behind([[]] + r, b) == [[]] + Behind(r, b)
  {
    assert [a] + (r[0] + [b]) == ([a] + r[0]) + [b];
  }

  /** Appending one byte to a string either opens a new last piece or extends the last piece. */
  lemma {:induction false} SplitSnoc(s: seq<Byte>, sep: Byte, b: Byte)
    ensures Split(s + [b], sep) ==
            if b == sep then Split(s, sep) + [[]] else Behind(Split(s, sep), b)
  {
    if s == [] {
      assert s + [b] == [b];
      assert [b] + [] == [] + [b];
    } else {
      SplitSnoc(s[1..], sep, b);
      assert (s + [b])[1..] == s[1..] + [b];
      BeforeBehind(s[0], Split(s[1..], sep), b);
    }
  }
}
