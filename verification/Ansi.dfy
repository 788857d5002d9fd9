/**
 How terminal output is cut into bytes and control sequences, and which sequences switch between
 the main and the alternate screen.
 */
module Ansi {
  import opened Bytes

  const ALT_SCREEN := 1047
  const ALT_SCREEN_SAVE_CURSOR := 1049
  const MAX_INT := 0x7fff_ffff_ffff_ffff

  /** Whether the bytes read since an ESC make up a finished sequence. */
  predicate Complete(q: seq<Byte>) {
    if |q| == 0 || q[0] != ESC then true
    else if |q| == 1 then false
    else if q[1] == LBRACKET then |q| >= 3 && 0x40 <= q[|q| - 1] <= 0x7e
    else if q[1] == RBRACKET then
      q[|q| - 1] == BEL || (|q| >= 3 && q[|q| - 2] == ESC && q[|q| - 1] == BACKSLASH)
    else true
  }

  predicate IsSGR(q: seq<Byte>) {
    |q| >= 3 && q[0] == ESC && q[1] == LBRACKET && q[|q| - 1] == 'm' as Byte
  }

  predicate IsEraseDisplay(q: seq<Byte>, mode: Byte) {
    q == [ESC, LBRACKET, mode, 'J' as Byte]
  }

  predicate IsRIS(q: seq<Byte>) {
    q == [ESC, 'c' as Byte]
  }

  predicate IsDigit(b: Byte) { 0x30 <= b <= 0x39 }

  predicate Digits(s: seq<Byte>) {
    forall i | 0 <= i < |s| :: IsDigit(s[i])
  }

  function DecimalValue(s: seq<Byte>): nat
    requires Digits(s)
  {
    if s == [] then 0
    else
      var last: int := s[|s| - 1];
      assert IsDigit(s[|s| - 1]);
      DecimalValue(s[..|s| - 1]) * 10 + (last - 0x30)
  }

  /** Go's strconv.Atoi on a 64-bit platform: an optional sign, at least one digit, and a value that fits. */
  function Atoi(s: seq<Byte>): Option<int> {
    var signed := s != [] && (s[0] == '+' as Byte || s[0] == '-' as Byte);
    var digits := if signed then s[1..] else s;
    if digits == [] || !Digits(digits) then None
    else
      var magnitude: int := DecimalValue(digits);
      var n := if s[0] == '-' as Byte then -magnitude else magnitude;
      if -MAX_INT - 1 <= n <= MAX_INT then Some(n) else None
  }

  predicate IsAltMode(param: seq<Byte>) {
    Atoi(param) == Some(ALT_SCREEN) || Atoi(param) == Some(ALT_SCREEN_SAVE_CURSOR)
  }

  /** The parameters of a DEC private mode set or reset: `ESC [ ? a ; b ; ... h` or `l`. */
  function ModeParams(q: seq<Byte>): seq<seq<Byte>> {
    if |q| < 5 || q[..3] != [ESC, LBRACKET, '?' as Byte] ||
       (q[|q| - 1] != 'h' as Byte && q[|q| - 1] != 'l' as Byte)
    then []
    else Split(q[3..|q| - 1], SEMICOLON)
  }

  /** Which screen a sequence selects: Some(true) the alternate one, Some(false) the main one. */
  function SwitchOf(q: seq<Byte>): Option<bool> {
    if exists p | p in ModeParams(q) :: IsAltMode(p) then Some(q[|q| - 1] == 'h' as Byte) else None
  }

  /** A sequence that has begun and is not finished, or nothing at all. */
  ghost predicate Partial(c: seq<Byte>) {
    c != [] ==> c[0] == ESC && forall k | 0 < k <= |c| :: !Complete(c[..k])
  }

  /** A finished sequence with nothing after it. */
  ghost predicate Whole(q: seq<Byte>) {
    q != [] && q[0] == ESC && Complete(q) && forall k | 0 < k < |q| :: !Complete(q[..k])
  }

  /** What reaches the main screen: a plain byte or a whole control sequence. */
  datatype Token = Text(b: Byte) | Control(q: seq<Byte>)

  /** The reader between two bytes: the unfinished sequence, and whether the alternate screen is up. */
  datatype Mode = Mode(control: seq<Byte>, alt: bool)

  function LexByte(m: Mode, b: Byte): (Mode, seq<Token>) {
    if m.control != [] then
      var q := m.control + [b];
      if !Complete(q) then (m.(control := q), [])
      else if IsRIS(q) then (Mode([], false), [Control(q)])
      else if SwitchOf(q).Some? then (Mode([], SwitchOf(q).value), [])
      else (Mode([], m.alt), if m.alt then [] else [Control(q)])
    else if b == ESC then (m.(control := [ESC]), [])
    else (m, if m.alt then [] else [Text(b)])
  }

  function ModeAfter(m: Mode, p: seq<Byte>): Mode
    decreases p
  {
    if p == [] then m else ModeAfter(LexByte(m, p[0]).0, p[1..])
  }

  /** The tokens of p that reach the main screen. */
  function Tokens(m: Mode, p: seq<Byte>): seq<Token>
    decreases p
  {
    if p == [] then [] else LexByte(m, p[0]).1 + Tokens(LexByte(m, p[0]).0, p[1..])
  }

  function TokenBytes(t: Token): seq<Byte> {
    match t
    case Text(b) => [b]
    case Control(q) => q
  }

  /** The bytes that a token sequence was read from. */
  function Spell(toks: seq<Token>): seq<Byte> {
    if toks == [] then [] else TokenBytes(toks[0]) + Spell(toks[1..])
  }

  ghost predicate GoodToken(t: Token) {
    match t
    case Text(b) => b != ESC
    case Control(q) => Whole(q)
  }

  ghost predicate GoodTokens(toks: seq<Token>) {
    forall i | 0 <= i < |toks| :: GoodToken(toks[i])
  }

  // ---- Reading in chunks ----

  lemma {:induction false} LexConcat(m: Mode, p: seq<Byte>, q: seq<Byte>)
    ensures ModeAfter(m, p + q) == ModeAfter(ModeAfter(m, p), q)
    ensures Tokens(m, p + q) == Tokens(m, p) + Tokens(ModeAfter(m, p), q)
    decreases p
  {
    hide LexByte;
    if p == [] {
      assert p + q == q;
    } else {
      LexConcat(LexByte(m, p[0]).0, p[1..], q);
      assert (p + q)[1..] == p[1..] + q;
    }
  }

  lemma {:induction false} SpellConcat(x: seq<Token>, y: seq<Token>)
    ensures Spell(x + y) == Spell(x) + Spell(y)
  {
    if x == [] {
      assert x + y == y;
    } else {
      var first, later := x[0], x[1..];
      SpellConcat(later, y);
      assert x + y == [first] + (later + y);
      FirstOff(first, later + y);
      Associative(TokenBytes(first), Spell(later), Spell(y));
    }
  }

  // ---- The reader never loses its place ----

  lemma PartialOrWhole(c: seq<Byte>, b: Byte)
    requires c != [] && Partial(c)
    ensures if Complete(c + [b]) then Whole(c + [b]) else Partial(c + [b])
  {
    forall k | 0 < k < |c + [b]|
      ensures !Complete((c + [b])[..k])
    {
      assert (c + [b])[..k] == c[..k];
    }
    assert (c + [b])[..|c + [b]|] == c + [b];
  }

  lemma EscapeIsPartial()
    ensures Partial([ESC])
  {
  }

  lemma {:induction false} LexGood(m: Mode, p: seq<Byte>)
    requires Partial(m.control)
    ensures Partial(ModeAfter(m, p).control)
    ensures GoodTokens(Tokens(m, p))
    decreases p
  {
    if p != [] {
      if m.control != [] {
        PartialOrWhole(m.control, p[0]);
      } else {
        EscapeIsPartial();
      }
      LexGood(LexByte(m, p[0]).0, p[1..]);
    }
  }

  // ---- Reading back what was spelled ----

  /** All but the last byte of a whole sequence are held back. */
  lemma {:induction false} HeldBack(alt: bool, q: seq<Byte>, k: nat)
    requires Whole(q) && 0 < k < |q|
    ensures ModeAfter(Mode([], alt), q[..k]) == Mode(q[..k], alt)
    ensures Tokens(Mode([], alt), q[..k]) == []
  {
    if k == 1 {
      assert q[..1] == [ESC];
    } else {
      HeldBack(alt, q, k - 1);
      assert q[..k] == q[..k - 1] + [q[k - 1]];
      LexConcat(Mode([], alt), q[..k - 1], [q[k - 1]]);
      assert [q[k - 1]][1..] == [];
    }
  }

  lemma LexOne(m: Mode, b: Byte)
    ensures ModeAfter(m, [b]) == LexByte(m, b).0 && Tokens(m, [b]) == LexByte(m, b).1
  {
  }

  lemma WholeIsLong(q: seq<Byte>)
    requires Whole(q)
    ensures |q| >= 2 && q[..|q| - 1] + [q[|q| - 1]] == q
  {
  }

  /** A whole sequence is read as one step taken at its last byte. */
  lemma LexWhole(alt: bool, q: seq<Byte>)
    requires Whole(q)
    ensures |q| >= 2 && q[..|q| - 1] + [q[|q| - 1]] == q
    ensures var m := Mode(q[..|q| - 1], alt);
            ModeAfter(Mode([], alt), q) == LexByte(m, q[|q| - 1]).0 &&
            Tokens(Mode([], alt), q) == LexByte(m, q[|q| - 1]).1
  {
    WholeIsLong(q);
    hide *;
    var k := |q| - 1;
    HeldBack(alt, q, k);
    LexConcat(Mode([], alt), q[..k], [q[k]]);
    LexOne(Mode(q[..k], alt), q[k]);
    assert [] + LexByte(Mode(q[..k], alt), q[k]).1 == LexByte(Mode(q[..k], alt), q[k]).1;
  }

  /** No sequence that reaches the main screen switches screens. */
  ghost predicate MainTokens(toks: seq<Token>) {
    GoodTokens(toks) && forall i | 0 <= i < |toks| && toks[i].Control? :: SwitchOf(toks[i].q) == None
  }

  lemma RisIsNoSwitch(q: seq<Byte>)
    requires IsRIS(q)
    ensures SwitchOf(q) == None
  {
  }

  lemma {:induction false} LexMainTokens(m: Mode, p: seq<Byte>)
    requires Partial(m.control)
    ensures MainTokens(Tokens(m, p))
    decreases p
  {
    hide SwitchOf, Complete, IsRIS;
    LexGood(m, p);
    if p != [] {
      LexGood(m, p[..1]);
      if m.control != [] {
        PartialOrWhole(m.control, p[0]);
        if IsRIS(m.control + [p[0]]) { RisIsNoSwitch(m.control + [p[0]]); }
      } else {
        EscapeIsPartial();
      }
      LexMainTokens(LexByte(m, p[0]).0, p[1..]);
    }
  }

  lemma ReadToken(t: Token)
    requires GoodToken(t) && (t.Control? ==> SwitchOf(t.q) == None)
    ensures Tokens(Mode([], false), TokenBytes(t)) == [t]
    ensures ModeAfter(Mode([], false), TokenBytes(t)) == Mode([], false)
  {
    match t
    case Text(b) => assert [b][1..] == [];
    case Control(q) => LexWhole(false, q);
  }

  /** Reading what was spelled gives the tokens back and leaves nothing half-read. */
  lemma {:induction false} ReadSpelled(toks: seq<Token>)
    requires MainTokens(toks)
    ensures Tokens(Mode([], false), Spell(toks)) == toks
    ensures ModeAfter(Mode([], false), Spell(toks)) == Mode([], false)
  {
    if toks != [] {
      ReadToken(toks[0]);
      ReadSpelled(toks[1..]);
      LexConcat(Mode([], false), TokenBytes(toks[0]), Spell(toks[1..]));
      assert toks == [toks[0]] + toks[1..];
    }
  }

  // ---- Behind the alternate screen ----

  /** The control sequences finished while reading p after the unfinished sequence c. */
  function Sequences(c: seq<Byte>, p: seq<Byte>): seq<seq<Byte>>
    decreases p
  {
    if p == [] then []
    else if c != [] then
      if Complete(c + [p[0]]) then [c + [p[0]]] + Sequences([], p[1..]) else Sequences(c + [p[0]], p[1..])
    else Sequences(if p[0] == ESC then [ESC] else [], p[1..])
  }

  /** The sequence left unfinished at the end of p. */
  function Unfinished(c: seq<Byte>, p: seq<Byte>): seq<Byte>
    decreases p
  {
    if p == [] then c
    else if c != [] then Unfinished(if Complete(c + [p[0]]) then [] else c + [p[0]], p[1..])
    else Unfinished(if p[0] == ESC then [ESC] else [], p[1..])
  }

  /** Neither a switch back to the main screen nor a full reset is among the sequences of p. */
  ghost predicate StaysAlternate(c: seq<Byte>, p: seq<Byte>) {
    forall q | q in Sequences(c, p) :: !IsRIS(q) && SwitchOf(q) != Some(false)
  }

  lemma {:induction false} AlternateIsSilent(c: seq<Byte>, p: seq<Byte>)
    requires StaysAlternate(c, p)
    ensures Tokens(Mode(c, true), p) == []
    ensures ModeAfter(Mode(c, true), p) == Mode(Unfinished(c, p), true)
    decreases p
  {
    if p != [] {
      var q := c + [p[0]];
      if c != [] && Complete(q) {
        assert Sequences(c, p) == [q] + Sequences([], p[1..]);
        assert q in Sequences(c, p);
        assert forall x | x in Sequences([], p[1..]) :: x in Sequences(c, p);
        AlternateIsSilent([], p[1..]);
      } else if c != [] {
        AlternateIsSilent(q, p[1..]);
      } else {
        AlternateIsSilent(if p[0] == ESC then [ESC] else [], p[1..]);
      }
    }
  }

  /** A program that enters the alternate screen, draws, and leaves sends nothing to the main screen. */
  lemma AlternateSegmentIsSilent(alt: bool, enter: seq<Byte>, body: seq<Byte>, leave: seq<Byte>)
    requires Whole(enter) && SwitchOf(enter) == Some(true)
    requires Whole(leave) && SwitchOf(leave) == Some(false)
    requires Unfinished([], body) == [] && StaysAlternate([], body)
    ensures Tokens(Mode([], alt), enter + body + leave) == []
    ensures ModeAfter(Mode([], alt), enter + body + leave) == Mode([], false)
  {
    LexWhole(alt, enter);
    if IsRIS(enter) { RisIsNoSwitch(enter); }
    AlternateIsSilent([], body);
    LexWhole(true, leave);
    if IsRIS(leave) { RisIsNoSwitch(leave); }
    LexConcat(Mode([], alt), enter, body);
    LexConcat(Mode([], alt), enter + body, leave);
  }
}
