/** Which bytes end a control sequence and which sequences switch screens, spelled out byte by byte. */
module ScreenSwitch {
  import opened Bytes
  import opened Ansi
  import opened Capture
  import opened CaptureTheorems

  // ---- Where a sequence ends ----

  /** None of the bytes that end a sequence opened by `ESC [`. */
  predicate NoFinal(s: seq<Byte>) {
    forall i | 0 <= i < |s| :: !(0x40 <= s[i] <= 0x7e)
  }

  /** Neither BEL nor `ESC \` stands in s. */
  predicate NoTerminator(s: seq<Byte>) {
    && (forall i | 0 <= i < |s| :: s[i] != 0x07)
    && (forall i | 0 < i < |s| :: !(s[i - 1] == 0x1b && s[i] == '\\' as Byte))
  }

  /** `ESC [`, any bytes that do not end it, one that does. */
  ghost predicate ControlForm(q: seq<Byte>) {
    exists body, final: Byte ::
      q == [0x1b, '[' as Byte] + body + [final] && NoFinal(body) && 0x40 <= final <= 0x7e
  }

  /** `ESC ]`, a text, and BEL or `ESC \`. */
  ghost predicate CommandForm(q: seq<Byte>) {
    exists body ::
      NoTerminator(body) &&
      (q == [0x1b, ']' as Byte] + body + [0x07] || q == [0x1b, ']' as Byte] + body + [0x1b, '\\' as Byte])
  }

  /** ESC and any other byte. */
  predicate ShortForm(q: seq<Byte>) {
    |q| == 2 && q[0] == 0x1b && q[1] != '[' as Byte && q[1] != ']' as Byte
  }

  lemma ControlFormIsWhole(q: seq<Byte>)
    requires |q| >= 2 && q[0] == ESC && q[1] == LBRACKET
    ensures Whole(q) <==> ControlForm(q)
  {
    if ControlForm(q) {
      var body, final: Byte :|
        q == [0x1b, '[' as Byte] + body + [final] && NoFinal(body) && 0x40 <= final <= 0x7e;
      forall k | 0 < k < |q|
        ensures !Complete(q[..k])
      {
        if k >= 3 { assert q[k - 1] == body[k - 3]; }
      }
    }
    if Whole(q) {
      var body := q[2..|q| - 1];
      forall i | 0 <= i < |body|
        ensures !(0x40 <= body[i] <= 0x7e)
      {
        assert !Complete(q[..i + 3]) && q[..i + 3][i + 2] == body[i];
      }
      var final := q[|q| - 1];
      assert q == [0x1b, '[' as Byte] + body + [final] && NoFinal(body);
    }
  }

  predicate EndsAt(q: seq<Byte>, i: nat)
    requires 0 < i < |q|
  {
    q[i] == 0x07 || (q[i - 1] == 0x1b && q[i] == '\\' as Byte)
  }

  lemma CommandEndsHere(q: seq<Byte>, k: nat)
    requires 0 < k <= |q| && q[0] == ESC && |q| >= 2 && q[1] == RBRACKET
    ensures Complete(q[..k]) <==> k > 2 && EndsAt(q, k - 1)
  {
    var r := q[..k];
    assert |r| == k && r[0] == ESC && r[k - 1] == q[k - 1];
    if k > 2 { assert r[1] == RBRACKET && r[k - 2] == q[k - 2]; }
  }

  /** So the sequence ends at the first BEL or `ESC \\`. */
  lemma CommandEndsOnce(q: seq<Byte>)
    requires |q| >= 2 && q[0] == ESC && q[1] == RBRACKET
    ensures Whole(q) <==>
            |q| > 2 && EndsAt(q, |q| - 1) && forall i | 2 <= i < |q| - 1 :: !EndsAt(q, i)
  {
    hide Complete;
    assert q[..|q|] == q;
    CommandEndsHere(q, |q|);
    if Whole(q) {
      forall i | 2 <= i < |q| - 1
        ensures !EndsAt(q, i)
      {
        CommandEndsHere(q, i + 1);
      }
    }
    if forall i | 2 <= i < |q| - 1 :: !EndsAt(q, i) {
      forall k | 0 < k < |q|
        ensures !Complete(q[..k])
      {
        CommandEndsHere(q, k);
      }
    }
  }

  lemma CommandFormIsWhole(q: seq<Byte>)
    requires |q| >= 2 && q[0] == ESC && q[1] == RBRACKET
    ensures Whole(q) <==> CommandForm(q)
  {
    hide Complete, Whole;
    CommandEndsOnce(q);
    if CommandForm(q) {
      var body :|
        NoTerminator(body) &&
        (q == [0x1b, ']' as Byte] + body + [0x07] || q == [0x1b, ']' as Byte] + body + [0x1b, '\\' as Byte]);
      forall i | 2 <= i < |q| - 1
        ensures !EndsAt(q, i)
      {
        if i < |body| + 2 {
          assert q[i] == body[i - 2];
          if i >= 3 { assert q[i - 1] == body[i - 3]; }
        }
      }
    }
    if Whole(q) {
      var n := |q|;
      var m := if q[n - 1] == BEL then n - 1 else n - 2;
      forall i | 2 <= i < m
        ensures q[i] != 0x07 && !(q[i - 1] == 0x1b && q[i] == '\\' as Byte)
      {
        assert !EndsAt(q, i);
      }
      assert NoTerminator(q[2..m]);
      assert q == [0x1b, ']' as Byte] + q[2..m] + q[m..];
    }
  }

  /** The finished sequences are exactly the strings of these three forms. */
  lemma WholeForms(q: seq<Byte>)
    ensures Whole(q) <==> ControlForm(q) || CommandForm(q) || ShortForm(q)
  {
    if |q| >= 2 && q[0] == ESC {
      if q[1] == LBRACKET {
        ControlFormIsWhole(q);
      } else if q[1] == RBRACKET {
        CommandFormIsWhole(q);
      } else {
        assert q[..2] == q[..|q|] <==> |q| == 2;
        if |q| > 2 { assert Complete(q[..2]); }
      }
    }
  }

  // ---- Numerals ----

  /** A numeral for n, written d: leading zeros and a plus sign are allowed. */
  ghost predicate Numeral(p: seq<Byte>, d: seq<Byte>) {
    exists zeros: nat :: p == Zeros(zeros) + d || p == ['+' as Byte] + (Zeros(zeros) + d)
  }

  function Zeros(n: nat): seq<Byte> {
    seq(n, _ => '0' as Byte)
  }

  const N1047: seq<Byte> := ['1' as Byte, '0' as Byte, '4' as Byte, '7' as Byte]
  const N1049: seq<Byte> := ['1' as Byte, '0' as Byte, '4' as Byte, '9' as Byte]

  ghost predicate NamesAltScreen(p: seq<Byte>) {
    Numeral(p, N1047) || Numeral(p, N1049)
  }

  lemma ValueSnoc(s: seq<Byte>, d: Byte)
    requires Digits(s) && IsDigit(d)
    ensures Digits(s + [d]) && DecimalValue(s + [d]) == DecimalValue(s) * 10 + (d as int - 0x30)
  {
    assert (s + [d])[..|s|] == s;
  }

  lemma {:induction false} ValueOfZeros(s: seq<Byte>)
    requires Digits(s)
    ensures DecimalValue(s) == 0 <==> s == Zeros(|s|)
  {
    if s != [] {
      var front := s[..|s| - 1];
      ValueOfZeros(front);
      assert s == front + [s[|s| - 1]];
      assert Zeros(|s|) == Zeros(|front|) + ['0' as Byte];
    }
  }

  /** A digit string's value is n exactly when its last digit is n % 10 and the others have the value n / 10. */
  lemma ValueSplits(s: seq<Byte>, n: nat)
    requires Digits(s) && n > 0
    ensures DecimalValue(s) == n <==>
            s != [] && DecimalValue(s[..|s| - 1]) == n / 10 && s[|s| - 1] == 0x30 + n % 10
  {
  }

  /** The last four digits and the value of the others make a value of 1047 or 1049. */
  lemma FourDigits(z: seq<Byte>, s: seq<Byte>, d: Byte)
    requires Digits(s) && |s| >= 4 && z == s[..|s| - 4] && IsDigit(d) && d > 0x30
    ensures DecimalValue(s) == 1040 + (d - 0x30) <==>
            z == Zeros(|z|) && s == z + ['1' as Byte, '0' as Byte, '4' as Byte, d]
  {
    var a, b, c := s[..|s| - 1], s[..|s| - 2], s[..|s| - 3];
    assert a[..|a| - 1] == b && b[..|b| - 1] == c && c[..|c| - 1] == z;
    assert a[|a| - 1] == s[|s| - 2] && b[|b| - 1] == s[|s| - 3] && c[|c| - 1] == s[|s| - 4];
    assert s == z + [s[|s| - 4], s[|s| - 3], s[|s| - 2], s[|s| - 1]];
    hide DecimalValue;
    ValueSplits(s, 1040 + (d - 0x30));
    ValueSplits(a, 104);
    ValueSplits(b, 10);
    ValueSplits(c, 1);
    ValueOfZeros(z);
  }

  lemma ValueOf104x(s: seq<Byte>, d: Byte)
    requires Digits(s) && IsDigit(d) && d > 0x30
    ensures DecimalValue(s) == 1040 + (d - 0x30) <==>
            exists zeros: nat :: s == Zeros(zeros) + ['1' as Byte, '0' as Byte, '4' as Byte, d]
  {
    if |s| < 4 {
      ShortValue(s);
    } else {
      FourDigits(s[..|s| - 4], s, d);
      hide DecimalValue;
      if n: nat :| s == Zeros(n) + ['1' as Byte, '0' as Byte, '4' as Byte, d] {
        assert s[..|s| - 4] == Zeros(n);
      }
    }
  }

  lemma ShortValue(s: seq<Byte>)
    requires Digits(s) && |s| < 4
    ensures DecimalValue(s) < 1000
  {
    if s != [] {
      var a := s[..|s| - 1];
      if a != [] {
        var b := a[..|a| - 1];
        assert DecimalValue(b) <= 9;
        assert DecimalValue(a) <= 99;
      }
    }
  }

  /** The parameters that Go's number parser reads as 1047 or 1049. */
  lemma AltModeNumerals(p: seq<Byte>)
    ensures IsAltMode(p) <==> NamesAltScreen(p)
  {
    var signed := p != [] && (p[0] == '+' as Byte || p[0] == '-' as Byte);
    var digits := if signed then p[1..] else p;
    forall d | d == N1047 || d == N1049
      ensures Numeral(p, d) <==> (p == [] || p[0] != '-' as Byte) && exists n: nat :: digits == Zeros(n) + d
    {
      if n: nat :| p == Zeros(n) + d || p == ['+' as Byte] + (Zeros(n) + d) {
        assert (Zeros(n) + d)[0] == '1' as Byte || (Zeros(n) + d)[0] == '0' as Byte;
        assert digits == Zeros(n) + d;
      }
      if signed { assert p == [p[0]] + digits; }
    }
    forall n: nat
      ensures Digits(Zeros(n) + N1047) && Digits(Zeros(n) + N1049)
    {
    }
    if digits != [] && Digits(digits) {
      var value := DecimalValue(digits);
      assert value == 1047 <==> exists n: nat :: digits == Zeros(n) + N1047 by { ValueOf104x(digits, '7' as Byte); }
      assert value == 1049 <==> exists n: nat :: digits == Zeros(n) + N1049 by { ValueOf104x(digits, '9' as Byte); }
      assert IsAltMode(p) <==> p[0] != '-' as Byte && (value == 1047 || value == 1049);
    } else {
      assert Atoi(p) == None;
    }
  }

  // ---- Setting and resetting ----

  predicate HasByte(s: seq<Byte>, b: Byte) { b in s }

  /** Parameters with a semicolon between each two. */
  function Joined(params: seq<seq<Byte>>): seq<Byte>
    requires params != []
  {
    if |params| == 1 then params[0] else params[0] + [';' as Byte] + Joined(params[1..])
  }

  predicate Parameters(params: seq<seq<Byte>>) {
    params != [] && forall i | 0 <= i < |params| :: !HasByte(params[i], ';' as Byte)
  }

  /** `ESC [ ?`, the parameters, and the final byte: `h` to set, `l` to reset. */
  function PrivateMode(params: seq<seq<Byte>>, final: Byte): seq<Byte>
    requires params != []
  {
    [0x1b, '[' as Byte, '?' as Byte] + Joined(params) + [final]
  }

  lemma {:induction false} SplitPrefix(x: seq<Byte>, s: seq<Byte>)
    requires !HasByte(x, SEMICOLON)
    ensures var r := Split(s, SEMICOLON); Split(x + s, SEMICOLON) == r[0 := x + r[0]]
    decreases x
  {
    var r := Split(s, SEMICOLON);
    if x == [] {
      assert x + s == s && x + r[0] == r[0];
    } else {
      SplitPrefix(x[1..], s);
      assert (x + s)[1..] == x[1..] + s;
      assert [x[0]] + (x[1..] + r[0]) == x + r[0];
    }
  }

  lemma {:induction false} SplitJoined(params: seq<seq<Byte>>)
    requires Parameters(params)
    ensures Split(Joined(params), SEMICOLON) == params
  {
    var x := params[0];
    if |params| == 1 {
      SplitPrefix(x, []);
      assert x + [] == x;
    } else {
      var rest := params[1..];
      SplitJoined(rest);
      SplitPrefix(x, [SEMICOLON] + Joined(rest));
      assert ([SEMICOLON] + Joined(rest))[1..] == Joined(rest);
      assert x + [SEMICOLON] + Joined(rest) == x + ([SEMICOLON] + Joined(rest));
      assert x + [] == x;
    }
  }

  lemma JoinedBefore(b: Byte, params: seq<seq<Byte>>)
    requires Parameters(params) && b != SEMICOLON
    ensures Parameters(Before(b, params)) && Joined(Before(b, params)) == [b] + Joined(params)
  {
    var r := Before(b, params);
    if |params| > 1 {
      assert r[1..] == params[1..];
      assert [b] + (params[0] + [SEMICOLON]) == ([b] + params[0]) + [SEMICOLON];
    }
  }

  lemma JoinedAfterNothing(params: seq<seq<Byte>>)
    requires Parameters(params)
    ensures Parameters([[]] + params) && Joined([[]] + params) == [SEMICOLON] + Joined(params)
  {
    var r := [[]] + params;
    assert r[1..] == params && r[0] == [];
  }

  lemma {:induction false} JoinedSplit(s: seq<Byte>)
    ensures Parameters(Split(s, SEMICOLON)) && Joined(Split(s, SEMICOLON)) == s
  {
    if s != [] {
      var rest := Split(s[1..], SEMICOLON);
      JoinedSplit(s[1..]);
      assert s == [s[0]] + s[1..];
      if s[0] == SEMICOLON {
        JoinedAfterNothing(rest);
      } else {
        JoinedBefore(s[0], rest);
      }
    }
  }

  /** q sets (with `h`) or resets (with `l`) a list of private modes of which one is 1047 or 1049. */
  ghost predicate Selects(q: seq<Byte>, final: Byte) {
    exists params :: Parameters(params) && q == PrivateMode(params, final) &&
                     exists i :: 0 <= i < |params| && NamesAltScreen(params[i])
  }

  lemma ModeParamsOf(params: seq<seq<Byte>>, final: Byte)
    requires Parameters(params) && (final == 'h' as Byte || final == 'l' as Byte)
    ensures var q := PrivateMode(params, final);
            if Joined(params) == [] then ModeParams(q) == [] else ModeParams(q) == params
  {
    var q := PrivateMode(params, final);
    assert q[3..|q| - 1] == Joined(params);
    assert q[..3] == [ESC, LBRACKET, '?' as Byte];
    SplitJoined(params);
  }

  /** The sequences that switch screens, and to which. */
  lemma SwitchIsSelection(q: seq<Byte>)
    ensures SwitchOf(q) == if Selects(q, 'h' as Byte) then Some(true)
                           else if Selects(q, 'l' as Byte) then Some(false) else None
  {
    hide Atoi, Split, Numeral;
    forall final: Byte | (final == 'h' as Byte || final == 'l' as Byte) && Selects(q, final)
      ensures SwitchOf(q) == Some(final == 'h' as Byte)
    {
      var params :| Parameters(params) && q == PrivateMode(params, final) &&
                    exists i :: 0 <= i < |params| && NamesAltScreen(params[i]);
      var i :| 0 <= i < |params| && NamesAltScreen(params[i]);
      AltModeNumerals(params[i]);
      if Joined(params) == [] { NothingJoined(params); assert false; }
      ModeParamsOf(params, final);
      assert params[i] in ModeParams(q) && IsAltMode(params[i]);
    }
    if SwitchOf(q).Some? {
      var p :| p in ModeParams(q) && IsAltMode(p);
      AltModeNumerals(p);
      var params, final := ModeParams(q), q[|q| - 1];
      JoinedSplit(q[3..|q| - 1]);
      assert q == PrivateMode(params, final);
      var i :| 0 <= i < |params| && params[i] == p;
      assert Selects(q, final);
    }
  }

  lemma NothingJoined(params: seq<seq<Byte>>)
    requires Parameters(params) && Joined(params) == []
    ensures forall i | 0 <= i < |params| :: !NamesAltScreen(params[i])
  {
    assert |params| == 1 && params[0] == [];
  }

  /**
   A finished sequence, whatever screen is up: after a list of private modes with 1047 or 1049 in it
   the alternate screen is up if the modes were set and down if they were reset; a full reset takes
   it down; every other sequence leaves it as it was.
   */
  lemma SequenceSwitches(alt: bool, q: seq<Byte>)
    requires ControlForm(q) || CommandForm(q) || ShortForm(q)
    ensures ModeAfter(Mode([], alt), q) ==
            Mode([], if Selects(q, 'h' as Byte) then true
                     else if Selects(q, 'l' as Byte) || q == [0x1b, 'c' as Byte] then false
                     else alt)
  {
    WholeForms(q);
    LexWhole(alt, q);
    SwitchIsSelection(q);
    if IsRIS(q) { RisIsNoSwitch(q); }
  }

  // ---- A program on the alternate screen ----

  /** `ESC [ ? 1047` or `1049`, then `h` or `l`. */
  function AltScreen(number: seq<Byte>, final: Byte): seq<Byte> {
    [0x1b, '[' as Byte, '?' as Byte] + number + [final]
  }

  lemma AltScreenSelects(number: seq<Byte>, final: Byte)
    requires number == N1047 || number == N1049
    requires final == 'h' as Byte || final == 'l' as Byte
    ensures ControlForm(AltScreen(number, final)) && Selects(AltScreen(number, final), final)
    ensures final == 'l' as Byte ==> !Selects(AltScreen(number, final), 'h' as Byte)
  {
    var q := AltScreen(number, final);
    assert q == [0x1b, '[' as Byte] + (['?' as Byte] + number) + [final];
    assert NoFinal(['?' as Byte] + number);
    var params := [number];
    assert q == PrivateMode(params, final);
    assert number == Zeros(0) + number && NamesAltScreen(params[0]);
    assert Parameters(params);
    if Selects(q, 'h' as Byte) {
      var other :| Parameters(other) && q == PrivateMode(other, 'h' as Byte);
      assert q[|q| - 1] == 'h' as Byte;
    }
  }

  /** Nothing in body takes the alternate screen down, and body does not end inside a sequence. */
  ghost predicate StaysUp(body: seq<Byte>) {
    Unfinished([], body) == [] &&
    forall q | q in Sequences([], body) :: q != [0x1b, 'c' as Byte] && !Selects(q, 'l' as Byte)
  }

  /**
   `ESC[?1049h`, a body and `ESC[?1049l`, or the same with 1047 at either end, leave every captured
   field as it was before.
   */
  lemma AltScreenLeavesNoTrace(s: Screen, on: seq<Byte>, body: seq<Byte>, off: seq<Byte>)
    requires s.mode.control == [] && StaysUp(body)
    requires (on == N1047 || on == N1049) && (off == N1047 || off == N1049)
    ensures Feed(s, AltScreen(on, 'h' as Byte) + body + AltScreen(off, 'l' as Byte)) == s.(mode := Mode([], false))
  {
    var enter, leave := AltScreen(on, 'h' as Byte), AltScreen(off, 'l' as Byte);
    AltScreenSelects(on, 'h' as Byte);
    AltScreenSelects(off, 'l' as Byte);
    WholeForms(enter);
    WholeForms(leave);
    SwitchIsSelection(enter);
    SwitchIsSelection(leave);
    forall q | q in Sequences([], body)
      ensures !IsRIS(q) && SwitchOf(q) != Some(false)
    {
      SwitchIsSelection(q);
    }
    AlternateScreenErased(s, enter, body, leave);
  }
}
