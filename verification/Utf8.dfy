/**
 UTF-8 as Go's `[]rune(s)` and `string(r)` conversions read and write it: a byte that does not
 begin a well-formed sequence decodes, on its own, to U+FFFD.
 */
module Utf8 {
  import opened Bytes

  /** A Unicode scalar value. */
  type Rune = r: int | 0 <= r < 0xD800 || 0xE000 <= r <= 0x10FFFF

  const REPLACEMENT: Rune := 0xFFFD

  predicate Continuation(b: Byte) { 0x80 <= b <= 0xBF }

  /** The number of bytes a sequence starting with b announces; 1 also for a byte that starts none. */
  function Announced(b: Byte): nat {
    if 0xC2 <= b <= 0xDF then 2
    else if 0xE0 <= b <= 0xEF then 3
    else if 0xF0 <= b <= 0xF4 then 4
    else 1
  }

  /** Whether the second byte keeps the value in range: no overlong form, no surrogate, no value over U+10FFFF. */
  predicate SecondOk(b: Byte, c: Byte) {
    if b == 0xE0 then 0xA0 <= c <= 0xBF
    else if b == 0xED then 0x80 <= c <= 0x9F
    else if b == 0xF0 then 0x90 <= c <= 0xBF
    else if b == 0xF4 then 0x80 <= c <= 0x8F
    else Continuation(c)
  }

  predicate WellFormedPrefix(s: seq<Byte>)
    requires |s| > 0
  {
    var n := Announced(s[0]);
    && |s| >= n
    && (n == 1 ==> s[0] < 0x80)
    && (n >= 2 ==> SecondOk(s[0], s[1]))
    && (n >= 3 ==> Continuation(s[2]))
    && (n >= 4 ==> Continuation(s[3]))
  }

  function FirstSize(s: seq<Byte>): (n: nat)
    requires |s| > 0
    ensures 0 < n <= |s|
  {
    if WellFormedPrefix(s) then Announced(s[0]) else 1
  }

  function FirstRune(s: seq<Byte>): Rune
    requires |s| > 0
  {
    if !WellFormedPrefix(s) then REPLACEMENT
    else
      var b0: int := s[0];
      if Announced(s[0]) == 1 then b0
      else
        var b1: int := s[1] - 0x80;
        if Announced(s[0]) == 2 then (b0 - 0xC0) * 64 + b1
        else
          var b2: int := s[2] - 0x80;
          if Announced(s[0]) == 3 then (b0 - 0xE0) * 4096 + b1 * 64 + b2
          else
            var b3: int := s[3] - 0x80;
            (b0 - 0xF0) * 262144 + b1 * 4096 + b2 * 64 + b3
  }

  function Decode(s: seq<Byte>): seq<Rune> {
    if s == [] then [] else [FirstRune(s)] + Decode(s[FirstSize(s)..])
  }

  function EncodeRune(r: Rune): (s: seq<Byte>)
    ensures 1 <= |s| <= 4
  {
    if r < 0x80 then [r]
    else if r < 0x800 then [0xC0 + r / 64, 0x80 + r % 64]
    else if r < 0x10000 then [0xE0 + r / 4096, 0x80 + r / 64 % 64, 0x80 + r % 64]
    else [0xF0 + r / 262144, 0x80 + r / 4096 % 64, 0x80 + r / 64 % 64, 0x80 + r % 64]
  }

  function Encode(rs: seq<Rune>): seq<Byte> {
    if rs == [] then [] else EncodeRune(rs[0]) + Encode(rs[1..])
  }

  lemma SixBits(r: nat)
    ensures r == r / 64 * 64 + r % 64
    ensures r / 64 / 64 == r / 4096 && r / 4096 / 64 == r / 262144
  {
  }

  lemma EncodeRuneReads(r: Rune, rest: seq<Byte>)
    ensures var s := EncodeRune(r) + rest;
            WellFormedPrefix(s) && FirstSize(s) == |EncodeRune(r)| && FirstRune(s) == r
  {
    var s := EncodeRune(r) + rest;
    assert forall i | 0 <= i < |EncodeRune(r)| :: s[i] == EncodeRune(r)[i];
    SixBits(r);
    SixBits(r / 64);
    SixBits(r / 4096);
    if r < 0x80 {
    } else if r < 0x800 {
    } else if r < 0x10000 {
    } else {
    }
  }

  /** The forms of RFC 3629, section 3: the shortest one whose payload bits hold the value. */
  lemma RuneForms(r: Rune)
    ensures var e := EncodeRune(r);
            && |e| == (if r <= 0x7F then 1 else if r <= 0x7FF then 2 else if r <= 0xFFFF then 3 else 4)
            && (forall i | 0 < i < |e| :: 0x80 <= e[i] <= 0xBF)
            && (|e| == 1 ==> e[0] == r)
            && (|e| == 2 ==> 0xC0 <= e[0] <= 0xDF && r == Payload(e[0], 0xC0) * 64 + Payload(e[1], 0x80))
            && (|e| == 3 ==> 0xE0 <= e[0] <= 0xEF &&
                             r == (Payload(e[0], 0xE0) * 64 + Payload(e[1], 0x80)) * 64 + Payload(e[2], 0x80))
            && (|e| == 4 ==> 0xF0 <= e[0] <= 0xF7 &&
                             r == ((Payload(e[0], 0xF0) * 64 + Payload(e[1], 0x80)) * 64 + Payload(e[2], 0x80)) * 64
                                  + Payload(e[3], 0x80))
  {
    SixBits(r);
    SixBits(r / 64);
    SixBits(r / 4096);
  }

  /** What a byte carries besides its marker bits. */
  function Payload(b: Byte, marker: int): int { b as int - marker }

  lemma WellFormedIsEncoded(s: seq<Byte>)
    requires s != [] && WellFormedPrefix(s)
    ensures s[..FirstSize(s)] == EncodeRune(FirstRune(s))
  {
    var r: int := FirstRune(s);
    SixBits(r);
    if Announced(s[0]) == 2 {
      assert r / 64 == s[0] - 0xC0 && r % 64 == s[1] - 0x80;
    } else if Announced(s[0]) == 3 {
      var high := (s[0] as int - 0xE0) * 64 + (s[1] - 0x80);
      assert r == high * 64 + (s[2] - 0x80);
      assert r / 64 == high && high / 64 == s[0] as int - 0xE0;
    } else if Announced(s[0]) == 4 {
      var top := (s[0] as int - 0xF0) * 64 + (s[1] - 0x80);
      var high := top * 64 + (s[2] - 0x80);
      assert r == high * 64 + (s[3] - 0x80);
      assert r / 64 == high && high / 64 == top && top / 64 == s[0] as int - 0xF0;
    }
  }

  /** Decoding reads a rune where the bytes of one stand, and one replacement for a byte where none begins. */
  lemma FirstRuneIs(s: seq<Byte>)
    requires s != []
    ensures forall r: Rune | EncodeRune(r) <= s :: FirstRune(s) == r && FirstSize(s) == |EncodeRune(r)|
    ensures (forall r: Rune :: !(EncodeRune(r) <= s)) ==> FirstRune(s) == 0xFFFD && FirstSize(s) == 1
  {
    forall r: Rune | EncodeRune(r) <= s
      ensures FirstRune(s) == r && FirstSize(s) == |EncodeRune(r)|
    {
      EncodeRuneReads(r, s[|EncodeRune(r)|..]);
      assert EncodeRune(r) + s[|EncodeRune(r)|..] == s;
    }
    if WellFormedPrefix(s) {
      WellFormedIsEncoded(s);
      assert EncodeRune(FirstRune(s)) <= s;
    }
  }

  lemma DecodeFront(r: Rune, tail: seq<Byte>)
    ensures Decode(EncodeRune(r) + tail) == [r] + Decode(tail)
  {
    EncodeRuneReads(r, tail);
    assert (EncodeRune(r) + tail)[|EncodeRune(r)|..] == tail;
  }

  /** Encoding is undone by decoding, whatever bytes follow. */
  lemma {:induction false} DecodeEncodeThen(rs: seq<Rune>, rest: seq<Byte>)
    ensures Decode(Encode(rs) + rest) == rs + Decode(rest)
  {
    if rs == [] {
      assert Encode(rs) + rest == rest;
    } else {
      var first, later := rs[0], rs[1..];
      DecodeEncodeThen(later, rest);
      DecodeFront(first, Encode(later) + rest);
      Associative(EncodeRune(first), Encode(later), rest);
      Associative([first], later, Decode(rest));
      assert rs == [first] + later;
    }
  }

  /** Every rune string survives a round trip through bytes. */
  lemma DecodeEncode(rs: seq<Rune>)
    ensures Decode(Encode(rs)) == rs
  {
    DecodeEncodeThen(rs, []);
    assert Encode(rs) + [] == Encode(rs);
  }

  /** A backspace: the text without its last rune (malformed bytes come back as U+FFFD). */
  function TrimLastRune(s: seq<Byte>): seq<Byte> {
    var rs := Decode(s);
    if rs == [] then s else Encode(rs[..|rs| - 1])
  }

  /** A backspace removes exactly one rune, the last, and leaves the runes before it alone. */
  lemma TrimLastRuneDropsOne(s: seq<Byte>)
    requires s != []
    ensures Decode(s) != [] && Decode(TrimLastRune(s)) == Decode(s)[..|Decode(s)| - 1]
  {
    DecodeEncode(Decode(s)[..|Decode(s)| - 1]);
  }

  // ---- ASCII and the rest ----

  lemma {:induction false} AsciiEncodes(s: seq<Byte>)
    requires forall i | 0 <= i < |s| :: s[i] < 0x80
    ensures Encode(s) == s
  {
    if s != [] {
      AsciiEncodes(s[1..]);
      assert s == [s[0]] + s[1..];
    }
  }

  predicate AllHigh(x: seq<Byte>) {
    forall i | 0 <= i < |x| :: x[i] >= 0x80
  }

  lemma EncodedRuneIsUniform(r: Rune)
    ensures if r < 0x80 then EncodeRune(r) == [r] else AllHigh(EncodeRune(r))
  {
  }

  /** An ASCII byte is a rune of its own, whatever stands before it. */
  lemma {:induction false} DecodeSnocAscii(s: seq<Byte>, b: Byte)
    requires b < 0x80
    ensures Decode(s + [b]) == Decode(s) + [b]
  {
    if s == [] {
      assert s + [b] == [b] && [b][1..] == [];
    } else {
      var t, n := s + [b], FirstSize(s);
      assert FirstSize(t) == n && FirstRune(t) == FirstRune(s);
      assert t[n..] == s[n..] + [b];
      DecodeSnocAscii(s[n..], b);
    }
  }

  lemma {:induction false} EncodeSnoc(rs: seq<Rune>, r: Rune)
    ensures Encode(rs + [r]) == Encode(rs) + EncodeRune(r)
  {
    if rs == [] {
      assert rs + [r] == [r] && [r][1..] == [];
    } else {
      EncodeSnoc(rs[1..], r);
      assert rs + [r] == [rs[0]] + (rs[1..] + [r]);
      Associative(EncodeRune(rs[0]), Encode(rs[1..]), EncodeRune(r));
    }
  }

  lemma {:induction false} EncodeConcat(x: seq<Rune>, y: seq<Rune>)
    ensures Encode(x + y) == Encode(x) + Encode(y)
  {
    if x == [] {
      assert x + y == y;
    } else {
      EncodeConcat(x[1..], y);
      assert x + y == [x[0]] + (x[1..] + y);
      FirstOff(x[0], x[1..] + y);
      Associative(EncodeRune(x[0]), Encode(x[1..]), Encode(y));
    }
  }

  /** The text with every malformed byte replaced. */
  function Rewritten(s: seq<Byte>): seq<Byte> {
    Encode(Decode(s))
  }

  /** Text that decoding and encoding give back. */
  predicate WellFormed(s: seq<Byte>) {
    Rewritten(s) == s
  }

  // ---- Where two texts meet ----

  /** An ASCII byte separates: nothing before it is read together with anything after it. */
  lemma {:induction false} DecodeSplitAscii(s: seq<Byte>, b: Byte, z: seq<Byte>)
    requires b < 0x80
    ensures Decode(s + ([b] + z)) == Decode(s) + ([b] + Decode(z))
    decreases |s|
  {
    if s == [] {
      assert s + ([b] + z) == [b] + z;
      FirstOff(b, z);
    } else {
      var t, n := s + ([b] + z), FirstSize(s);
      assert FirstSize(t) == n && FirstRune(t) == FirstRune(s);
      assert t[n..] == s[n..] + ([b] + z);
      DecodeSplitAscii(s[n..], b, z);
      Associative([FirstRune(s)], Decode(s[n..]), [b] + Decode(z));
    }
  }

  /** Continuation bytes on their own count one rune each. */
  lemma {:induction false} LooseContinuations(s: seq<Byte>, k: nat)
    requires k <= |s| && forall i | 0 <= i < k :: Continuation(s[i])
    ensures |Decode(s)| == k + |Decode(s[k..])|
  {
    if k == 0 {
      assert s[0..] == s;
    } else {
      assert FirstSize(s) == 1;
      assert s[1..][k - 1..] == s[k..];
      LooseContinuations(s[1..], k - 1);
    }
  }

  /** The beginning of a sequence that is not all there counts one rune a byte. */
  lemma BrokenSequence(x: seq<Byte>, y: seq<Byte>)
    requires x != [] && FirstSize(x + y) > |x|
    ensures |Decode(x)| == |x|
  {
    assert FirstSize(x) == 1;
    assert forall i | 0 < i < |x| :: x[i] == (x + y)[i] && Continuation(x[i]);
    LooseContinuations(x[1..], |x| - 1);
    assert x[1..][|x| - 1..] == [];
  }

  /** Behind its first byte a sequence has continuations only. */
  lemma InsideContinues(t: seq<Byte>, i: nat)
    requires t != [] && 0 < i < FirstSize(t)
    ensures Continuation(t[i])
  {
    assert WellFormedPrefix(t) && i < Announced(t[0]) <= 4;
  }

  lemma StraddlingRune(x: seq<Byte>, y: seq<Byte>)
    requires x != [] && FirstSize(x + y) > |x|
    ensures |Decode(x + y)| < |Decode(x)| + |Decode(y)|
  {
    var t := x + y;
    var n := FirstSize(t);
    var k := n - |x|;
    assert |Decode(t)| == 1 + |Decode(t[n..])|;
    hide FirstSize, FirstRune, Decode, Continuation;
    forall i | 0 <= i < k
      ensures Continuation(y[i])
    {
      InsideContinues(t, |x| + i);
      assert t[|x| + i] == y[i];
    }
    BrokenSequence(x, y);
    LooseContinuations(y, k);
    assert t[n..] == y[k..];
  }

  /**
   Joining two texts can only make runes of what were malformed bytes: there are no more runes than
   before, and if there are as many they are the same.
   */
  lemma {:induction false} DecodeMerge(x: seq<Byte>, y: seq<Byte>)
    ensures |Decode(x + y)| <= |Decode(x)| + |Decode(y)|
    ensures |Decode(x + y)| == |Decode(x)| + |Decode(y)| ==> Decode(x + y) == Decode(x) + Decode(y)
    decreases |x|
  {
    if x == [] {
      assert x + y == y;
    } else {
      var t := x + y;
      var n := FirstSize(t);
      if n <= |x| {
        assert FirstSize(x) == n && FirstRune(x) == FirstRune(t);
        assert t[n..] == x[n..] + y;
        DecodeMerge(x[n..], y);
        Associative([FirstRune(x)], Decode(x[n..]), Decode(y));
      } else {
        StraddlingRune(x, y);
      }
    }
  }
}
