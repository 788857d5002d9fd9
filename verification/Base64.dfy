/** Base64 as defined by RFC 4648 section 4, with the padded and the raw decoder of Go's standard library. */
module Base64 {
  import opened Bytes

  const PAD: Byte := 0x3d

  type Sextet = v: int | 0 <= v < 64

  // ---- Bits ----

  /** One to three bytes as sextets, the last filled up with zero bits. */
  function Pack(t: seq<Byte>): (r: seq<Sextet>)
    requires 1 <= |t| <= 3
    ensures |r| == |t| + 1
  {
    var a: int := t[0];
    if |t| == 1 then [a / 4, a % 4 * 16]
    else
      var b: int := t[1];
      if |t| == 2 then [a / 4, a % 4 * 16 + b / 16, b % 16 * 4]
      else
        var c: int := t[2];
        [a / 4, a % 4 * 16 + b / 16, b % 16 * 4 + c / 64, c % 64]
  }

  /** The whole bytes in two to four sextets; leftover bits are ignored. */
  function Unpack(s: seq<Sextet>): (r: seq<Byte>)
    requires 2 <= |s| <= 4
    ensures |r| == |s| - 1
  {
    var u: int, v: int := s[0], s[1];
    if |s| == 2 then [u * 4 + v / 16]
    else
      var w: int := s[2];
      if |s| == 3 then [u * 4 + v / 16, v % 16 * 16 + w / 4]
      else
        var x: int := s[3];
        [u * 4 + v / 16, v % 16 * 16 + w / 4, w % 4 * 64 + x]
  }

  lemma UnpackPack(t: seq<Byte>)
    requires 1 <= |t| <= 3
    ensures Unpack(Pack(t)) == t
  {
    var b := if |t| > 1 then t[1] else 0;
    var c := if |t| > 2 then t[2] else 0;
    var r := Unpack(Pack(t));
    assert r[0] == t[0];
    assert |t| > 1 ==> r[1] == t[1];
    assert |t| > 2 ==> r[2] == t[2];
  }

  // ---- Letters ----

  function Letter(v: Sextet): (b: Byte)
    ensures b == '+' as Byte || b == '/' as Byte || 0x30 <= b <= 0x39 || 0x41 <= b <= 0x5a || 0x61 <= b <= 0x7a
  {
    if v < 26 then v + 0x41
    else if v < 52 then v - 26 + 0x61
    else if v < 62 then v - 52 + 0x30
    else if v == 62 then '+' as Byte
    else '/' as Byte
  }

  function Value(b: Byte): Option<Sextet> {
    var n: int := b;
    if 0x41 <= n <= 0x5a then Some(n - 0x41)
    else if 0x61 <= n <= 0x7a then Some(n - 0x61 + 26)
    else if 0x30 <= n <= 0x39 then Some(n - 0x30 + 52)
    else if b == '+' as Byte then Some(62)
    else if b == '/' as Byte then Some(63)
    else None
  }

  function Letters(s: seq<Sextet>): (r: seq<Byte>)
    ensures |r| == |s|
  {
    if s == [] then [] else [Letter(s[0])] + Letters(s[1..])
  }

  function Values(s: seq<Byte>): (r: Option<seq<Sextet>>)
    ensures r.Some? ==> |r.value| == |s|
  {
    if s == [] then Some([])
    else if Value(s[0]).None? || Values(s[1..]).None? then None
    else Some([Value(s[0]).value] + Values(s[1..]).value)
  }

  lemma {:induction false} ValuesOfLetters(s: seq<Sextet>)
    ensures Values(Letters(s)) == Some(s)
    ensures forall i | 0 <= i < |s| :: Letters(s)[i] != PAD && Plain(Letters(s)[i])
  {
    if s != [] {
      assert Value(Letter(s[0])) == Some(s[0]);
      ValuesOfLetters(s[1..]);
      FirstOff(Letter(s[0]), Letters(s[1..]));
      assert [s[0]] + s[1..] == s;
    }
  }

  predicate Plain(b: Byte) {
    b == PAD || InAlphabet(b)
  }

  // ---- Text ----

  function Encode(t: seq<Byte>): seq<Byte> {
    if t == [] then []
    else if |t| == 1 then Letters(Pack(t)) + [PAD, PAD]
    else if |t| == 2 then Letters(Pack(t)) + [PAD]
    else Letters(Pack(t[..3])) + Encode(t[3..])
  }

  /** Go's decoders skip line breaks wherever they stand. */
  function SkipBreaks(s: seq<Byte>): seq<Byte> {
    if s == [] then [] else SkipByte(s[0]) + SkipBreaks(s[1..])
  }

  function SkipByte(b: Byte): seq<Byte> {
    if b == CR || b == LF then [] else [b]
  }

  function UnpackValues(s: seq<Byte>): Option<seq<Byte>>
    requires 2 <= |s| <= 4
  {
    match Values(s) case None => None case Some(v) => Some(Unpack(v))
  }

  /** Quanta of four letters; the last may be padded, or short when there is no padding. */
  function Quanta(s: seq<Byte>, padded: bool): Option<seq<Byte>>
    decreases |s|
  {
    if s == [] then Some([])
    else if |s| == 4 && padded && s[3] == PAD then UnpackValues(if s[2] == PAD then s[..2] else s[..3])
    else if |s| < 4 then if padded || |s| == 1 then None else UnpackValues(s)
    else
      match (UnpackValues(s[..4]), Quanta(s[4..], padded))
      case (Some(x), Some(rest)) => Some(x + rest)
      case _ => None
  }

  function DecodeStd(s: seq<Byte>): Option<seq<Byte>> { Quanta(SkipBreaks(s), true) }

  function DecodeRaw(s: seq<Byte>): Option<seq<Byte>> { Quanta(SkipBreaks(s), false) }

  // ---- Round trip ----

  lemma {:induction false} EncodedLength(t: seq<Byte>)
    ensures |Encode(t)| == 4 * ((|t| + 2) / 3)
  {
    if |t| >= 3 { EncodedLength(t[3..]); }
  }

  /** Encoded text has no control bytes and no separator. */
  lemma {:induction false} EncodedIsPlain(t: seq<Byte>)
    ensures forall i | 0 <= i < |Encode(t)| :: Plain(Encode(t)[i])
  {
    if t != [] {
      ValuesOfLetters(Pack(if |t| < 3 then t else t[..3]));
      if |t| >= 3 { EncodedIsPlain(t[3..]); }
    }
  }

  lemma {:induction false} NoBreaks(s: seq<Byte>)
    requires forall i | 0 <= i < |s| :: Plain(s[i])
    ensures SkipBreaks(s) == s
  {
    if s != [] {
      assert Plain(s[0]);
      assert forall i | 0 <= i < |s[1..]| :: s[1..][i] == s[i + 1];
      NoBreaks(s[1..]);
    }
  }

  lemma {:induction false} QuantaOfEncoded(t: seq<Byte>)
    ensures Quanta(Encode(t), true) == Some(t)
  {
    if t != [] {
      var front := if |t| < 3 then t else t[..3];
      var letters := Letters(Pack(front));
      ValuesOfLetters(Pack(front));
      UnpackPack(front);
      if |t| < 3 {
        assert Encode(t)[..|letters|] == letters;
      } else {
        assert Encode(t)[..4] == letters && Encode(t)[4..] == Encode(t[3..]);
        QuantaOfEncoded(t[3..]);
        assert t == front + t[3..];
      }
    }
  }

  /** Decoding undoes encoding, for every text. */
  lemma RoundTrip(t: seq<Byte>)
    ensures DecodeStd(Encode(t)) == Some(t)
  {
    EncodedIsPlain(t);
    NoBreaks(Encode(t));
    QuantaOfEncoded(t);
  }

  /** The same without padding. */
  function EncodeRaw(t: seq<Byte>): seq<Byte> {
    if t == [] then []
    else if |t| < 3 then Letters(Pack(t))
    else Letters(Pack(t[..3])) + EncodeRaw(t[3..])
  }

  lemma {:induction false} RawIsUnpadded(t: seq<Byte>)
    ensures Encode(t) == EncodeRaw(t) + if |t| % 3 == 1 then [PAD, PAD] else if |t| % 3 == 2 then [PAD] else []
    ensures |EncodeRaw(t)| == 4 * (|t| / 3) + if |t| % 3 == 0 then 0 else |t| % 3 + 1
    ensures forall i | 0 <= i < |EncodeRaw(t)| :: InAlphabet(EncodeRaw(t)[i])
  {
    if t != [] {
      ValuesOfLetters(Pack(if |t| < 3 then t else t[..3]));
      if |t| >= 3 { RawIsUnpadded(t[3..]); }
    }
  }

  /** What decodes an unpadded encoding: the raw decoder always, the padded one when nothing was missing. */
  lemma RawRoundTrip(t: seq<Byte>)
    ensures DecodeRaw(EncodeRaw(t)) == Some(t)
    ensures DecodeStd(EncodeRaw(t)) == if |t| % 3 == 0 then Some(t) else None
  {
    RawIsUnpadded(t);
    NoBreaks(EncodeRaw(t));
    QuantaOfRaw(t);
  }

  lemma QuantaOfShort(t: seq<Byte>)
    requires 0 < |t| < 3
    ensures Quanta(EncodeRaw(t), false) == Some(t) && Quanta(EncodeRaw(t), true) == None
  {
    ValuesOfLetters(Pack(t));
    UnpackPack(t);
  }

  lemma RawStep(t: seq<Byte>)
    requires |t| >= 3
    ensures var e := EncodeRaw(t);
            |e| >= 4 && e[3] != PAD && UnpackValues(e[..4]) == Some(t[..3]) && e[4..] == EncodeRaw(t[3..])
  {
    ValuesOfLetters(Pack(t[..3]));
    UnpackPack(t[..3]);
    assert EncodeRaw(t)[..4] == Letters(Pack(t[..3]));
  }

  lemma {:induction false} QuantaOfRaw(t: seq<Byte>)
    ensures Quanta(EncodeRaw(t), false) == Some(t)
    ensures Quanta(EncodeRaw(t), true) == if |t| % 3 == 0 then Some(t) else None
  {
    hide *;
    if t == [] {
      QuantaOfNothing();
    } else if |t| < 3 {
      QuantaOfShort(t);
    } else {
      QuantaOfRaw(t[3..]);
      QuantaOfLong(t);
    }
  }

  lemma QuantaOfNothing()
    ensures EncodeRaw([]) == [] && Quanta([], false) == Some([]) && Quanta([], true) == Some([])
  {
  }

  lemma QuantaOfLong(t: seq<Byte>)
    requires |t| >= 3 && Quanta(EncodeRaw(t[3..]), false) == Some(t[3..])
    requires Quanta(EncodeRaw(t[3..]), true) in {Some(t[3..]), None}
    ensures Quanta(EncodeRaw(t), false) == Some(t)
    ensures Quanta(EncodeRaw(t), true) == if Quanta(EncodeRaw(t[3..]), true).Some? then Some(t) else None
  {
    hide *;
    RawStep(t);
    assert t == t[..3] + t[3..];
    QuantaOfFour(EncodeRaw(t), t[..3], t[3..], false);
    if Quanta(EncodeRaw(t[3..]), true).Some? {
      QuantaOfFour(EncodeRaw(t), t[..3], t[3..], true);
    } else {
      QuantaStops(EncodeRaw(t));
    }
  }

  lemma QuantaOfFour(s: seq<Byte>, x: seq<Byte>, y: seq<Byte>, padded: bool)
    requires |s| >= 4 && s[3] != PAD && UnpackValues(s[..4]) == Some(x) && Quanta(s[4..], padded) == Some(y)
    ensures Quanta(s, padded) == Some(x + y)
  {
  }

  lemma QuantaStops(s: seq<Byte>)
    requires |s| >= 4 && s[3] != PAD && Quanta(s[4..], true) == None
    ensures Quanta(s, true) == None
  {
  }

  // ---- The alphabet, the bits, and what is malformed ----

  /** A to Z, a to z, 0 to 9, + and /, in this order. */
  lemma LettersInOrder(v: Sextet)
    ensures Letter(0) == 'A' as Byte && Letter(26) == 'a' as Byte && Letter(52) == '0' as Byte
    ensures Letter(62) == '+' as Byte && Letter(63) == '/' as Byte
    ensures v < 61 && v != 25 && v != 51 ==> Letter(v + 1) == Letter(v) + 1
  {
  }

  predicate InAlphabet(b: Byte) {
    b == '+' as Byte || b == '/' as Byte || 0x30 <= b <= 0x39 || 0x41 <= b <= 0x5a || 0x61 <= b <= 0x7a
  }

  lemma EncodeStep(t: seq<Byte>)
    requires |t| >= 3
    ensures var letters := Letters(Pack(t[..3]));
            |Encode(t)| >= 4 && Encode(t)[..4] == letters && Encode(t)[4..] == Encode(t[3..])
  {
  }

  lemma Rejoin<T>(e: seq<T>, front: seq<T>, rest: seq<T>)
    requires |e| >= 4 && e[..4] == front && e[4..] == rest
    ensures e == front + rest
  {
  }

  /** Three bytes at a time. */
  lemma {:induction false} EncodeConcat(x: seq<Byte>, y: seq<Byte>)
    requires |x| % 3 == 0
    ensures Encode(x + y) == Encode(x) + Encode(y)
  {
    if x == [] {
      assert x + y == y && Encode(x) == [];
    } else {
      EncodeConcat(x[3..], y);
      EncodeStepConcat(x, y);
    }
  }

  lemma EncodeStepConcat(x: seq<Byte>, y: seq<Byte>)
    requires |x| >= 3 && Encode(x[3..] + y) == Encode(x[3..]) + Encode(y)
    ensures Encode(x + y) == Encode(x) + Encode(y)
  {
    hide *;
    assert (x + y)[..3] == x[..3] && (x + y)[3..] == x[3..] + y;
    EncodeStep(x);
    EncodeStep(x + y);
    var letters := Letters(Pack(x[..3]));
    Rejoin(Encode(x), letters, Encode(x[3..]));
    Rejoin(Encode(x + y), letters, Encode(x[3..]) + Encode(y));
    Associative(letters, Encode(x[3..]), Encode(y));
  }

  lemma LastDigit(m: int, u: int, n: int, v: int)
    requires m * 64 + u == n * 64 + v && 0 <= u < 64 && 0 <= v < 64
    ensures m == n && u == v
  {
  }

  lemma BitsOfThree(x: Byte, y: Byte, z: Byte, a: Sextet, b: Sextet, c: Sextet, d: Sextet)
    requires x as int * 65536 + y as int * 256 + z as int == a * 262144 + b * 4096 + c * 64 + d
    ensures Pack([x, y, z]) == [a, b, c, d]
  {
    var p := Pack([x, y, z]);
    var x1, x0 := x as int / 4, x as int % 4;
    var y1, y0 := y as int / 16, y as int % 16;
    var z1, z0 := z as int / 64, z as int % 64;
    assert p == [x1, x0 * 16 + y1, y0 * 4 + z1, z0];
    hide Pack;
    LastDigit(x as int * 1024 + y as int * 4 + z1, z0, a * 4096 + b * 64 + c, d);
    LastDigit(x as int * 16 + y1, y0 * 4 + z1, a * 64 + b, c);
    LastDigit(x1, x0 * 16 + y1, a, b);
  }

  /** Three bytes are four letters, as one number read from the first byte and the first letter on. */
  lemma QuantumOfThree(x: Byte, y: Byte, z: Byte, a: Sextet, b: Sextet, c: Sextet, d: Sextet)
    requires x as int * 65536 + y as int * 256 + z as int == a * 262144 + b * 4096 + c * 64 + d
    ensures Encode([x, y, z]) == [Letter(a), Letter(b), Letter(c), Letter(d)]
  {
    assert [x, y, z][..3] == [x, y, z] && [x, y, z][3..] == [];
    BitsOfThree(x, y, z, a, b, c, d);
    hide Pack;
    assert Letters([a, b, c, d]) == [Letter(a), Letter(b), Letter(c), Letter(d)] by { LettersAt([a, b, c, d]); }
  }

  /** One or two bytes are filled up with zero bits, and the missing letters are padding. */
  lemma QuantumOfFewer(x: Byte, y: Byte, a: Sextet, b: Sextet, c: Sextet)
    requires x as int * 1024 + y as int * 4 == a * 4096 + b * 64 + c
    ensures Encode([x, y]) == [Letter(a), Letter(b), Letter(c), '=' as Byte]
    ensures y == 0 ==> Encode([x]) == [Letter(a), Letter(b), '=' as Byte, '=' as Byte]
  {
    BitsOfTwo(x, y, a, b, c);
    hide Pack;
    LettersAt([a, b, c]);
    LettersAt([a, b]);
  }

  lemma BitsOfTwo(x: Byte, y: Byte, a: Sextet, b: Sextet, c: Sextet)
    requires x as int * 1024 + y as int * 4 == a * 4096 + b * 64 + c
    ensures Pack([x, y]) == [a, b, c] && (y == 0 ==> Pack([x]) == [a, b])
  {
    var x1, x0 := x as int / 4, x as int % 4;
    var y1, y0 := y as int / 16, y as int % 16;
    assert Pack([x, y]) == [x1, x0 * 16 + y1, y0 * 4] && Pack([x]) == [x1, x0 * 16];
    hide Pack;
    LastDigit(x as int * 16 + y1, y0 * 4, a * 64 + b, c);
    LastDigit(x1, x0 * 16 + y1, a, b);
  }

  lemma {:induction false} LettersAt(s: seq<Sextet>)
    ensures forall i | 0 <= i < |s| :: Letters(s)[i] == Letter(s[i])
  {
    if s != [] { LettersAt(s[1..]); }
  }

  // ---- What decodes at all ----

  predicate AllLetters(s: seq<Byte>) {
    forall i | 0 <= i < |s| :: InAlphabet(s[i])
  }

  lemma {:induction false} ValuesIff(s: seq<Byte>)
    ensures Values(s).Some? <==> AllLetters(s)
  {
    if s != [] {
      ValuesIff(s[1..]);
      assert AllLetters(s) <==> InAlphabet(s[0]) && AllLetters(s[1..]) by {
        assert forall i | 0 <= i < |s[1..]| :: s[1..][i] == s[i + 1];
      }
    }
  }

  /** How many padding letters end s, two at most. */
  function Padding(s: seq<Byte>): nat {
    if s == [] || s[|s| - 1] != PAD then 0 else if |s| == 1 || s[|s| - 2] != PAD then 1 else 2
  }

  lemma QuartetIff(s: seq<Byte>)
    requires |s| == 4
    ensures Quanta(s, false).Some? <==> AllLetters(s)
    ensures Quanta(s, true).Some? <==> AllLetters(s[..|s| - Padding(s)])
  {
    hide Values, Unpack;
    ValuesIff(s);
    ValuesIff(s[..2]);
    ValuesIff(s[..3]);
    assert s[..4] == s && s[4..] == [];
    if s[3] != PAD { assert s[..|s| - Padding(s)] == s; }
  }

  lemma ShortQuantaIff(s: seq<Byte>)
    requires |s| < 4
    ensures Quanta(s, false).Some? <==> |s| != 1 && AllLetters(s)
    ensures Quanta(s, true).Some? <==> s == []
  {
    ValuesIff(s);
  }

  lemma QuantaStep(s: seq<Byte>, padded: bool)
    requires |s| > 4
    ensures Quanta(s, padded).Some? <==> Values(s[..4]).Some? && Quanta(s[4..], padded).Some?
  {
  }

  /** The padded decoder takes letters in fours, the last one or two of them padding; the raw one letters but for a single last one. */
  lemma {:induction false} QuantaIff(s: seq<Byte>)
    ensures Quanta(s, false).Some? <==> |s| % 4 != 1 && AllLetters(s)
    ensures Quanta(s, true).Some? <==> |s| % 4 == 0 && AllLetters(s[..|s| - Padding(s)])
  {
    hide Quanta, Values, AllLetters;
    if |s| < 4 {
      ShortQuantaIff(s);
      assert AllLetters([]) by { ValuesIff([]); NothingHasValues(); }
    } else if |s| == 4 {
      QuartetIff(s);
    } else {
      var x, y := s[..4], s[4..];
      QuantaStep(s, false);
      QuantaStep(s, true);
      QuantaIff(y);
      ValuesIff(x);
      assert s == x + y;
      SplitLetters(x, y);
      if |s| % 4 == 0 {
        var n := |y| - Padding(s);
        assert Padding(y) == Padding(s) && s[..|s| - Padding(s)] == x + y[..n];
        SplitLetters(x, y[..n]);
      }
    }
  }

  lemma NothingHasValues()
    ensures Values([]) == Some([])
  {
  }

  lemma SplitLetters(x: seq<Byte>, y: seq<Byte>)
    ensures AllLetters(x + y) <==> AllLetters(x) && AllLetters(y)
  {
    assert forall i | 0 <= i < |y| :: (x + y)[|x| + i] == y[i];
    assert forall i | 0 <= i < |x| :: (x + y)[i] == x[i];
  }

  lemma {:induction false} SkipConcat(x: seq<Byte>, y: seq<Byte>)
    ensures SkipBreaks(x + y) == SkipBreaks(x) + SkipBreaks(y)
  {
    if x == [] {
      assert x + y == y;
    } else {
      SkipConcat(x[1..], y);
      assert (x + y)[0] == x[0] && (x + y)[1..] == x[1..] + y;
      Associative(SkipByte(x[0]), SkipBreaks(x[1..]), SkipBreaks(y));
    }
  }

  /** A line break anywhere makes no difference to either decoder. */
  lemma BreaksDoNotMatter(x: seq<Byte>, y: seq<Byte>, b: Byte)
    requires b == 0x0a || b == 0x0d
    ensures DecodeStd(x + [b] + y) == DecodeStd(x + y) && DecodeRaw(x + [b] + y) == DecodeRaw(x + y)
  {
    SkipConcat(x, y);
    SkipConcat(x + [b], y);
    SkipConcat(x, [b]);
    assert SkipBreaks([b]) == [] by { assert [b][1..] == [] && SkipByte(b) == []; }
    assert SkipBreaks(x) + [] == SkipBreaks(x);
  }
}
