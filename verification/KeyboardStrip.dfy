/** The output filter that removes keyboard-enhancement sequences, chunk by chunk. */
module KeyboardStrip {
  import opened Bytes
  import opened Ansi

  // ---- Recognising the sequences ----

  predicate IsFinal(c: Byte) {
    0x40 <= c <= 0x7E || c < 0x20 || c > 0x3F
  }

  predicate AllDigits(p: seq<Byte>) {
    p != [] && forall i | 0 <= i < |p| :: IsDigit(p[i])
  }

  predicate ValidKittyParams(p: seq<Byte>) {
    forall i | 0 <= i < |p| :: p[i] == SEMICOLON || IsDigit(p[i])
  }

  predicate IsKeyboardEnhancement(q: seq<Byte>) {
    |q| >= 3 && q[0] == ESC && q[1] == LBRACKET &&
    var final, body := q[|q| - 1], q[2..|q| - 1];
    if final == 'm' as Byte then
      body != [] && body[0] == '>' as Byte &&
      (body[1..] == ['4' as Byte] ||
       (|body| >= 3 && body[1] == '4' as Byte && body[2] == SEMICOLON && AllDigits(body[3..])))
    else if final == 'u' as Byte then
      body != [] &&
      (if body[0] == '?' as Byte || body[0] == '<' as Byte then |body| == 1
       else (body[0] == '=' as Byte || body[0] == '>' as Byte) && ValidKittyParams(body[1..]))
    else false
  }

  function CSI(body: seq<Byte>, final: Byte): seq<Byte> {
    [ESC, LBRACKET] + body + [final]
  }

  /** At least one digit, and digits only. */
  ghost predicate Number(d: seq<Byte>) {
    |d| >= 1 && forall i | 0 <= i < |d| :: '0' as Byte <= d[i] <= '9' as Byte
  }

  /** Digits and semicolons only, or nothing. */
  ghost predicate Numbers(d: seq<Byte>) {
    forall i | 0 <= i < |d| :: '0' as Byte <= d[i] <= '9' as Byte || d[i] == ';' as Byte
  }

  /** The forms one by one: modifyOtherKeys, then the kitty query, pop, set and push. */
  ghost predicate IsListedForm(q: seq<Byte>) {
    || q == CSI(['>' as Byte, '4' as Byte], 'm' as Byte)
    || (exists d :: Number(d) && q == CSI(['>' as Byte, '4' as Byte, ';' as Byte] + d, 'm' as Byte))
    || q == CSI(['?' as Byte], 'u' as Byte)
    || q == CSI(['<' as Byte], 'u' as Byte)
    || (exists p :: Numbers(p) && q == CSI(['=' as Byte] + p, 'u' as Byte))
    || (exists p :: Numbers(p) && q == CSI(['>' as Byte] + p, 'u' as Byte))
  }

  /** Exactly the listed forms are taken out. */
  lemma EnhancementsAreListed(q: seq<Byte>)
    ensures IsKeyboardEnhancement(q) <==> IsListedForm(q)
  {
    if IsKeyboardEnhancement(q) {
      var final, body := q[|q| - 1], q[2..|q| - 1];
      assert q == CSI(body, final);
      if final == 'm' as Byte {
        assert |body| >= 3 ==> body == ['>' as Byte, '4' as Byte, SEMICOLON] + body[3..];
        assert body[1..] == ['4' as Byte] ==> body == ['>' as Byte, '4' as Byte];
        assert |body| >= 3 && AllDigits(body[3..]) ==> Number(body[3..]);
      } else {
        assert body == [body[0]] + body[1..];
        assert ValidKittyParams(body[1..]) ==> Numbers(body[1..]);
      }
    }
    if IsListedForm(q) {
      ListedFormIsTaken(q);
    }
  }

  lemma ModifyOtherKeysIsTaken(d: seq<Byte>)
    requires Number(d)
    ensures IsKeyboardEnhancement(CSI(['>' as Byte, '4' as Byte, SEMICOLON] + d, 'm' as Byte))
  {
    var body := ['>' as Byte, '4' as Byte, SEMICOLON] + d;
    var q := CSI(body, 'm' as Byte);
    assert q[2..|q| - 1] == body && body[3..] == d && AllDigits(d);
  }

  lemma KittyIsTaken(b: Byte, p: seq<Byte>)
    requires Numbers(p) && (b == '=' as Byte || b == '>' as Byte)
    ensures IsKeyboardEnhancement(CSI([b] + p, 'u' as Byte))
  {
    var q := CSI([b] + p, 'u' as Byte);
    assert q[2..|q| - 1] == [b] + p && ValidKittyParams(p);
    FirstOff(b, p);
  }

  lemma ShortFormsAreTaken()
    ensures IsKeyboardEnhancement(CSI(['>' as Byte, '4' as Byte], 'm' as Byte))
    ensures IsKeyboardEnhancement(CSI(['?' as Byte], 'u' as Byte)) && IsKeyboardEnhancement(CSI(['<' as Byte], 'u' as Byte))
  {
  }

  lemma ListedFormIsTaken(q: seq<Byte>)
    requires IsListedForm(q)
    ensures IsKeyboardEnhancement(q)
  {
    hide IsKeyboardEnhancement, CSI, Number, Numbers;
    ShortFormsAreTaken();
    if d :| Number(d) && q == CSI(['>' as Byte, '4' as Byte, ';' as Byte] + d, 'm' as Byte) {
      ModifyOtherKeysIsTaken(d);
    } else if p :| Numbers(p) && q == CSI(['=' as Byte] + p, 'u' as Byte) {
      KittyIsTaken('=' as Byte, p);
    } else if p :| Numbers(p) && q == CSI(['>' as Byte] + p, 'u' as Byte) {
      KittyIsTaken('>' as Byte, p);
    }
  }

  // ---- Tokens ----

  /** Parameter and intermediate bytes only. */
  predicate Parameters(s: seq<Byte>) {
    forall i | 0 <= i < |s| :: 0x20 <= s[i] <= 0x3F
  }

  /** A single byte, or ESC [ with parameter bytes and the first byte that is not one. */
  ghost predicate IsToken(t: seq<Byte>) {
    || |t| == 1
    || (|t| >= 3 && t[0] == ESC && t[1] == LBRACKET && !(0x20 <= t[|t| - 1] <= 0x3F) && Parameters(t[2..|t| - 1]))
  }

  /** How long the parameter run at the front of p is. */
  function ParamRun(p: seq<Byte>): (n: nat)
    ensures n <= |p|
  {
    if p == [] || IsFinal(p[0]) then 0 else 1 + ParamRun(p[1..])
  }

  /** The length of the token at the front of p, or 0 when more input is needed to tell. */
  function TokenLength(p: seq<Byte>): (n: nat)
    requires p != []
    ensures n <= |p|
  {
    if p[0] != ESC then 1
    else if |p| == 1 then 0
    else if p[1] != LBRACKET then 1
    else
      var n := ParamRun(p[2..]);
      if 2 + n == |p| then 0 else 3 + n
  }

  function Tokenize(p: seq<Byte>): seq<seq<Byte>> {
    if p == [] || TokenLength(p) == 0 then []
    else [p[..TokenLength(p)]] + Tokenize(p[TokenLength(p)..])
  }

  /** What is held back for the next write. */
  function Rest(p: seq<Byte>): seq<Byte> {
    if p == [] || TokenLength(p) == 0 then p else Rest(p[TokenLength(p)..])
  }

  /** The tokens that are passed on. */
  function Keep(toks: seq<seq<Byte>>): seq<Byte> {
    if toks == [] then []
    else (if IsKeyboardEnhancement(toks[0]) then [] else toks[0]) + Keep(toks[1..])
  }

  function Filter(p: seq<Byte>): seq<Byte> {
    Keep(Tokenize(p))
  }

  /** The filter takes the token at the front and goes on with the rest. */
  lemma FilterStep(p: seq<Byte>)
    requires p != []
    ensures var n := TokenLength(p);
            if n == 0 then Filter(p) == [] && Rest(p) == p
            else
              && Filter(p) == (if IsKeyboardEnhancement(p[..n]) then [] else p[..n]) + Filter(p[n..])
              && Rest(p) == Rest(p[n..])
  {
  }

  // ---- The writer ----

  class KeyboardStripWriter {
    var buf: seq<Byte>      // held back between writes
    var written: seq<Byte>  // all that reached the wrapped writer

    constructor ()
      ensures buf == [] && written == []
    {
      buf, written := [], [];
    }

    /** The index of the byte that ends the sequence whose parameters begin at start. */
    static method ScanCSIEnd(data: seq<Byte>, start: nat) returns (end: nat, ok: bool)
      requires start <= |data|
      ensures ok <==> start + ParamRun(data[start..]) < |data|
      ensures ok ==> end == start + ParamRun(data[start..])
      ensures ok ==> start <= end < |data| && Parameters(data[start..end]) && !(0x20 <= data[end] <= 0x3F)
      ensures !ok ==> Parameters(data[start..])
    {
      var j := start;
      while j < |data|
        invariant start <= j <= |data|
        invariant ParamRun(data[start..]) == j - start + ParamRun(data[j..])
        invariant Parameters(data[start..j])
      {
        assert data[j..][1..] == data[j + 1..];
        var c := data[j];
        if 0x40 <= c <= 0x7E {
          return j, true;
        }
        if c < 0x20 || c > 0x3F {
          return j, true;
        }
        assert data[start..j + 1] == data[start..j] + [c];
        j := j + 1;
      }
      assert data[start..j] == data[start..];
      return 0, false;
    }

    /** The scan of one write: the bytes passed on and the incomplete sequence at the end. */
    static method Strip(data: seq<Byte>) returns (out: seq<Byte>, held: seq<Byte>)
      ensures out == Filter(data) && held == Rest(data)
    {
      hide *;
      out, held := [], [];
      var i := 0;
      ScanStarts(data);
      while i < |data|
        invariant i <= |data| && held == [] && Scanned(data, i, out)
      {
        var b := data[i];
        if b != ESC {
          PassByte(data, i, out);
          out := out + [b];
          i := i + 1;
          continue;
        }
        if i + 1 >= |data| {
          HoldTail(data, i, out);
          return out, data[i..];
        }
        if data[i + 1] != LBRACKET {
          PassByte(data, i, out);
          out := out + [data[i]];
          i := i + 1;
          continue;
        }
        var end, ok := ScanCSIEnd(data, i + 2);
        if !ok {
          HoldTail(data, i, out);
          return out, data[i..];
        }
        var q := data[i..end + 1];
        TakeSequence(data, i, out, end);
        if !IsKeyboardEnhancement(q) {
          out := out + q;
        }
        i := end + 1;
      }
      ScanEnds(data, out);
    }

    /** accepts: whether the wrapped writer takes the bytes; when it does not, they are gone. */
    method Write(p: seq<Byte>, accepts: bool) returns (n: nat, err: bool)
      modifies this
      ensures buf == Rest(old(buf) + p)
      ensures written == old(written) + if accepts then Filter(old(buf) + p) else []
      ensures err == !accepts && n == if accepts then |p| else 0
    {
      var data := p;
      if |buf| > 0 {
        data := buf + p;
      }
      assert data == old(buf) + p;
      var out;
      out, buf := Strip(data);
      if !accepts {
        assert written + [] == written;
        return 0, true;
      }
      written := written + out;
      return |p|, false;
    }
  }

  /** The filter has got to position i with this output. */
  ghost predicate Scanned(data: seq<Byte>, i: nat, out: seq<Byte>) {
    i <= |data| && out + Filter(data[i..]) == Filter(data) && Rest(data[i..]) == Rest(data)
  }

  lemma ScanStarts(data: seq<Byte>)
    ensures Scanned(data, 0, [])
  {
  }

  lemma ScanEnds(data: seq<Byte>, out: seq<Byte>)
    requires Scanned(data, |data|, out)
    ensures out == Filter(data) && Rest(data) == []
  {
  }

  /** The token in front of the scan position goes to the output, or nowhere. */
  lemma Advance(data: seq<Byte>, i: nat, out: seq<Byte>, n: nat)
    requires Scanned(data, i, out) && i + n <= |data| && n > 0 && TokenLength(data[i..]) == n
    ensures var q := data[i..i + n]; Scanned(data, i + n, if IsKeyboardEnhancement(q) then out else out + q)
  {
    var tail, q := data[i..], data[i..i + n];
    assert tail[..n] == q && tail[n..] == data[i + n..];
    FilterStep(tail);
    Associative(out, q, Filter(tail[n..]));
    assert [] + Filter(tail[n..]) == Filter(tail[n..]);
  }

  lemma PassByte(data: seq<Byte>, i: nat, out: seq<Byte>)
    requires Scanned(data, i, out) && i < |data|
    requires data[i] != ESC || (i + 1 < |data| && data[i + 1] != LBRACKET)
    ensures Scanned(data, i + 1, out + [data[i]])
  {
  }

  lemma TakeSequence(data: seq<Byte>, i: nat, out: seq<Byte>, end: nat)
    requires Scanned(data, i, out) && i + 2 <= end < |data|
    requires data[i] == ESC && data[i + 1] == LBRACKET && end == i + 2 + ParamRun(data[i + 2..])
    ensures var q := data[i..end + 1]; Scanned(data, end + 1, if IsKeyboardEnhancement(q) then out else out + q)
  {
    assert data[i..][2..] == data[i + 2..];
    assert TokenLength(data[i..]) == end + 1 - i;
    Advance(data, i, out, end + 1 - i);
  }

  lemma HoldTail(data: seq<Byte>, i: nat, out: seq<Byte>)
    requires Scanned(data, i, out) && i < |data| && data[i] == ESC
    requires i + 1 == |data| || (data[i + 1] == LBRACKET && i + 2 + ParamRun(data[i + 2..]) == |data|)
    ensures out == Filter(data) && data[i..] == Rest(data)
  {
  }

  // ---- What the filter does ----

  lemma {:induction false} ParamRunStops(p: seq<Byte>)
    ensures var n := ParamRun(p); (n < |p| ==> !(0x20 <= p[n] <= 0x3F)) && Parameters(p[..n])
  {
    if p != [] && !IsFinal(p[0]) {
      ParamRunStops(p[1..]);
      assert forall i | 0 < i < |p| :: p[i] == p[1..][i - 1];
    }
  }

  lemma FrontIsToken(p: seq<Byte>)
    requires p != [] && TokenLength(p) > 0
    ensures IsToken(p[..TokenLength(p)])
  {
    if p[0] == ESC && p[1] == LBRACKET {
      var params := p[2..];
      ParamRunStops(params);
      var t, n := p[..TokenLength(p)], ParamRun(params);
      assert t[2..|t| - 1] == params[..n] && t[|t| - 1] == params[n];
    }
  }

  ghost predicate AllTokens(toks: seq<seq<Byte>>) {
    forall t | t in toks :: IsToken(t)
  }

  lemma {:induction false} TokenizeMakesTokens(p: seq<Byte>)
    ensures AllTokens(Tokenize(p))
  {
    if p != [] && TokenLength(p) > 0 {
      FrontIsToken(p);
      TokenizeMakesTokens(p[TokenLength(p)..]);
    }
  }

  lemma {:induction false} TokensRejoin(p: seq<Byte>)
    ensures Flatten(Tokenize(p)) + Rest(p) == p
  {
    if p != [] && TokenLength(p) > 0 {
      var n := TokenLength(p);
      TokensRejoin(p[n..]);
    }
  }

  /** No ESC that stands alone is followed by a bracket, or by nothing at all; x is what follows the tokens. */
  ghost predicate Settled(toks: seq<seq<Byte>>, x: seq<Byte>) {
    toks == [] ||
    (Settled(toks[1..], x) &&
     (toks[0] == [ESC] ==> var rest := Flatten(toks[1..]) + x; rest != [] && rest[0] != LBRACKET))
  }

  /** Nothing, a lone ESC, or ESC [ and parameter bytes only: too little to tell where the token ends. */
  predicate Incomplete(p: seq<Byte>) {
    p == [] || p == [ESC] || (|p| >= 2 && p[0] == ESC && p[1] == LBRACKET && Parameters(p[2..]))
  }

  lemma IncompleteIs(p: seq<Byte>)
    ensures Incomplete(p) <==> p == [] || TokenLength(p) == 0
  {
    if |p| >= 2 && p[0] == ESC && p[1] == LBRACKET {
      var params := p[2..];
      ParamRunStops(params);
      assert params[..|params|] == params;
    }
  }

  lemma {:induction false} TokenizeSettles(p: seq<Byte>)
    ensures Settled(Tokenize(p), Rest(p)) && Incomplete(Rest(p))
  {
    if p != [] && TokenLength(p) > 0 {
      var n := TokenLength(p);
      var tail := p[n..];
      TokenizeSettles(tail);
      TokensRejoin(tail);
      FirstOff(p[..n], Tokenize(tail));
      assert p[..n] == [ESC] ==> n == 1 && tail[0] == p[1] && p[1] != LBRACKET;
    } else {
      IncompleteIs(p);
    }
  }

  /** Input is tokens and a held-back rest, in order; the output is those tokens without the enhancements. */
  lemma InputIsTokens(p: seq<Byte>)
    ensures Flatten(Tokenize(p)) + Rest(p) == p && AllTokens(Tokenize(p))
    ensures Settled(Tokenize(p), Rest(p)) && Incomplete(Rest(p))
    ensures Filter(p) == Flatten(Kept(Tokenize(p)))
  {
    TokensRejoin(p);
    TokenizeMakesTokens(p);
    TokenizeSettles(p);
    KeptIsKeep(Tokenize(p));
  }

  /** The tokens that are passed on, one by one. */
  function Kept(toks: seq<seq<Byte>>): seq<seq<Byte>> {
    if toks == [] then []
    else if IsKeyboardEnhancement(toks[0]) then Kept(toks[1..])
    else [toks[0]] + Kept(toks[1..])
  }

  lemma {:induction false} KeptIsKeep(toks: seq<seq<Byte>>)
    ensures Keep(toks) == Flatten(Kept(toks))
    ensures forall t :: t in Kept(toks) <==> t in toks && !IsKeyboardEnhancement(t)
  {
    hide IsKeyboardEnhancement;
    if toks != [] {
      KeptIsKeep(toks[1..]);
      FlattenFront(toks[0], Kept(toks[1..]));
      assert toks == [toks[0]] + toks[1..];
      assert [] + Keep(toks[1..]) == Keep(toks[1..]);
    }
  }

  /** A token is recognised as such by what follows it. */
  lemma TokenStandsOut(t: seq<Byte>, rest: seq<Byte>)
    requires IsToken(t) && (t == [ESC] ==> rest != [] && rest[0] != LBRACKET)
    ensures TokenLength(t + rest) == |t|
  {
    if |t| > 1 {
      var params := t[2..];
      assert params[..|params| - 1] == t[2..|t| - 1];
      ParamRunIs(params);
      ParamRunExtends(params, rest);
      assert (t + rest)[2..] == params + rest;
    } else if t[0] == ESC {
      assert t == [ESC] && (t + rest)[1] == rest[0];
    }
  }

  lemma {:induction false} ParamRunIs(p: seq<Byte>)
    requires p != [] && !(0x20 <= p[|p| - 1] <= 0x3F) && Parameters(p[..|p| - 1])
    ensures ParamRun(p) == |p| - 1
  {
    if |p| > 1 {
      var front := p[..|p| - 1];
      assert p[0] == front[0] && p[1..][..|p| - 2] == front[1..];
      ParamRunIs(p[1..]);
    }
  }

  /** Cutting finds settled tokens again, whatever comes after them. */
  lemma {:induction false} TokenizeAligns(toks: seq<seq<Byte>>, x: seq<Byte>)
    requires AllTokens(toks) && Settled(toks, x)
    ensures Tokenize(Flatten(toks) + x) == toks + Tokenize(x) && Rest(Flatten(toks) + x) == Rest(x)
  {
    if toks == [] {
      assert Flatten(toks) + x == x && toks + Tokenize(x) == Tokenize(x);
    } else {
      var t, later := toks[0], toks[1..];
      assert IsToken(t) && AllTokens(later);
      TokenizeAligns(later, x);
      var rest := Flatten(later) + x;
      Associative(t, Flatten(later), x);
      TokenStandsOut(t, rest);
      assert (t + rest)[..|t|] == t && (t + rest)[|t|..] == rest;
      hide IsToken, TokenLength, Settled;
      Associative([t], later, Tokenize(x));
      assert toks == [t] + later;
    }
  }

  /** So no other cutting of the input meets the description: the tokens and the rest are determined by it. */
  lemma TokensAreUnique(p: seq<Byte>, toks: seq<seq<Byte>>, rest: seq<Byte>)
    requires Flatten(toks) + rest == p && AllTokens(toks) && Settled(toks, rest) && Incomplete(rest)
    ensures toks == Tokenize(p) && rest == Rest(p)
  {
    TokenizeAligns(toks, rest);
    IncompleteIs(rest);
    assert toks + [] == toks;
  }

  lemma {:induction false} ParamRunExtends(p: seq<Byte>, q: seq<Byte>)
    requires ParamRun(p) < |p|
    ensures ParamRun(p + q) == ParamRun(p)
  {
    if !IsFinal(p[0]) {
      assert (p + q)[1..] == p[1..] + q;
      ParamRunExtends(p[1..], q);
    }
  }

  /** A token once recognised is not changed by what follows. */
  lemma TokenLengthExtends(p: seq<Byte>, q: seq<Byte>)
    requires p != [] && TokenLength(p) > 0
    ensures TokenLength(p + q) == TokenLength(p)
  {
    if p[0] == ESC && p[1] == LBRACKET {
      assert (p + q)[2..] == p[2..] + q;
      ParamRunExtends(p[2..], q);
    }
  }

  lemma {:induction false} TokenizeExtends(p: seq<Byte>, q: seq<Byte>)
    ensures Tokenize(p + q) == Tokenize(p) + Tokenize(Rest(p) + q)
    ensures Rest(p + q) == Rest(Rest(p) + q)
    decreases |p|
  {
    if p != [] && TokenLength(p) > 0 {
      var n := TokenLength(p);
      TokenLengthExtends(p, q);
      assert (p + q)[..n] == p[..n] && (p + q)[n..] == p[n..] + q;
      TokenizeExtends(p[n..], q);
    }
  }

  lemma {:induction false} KeepConcat(x: seq<seq<Byte>>, y: seq<seq<Byte>>)
    ensures Keep(x + y) == Keep(x) + Keep(y)
  {
    if x == [] {
      assert x + y == y;
    } else {
      assert (x + y)[1..] == x[1..] + y;
      KeepConcat(x[1..], y);
    }
  }

  /** The state after some writes: total output and the bytes held back. */
  function Writes(buf: seq<Byte>, written: seq<Byte>, chunks: seq<seq<Byte>>): (seq<Byte>, seq<Byte>)
    decreases chunks
  {
    if chunks == [] then (buf, written)
    else Writes(Rest(buf + chunks[0]), written + Filter(buf + chunks[0]), chunks[1..])
  }

  lemma {:induction false} WritesFrom(buf: seq<Byte>, written: seq<Byte>, chunks: seq<seq<Byte>>)
    requires Rest(buf) == buf && Tokenize(buf) == []
    ensures var all := buf + Flatten(chunks);
            Writes(buf, written, chunks) == (Rest(all), written + Filter(all))
    decreases chunks
  {
    if chunks == [] {
      assert buf + Flatten(chunks) == buf && written + Filter(buf) == written;
    } else {
      var p, later := buf + chunks[0], Flatten(chunks[1..]);
      RestIsHeld(p);
      WritesFrom(Rest(p), written + Filter(p), chunks[1..]);
      TokenizeExtends(p, later);
      KeepConcat(Tokenize(p), Tokenize(Rest(p) + later));
      Associative(buf, chunks[0], later);
      Associative(written, Filter(p), Filter(Rest(p) + later));
    }
  }

  lemma {:induction false} RestIsHeld(p: seq<Byte>)
    ensures Rest(Rest(p)) == Rest(p) && Tokenize(Rest(p)) == []
    decreases |p|
  {
    if p != [] && TokenLength(p) > 0 {
      RestIsHeld(p[TokenLength(p)..]);
    }
  }

  /** However the input is cut into writes, output and held-back bytes are those of a single write. */
  lemma ChunkIndependent(chunks: seq<seq<Byte>>)
    ensures Writes([], [], chunks) == Writes([], [], [Flatten(chunks)])
  {
    WritesFrom([], [], chunks);
    var p := Flatten(chunks);
    var none: seq<seq<Byte>> := [];
    assert [p][1..] == none && [] + p == p;
    assert Writes([], [], [p]) == Writes(Rest(p), [] + Filter(p), []);
  }

  // ---- Filtering twice ----

  lemma {:induction false} KeptSubset(toks: seq<seq<Byte>>)
    requires forall t | t in toks :: !IsKeyboardEnhancement(t)
    ensures Keep(toks) == Flatten(toks)
  {
    hide IsKeyboardEnhancement;
    if toks != [] { KeptSubset(toks[1..]); }
  }

  /** Each ESC that stands alone has a token after it, and one that is passed on. */
  ghost predicate Undisturbed(toks: seq<seq<Byte>>) {
    forall i | 0 <= i < |toks| && toks[i] == [ESC] :: i + 1 < |toks| && !IsKeyboardEnhancement(toks[i + 1])
  }

  lemma {:induction false} UndisturbedSettles(p: seq<Byte>)
    requires Undisturbed(Tokenize(p))
    ensures Settled(Kept(Tokenize(p)), [])
  {
    var toks := Tokenize(p);
    if toks != [] {
      var n := TokenLength(p);
      var tail := p[n..];
      var later := Tokenize(tail);
      FirstOff(p[..n], later);
      assert forall i | 0 <= i < |later| :: toks[i + 1] == later[i];
      UndisturbedSettles(tail);
      hide IsKeyboardEnhancement;
      assert !IsKeyboardEnhancement(p[..n]) ==> Kept(toks) == [p[..n]] + Kept(later);
      FirstOff(p[..n], Kept(later));
      if p[..n] == [ESC] {
        assert toks[0] == [ESC] && n == 1 && p[1] != LBRACKET;
        assert later[0] == tail[..TokenLength(tail)] && Kept(later)[0] == later[0];
        assert (Flatten(Kept(later)) + [])[0] == p[1];
      }
    }
  }

  /** Unless a removed sequence, or nothing, comes right after an ESC of its own, filtering again changes nothing. */
  lemma UndisturbedIsIdempotent(p: seq<Byte>)
    requires Undisturbed(Tokenize(p))
    ensures Filter(Filter(p)) == Filter(p) && Rest(Filter(p)) == []
  {
    var kept := Kept(Tokenize(p));
    InputIsTokens(p);
    KeptIsKeep(Tokenize(p));
    UndisturbedSettles(p);
    assert AllTokens(kept);
    TokenizeAligns(kept, []);
    assert Flatten(kept) + [] == Flatten(kept) && kept + [] == kept;
    KeptSubset(kept);
  }

  /** The first ESC standing alone that a bracket, or nothing, follows in the output. */
  function FirstDangling(kept: seq<seq<Byte>>): (i: nat)
    ensures i <= |kept|
  {
    if kept == [] then 0
    else if kept[0] == [ESC] && (Flatten(kept[1..]) == [] || Flatten(kept[1..])[0] == LBRACKET) then 0
    else 1 + FirstDangling(kept[1..])
  }

  lemma {:induction false} SettledBeforeDangling(kept: seq<seq<Byte>>)
    ensures var i := FirstDangling(kept); Settled(kept[..i], Flatten(kept[i..]))
    ensures var i := FirstDangling(kept); i < |kept| ==> kept[i] == [ESC]
  {
    var i := FirstDangling(kept);
    if i > 0 {
      var later := kept[1..];
      SettledBeforeDangling(later);
      assert kept[..i][1..] == later[..i - 1] && kept[i..] == later[i - 1..];
      FlattenConcat(later[..i - 1], later[i - 1..]);
      assert later[..i - 1] + later[i - 1..] == later;
    }
  }

  lemma {:induction false} FilterShrinks(p: seq<Byte>)
    ensures |Filter(p)| <= |p|
  {
    if p != [] {
      FilterStep(p);
      if TokenLength(p) > 0 { FilterShrinks(p[TokenLength(p)..]); }
    }
  }

  /** What a second filtering does to text: it is left alone when its first token is, and the rest. */
  lemma StableStep(x: seq<Byte>)
    requires x != []
    ensures var n := TokenLength(x);
            Filter(x) == x <==> n > 0 && !IsKeyboardEnhancement(x[..n]) && Filter(x[n..]) == x[n..]
  {
    var n := TokenLength(x);
    FilterStep(x);
    assert x == x[..n] + x[n..];
    if n > 0 {
      FilterShrinks(x[n..]);
      if !IsKeyboardEnhancement(x[..n]) && Filter(x) == x {
        assert Filter(x)[n..] == Filter(x[n..]);
      }
    }
  }

  ghost predicate NoEnhancement(toks: seq<seq<Byte>>) {
    forall t | t in toks :: !IsKeyboardEnhancement(t)
  }

  /** The filter leaves text alone exactly when nothing in it is unfinished and none of its tokens is an enhancement. */
  lemma {:induction false} StableIff(x: seq<Byte>)
    ensures Filter(x) == x <==> Rest(x) == [] && NoEnhancement(Tokenize(x))
  {
    if x != [] {
      var n := TokenLength(x);
      StableStep(x);
      if n > 0 {
        StableIff(x[n..]);
      }
    }
  }

  /**
   Exactly when filtering again changes nothing: no ESC of its own dangles in the output; or, read
   again from the first such ESC on, the output holds no enhancement and ends with nothing unfinished.
   */
  lemma IdempotentIff(p: seq<Byte>)
    ensures var kept := Kept(Tokenize(p)); var i := FirstDangling(kept); var x := Flatten(kept[i..]);
            Filter(Filter(p)) == Filter(p) <==> i == |kept| || (Rest(x) == [] && NoEnhancement(Tokenize(x)))
  {
    var kept := Kept(Tokenize(p));
    var i := FirstDangling(kept);
    var front, x := kept[..i], Flatten(kept[i..]);
    InputIsTokens(p);
    KeptIsKeep(Tokenize(p));
    SettledBeforeDangling(kept);
    assert kept == front + kept[i..];
    FlattenConcat(front, kept[i..]);
    assert AllTokens(front);
    TokenizeAligns(front, x);
    KeepConcat(front, Tokenize(x));
    KeptSubset(front);
    var out := Flatten(front);
    assert Filter(Filter(p)) == out + Filter(x) && Filter(p) == out + x;
    assert (out + Filter(x))[|out|..] == Filter(x) && (out + x)[|out|..] == x;
    StableIff(x);
  }

  /** Nothing that the filter passes on as one token is an enhancement, yet removal can leave one behind. */
  lemma NotIdempotent()
    ensures var q: seq<Byte> := [ESC, LBRACKET, '?' as Byte, 'u' as Byte];
            var p := [ESC] + q + q[1..];
            Filter(p) == q && Filter(q) == []
  {
    var q: seq<Byte> := [ESC, LBRACKET, '?' as Byte, 'u' as Byte];
    var p := [ESC] + q + q[1..];
    assert q[2..][1..] == ['u' as Byte];
    assert ParamRun(q[2..]) == 1;
    assert TokenLength(q) == 4 && q[..4] == q && q[4..] == [];
    assert q[2..3] == ['?' as Byte];
    assert IsKeyboardEnhancement(q);
    assert Tokenize(q) == [q];
    assert [q][1..] == [];
    assert p[1..] == q + q[1..] && p[..1] == [ESC];
    TokenLengthExtends(q, q[1..]);
    var r := q[1..];
    assert p[1..][..4] == q && p[1..][4..] == r;
    PassPlain(r);
    FilterStep(p);
    FilterStep(p[1..]);
    FilterStep(q);
    assert !IsKeyboardEnhancement([ESC]);
    assert Filter(p[1..]) == [] + r;
    assert Filter(p) == [ESC] + r;
  }

  /** Input without ESC passes unchanged. */
  lemma {:induction false} PassPlain(p: seq<Byte>)
    requires ESC !in p
    ensures Filter(p) == p && Rest(p) == []
  {
    if p != [] {
      PassPlain(p[1..]);
      assert Tokenize(p) == [p[..1]] + Tokenize(p[1..]);
      assert ([p[..1]] + Tokenize(p[1..]))[1..] == Tokenize(p[1..]);
      assert p == p[..1] + p[1..];
    }
  }
}
