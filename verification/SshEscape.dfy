/** The `~.` disconnect escape of an SSH session's input. */
module SshEscape {
  import opened Bytes

  const TILDE: Byte := 0x7e
  const DOT: Byte := 0x2e

  /** Between two bytes: a tilde held back, and whether the next byte is at the start of a line. */
  datatype State = State(escapePending: bool, atLineStart: bool)

  datatype Effect = Effect(state: State, out: seq<Byte>, disconnect: bool)

  predicate EndsLine(b: Byte) { b == LF || b == CR }

  function Step(s: State, b: Byte): Effect {
    if s.escapePending then
      if b == DOT then Effect(s.(escapePending := false), [], true)
      else if b == TILDE then Effect(State(false, false), [TILDE], false)
      else Effect(State(false, EndsLine(b)), [TILDE, b], false)
    else if s.atLineStart && b == TILDE then Effect(s.(escapePending := true), [], false)
    else Effect(State(false, EndsLine(b)), [b], false)
  }

  /** First one effect, then another. */
  function Then(a: Effect, b: Effect): Effect {
    Effect(b.state, a.out + b.out, a.disconnect || b.disconnect)
  }

  function Filter(s: State, p: seq<Byte>): Effect
    decreases p
  {
    if p == [] then Effect(s, [], false) else Then(Step(s, p[0]), Filter(Step(s, p[0]).state, p[1..]))
  }

  class RemoteSession {
    var escapePending: bool
    var atLineStart: bool

    constructor ()
      ensures Model() == State(false, true)
    {
      escapePending, atLineStart := false, true;
    }

    ghost function Model(): State
      reads this
    {
      State(escapePending, atLineStart)
    }

    method FilterEscapes(p: seq<Byte>) returns (out: seq<Byte>, disconnect: bool)
      modifies this
      ensures Effect(Model(), out, disconnect) == Filter(old(Model()), p)
    {
      out, disconnect := [], false;
      assert p[0..] == p && [] + Filter(Model(), p).out == Filter(Model(), p).out;
      for i := 0 to |p|
        invariant Then(Effect(Model(), out, disconnect), Filter(Model(), p[i..])) == Filter(old(Model()), p)
      {
        var b := p[i];
        ghost var s := Model();
        ghost var tail := Filter(Step(s, b).state, p[i + 1..]);
        assert p[i..][0] == b && p[i..][1..] == p[i + 1..];
        assert Filter(s, p[i..]) == Then(Step(s, b), tail);
        ThenAssociative(Effect(s, out, disconnect), Step(s, b), tail);
        assert out + [] == out && out + [TILDE] + [b] == out + [TILDE, b];
        if escapePending {
          escapePending := false;
          if b == DOT {
            disconnect := true;
            continue;
          } else if b == TILDE {
            out := out + [TILDE];
            atLineStart := false;
            continue;
          } else {
            out := out + [TILDE];
          }
        }
        if atLineStart && b == TILDE {
          escapePending := true;
          continue;
        }
        out := out + [b];
        atLineStart := b == LF || b == CR;
      }
      assert p[|p|..] == [] && out + [] == out;
    }
  }

  lemma ThenAssociative(a: Effect, b: Effect, c: Effect)
    ensures Then(a, Then(b, c)) == Then(Then(a, b), c)
  {
  }

  /** Output, state and disconnection do not depend on where the input is cut. */
  lemma {:induction false} FilterConcat(s: State, p: seq<Byte>, q: seq<Byte>)
    ensures Filter(s, p + q) == Then(Filter(s, p), Filter(Filter(s, p).state, q))
    decreases p
  {
    if p == [] {
      assert p + q == q && [] + Filter(s, q).out == Filter(s, q).out;
    } else {
      var e := Step(s, p[0]);
      assert (p + q)[1..] == p[1..] + q;
      FilterConcat(e.state, p[1..], q);
      ThenAssociative(e, Filter(e.state, p[1..]), Filter(Filter(e.state, p[1..]).state, q));
    }
  }

  function FilterAll(s: State, chunks: seq<seq<Byte>>): Effect
    decreases chunks
  {
    if chunks == [] then Effect(s, [], false)
    else Then(Filter(s, chunks[0]), FilterAll(Filter(s, chunks[0]).state, chunks[1..]))
  }

  lemma {:induction false} ChunkIndependent(s: State, chunks: seq<seq<Byte>>)
    ensures FilterAll(s, chunks) == Filter(s, Flatten(chunks))
    decreases chunks
  {
    if chunks != [] {
      ChunkIndependent(Filter(s, chunks[0]).state, chunks[1..]);
      FilterConcat(s, chunks[0], Flatten(chunks[1..]));
    }
  }

  function Doubled(atLineStart: bool, b: Byte): seq<Byte> {
    if atLineStart && b == TILDE then [TILDE, TILDE] else [b]
  }

  /** Every tilde at the start of a line doubled. */
  function Escape(atLineStart: bool, x: seq<Byte>): seq<Byte>
    decreases x
  {
    if x == [] then [] else Doubled(atLineStart, x[0]) + Escape(EndsLine(x[0]), x[1..])
  }

  /** The line position after x. */
  function LineStartAfter(atLineStart: bool, x: seq<Byte>): bool {
    if x == [] then atLineStart else EndsLine(x[|x| - 1])
  }

  /** Any bytes at all get through by doubling, and never disconnect. */
  lemma {:induction false} EscapeRoundTrip(atLineStart: bool, x: seq<Byte>)
    ensures Filter(State(false, atLineStart), Escape(atLineStart, x))
            == Effect(State(false, LineStartAfter(atLineStart, x)), x, false)
    decreases x
  {
    if x != [] {
      var b, later := x[0], x[1..];
      EscapeRoundTrip(EndsLine(b), later);
      HeadPasses(atLineStart, b);
      FilterConcat(State(false, atLineStart), Doubled(atLineStart, b), Escape(EndsLine(b), later));
      assert [b] + later == x;
      assert LineStartAfter(atLineStart, x) == LineStartAfter(EndsLine(b), later);
    }
  }

  lemma HeadPasses(atLineStart: bool, b: Byte)
    ensures Filter(State(false, atLineStart), Doubled(atLineStart, b)) == Effect(State(false, EndsLine(b)), [b], false)
  {
    assert [b][1..] == [] && [TILDE, TILDE][1..] == [TILDE] && [TILDE][1..] == [];
    var s := State(false, atLineStart);
    assert Filter(State(true, true), [TILDE]) == Then(Step(State(true, true), TILDE), Filter(State(false, false), []));
    assert Filter(s, [b]) == Then(Step(s, b), Filter(Step(s, b).state, []));
  }

  /** Whatever the chunks, the child gets exactly the bytes typed. */
  lemma EscapedInputArrives(atLineStart: bool, x: seq<Byte>, chunks: seq<seq<Byte>>)
    requires Flatten(chunks) == Escape(atLineStart, x)
    ensures FilterAll(State(false, atLineStart), chunks).out == x
    ensures !FilterAll(State(false, atLineStart), chunks).disconnect
  {
    ChunkIndependent(State(false, atLineStart), chunks);
    EscapeRoundTrip(atLineStart, x);
  }

  /** The only way to disconnect: a dot right after a held-back tilde. */
  lemma {:induction false} DisconnectMeansEscape(s: State, p: seq<Byte>)
    ensures Filter(s, p).disconnect <==>
            exists i :: 0 <= i < |p| && p[i] == DOT && Filter(s, p[..i]).state.escapePending
    decreases p
  {
    if p != [] {
      var front, b := p[..|p| - 1], p[|p| - 1];
      DisconnectMeansEscape(s, front);
      assert p == front + [b];
      FilterConcat(s, front, [b]);
      assert [b][1..] == [];
      var e := Filter(s, front).state;
      assert Filter(e, [b]) == Then(Step(e, b), Filter(Step(e, b).state, []));
      assert forall i | 0 <= i <= |front| :: front[..i] == p[..i];
      assert front[..|front|] == front;
    }
  }

  // ---- What is taken out ----

  /**
   The input at a line start or not, read with the byte behind a tilde in view: `~~` becomes `~`, `~.`
   nothing, a tilde at the very end waits, and any other byte, a tilde before it included, is passed on.
   */
  function Unescaped(atLineStart: bool, p: seq<Byte>): seq<Byte>
    decreases p
  {
    if p == [] then []
    else if atLineStart && p[0] == '~' as Byte then
      if |p| == 1 then []
      else if p[1] == '~' as Byte then ['~' as Byte] + Unescaped(false, p[2..])
      else if p[1] == '.' as Byte then Unescaped(true, p[2..])
      else p[..2] + Unescaped(p[1] == '\n' as Byte || p[1] == '\r' as Byte, p[2..])
    else [p[0]] + Unescaped(p[0] == '\n' as Byte || p[0] == '\r' as Byte, p[1..])
  }

  /** `~.` at a line start, read the same way. */
  predicate Disconnects(atLineStart: bool, p: seq<Byte>)
    decreases p
  {
    p != [] &&
    if atLineStart && p[0] == '~' as Byte then
      |p| > 1 && (p[1] == '.' as Byte ||
                  Disconnects(p[1] == '\n' as Byte || p[1] == '\r' as Byte, p[2..]))
    else Disconnects(p[0] == '\n' as Byte || p[0] == '\r' as Byte, p[1..])
  }

  lemma FilterTwo(s: State, p: seq<Byte>)
    requires |p| >= 2
    ensures var a := Step(s, p[0]); var b := Step(a.state, p[1]);
            Filter(s, p) == Then(Then(a, b), Filter(b.state, p[2..]))
  {
    var a := Step(s, p[0]);
    var b := Step(a.state, p[1]);
    assert p[1..][0] == p[1] && p[1..][1..] == p[2..];
    ThenAssociative(a, b, Filter(b.state, p[2..]));
  }

  /** For every input: only the first tilde of a doubled pair and `~.`, both at a line start, are taken out. */
  lemma {:induction false} OnlyEscapesAreRemoved(atLineStart: bool, p: seq<Byte>)
    ensures Filter(State(false, atLineStart), p).out == Unescaped(atLineStart, p)
    ensures Filter(State(false, atLineStart), p).disconnect == Disconnects(atLineStart, p)
    decreases p
  {
    var s := State(false, atLineStart);
    if p != [] {
      if atLineStart && p[0] == TILDE && |p| >= 2 {
        FilterTwo(s, p);
        OnlyEscapesAreRemoved(if p[1] == DOT then true else EndsLine(p[1]), p[2..]);
        assert p[..2] == [TILDE, p[1]];
        assert [] + Unescaped(true, p[2..]) == Unescaped(true, p[2..]);
      } else if atLineStart && p[0] == TILDE {
        assert p[1..] == [];
      } else {
        OnlyEscapesAreRemoved(EndsLine(p[0]), p[1..]);
      }
    }
  }
}
