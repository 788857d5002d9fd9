/** What each kind of control sequence does to the captured lines, for the sequences written out byte by byte. */
module CaptureControls {
  import opened Bytes
  import opened Ansi
  import opened Capture
  import opened CaptureTheorems
  import opened ScreenSwitch

  /** The main screen is up and nothing is half-read. */
  predicate Ready(s: Screen) {
    s.mode == Mode([], false) && s.main.obs.control == []
  }

  /** The line being written after a sequence that resolves a held carriage return: it starts over. */
  function Returned(m: Main): Main {
    if m.cr then m.(cr := false, plain := [], ansi := [], crAnsi := []) else m
  }

  lemma PutSequence(g: Grid, m: Main, q: seq<Byte>)
    requires m.obs.control == [] && Whole(q)
    ensures PutAll(g, m, [Control(q)]) == PutControl(m, q)
  {
    ObserverIgnoresSequences(m.obs, q);
    assert m.(obs := m.obs) == m;
    assert [Control(q)][1..] == [];
    assert PutAll(g, m, [Control(q)]) == Put(g, m, Control(q));
  }

  /** A whole sequence on the main screen that does not switch screens changes lines, not modes. */
  lemma MainSequence(s: Screen, q: seq<Byte>)
    requires Ready(s) && Whole(q) && SwitchOf(q) == None
    ensures Feed(s, q) == s.(main := PutControl(s.main, q))
  {
    hide PutAll, PutControl;
    ReadToken(Control(q));
    PutSequence(s.grid, s.main, q);
  }

  lemma NotPrivate(q: seq<Byte>)
    requires |q| < 3 || q[2] != '?' as Byte
    ensures !Selects(q, 'h' as Byte) && !Selects(q, 'l' as Byte)
  {
  }

  /** `ESC[2J`: the live screen is empty, the history stays. */
  lemma EraseScreen(s: Screen)
    requires Ready(s)
    ensures Feed(s, [0x1b, '[' as Byte, '2' as Byte, 'J' as Byte])
            == s.(main := Main(s.main.evicted, [], [], [], false, [], Observed([], [], [], false)))
  {
    var q: seq<Byte> := [0x1b, '[' as Byte, '2' as Byte, 'J' as Byte];
    assert q == [0x1b, '[' as Byte] + ['2' as Byte] + ['J' as Byte] && NoFinal(['2' as Byte]);
    WholeForms(q);
    NotPrivate(q);
    SwitchIsSelection(q);
    MainSequence(s, q);
  }

  /** `ESC[3J`: the history and the observed lines are empty, the live screen stays but for a held return. */
  lemma EraseHistory(s: Screen)
    requires Ready(s)
    ensures var m := Returned(s.main);
            Feed(s, [0x1b, '[' as Byte, '3' as Byte, 'J' as Byte])
            == s.(main := Main([], m.pending, m.plain, m.ansi, m.cr, m.crAnsi, m.obs.(lines := [])))
  {
    var q: seq<Byte> := [0x1b, '[' as Byte, '3' as Byte, 'J' as Byte];
    assert q == [0x1b, '[' as Byte] + ['3' as Byte] + ['J' as Byte] && NoFinal(['3' as Byte]);
    WholeForms(q);
    NotPrivate(q);
    SwitchIsSelection(q);
    MainSequence(s, q);
  }

  /** `ESC c`, on either screen: nothing is left, as in a fresh screen of that size. */
  lemma FullReset(s: Screen)
    requires s.mode.control == [] && s.main.obs.control == []
    ensures Feed(s, [0x1b, 'c' as Byte]) == Fresh(s.grid)
  {
    var q: seq<Byte> := [0x1b, 'c' as Byte];
    WholeForms(q);
    LexWhole(s.mode.alt, q);
    PutSequence(s.grid, s.main, q);
    assert Tokens(s.mode, q) == [Control(q)];
  }

  /** `ESC [ ... m`: kept with the line, or, behind a held return, with what comes next. */
  lemma ColourIsKept(s: Screen, params: seq<Byte>)
    requires Ready(s) && NoFinal(params)
    ensures var q := [0x1b, '[' as Byte] + params + ['m' as Byte];
            Feed(s, q) == s.(main := if s.main.cr then s.main.(crAnsi := s.main.crAnsi + q)
                                     else s.main.(ansi := s.main.ansi + q))
  {
    var q := [0x1b, '[' as Byte] + params + ['m' as Byte];
    assert ControlForm(q);
    WholeForms(q);
    assert q[|q| - 1] == 'm' as Byte;
    assert !Selects(q, 'h' as Byte) && !Selects(q, 'l' as Byte);
    SwitchIsSelection(q);
    MainSequence(s, q);
  }

  /** Every other finished sequence that switches no screen only resolves a held return. */
  lemma OtherSequences(s: Screen, q: seq<Byte>)
    requires Ready(s) && (ControlForm(q) || CommandForm(q) || ShortForm(q))
    requires !Selects(q, 'h' as Byte) && !Selects(q, 'l' as Byte)
    requires q[1] == '[' as Byte ==> q[|q| - 1] != 'm' as Byte
    requires q != [0x1b, 'c' as Byte]
    requires q != [0x1b, '[' as Byte, '2' as Byte, 'J' as Byte] && q != [0x1b, '[' as Byte, '3' as Byte, 'J' as Byte]
    ensures Feed(s, q) == s.(main := Returned(s.main))
  {
    WholeForms(q);
    SwitchIsSelection(q);
    MainSequence(s, q);
  }
}
