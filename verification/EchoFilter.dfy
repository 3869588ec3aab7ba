/** The server-side echo of client input: a hand-written tokenizer of terminal
    control sequences, its token grammar, and the state machine both amount to. */
module EchoFilter {
  import opened Bytes

  const BEL: byte := 0x07
  const TAB: byte := 0x09
  const LF: byte := 0x0A
  const CR: byte := 0x0D
  const ESC: byte := 0x1B
  const DEL: byte := 0x7F
  const OPEN_BRACKET: byte := 0x5B
  const BACKSLASH: byte := 0x5C
  const CLOSE_BRACKET: byte := 0x5D

  // ---- Token grammar -----------------------------------------------------------

  predicate IsDesignatorIntro(b: byte) {
    b == 0x28 || b == 0x29 || b == 0x23
  }

  predicate EndsCsi(b: byte) {
    0x40 <= b <= 0x7E || !(0x20 <= b <= 0x3F)
  }

  /** Bytes that echo as themselves. */
  predicate IsClean(b: byte) {
    b == LF || b == TAB || 0x20 <= b < DEL || b >= 0x80
  }

  /** What a byte outside any sequence echoes as. */
  function Shown(b: byte): seq<byte> {
    if b == CR then [LF] else if IsClean(b) then [b] else []
  }

  function CsiEnd(s: seq<byte>, i: nat): (j: nat)
    requires i <= |s|
    ensures i <= j <= |s|
    decreases |s| - i
  {
    if i == |s| then i else if EndsCsi(s[i]) then i + 1 else CsiEnd(s, i + 1)
  }

  function OscEnd(s: seq<byte>, i: nat): (j: nat)
    requires i <= |s|
    ensures i <= j <= |s|
    decreases |s| - i
  {
    if i == |s| then i
    else if s[i] == BEL then i + 1
    else if s[i] == ESC then (if i + 1 < |s| && s[i + 1] == BACKSLASH then i + 2 else i + 1)
    else OscEnd(s, i + 1)
  }

  /** Where the token starting at `i` ends. */
  function TokenEnd(s: seq<byte>, i: nat): (j: nat)
    requires i < |s|
    ensures i < j <= |s|
  {
    if s[i] != ESC || i + 1 == |s| then i + 1
    else if s[i + 1] == OPEN_BRACKET then CsiEnd(s, i + 2)
    else if s[i + 1] == CLOSE_BRACKET then OscEnd(s, i + 2)
    else if IsDesignatorIntro(s[i + 1]) && i + 2 < |s| then i + 3
    else i + 2
  }

  function FilterFrom(s: seq<byte>, i: nat): seq<byte>
    requires i <= |s|
    decreases |s| - i
  {
    if i == |s| then []
    else (if s[i] == ESC then [] else Shown(s[i])) + FilterFrom(s, TokenEnd(s, i))
  }

  function Filter(s: seq<byte>): seq<byte> {
    FilterFrom(s, 0)
  }

  /** The tokenizer itself. */
  method FilterEchoBytes(data: seq<byte>) returns (out: seq<byte>)
    ensures out == Filter(data)
  {
    out := [];
    var i := 0;
    ghost var whole := Filter(data);
    while i < |data|
      invariant 0 <= i <= |data|
      invariant out + FilterFrom(data, i) == whole
    {
      var b := data[i];
      ghost var start, before := i, out;
      ghost var shown := if b == ESC then [] else Shown(b);
      TokenStep(data, i, out);
      if b == ESC {
        i := i + 1;
        if i >= |data| {
          assert FilterFrom(data, |data|) == [];
          break;
        }
        if data[i] == OPEN_BRACKET {
          i := i + 1;
          while i < |data|
            invariant start + 2 <= i <= |data|
            invariant CsiEnd(data, start + 2) == CsiEnd(data, i)
          {
            var f := data[i];
            i := i + 1;
            if 0x40 <= f <= 0x7E || !(0x20 <= f <= 0x3F) {
              assert CsiEnd(data, start + 2) == i;
              break;
            }
          }
        } else if data[i] == CLOSE_BRACKET {
          i := i + 1;
          while i < |data|
            invariant start + 2 <= i <= |data|
            invariant OscEnd(data, start + 2) == OscEnd(data, i)
          {
            var f := data[i];
            i := i + 1;
            if f == BEL {
              assert OscEnd(data, start + 2) == i;
              break;
            }
            if f == ESC {
              if i < |data| && data[i] == BACKSLASH {
                i := i + 1;
              }
              assert OscEnd(data, start + 2) == i;
              break;
            }
          }
        } else if IsDesignatorIntro(data[i]) {
          i := i + 1;
          if i < |data| {
            i := i + 1;
          }
        } else {
          i := i + 1;
        }
      } else if b == CR {
        out := out + [LF];
        i := i + 1;
      } else if b == LF || b == TAB || b == 0x20 || 0x21 <= b <= 0x7E || b >= 0x80 {
        out := out + [b];
        i := i + 1;
      } else {
        i := i + 1;
      }
      assert i == TokenEnd(data, start);
      assert out == before + shown;
    }
  }

  /** One token's share of the output, and what is left for the rest. */
  lemma TokenStep(data: seq<byte>, i: nat, out: seq<byte>)
    requires i < |data|
    ensures out + FilterFrom(data, i) ==
            (out + if data[i] == ESC then [] else Shown(data[i])) + FilterFrom(data, TokenEnd(data, i))
  {
    var shown := if data[i] == ESC then [] else Shown(data[i]);
    assert FilterFrom(data, i) == shown + FilterFrom(data, TokenEnd(data, i));
  }

  // ---- The state machine ---------------------------------------------------------

  datatype Mode = Ground | Escape | Csi | Osc | OscEscape | Designator

  function Next(m: Mode, b: byte): Mode {
    match m
    case Escape =>
      if b == OPEN_BRACKET then Csi else if b == CLOSE_BRACKET then Osc
      else if IsDesignatorIntro(b) then Designator else Ground
    case Csi => if EndsCsi(b) then Ground else Csi
    case Osc => if b == BEL then Ground else if b == ESC then OscEscape else Osc
    case Designator => Ground
    case _ => if b == ESC then Escape else Ground
  }

  /** Only the ground mode echoes; so does a byte after an escape inside an OSC,
      unless it completes the string terminator. */
  function Emit(m: Mode, b: byte): seq<byte> {
    if m.Ground? || (m.OscEscape? && b != BACKSLASH) then Shown(b) else []
  }

  function ModeAfter(m: Mode, s: seq<byte>): Mode
    decreases |s|
  {
    if s == [] then m else ModeAfter(Next(m, s[0]), s[1..])
  }

  function Emitted(m: Mode, s: seq<byte>): seq<byte>
    decreases |s|
  {
    if s == [] then [] else Emit(m, s[0]) + Emitted(Next(m, s[0]), s[1..])
  }

  lemma {:induction false} CsiRunsToItsEnd(s: seq<byte>, i: nat)
    requires i <= |s|
    ensures Emitted(Csi, s[i..]) == Emitted(Ground, s[CsiEnd(s, i)..])
    decreases |s| - i
  {
    if i < |s| {
      assert s[i..][1..] == s[i + 1..];
      if !EndsCsi(s[i]) {
        CsiRunsToItsEnd(s, i + 1);
      }
    }
  }

  lemma {:induction false} OscRunsToItsEnd(s: seq<byte>, i: nat)
    requires i <= |s|
    ensures Emitted(Osc, s[i..]) == Emitted(Ground, s[OscEnd(s, i)..])
    decreases |s| - i
  {
    if i < |s| {
      assert s[i..][1..] == s[i + 1..];
      if s[i] == ESC && i + 1 < |s| {
        assert s[i + 1..][1..] == s[i + 2..];
      } else if s[i] != BEL && s[i] != ESC {
        OscRunsToItsEnd(s, i + 1);
      }
    }
  }

  /** After an ESC the machine runs through the same token. */
  lemma EscapeRunsToItsEnd(s: seq<byte>, i: nat)
    requires i + 1 < |s| && s[i] == ESC
    ensures Emitted(Escape, s[i + 1..]) == Emitted(Ground, s[TokenEnd(s, i)..])
  {
    var m := Next(Escape, s[i + 1]);
    assert s[i + 1..][1..] == s[i + 2..];
    assert Emitted(Escape, s[i + 1..]) == Emitted(m, s[i + 2..]);
    if m.Csi? {
      CsiRunsToItsEnd(s, i + 2);
    } else if m.Osc? {
      OscRunsToItsEnd(s, i + 2);
    } else if m.Designator? && i + 2 < |s| {
      assert s[i + 2..][1..] == s[i + 3..];
      assert Emitted(m, s[i + 2..]) == Emitted(Ground, s[i + 3..]);
    }
  }

  lemma {:induction false} TokensRunTheMachine(s: seq<byte>, i: nat)
    requires i <= |s|
    ensures FilterFrom(s, i) == Emitted(Ground, s[i..])
    decreases |s| - i
  {
    if i < |s| {
      TokensRunTheMachine(s, TokenEnd(s, i));
      assert s[i..][1..] == s[i + 1..];
      assert Emitted(Ground, s[i..]) == Emit(Ground, s[i]) + Emitted(Next(Ground, s[i]), s[i + 1..]);
      if s[i] == ESC && i + 1 < |s| {
        EscapeRunsToItsEnd(s, i);
      }
    }
  }

  /** The nested index loops, the token grammar and the state machine agree. */
  lemma FilterIsTheMachine(s: seq<byte>)
    ensures Filter(s) == Emitted(Ground, s)
  {
    TokensRunTheMachine(s, 0);
    assert s[0..] == s;
  }

  lemma Reassociated(a: seq<byte>, b: seq<byte>, c: seq<byte>)
    ensures (a + b) + c == a + (b + c)
  {
  }

  lemma {:induction false} MachineComposes(m: Mode, a: seq<byte>, b: seq<byte>)
    ensures Emitted(m, a + b) == Emitted(m, a) + Emitted(ModeAfter(m, a), b)
    ensures ModeAfter(m, a + b) == ModeAfter(ModeAfter(m, a), b)
    decreases |a|
  {
    if a == [] {
      assert a + b == b;
    } else {
      var m' := Next(m, a[0]);
      assert (a + b)[1..] == a[1..] + b;
      assert Emitted(m, a + b) == Emit(m, a[0]) + Emitted(m', a[1..] + b);
      MachineComposes(m', a[1..], b);
      Reassociated(Emit(m, a[0]), Emitted(m', a[1..]), Emitted(ModeAfter(m', a[1..]), b));
    }
  }

  /** `a` ends at a token boundary, whatever may follow. */
  predicate Closed(a: seq<byte>) {
    ModeAfter(Ground, a).Ground?
  }

  lemma FilterComposes(a: seq<byte>, b: seq<byte>)
    requires Closed(a)
    ensures Filter(a + b) == Filter(a) + Filter(b)
    ensures Closed(a + b) == Closed(b)
  {
    FilterIsTheMachine(a + b);
    FilterIsTheMachine(a);
    FilterIsTheMachine(b);
    MachineComposes(Ground, a, b);
  }

  /** Outside sequences every byte is on its own: text, LF and TAB echo as they are, a
      carriage return as LF, other controls not at all. */
  lemma ByteAfterClosedCut(a: seq<byte>, b: byte)
    requires Closed(a) && b != 0x1B
    ensures Filter(a + [b]) ==
            Filter(a) + (if b == 0x0D then [0x0A]
                         else if b == 0x09 || b == 0x0A || 0x20 <= b <= 0x7E || b >= 0x80 then [b] else [])
    ensures Closed(a + [b])
  {
    FilterComposes(a, [b]);
    FilterIsTheMachine([b]);
    assert Emitted(Ground, [b]) == Emit(Ground, b) + Emitted(Ground, []);
    assert ModeAfter(Ground, [b]) == ModeAfter(Ground, []);
  }

  /** Filtering call by call equals filtering the whole input exactly at closed cuts:
      at any other cut some continuation is echoed that the whole would swallow. */
  lemma ComposesExactlyAtClosedCuts(a: seq<byte>)
    ensures (forall b: seq<byte> :: Filter(a + b) == Filter(a) + Filter(b)) <==> Closed(a)
  {
    if Closed(a) {
      forall b: seq<byte>
        ensures Filter(a + b) == Filter(a) + Filter(b)
      {
        FilterComposes(a, b);
      }
    } else {
      var next: byte := if ModeAfter(Ground, a).OscEscape? then BACKSLASH else 0x41;
      OpenCutSwallows(a, next);
      assert |Filter(a + [next])| != |Filter(a) + Filter([next])|;
    }
  }

  lemma OpenCutSwallows(a: seq<byte>, next: byte)
    requires !Closed(a)
    requires next == if ModeAfter(Ground, a).OscEscape? then BACKSLASH else 0x41
    ensures Filter(a + [next]) == Filter(a) && Filter([next]) == [next]
  {
    FilterIsTheMachine(a + [next]);
    FilterIsTheMachine(a);
    MachineComposes(Ground, a, [next]);
    var m := ModeAfter(Ground, a);
    assert Emitted(m, [next]) == Emit(m, next) + Emitted(Next(m, next), []);
    assert FilterFrom([next], 0) == Shown(next) + FilterFrom([next], 1);
  }

  /** An arrow key split after its ESC is echoed by the second call, though the
      comment in the loop says the remainder is swallowed the same way. */
  lemma SplitArrowKeyIsEchoed()
    ensures Filter([ESC, OPEN_BRACKET, 0x41]) == []
    ensures Filter([ESC]) + Filter([OPEN_BRACKET, 0x41]) == [OPEN_BRACKET, 0x41]
  {
    var key := [ESC, OPEN_BRACKET, 0x41];
    assert CsiEnd(key, 2) == 3;
    assert FilterFrom(key, 3) == [];
    var tail := [OPEN_BRACKET, 0x41];
    assert FilterFrom(tail, 2) == [];
    assert FilterFrom(tail, 1) == [0x41];
    assert FilterFrom([ESC], 1) == [];
  }

  // ---- Control sequences ----------------------------------------------------------

  /** A control sequence of section 5.4 of ECMA-48: CSI, parameter bytes,
      intermediate bytes, one final byte. */
  predicate IsControlSequence(s: seq<byte>, params: nat) {
    && 2 + params < |s|
    && s[0] == ESC && s[1] == OPEN_BRACKET
    && (forall k | 2 <= k < 2 + params :: 0x30 <= s[k] <= 0x3F)
    && (forall k | 2 + params <= k < |s| - 1 :: 0x20 <= s[k] <= 0x2F)
    && 0x40 <= s[|s| - 1] <= 0x7E
  }

  /** An operating system command ended by BEL or by ESC backslash. */
  predicate IsCommandString(s: seq<byte>, payload: nat) {
    && 2 + payload < |s|
    && s[0] == ESC && s[1] == CLOSE_BRACKET
    && (forall k | 2 <= k < 2 + payload :: s[k] != BEL && s[k] != ESC)
    && (s[2 + payload..] == [BEL] || s[2 + payload..] == [ESC, BACKSLASH])
  }

  lemma {:induction false} StaysQuiet(m: Mode, s: seq<byte>)
    requires m.Csi? || m.Osc?
    requires m.Csi? ==> forall k | 0 <= k < |s| :: !EndsCsi(s[k])
    requires m.Osc? ==> forall k | 0 <= k < |s| :: s[k] != BEL && s[k] != ESC
    ensures ModeAfter(m, s) == m && Emitted(m, s) == []
  {
    if s != [] {
      StaysQuiet(m, s[1..]);
    }
  }

  lemma TwoBytes(m: Mode, x: byte, y: byte)
    ensures ModeAfter(m, [x, y]) == Next(Next(m, x), y)
    ensures Emitted(m, [x, y]) == Emit(m, x) + Emit(Next(m, x), y)
  {
    assert [x, y][1..] == [y];
    assert ModeAfter(Next(m, x), [y]) == Next(Next(m, x), y);
    assert Emitted(Next(m, x), [y]) == Emit(Next(m, x), y) + [];
  }

  /** An introducer, a body its mode stays quiet in, and an end that returns to ground. */
  lemma IntroducedIsQuiet(intro: byte, body: seq<byte>, final: seq<byte>)
    requires var m := Next(Escape, intro);
             && (m.Csi? || m.Osc?)
             && (m.Csi? ==> forall k | 0 <= k < |body| :: !EndsCsi(body[k]))
             && (m.Osc? ==> forall k | 0 <= k < |body| :: body[k] != BEL && body[k] != ESC)
             && ModeAfter(m, final) == Ground && Emitted(m, final) == []
    ensures Closed([ESC, intro] + body + final) && Filter([ESC, intro] + body + final) == []
  {
    TwoBytes(Ground, ESC, intro);
    MachineComposes(Ground, [ESC, intro], body);
    StaysQuiet(Next(Escape, intro), body);
    MachineComposes(Ground, [ESC, intro] + body, final);
    FilterIsTheMachine([ESC, intro] + body + final);
  }

  lemma OneByte(m: Mode, x: byte)
    ensures ModeAfter(m, [x]) == Next(m, x) && Emitted(m, [x]) == Emit(m, x)
  {
    assert Emitted(m, [x]) == Emit(m, x) + [];
  }

  lemma ControlSequenceIsQuiet(s: seq<byte>, params: nat)
    requires IsControlSequence(s, params)
    ensures Closed(s) && Filter(s) == []
  {
    var body, final := s[2..|s| - 1], s[|s| - 1];
    OneByte(Csi, final);
    IntroducedIsQuiet(OPEN_BRACKET, body, [final]);
    assert s == [ESC, OPEN_BRACKET] + body + [final];
  }

  lemma CommandStringIsQuiet(s: seq<byte>, payload: nat)
    requires IsCommandString(s, payload)
    ensures Closed(s) && Filter(s) == []
  {
    var body := s[2..2 + payload];
    if s[2 + payload..] == [BEL] {
      OneByte(Osc, BEL);
      IntroducedIsQuiet(CLOSE_BRACKET, body, [BEL]);
      assert s == [ESC, CLOSE_BRACKET] + body + [BEL];
    } else {
      TwoBytes(Osc, ESC, BACKSLASH);
      IntroducedIsQuiet(CLOSE_BRACKET, body, [ESC, BACKSLASH]);
      assert s == [ESC, CLOSE_BRACKET] + body + [ESC, BACKSLASH];
    }
  }

  /** A complete sequence met at a closed cut vanishes and leaves everything around
      it unchanged. */
  lemma SequencesVanish(a: seq<byte>, s: seq<byte>, b: seq<byte>, n: nat)
    requires Closed(a) && (IsControlSequence(s, n) || IsCommandString(s, n))
    ensures Filter(a + s + b) == Filter(a + b)
    ensures Closed(a + s)
  {
    if IsControlSequence(s, n) {
      ControlSequenceIsQuiet(s, n);
    } else {
      CommandStringIsQuiet(s, n);
    }
    FilterComposes(a, s);
    FilterComposes(a + s, b);
    FilterComposes(a, b);
  }

  // ---- Every other escape ------------------------------------------------------------

  /** A designator escape met at a closed cut: `(`, `)` and `#` take the byte after them
      along, whatever it is. */
  lemma DesignatorsVanish(a: seq<byte>, x: byte, y: byte, b: seq<byte>)
    requires Closed(a) && (x == 0x28 || x == 0x29 || x == 0x23)
    ensures Filter(a + [0x1B, x, y] + b) == Filter(a + b)
    ensures Closed(a + [0x1B, x, y])
    ensures Filter(a + [0x1B, x]) == Filter(a) && !Closed(a + [0x1B, x])
  {
    var intro, whole: seq<byte> := [0x1B, x], [0x1B, x, y];
    TwoBytes(Ground, 0x1B, x);
    OneByte(Designator, y);
    assert intro + [y] == whole;
    MachineComposes(Ground, intro, [y]);
    FilterIsTheMachine(whole);
    StaysSilent(a, intro);
    QuietVanishes(a, whole, b);
  }

  /** After any other byte but `[` and `]` the escape is complete. */
  lemma ShortEscapesVanish(a: seq<byte>, x: byte, b: seq<byte>)
    requires Closed(a) && x != 0x5B && x != 0x5D && x != 0x28 && x != 0x29 && x != 0x23
    ensures Filter(a + [0x1B, x] + b) == Filter(a + b)
    ensures Closed(a + [0x1B, x])
    ensures Filter(a + [0x1B]) == Filter(a) && !Closed(a + [0x1B])
  {
    OneByte(Ground, 0x1B);
    StaysSilent(a, [0x1B]);
    TwoBytes(Ground, 0x1B, x);
    FilterIsTheMachine([0x1B, x]);
    QuietVanishes(a, [0x1B, x], b);
  }

  lemma QuietVanishes(a: seq<byte>, s: seq<byte>, b: seq<byte>)
    requires Closed(a) && Closed(s) && Filter(s) == []
    ensures Filter(a + s + b) == Filter(a + b) && Closed(a + s)
  {
    FilterComposes(a, s);
    FilterComposes(a + s, b);
    FilterComposes(a, b);
  }

  /** A control sequence ends at the first byte outside 0x20 to 0x3F, final byte or
      not, and that byte goes with it. */
  lemma AnyControlSequenceVanishes(a: seq<byte>, body: seq<byte>, end: byte, b: seq<byte>)
    requires Closed(a) && (forall k | 0 <= k < |body| :: 0x20 <= body[k] <= 0x3F) && !(0x20 <= end <= 0x3F)
    ensures var s := [0x1B, 0x5B] + body + [end];
            Filter(a + s + b) == Filter(a + b) && Closed(a + s)
    ensures Filter(a + [0x1B, 0x5B] + body) == Filter(a) && !Closed(a + [0x1B, 0x5B] + body)
  {
    OneByte(Csi, end);
    IntroducedIsQuiet(0x5B, body, [end]);
    QuietVanishes(a, [0x1B, 0x5B] + body + [end], b);
    OpenBodyIsQuiet(a, 0x5B, body);
  }

  /** A command string ends at BEL, or at ESC, which takes a backslash after it along
      and leaves anything else to be read afresh. */
  lemma AnyCommandStringVanishes(a: seq<byte>, body: seq<byte>, b: seq<byte>)
    requires Closed(a) && forall k | 0 <= k < |body| :: body[k] != 0x07 && body[k] != 0x1B
    ensures Filter(a + ([0x1B, 0x5D] + body + [0x07]) + b) == Filter(a + b)
    ensures Filter(a + ([0x1B, 0x5D] + body + [0x1B, 0x5C]) + b) == Filter(a + b)
    ensures (b == [] || b[0] != 0x5C) ==> Filter(a + ([0x1B, 0x5D] + body + [0x1B]) + b) == Filter(a + b)
    ensures Filter(a + [0x1B, 0x5D] + body) == Filter(a) && !Closed(a + [0x1B, 0x5D] + body)
  {
    OneByte(Osc, 0x07);
    TwoBytes(Osc, 0x1B, 0x5C);
    IntroducedIsQuiet(0x5D, body, [0x07]);
    IntroducedIsQuiet(0x5D, body, [0x1B, 0x5C]);
    QuietVanishes(a, [0x1B, 0x5D] + body + [0x07], b);
    QuietVanishes(a, [0x1B, 0x5D] + body + [0x1B, 0x5C], b);
    OpenBodyIsQuiet(a, 0x5D, body);
    if b == [] || b[0] != 0x5C {
      EscapeEndsCommand(a, body, b);
    }
  }

  lemma EscapeEndsCommand(a: seq<byte>, body: seq<byte>, b: seq<byte>)
    requires Closed(a) && forall k | 0 <= k < |body| :: body[k] != 0x07 && body[k] != 0x1B
    requires b == [] || b[0] != 0x5C
    ensures Filter(a + ([0x1B, 0x5D] + body + [0x1B]) + b) == Filter(a + b)
  {
    var open := a + [0x1B, 0x5D] + body;
    OpenBodyIsQuiet(a, 0x5D, body);
    EscapeThenAfresh(open, b);
    Regrouped(a, [0x1B, 0x5D], body, [0x1B], b);
    FilterComposes(a, b);
  }

  lemma EscapeThenAfresh(open: seq<byte>, b: seq<byte>)
    requires ModeAfter(Ground, open) == Osc && (b == [] || b[0] != 0x5C)
    ensures Filter(open + [0x1B] + b) == Filter(open) + Filter(b)
  {
    var esc: seq<byte> := [0x1B];
    OneByte(Osc, 0x1B);
    StaysSilent(open, esc);
    MachineComposes(Ground, open + esc, b);
    OscEscapeReads(b);
    FilterIsTheMachine(open + esc);
    FilterIsTheMachine(open + esc + b);
    FilterIsTheMachine(b);
  }

  lemma OscEscapeReads(b: seq<byte>)
    requires b == [] || b[0] != 0x5C
    ensures Emitted(OscEscape, b) == Emitted(Ground, b)
  {
  }

  lemma Regrouped(a: seq<byte>, b: seq<byte>, c: seq<byte>, d: seq<byte>, e: seq<byte>)
    ensures a + (b + c + d) + e == a + b + c + d + e
  {
  }

  lemma StaysSilent(a: seq<byte>, b: seq<byte>)
    requires Emitted(ModeAfter(Ground, a), b) == []
    ensures Filter(a + b) == Filter(a) && ModeAfter(Ground, a + b) == ModeAfter(ModeAfter(Ground, a), b)
  {
    MachineComposes(Ground, a, b);
    FilterIsTheMachine(a);
    FilterIsTheMachine(a + b);
  }

  /** A sequence that is not ended swallows all of its bytes. */
  lemma OpenBodyIsQuiet(a: seq<byte>, intro: byte, body: seq<byte>)
    requires Closed(a) && (intro == 0x5B || intro == 0x5D)
    requires intro == 0x5B ==> forall k | 0 <= k < |body| :: 0x20 <= body[k] <= 0x3F
    requires intro == 0x5D ==> forall k | 0 <= k < |body| :: body[k] != 0x07 && body[k] != 0x1B
    ensures Filter(a + [0x1B, intro] + body) == Filter(a)
    ensures ModeAfter(Ground, a + [0x1B, intro] + body) == if intro == 0x5B then Csi else Osc
  {
    var s: seq<byte> := [0x1B, intro];
    TwoBytes(Ground, 0x1B, intro);
    StaysSilent(a, s);
    StaysQuiet(Next(Escape, intro), body);
    StaysSilent(a + s, body);
  }

  // ---- What can come out ------------------------------------------------------------

  lemma {:induction false} EmittedIsClean(m: Mode, s: seq<byte>)
    ensures forall b | b in Emitted(m, s) :: IsClean(b)
    ensures |Emitted(m, s)| <= |s|
    decreases |s|
  {
    if s != [] {
      EmittedIsClean(Next(m, s[0]), s[1..]);
    }
  }

  lemma {:induction false} CleanIsEmitted(s: seq<byte>)
    requires forall b | b in s :: IsClean(b)
    ensures Emitted(Ground, s) == s
  {
    if s != [] {
      CleanIsEmitted(s[1..]);
      assert s == [s[0]] + s[1..];
    }
  }

  /** Nothing but text, LF and TAB comes out, never more than came in; exactly such
      text passes unchanged, so filtering again changes nothing. */
  lemma OutputIsCleanText(s: seq<byte>)
    ensures forall b | b in Filter(s) :: b != ESC && b != CR && b != DEL && (b < 0x20 ==> b == LF || b == TAB)
    ensures |Filter(s)| <= |s|
    ensures Filter(s) == s <==> forall b | b in s :: IsClean(b)
    ensures Filter(Filter(s)) == Filter(s)
  {
    FilterIsTheMachine(s);
    EmittedIsClean(Ground, s);
    FilterIsTheMachine(Filter(s));
    CleanIsEmitted(Filter(s));
    if forall b | b in s :: IsClean(b) {
      CleanIsEmitted(s);
    }
  }
}
