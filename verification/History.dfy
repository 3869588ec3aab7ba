/** Command history: a bounded in-memory window over an append-only file, and
    line-editor navigation through it. */
module History {
  import opened Options

  const MAX_ENTRIES: nat := 1000

  // ---- The file ---------------------------------------------------------------------------

  predicate EndsLine(text: string) {
    text == "" || text[|text| - 1] == '\n'
  }

  /** A carriage return goes with the newline it precedes. */
  function Chomp(line: string): string {
    if line != "" && line[|line| - 1] == '\r' then line[..|line| - 1] else line
  }

  /** The lines of a text; `open` is the line being collected. */
  function LinesFrom(text: string, open: string): seq<string>
    decreases |text|
  {
    if text == "" then (if open == "" then [] else [open])
    else if text[0] == '\n' then [Chomp(open)] + LinesFrom(text[1..], "")
    else LinesFrom(text[1..], open + [text[0]])
  }

  function Lines(text: string): seq<string> {
    LinesFrom(text, "")
  }

  function Window(lines: seq<string>): seq<string> {
    if |lines| > MAX_ENTRIES then lines[|lines| - MAX_ENTRIES..] else lines
  }

  /** What a new history loads from a file. */
  function Loaded(text: string): seq<string> {
    Window(Lines(text))
  }

  // ---- Trimming ----------------------------------------------------------------------------

  predicate IsBlank(c: char) {
    c == ' ' || '\t' <= c <= '\r' || c == '\U{0085}' || c == '\U{00A0}' || c == '\U{1680}'
    || '\U{2000}' <= c <= '\U{200A}' || c == '\U{2028}' || c == '\U{2029}' || c == '\U{202F}'
    || c == '\U{205F}' || c == '\U{3000}'
  }

  function Trim(s: string): (r: string)
    ensures r != "" ==> !IsBlank(r[0]) && !IsBlank(r[|r| - 1])
    ensures forall c | c in r :: c in s
  {
    if s == "" then ""
    else if IsBlank(s[0]) then Trim(s[1..])
    else if IsBlank(s[|s| - 1]) then Trim(s[..|s| - 1])
    else s
  }

  /** The characters with the White_Space property of section 5.1 of UAX #44. */
  lemma BlankExactly(c: char)
    ensures IsBlank(c) <==>
              c in "\U{9}\U{A}\U{B}\U{C}\U{D}\U{20}\U{85}\U{A0}\U{1680}\U{2000}\U{2001}\U{2002}\U{2003}\U{2004}"
                   + "\U{2005}\U{2006}\U{2007}\U{2008}\U{2009}\U{200A}\U{2028}\U{2029}\U{202F}\U{205F}\U{3000}"
  {
  }

  predicate AllBlank(s: string) {
    forall k | 0 <= k < |s| :: IsBlank(s[k])
  }

  lemma BlankInFront(c: char, s: string, front: string, middle: string, back: string)
    requires s != "" && s[0] == c && IsBlank(c) && s[1..] == front + middle + back && AllBlank(front)
    ensures s == ([c] + front) + middle + back && AllBlank([c] + front)
  {
    assert s == [c] + s[1..];
  }

  lemma BlankBehind(c: char, s: string, front: string, middle: string, back: string)
    requires s != "" && s[|s| - 1] == c && IsBlank(c) && s[..|s| - 1] == front + middle + back && AllBlank(back)
    ensures s == front + middle + (back + [c]) && AllBlank(back + [c])
  {
    assert s == s[..|s| - 1] + [c];
  }

  /** Trimming drops blanks at both ends and nothing else. */
  lemma {:induction false} TrimIsExact(s: string) returns (front: string, back: string)
    ensures s == front + Trim(s) + back && AllBlank(front) && AllBlank(back)
    ensures Trim(s) != "" ==> !IsBlank(Trim(s)[0]) && !IsBlank(Trim(s)[|Trim(s)| - 1])
    decreases |s|
  {
    if s == "" {
      front, back := "", "";
    } else if IsBlank(s[0]) {
      front, back := TrimIsExact(s[1..]);
      BlankInFront(s[0], s, front, Trim(s), back);
      front := [s[0]] + front;
    } else if IsBlank(s[|s| - 1]) {
      front, back := TrimIsExact(s[..|s| - 1]);
      BlankBehind(s[|s| - 1], s, front, Trim(s), back);
      back := back + [s[|s| - 1]];
    } else {
      front, back := "", "";
      assert s == "" + s + "";
    }
  }

  // ---- Reading lines -----------------------------------------------------------------------

  /** A line as it stands in a file. */
  datatype FileLine = FileLine(text: string, carriageReturn: bool)

  predicate IsLine(l: FileLine) {
    '\n' !in l.text && (l.text != "" ==> l.text[|l.text| - 1] != '\r')
  }

  function Ending(l: FileLine): string {
    if l.carriageReturn then "\r\n" else "\n"
  }

  function Written(lines: seq<FileLine>): string {
    if lines == [] then "" else lines[0].text + Ending(lines[0]) + Written(lines[1..])
  }

  function Texts(lines: seq<FileLine>): seq<string> {
    if lines == [] then [] else [lines[0].text] + Texts(lines[1..])
  }

  predicate AreLines(lines: seq<FileLine>) {
    lines == [] || (IsLine(lines[0]) && AreLines(lines[1..]))
  }

  /** Lines ended by LF or CR LF read back, and so does an unfinished last one. */
  lemma {:induction false} LinesReadBack(lines: seq<FileLine>, open: string)
    requires AreLines(lines) && '\n' !in open
    ensures Lines(Written(lines) + open) == Texts(lines) + if open == "" then [] else [open]
  {
    if lines == [] {
      LineIsCollected(open, "", "");
      assert open + "" == open && "" + open == open && Written(lines) + open == open;
    } else {
      var l, more := lines[0], Written(lines[1..]);
      LinesReadBack(lines[1..], open);
      EndedLineReads(l, more + open);
      ThreeAndOne(l.text, Ending(l), more, open);
      ListsRegroup([l.text], Texts(lines[1..]), if open == "" then [] else [open]);
    }
  }

  lemma ThreeAndOne(a: string, b: string, c: string, d: string)
    ensures (a + b + c) + d == a + b + (c + d)
  {
  }

  lemma ListsRegroup(a: seq<string>, b: seq<string>, c: seq<string>)
    ensures a + (b + c) == (a + b) + c
  {
  }

  lemma EndedLineReads(l: FileLine, rest: string)
    requires IsLine(l)
    ensures Lines(l.text + Ending(l) + rest) == [l.text] + Lines(rest)
  {
    var text := l.text + if l.carriageReturn then "\r" else "";
    LineIsCollected(text, "\n" + rest, "");
    assert "" + text == text && ("\n" + rest)[1..] == rest;
    assert Chomp(text) == l.text;
    assert l.text + Ending(l) + rest == text + ("\n" + rest) by {
      assert "\r\n" == "\r" + "\n" && l.text + "" == l.text;
    }
  }

  /** A new history holds the last thousand lines of the file, or all of them. */
  lemma LoadedIsTail(text: string)
    ensures var n := |Lines(text)|;
            && |Loaded(text)| == (if n > 1000 then 1000 else n)
            && forall k | 0 <= k < |Loaded(text)| :: Loaded(text)[k] == Lines(text)[n - |Loaded(text)| + k]
  {
  }

  // ---- The history -------------------------------------------------------------------------

  datatype State = State(entries: seq<string>, index: Option<nat>, pending: string, file: string)

  predicate IsNew(s: State, command: string) {
    Trim(command) != "" && (s.entries == [] || s.entries[|s.entries| - 1] != Trim(command))
  }

  function Added(s: State, command: string): State {
    if Trim(command) == "" then s
    else if !IsNew(s, command) then s.(index := None, pending := "")
    else State(Window(s.entries + [Trim(command)]), None, "", s.file + Trim(command) + "\n")
  }

  /** Navigation answers with a line; `None` leaves the editor alone. */
  function Up(s: State, current: string): (State, Option<string>)
    requires Navigable(s)
  {
    if s.entries == [] then (s, None)
    else
      var i := match s.index case None => |s.entries| - 1 case Some(i) => if i == 0 then 0 else i - 1;
      (s.(index := Some(i), pending := if s.index.None? then current else s.pending), Some(s.entries[i]))
  }

  function Down(s: State): (State, Option<string>)
    requires Navigable(s)
  {
    match s.index
    case None => (s, None)
    case Some(i) =>
      if i + 1 >= |s.entries| then (s.(index := None), Some(s.pending))
      else (s.(index := Some(i + 1)), Some(s.entries[i + 1]))
  }

  function Abandoned(s: State, current: string): State {
    s.(index := None, pending := current)
  }

  predicate Navigable(s: State) {
    s.index.Some? ==> s.index.value < |s.entries|
  }

  /** The file as the history sees it: appends succeed. */
  class HistoryFile {
    var text: string

    constructor (text: string)
      ensures this.text == text
    {
      this.text := text;
    }

    method AppendLine(entry: string)
      modifies this
      ensures text == old(text) + entry + "\n"
    {
      text := text + entry + "\n";
    }
  }

  class CommandHistory {
    const file: HistoryFile
    var entries: seq<string>
    var index: Option<nat>
    var pending: string

    ghost predicate Valid()
      reads this
    {
      Navigable(State(entries, index, pending, "")) && |entries| <= MAX_ENTRIES
    }

    ghost function Abs(): State
      reads this, file
    {
      State(entries, index, pending, file.text)
    }

    constructor (file: HistoryFile)
      ensures Valid() && this.file == file
      ensures Abs() == State(Loaded(file.text), None, "", file.text)
    {
      this.file := file;
      var lines := Lines(file.text);
      var start := if |lines| > MAX_ENTRIES then |lines| - MAX_ENTRIES else 0;
      entries := lines[start..];
      index, pending := None, "";
    }

    method Add(command: string)
      requires Valid()
      modifies this, file
      ensures Valid() && Abs() == Added(old(Abs()), command)
    {
      var trimmed := Trim(command);
      if trimmed == "" {
        return;
      }
      if entries != [] && entries[|entries| - 1] == trimmed {
        index, pending := None, "";
        return;
      }
      entries := entries + [trimmed];
      if |entries| > MAX_ENTRIES {
        entries := entries[1..];
      }
      index, pending := None, "";
      file.AppendLine(trimmed);
    }

    method MoveUp(current: string) returns (line: Option<string>)
      requires Valid()
      modifies this
      ensures Valid() && (Abs(), line) == Up(old(Abs()), current)
    {
      if entries == [] {
        return None;
      }
      var i: nat;
      if index.None? {
        pending := current;
        i := |entries| - 1;
      } else {
        i := if index.value == 0 then 0 else index.value - 1;
      }
      index := Some(i);
      return Some(entries[i]);
    }

    method MoveDown() returns (line: Option<string>)
      requires Valid()
      modifies this
      ensures Valid() && (Abs(), line) == Down(old(Abs()))
    {
      if index.None? {
        return None;
      }
      if index.value + 1 >= |entries| {
        index := None;
        return Some(pending);
      }
      index := Some(index.value + 1);
      return Some(entries[index.value]);
    }

    method AbandonNavigation(current: string)
      requires Valid()
      modifies this
      ensures Valid() && Abs() == Abandoned(old(Abs()), current)
    {
      index, pending := None, current;
    }
  }

  /** What adding does to a history of at most a thousand entries: a blank command
      nothing; otherwise it is the last entry, trimmed, and goes to the file as a line of
      its own unless it was the last entry already; the oldest of a thousand makes way. */
  lemma AddRecords(s: State, command: string)
    requires |s.entries| <= 1000
    ensures var t, line, n := Added(s, command), Trim(command), |s.entries|;
            && (line == "" ==> t == s)
            && (line != "" && n > 0 && s.entries[n - 1] == line ==> t == State(s.entries, None, "", s.file))
            && (line != "" && !(n > 0 && s.entries[n - 1] == line) ==>
                  && t.entries == (if n == 1000 then s.entries[1..] else s.entries) + [line]
                  && t.index == None && t.pending == "" && t.file == s.file + line + "\n")
  {
  }

  // ---- The window is a faithful cache ----------------------------------------------------------

  lemma {:induction false} LinesCompose(a: string, b: string, open: string)
    requires EndsLine(a) && (a == "" ==> open == "")
    ensures LinesFrom(a + b, open) == LinesFrom(a, open) + LinesFrom(b, "")
    decreases |a|
  {
    if a == "" {
      assert a + b == b;
    } else {
      assert (a + b)[1..] == a[1..] + b;
      if a[0] == '\n' {
        LinesCompose(a[1..], b, "");
      } else {
        LinesCompose(a[1..], b, open + [a[0]]);
      }
    }
  }

  lemma {:induction false} LineIsCollected(line: string, rest: string, open: string)
    requires '\n' !in line
    ensures LinesFrom(line + rest, open) == LinesFrom(rest, open + line)
    decreases |line|
  {
    if line == "" {
      assert line + rest == rest && open + line == open;
    } else {
      assert (line + rest)[1..] == line[1..] + rest;
      assert open + line == (open + [line[0]]) + line[1..];
      LineIsCollected(line[1..], rest, open + [line[0]]);
    }
  }

  lemma OneLine(line: string)
    requires '\n' !in line
    ensures Lines(line + "\n") == [Chomp(line)]
  {
    LineIsCollected(line, "\n", "");
    assert "" + line == line;
    assert "\n"[1..] == "";
  }

  lemma WindowSlides(lines: seq<string>, line: string)
    ensures Window(Window(lines) + [line]) == Window(lines + [line])
  {
  }

  lemma AddKeepsCache(s: State, command: string)
    requires s.entries == Loaded(s.file) && EndsLine(s.file) && '\n' !in Trim(command)
    ensures Added(s, command).entries == Loaded(Added(s, command).file) && EndsLine(Added(s, command).file)
  {
    if IsNew(s, command) {
      var line := Trim(command);
      LinesCompose(s.file, line + "\n", "");
      OneLine(line);
      assert s.file + line + "\n" == s.file + (line + "\n");
      assert IsBlank('\r');
      WindowSlides(Lines(s.file), line);
    }
  }

  datatype Op = Add(command: string) | GoUp(current: string) | GoDown | Abandon(current: string)

  function Apply(s: State, op: Op): State
    requires Navigable(s)
  {
    match op
    case Add(command) => Added(s, command)
    case GoUp(current) => Up(s, current).0
    case GoDown => Down(s).0
    case Abandon(current) => Abandoned(s, current)
  }

  function Applied(s: State, ops: seq<Op>): (r: State)
    requires Navigable(s)
    ensures Navigable(r)
    decreases |ops|
  {
    if ops == [] then s else Applied(Apply(s, ops[0]), ops[1..])
  }

  function Opened(file: string): State {
    State(Loaded(file), None, "", file)
  }

  ghost predicate Cached(s: State) {
    Navigable(s) && s.entries == Loaded(s.file) && EndsLine(s.file) && |s.entries| <= MAX_ENTRIES
  }

  lemma {:induction false} RunKeepsCache(s: State, ops: seq<Op>)
    requires Cached(s)
    requires forall i | 0 <= i < |ops| && ops[i].Add? :: '\n' !in Trim(ops[i].command)
    ensures Cached(Applied(s, ops))
    decreases |ops|
  {
    if ops != [] {
      if ops[0].Add? {
        AddKeepsCache(s, ops[0].command);
      }
      RunKeepsCache(Apply(s, ops[0]), ops[1..]);
    }
  }

  /** Over a newline-terminated file, after any run of operations the entries are what
      a new history would load from the file, at most a thousand of them. */
  lemma HistoryIsFaithfulCache(file: string, ops: seq<Op>)
    requires EndsLine(file)
    requires forall i | 0 <= i < |ops| && ops[i].Add? :: '\n' !in Trim(ops[i].command)
    ensures var s := Applied(Opened(file), ops);
            s.entries == Opened(s.file).entries && |s.entries| <= 1000
  {
    RunKeepsCache(Opened(file), ops);
  }

  /** The text after the last newline. */
  function LastPiece(text: string): (r: string)
    ensures |r| <= |text| && text[|text| - |r|..] == r && '\n' !in r && EndsLine(text[..|text| - |r|])
    ensures r == "" <==> EndsLine(text)
  {
    if EndsLine(text) then "" else LastPiece(text[..|text| - 1]) + [text[|text| - 1]]
  }

  /** No line that is read back holds a newline. */
  lemma {:induction false} LinesHoldNoNewline(text: string, open: string)
    requires '\n' !in open
    ensures forall i | 0 <= i < |LinesFrom(text, open)| :: '\n' !in LinesFrom(text, open)[i]
    decreases |text|
  {
    if text != "" {
      LinesHoldNoNewline(text[1..], if text[0] == '\n' then "" else open + [text[0]]);
    }
  }

  /** When adding keeps memory and file in step, exactly: when nothing new is added,
      or the file ended a line and the command is a single line. */
  lemma AddIsFaithfulExactly(s: State, command: string)
    requires s.entries == Loaded(s.file)
    ensures Added(s, command).entries == Loaded(Added(s, command).file) <==>
              !IsNew(s, command) || (EndsLine(s.file) && '\n' !in Trim(command))
  {
    if IsNew(s, command) {
      var line := Trim(command);
      var loaded, kept := Loaded(Added(s, command).file), Added(s, command).entries;
      assert kept[|kept| - 1] == line;
      if '\n' in line {
        LinesHoldNoNewline(Added(s, command).file, "");
        assert forall i | 0 <= i < |loaded| :: '\n' !in loaded[i];
      } else if EndsLine(s.file) {
        AddKeepsCache(s, command);
      } else {
        assert IsBlank('\r');
        GluedLast(s.file, line);
        assert |loaded[|loaded| - 1]| > |line|;
      }
    }
  }

  /** Appended to an unfinished line, a command is read back glued to it. */
  lemma GluedLast(text: string, line: string)
    requires !EndsLine(text) && line != "" && line[|line| - 1] != '\r' && '\n' !in line
    ensures var loaded := Loaded(text + line + "\n");
            loaded != [] && |loaded[|loaded| - 1]| > |line|
  {
    var piece := LastPiece(text);
    var whole := text[..|text| - |piece|];
    var glued := piece + line;
    assert text + line + "\n" == whole + (glued + "\n");
    LinesCompose(whole, glued + "\n", "");
    OneLine(glued);
    assert glued[|glued| - 1] == line[|line| - 1];
    var lines := Lines(text + line + "\n");
    assert lines == Lines(whole) + [glued];
    assert Window(lines)[|Window(lines)| - 1] == lines[|lines| - 1];
  }

  // ---- Navigation ------------------------------------------------------------------------------------

  function Ups(s: State, currents: seq<string>): (r: State)
    requires Navigable(s)
    ensures Navigable(r) && r.entries == s.entries
    decreases |currents|
  {
    if currents == [] then s else Up(Ups(s, currents[..|currents| - 1]), currents[|currents| - 1]).0
  }

  function Downs(s: State, k: nat): (r: State)
    requires Navigable(s)
    ensures Navigable(r) && r.entries == s.entries
  {
    if k == 0 then s else Down(Downs(s, k - 1)).0
  }

  lemma {:induction false} UpsReach(s: State, currents: seq<string>)
    requires s.index == None && s.entries != [] && currents != []
    ensures Ups(s, currents) ==
            s.(index := Some(if |currents| < |s.entries| then |s.entries| - |currents| else 0), pending := currents[0])
    decreases |currents|
  {
    if |currents| == 1 {
      assert currents[..0] == [];
    } else {
      UpsReach(s, currents[..|currents| - 1]);
    }
  }

  /** After k moves up, one more shows the entry that has k newer ones, or the oldest where
      there are not so many; an empty history shows nothing. */
  lemma UpsShowOlder(s: State, earlier: seq<string>, current: string)
    requires s.index == None
    ensures var n, k := |s.entries|, |earlier|;
            Up(Ups(s, earlier), current).1 ==
            if n == 0 then None else Some(s.entries[if k < n then n - 1 - k else 0])
  {
    if earlier == [] {
      assert Ups(s, earlier) == s;
    } else if s.entries == [] {
      UpsOfNothing(s, earlier);
    } else {
      UpsReach(s, earlier);
    }
  }

  /** Out of navigation a move down does nothing; abandoning leaves navigation with the
      given line pending and touches neither entries nor file. */
  lemma OutOfNavigation(s: State, current: string)
    requires Navigable(s)
    ensures var t := Abandoned(s, current);
            && t == State(s.entries, None, current, s.file) && Down(t) == (t, None)
            && (s.entries != [] ==> Up(t, current).1 == Some(s.entries[|s.entries| - 1]))
  {
  }

  lemma {:induction false} UpsOfNothing(s: State, currents: seq<string>)
    requires s.index == None && s.entries == []
    ensures Ups(s, currents) == s
    decreases |currents|
  {
    if currents != [] {
      UpsOfNothing(s, currents[..|currents| - 1]);
    }
  }

  lemma {:induction false} DownsReach(s: State, k: nat)
    requires s.index.Some? && s.index.value + k < |s.entries|
    ensures Downs(s, k) == s.(index := Some(s.index.value + k))
  {
    if k > 0 {
      DownsReach(s, k - 1);
    }
  }

  /** After k moves up from a line being typed, the first min(k, n) - 1 moves down show
      ever newer entries and exactly the min(k, n)-th brings the typed line back. */
  lemma DownsUndoUps(s: State, currents: seq<string>, j: nat)
    requires s.index == None && currents != [] && s.entries != []
    requires var n := |s.entries|; j < if |currents| < n then |currents| else n
    ensures var n, up := |s.entries|, Ups(s, currents);
            var m := if |currents| < n then |currents| else n;
            Down(Downs(up, j)).1 == Some(if j + 1 < m then s.entries[n - m + j + 1] else currents[0])
            && (Down(Downs(up, j)).0.index == None <==> j + 1 == m)
  {
    UpsReach(s, currents);
    DownsReach(Ups(s, currents), j);
  }
}
