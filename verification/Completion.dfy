/** Tab completion of remote paths. A connection without a shell filters the
    directory itself; one with a live shell runs `find` through `sh` inside the
    shell's context and parses what it prints. */
module Completion {
  import opened Options
  import Fnmatch
  import opened ShellWords
  import Sorting

  /** A directory entry and the type letter `find` prints for it. */
  datatype Entry = Entry(name: string, kind: char)

  const NUL: char := '\0'

  predicate ValidName(name: string) {
    name != "" && name != "." && name != ".." && NUL !in name && '/' !in name
  }

  predicate ValidListing(dir: seq<Entry>) {
    forall i | 0 <= i < |dir| :: ValidName(dir[i].name) && dir[i].kind != NUL
  }

  /** How an entry is offered: directories get a slash. */
  function Shown(e: Entry): string {
    if e.kind == 'd' then e.name + "/" else e.name
  }

  /** The entries offered for a prefix, in listing order. */
  function Offered(dir: seq<Entry>, prefix: string): seq<string> {
    if dir == [] then []
    else (if prefix <= dir[0].name then [Shown(dir[0])] else []) + Offered(dir[1..], prefix)
  }

  // ---- Building the command ------------------------------------------------------

  predicate IsGlobMeta(c: char) {
    c == '*' || c == '?' || c == '[' || c == ']' || c == '\\'
  }

  function EscapedChar(c: char): string {
    if IsGlobMeta(c) then ['[', c, ']'] else [c]
  }

  function Escaped(s: string): string {
    if s == [] then [] else EscapedChar(s[0]) + Escaped(s[1..])
  }

  lemma EscapedStep(input: string, i: nat, out: string)
    requires i < |input|
    ensures out + Escaped(input[i..]) == (out + EscapedChar(input[i])) + Escaped(input[i + 1..])
  {
    assert input[i..][1..] == input[i + 1..];
    Reassociated(out, EscapedChar(input[i]), Escaped(input[i + 1..]));
  }

  method GlobEscape(input: string) returns (out: string)
    ensures out == Escaped(input)
  {
    out := [];
    ghost var all := Escaped(input);
    assert input[0..] == input;
    for i := 0 to |input|
      invariant out + Escaped(input[i..]) == all
    {
      var c := input[i];
      EscapedStep(input, i, out);
      if IsGlobMeta(c) {
        out := out + ['[', c, ']'];
      } else {
        out := out + [c];
      }
    }
  }

  const BEFORE: string := "find . -maxdepth 1 -name '"
  const AFTER: string := "*' -printf '%P\\0%y\\0'"

  function Script(escaped: string): string {
    BEFORE + Quoted(escaped) + AFTER
  }

  // ---- The shell and find -----------------------------------------------------------

  const PRINT_FORMAT: string := "%P\\0%y\\0"

  function FindCommand(pattern: string): seq<string> {
    ["find", ".", "-maxdepth", "1", "-name", pattern, "-printf", PRINT_FORMAT]
  }

  function Record(name: string, kind: char): string {
    name + [NUL] + [kind] + [NUL]
  }

  function FoundBelow(pattern: string, dir: seq<Entry>, escapes: bool): string {
    if dir == [] then ""
    else (if Fnmatch.Matches(pattern, dir[0].name, escapes) then Record(dir[0].name, dir[0].kind) else "")
         + FoundBelow(pattern, dir[1..], escapes)
  }

  /** The starting point is tested under its own name and printed with an empty path. */
  function Found(pattern: string, dir: seq<Entry>, escapes: bool): string {
    (if Fnmatch.Matches(pattern, ".", escapes) then Record("", 'd') else "")
    + FoundBelow(pattern, dir, escapes)
  }

  /** Running `sh -c script` in a directory: no result when the script cannot be
      passed as an argument or does not come out as the expected command. */
  function ShellOutput(script: string, dir: seq<Entry>, escapes: bool): Option<string> {
    if NUL in script then None
    else
      var argv := Words(script, Blank, "");
      if argv.None? || |argv.value| != 8 || argv.value != FindCommand(argv.value[5]) then None
      else Some(Found(argv.value[5], dir, escapes))
  }

  /** The entries a pattern selects, as they are offered, in listing order. */
  function Selected(dir: seq<Entry>, pattern: string, escapes: bool): seq<string> {
    if dir == [] then []
    else (if Fnmatch.Matches(pattern, dir[0].name, escapes) then [Shown(dir[0])] else [])
         + Selected(dir[1..], pattern, escapes)
  }

  // ---- Reading the records -------------------------------------------------------------

  function Split(s: string): (r: seq<string>)
    ensures |r| > 0
  {
    if s == [] then [[]]
    else
      var r := Split(s[1..]);
      if s[0] == NUL then [[]] + r else [[s[0]] + r[0]] + r[1..]
  }

  function Entries(fields: seq<string>): seq<string> {
    if |fields| < 2 then []
    else (if fields[0] == "" then [] else [fields[0] + if fields[1] == "d" then "/" else ""]) + Entries(fields[2..])
  }

  method ParseFindTypeEntries(text: string) returns (out: seq<string>)
    ensures out == Entries(Split(text))
  {
    out := [];
    var fields := Split(text);
    var i := 0;
    assert fields[0..] == fields;
    while i + 1 < |fields|
      invariant 0 <= i <= |fields|
      invariant out + Entries(fields[i..]) == Entries(fields)
    {
      var name, kind := fields[i], fields[i + 1];
      ghost var done := out;
      ghost var one := if name == "" then [] else [name + if kind == "d" then "/" else ""];
      assert fields[i..][2..] == fields[i + 2..];
      assert Entries(fields[i..]) == one + Entries(fields[i + 2..]);
      i := i + 2;
      assert done + (one + Entries(fields[i..])) == (done + one) + Entries(fields[i..]);
      if name == "" {
        continue;
      }
      var entry := name;
      assert name + "" == name;
      if kind == "d" {
        entry := entry + "/";
      }
      out := out + [entry];
    }
  }

  // ---- The request -------------------------------------------------------------------------

  datatype Context = Stateless | Live

  method FilterDirectory(entries: seq<Entry>, prefix: string) returns (matches: seq<string>)
    ensures matches == Offered(entries, prefix)
  {
    matches := [];
    ghost var all := Offered(entries, prefix);
    assert entries[0..] == entries;
    for i := 0 to |entries|
      invariant matches + Offered(entries[i..], prefix) == all
    {
      OfferedStep(entries, i, prefix, matches);
      var name := entries[i].name;
      if prefix <= name {
        var matchName := name;
        if entries[i].kind == 'd' {
          matchName := matchName + "/";
        }
        matches := matches + [matchName];
      }
    }
  }

  lemma OfferedStep(entries: seq<Entry>, i: nat, prefix: string, done: seq<string>)
    requires i < |entries|
    ensures done + Offered(entries[i..], prefix) ==
            (if prefix <= entries[i].name then done + [Shown(entries[i])] else done) + Offered(entries[i + 1..], prefix)
  {
    assert entries[i..][1..] == entries[i + 1..];
  }

  /** The answer to a request as the client may read it: the names that start with the
      prefix, with a slash after a directory's, each entry once, in code-point order. */
  ghost predicate IsAnswer(answer: seq<string>, dir: seq<Entry>, prefix: string) {
    && (forall i, j | 0 <= i < j < |answer| :: Sorting.Precedes(answer[i], answer[j]))
    && |answer| == |Starting(dir, prefix)|
    && forall x :: x in answer <==>
         exists i :: i in Starting(dir, prefix) && x == dir[i].name + if dir[i].kind == 'd' then "/" else ""
  }

  /** The entries whose names start with the prefix. */
  ghost function Starting(dir: seq<Entry>, prefix: string): set<nat> {
    set i: nat | i < |dir| && |prefix| <= |dir[i].name| && dir[i].name[..|prefix|] == prefix
  }

  lemma {:induction false} OfferedAreThoseStarting(dir: seq<Entry>, prefix: string)
    ensures |Offered(dir, prefix)| == |Starting(dir, prefix)|
    ensures forall x :: x in Offered(dir, prefix) <==>
              exists i :: i in Starting(dir, prefix) && x == dir[i].name + if dir[i].kind == 'd' then "/" else ""
  {
    if dir != [] {
      var init, last := dir[..|dir| - 1], dir[|dir| - 1];
      OfferedAreThoseStarting(init, prefix);
      assert dir == init + [last];
      OfferedConcat(init, [last], prefix);
      assert [last][1..] == [];
      StartingGrows(init, last, prefix);
      assert last.name + "" == last.name;
      assert forall i: nat | i < |init| :: dir[i] == init[i];
    }
  }

  lemma StartingGrows(init: seq<Entry>, last: Entry, prefix: string)
    ensures var dir := init + [last];
            && Starting(dir, prefix) == Starting(init, prefix) + (if prefix <= last.name then {|init|} else {})
            && |Starting(dir, prefix)| == |Starting(init, prefix)| + if prefix <= last.name then 1 else 0
  {
    var dir := init + [last];
    assert forall i: nat | i < |init| :: dir[i] == init[i];
    assert prefix <= last.name <==> |prefix| <= |last.name| && last.name[..|prefix|] == prefix;
  }

  lemma SortedOffersAreAnswer(dir: seq<Entry>, prefix: string)
    ensures IsAnswer(Sorting.Sort(Offered(dir, prefix)), dir, prefix)
  {
    Sorting.SortPutsInOrder(Offered(dir, prefix));
    OfferedAreThoseStarting(dir, prefix);
  }

  /** Answers a completion request for a directory that lists as `dir` (`None` when
      it cannot be read). `escapes` is the matcher's reading of `[\]`. */
  method HandleCompletionRequest(context: Context, dir: Option<seq<Entry>>, prefix: string, escapes: bool)
    returns (matches: seq<string>)
    requires dir.Some? ==> ValidListing(dir.value)
    ensures matches == if dir.None? then []
                       else if context.Stateless? then Sorting.Sort(Offered(dir.value, prefix))
                       else LiveAnswer(dir.value, prefix, escapes)
    ensures context.Stateless? || !escapes || '\\' !in prefix ==>
              matches == if dir.None? then [] else Sorting.Sort(Offered(dir.value, prefix))
    ensures dir.Some? && (context.Stateless? || !escapes || '\\' !in prefix) ==> IsAnswer(matches, dir.value, prefix)
  {
    matches := [];
    if dir.Some? {
      SortedOffersAreAnswer(dir.value, prefix);
      match context {
        case Stateless =>
          matches := FilterDirectory(dir.value, prefix);
        case Live =>
          var escaped := GlobEscape(prefix);
          var output := ShellOutput(Script(escaped), dir.value, escapes);
          if output.Some? {
            matches := ParseFindTypeEntries(output.value);
          }
          LivePathOffers(dir.value, prefix, escapes);
          if !escapes || '\\' !in prefix {
            OfferedByLive(dir.value, prefix, escapes);
          }
      }
    }
    matches := Sorting.Sort(matches);
  }

  /** What the live path answers: what the escaped prefix and a star select. A prefix
      that holds a NUL cannot be passed to the shell. */
  function LiveAnswer(dir: seq<Entry>, prefix: string, escapes: bool): seq<string> {
    Sorting.Sort(if NUL in prefix then [] else Selected(dir, Escaped(prefix) + "*", escapes))
  }

  // ---- Why the two paths agree ---------------------------------------------------------------

  lemma {:induction false} StarMatchesAll(s: string, escapes: bool)
    ensures Fnmatch.Matches("*", s, escapes)
  {
    if s != [] {
      StarMatchesAll(s[1..], escapes);
    }
  }

  lemma BracketOfOne(c: char, rest: string, escapes: bool)
    requires IsGlobMeta(c) && (escapes ==> c != '\\')
    ensures Fnmatch.ParseBracket([c, ']'] + rest, escapes) == Some(Fnmatch.Bracket(false, [Fnmatch.Range(c, c)], rest))
  {
    var q := [c, ']'] + rest;
    assert q[1..] == [']'] + rest;
    assert q[1..][1..] == rest;
    assert Fnmatch.Members(q[1..], false, escapes) == Some(([], rest));
    assert [Fnmatch.Range(c, c)] + [] == [Fnmatch.Range(c, c)];
    assert Fnmatch.Members(q, true, escapes) == Some(([Fnmatch.Range(c, c)], rest));
  }

  /** An escaped character takes just itself off the front of a name. */
  lemma EscapedCharMatches(c: char, tail: string, s: string, escapes: bool)
    requires escapes ==> c != '\\'
    ensures Fnmatch.Matches(EscapedChar(c) + tail, s, escapes) <==>
              s != [] && s[0] == c && Fnmatch.Matches(tail, s[1..], escapes)
  {
    var p := EscapedChar(c) + tail;
    if IsGlobMeta(c) {
      assert p == ['['] + ([c, ']'] + tail);
      assert p[1..] == [c, ']'] + tail;
      BracketOfOne(c, tail, escapes);
      assert Fnmatch.Bracket(false, [Fnmatch.Range(c, c)], tail).ranges[0] == Fnmatch.Range(c, c);
    } else {
      assert p == [c] + tail;
      assert p[1..] == tail;
    }
  }

  /** Escaped text takes just itself off the front of a name and leaves the rest to
      what follows it. */
  lemma {:induction false} EscapedTakesItself(u: string, tail: string, s: string, escapes: bool)
    requires escapes ==> '\\' !in u
    ensures Fnmatch.Matches(Escaped(u) + tail, s, escapes) <==>
              u <= s && Fnmatch.Matches(tail, s[|u|..], escapes)
  {
    if u == [] {
      assert Escaped(u) + tail == tail && s[0..] == s;
    } else {
      var more := Escaped(u[1..]) + tail;
      EscapedCharMatches(u[0], more, s, escapes);
      Reassociated(EscapedChar(u[0]), Escaped(u[1..]), tail);
      if s != [] {
        EscapedTakesItself(u[1..], tail, s[1..], escapes);
        assert u <= s <==> u[0] == s[0] && u[1..] <= s[1..];
        assert u <= s ==> s[1..][|u| - 1..] == s[|u|..];
      }
    }
  }

  /** The escaped prefix followed by a star matches a name just when the name starts
      with the prefix. */
  lemma EscapedMatchesLiterally(u: string, s: string, escapes: bool)
    requires escapes ==> '\\' !in u
    ensures Fnmatch.Matches(Escaped(u) + "*", s, escapes) <==> u <= s
  {
    EscapedTakesItself(u, "*", s, escapes);
    if u <= s {
      StarMatchesAll(s[|u|..], escapes);
    }
  }

  lemma FormatWordReadsBack()
    ensures Words("'" + PRINT_FORMAT + "'", Blank, "") == Some([PRINT_FORMAT])
  {
    var format := "'" + PRINT_FORMAT + "'";
    assert format[1..] == PRINT_FORMAT + "'";
    QuotelessReads(PRINT_FORMAT, "'", "");
    assert "" + PRINT_FORMAT == PRINT_FORMAT;
    QuotedWordEnds(PRINT_FORMAT, "");
  }

  /** The quoted end of the script: the pattern, the option and the print format. */
  lemma PatternWordReadsBack(e: string)
    ensures Words("'" + Quoted(e) + AFTER, Blank, "") == Some([e + "*", "-printf", PRINT_FORMAT])
  {
    var format := "'" + PRINT_FORMAT + "'";
    FormatWordReadsBack();
    PlainWord("-printf", format);
    var option := "-printf" + " " + format;
    assert AFTER == "*" + ("' " + option);
    PatternWord(e, option);
    assert "'" + Quoted(e) + AFTER == "'" + Quoted(e) + ("*" + ("' " + option));
    assert [e + "*"] + (["-printf"] + [PRINT_FORMAT]) == [e + "*", "-printf", PRINT_FORMAT];
  }

  lemma PatternWord(e: string, option: string)
    requires Words(option, Blank, "").Some?
    ensures Words("'" + Quoted(e) + ("*" + ("' " + option)), Blank, "") ==
            Some([e + "*"] + Words(option, Blank, "").value)
  {
    var after := "*" + ("' " + option);
    Reassociated("'", Quoted(e), after);
    QuoteOpens(Quoted(e) + after);
    QuotedReadsBack(e, after, "");
    assert "" + e == e;
    StarWordEnds(e, option);
  }

  lemma StarWordEnds(e: string, option: string)
    requires Words(option, Blank, "").Some?
    ensures Words("*" + ("' " + option), Quote, e) == Some([e + "*"] + Words(option, Blank, "").value)
  {
    QuotelessReads("*", "' " + option, e);
    QuotedWordEnds(e + "*", option);
  }

  const HEAD: string := "find . -maxdepth 1 -name "

  lemma HeadReads(rest: string)
    requires Words(rest, Blank, "").Some?
    ensures Words(HEAD + rest, Blank, "") ==
            Some(["find", ".", "-maxdepth", "1", "-name"] + Words(rest, Blank, "").value)
  {
    FivePlainWords("find", ".", "-maxdepth", "1", "-name", rest);
    HeadIsWords();
    Reassociate("find" + " ", "." + " ", "-maxdepth" + " ", "1" + " ", "-name" + " ", rest);
  }

  lemma HeadIsWords()
    ensures HEAD == ((("find" + " " + ("." + " ")) + ("-maxdepth" + " ")) + ("1" + " ")) + ("-name" + " ")
  {
  }

  lemma Reassociate(a: string, b: string, c: string, d: string, e: string, rest: string)
    ensures (((a + b) + c) + d) + e + rest == a + (b + (c + (d + (e + rest))))
  {
  }

  lemma ScriptSplits(e: string)
    ensures Script(e) == HEAD + ("'" + Quoted(e) + AFTER)
  {
    BeforeSplits();
    QuoteMoves(HEAD, "'", Quoted(e), AFTER);
  }

  lemma BeforeSplits()
    ensures BEFORE == HEAD + "'"
  {
  }

  lemma QuoteMoves(a: string, b: string, c: string, d: string)
    ensures (a + b) + c + d == a + (b + c + d)
  {
  }

  lemma CommandWords(pattern: string)
    ensures ["find", ".", "-maxdepth", "1", "-name"] + [pattern, "-printf", PRINT_FORMAT] == FindCommand(pattern)
  {
  }

  /** Whatever the prefix contains, the shell hands `find` the pattern unchanged and
      nothing else. */
  lemma ScriptReadsAsCommand(e: string)
    ensures Words(Script(e), Blank, "") == Some(FindCommand(e + "*"))
    ensures FindCommand(e + "*") == ["find", ".", "-maxdepth", "1", "-name", e + "*", "-printf", "%P\\0%y\\0"]
  {
    PatternWordReadsBack(e);
    HeadReads("'" + Quoted(e) + AFTER);
    ScriptSplits(e);
    CommandWords(e + "*");
  }

  lemma {:induction false} SplitField(field: string, rest: string)
    requires NUL !in field
    ensures Split(field + [NUL] + rest) == [field] + Split(rest)
  {
    var text := field + [NUL] + rest;
    if field == [] {
      assert text[1..] == rest;
    } else {
      assert text[1..] == field[1..] + [NUL] + rest;
      SplitField(field[1..], rest);
      assert [field[0]] + field[1..] == field;
    }
  }

  lemma SplitRecord(name: string, kind: char, rest: string)
    requires NUL !in name && kind != NUL
    ensures Split(Record(name, kind) + rest) == [name, [kind]] + Split(rest)
  {
    var later := [kind] + [NUL] + rest;
    assert Record(name, kind) + rest == name + [NUL] + later;
    SplitField(name, later);
    SplitField([kind], rest);
    assert [name] + ([[kind]] + Split(rest)) == [name, [kind]] + Split(rest);
  }

  lemma EntriesOfRecord(name: string, kind: char, rest: string)
    requires NUL !in name && kind != NUL
    ensures Entries(Split(Record(name, kind) + rest)) ==
            (if name == "" then [] else [name + if kind == 'd' then "/" else ""]) + Entries(Split(rest))
  {
    SplitRecord(name, kind, rest);
    var fields := [name, [kind]] + Split(rest);
    assert fields[2..] == Split(rest);
    assert [kind] == "d" <==> kind == 'd';
  }

  /** Printing a record for each selected entry and parsing the records gives the
      selected entries. */
  lemma {:induction false} FoundParsesBack(dir: seq<Entry>, pattern: string, escapes: bool)
    requires ValidListing(dir)
    ensures Entries(Split(FoundBelow(pattern, dir, escapes))) == Selected(dir, pattern, escapes)
  {
    if dir != [] {
      var rest := FoundBelow(pattern, dir[1..], escapes);
      FoundParsesBack(dir[1..], pattern, escapes);
      EntriesOfRecord(dir[0].name, dir[0].kind, rest);
      assert dir[0].name + "" == dir[0].name;
      assert "" + rest == rest;
    }
  }

  lemma {:induction false} SelectedIsOffered(dir: seq<Entry>, prefix: string, escapes: bool)
    requires escapes ==> '\\' !in prefix
    ensures Selected(dir, Escaped(prefix) + "*", escapes) == Offered(dir, prefix)
  {
    if dir != [] {
      SelectedIsOffered(dir[1..], prefix, escapes);
      EscapedMatchesLiterally(prefix, dir[0].name, escapes);
    }
  }

  lemma {:induction false} NulSurvives(s: string)
    ensures NUL in Quoted(Escaped(s)) <==> NUL in s
  {
    NulInEscaped(s);
    NulInQuoted(Escaped(s));
  }

  lemma {:induction false} NulInEscaped(s: string)
    ensures NUL in Escaped(s) <==> NUL in s
  {
    if s != [] {
      NulInEscaped(s[1..]);
      assert s == [s[0]] + s[1..];
    }
  }

  lemma {:induction false} NulInQuoted(s: string)
    ensures NUL in Quoted(s) <==> NUL in s
  {
    if s != [] {
      NulInQuoted(s[1..]);
      assert s == [s[0]] + s[1..];
    }
  }

  lemma {:induction false} NulPrefixOffersNothing(dir: seq<Entry>, prefix: string)
    requires ValidListing(dir) && NUL in prefix
    ensures Offered(dir, prefix) == []
  {
    if dir != [] {
      NulPrefixOffersNothing(dir[1..], prefix);
      assert !(prefix <= dir[0].name);
    }
  }

  /** The starting point `.` is printed with an empty path and dropped. */
  lemma FoundReads(dir: seq<Entry>, pattern: string, escapes: bool)
    requires ValidListing(dir)
    ensures Entries(Split(Found(pattern, dir, escapes))) == Selected(dir, pattern, escapes)
  {
    var below := FoundBelow(pattern, dir, escapes);
    FoundParsesBack(dir, pattern, escapes);
    EntriesOfRecord("", 'd', below);
    assert "" + below == below;
    assert [] + Selected(dir, pattern, escapes) == Selected(dir, pattern, escapes);
  }

  lemma NulInScript(prefix: string)
    ensures NUL in Script(Escaped(prefix)) <==> NUL in prefix
  {
    NulSurvives(prefix);
    assert NUL !in BEFORE && NUL !in AFTER;
  }

  lemma CommandRuns(script: string, pattern: string, dir: seq<Entry>, escapes: bool)
    requires NUL !in script && Words(script, Blank, "") == Some(FindCommand(pattern))
    ensures ShellOutput(script, dir, escapes) == Some(Found(pattern, dir, escapes))
  {
    assert FindCommand(pattern)[5] == pattern;
  }

  /** What the live path reads back is what the escaped prefix and a star select,
      entry by entry. */
  lemma LivePathOffers(dir: seq<Entry>, prefix: string, escapes: bool)
    requires ValidListing(dir)
    ensures var output := ShellOutput(Script(Escaped(prefix)), dir, escapes);
            && (output.Some? <==> NUL !in prefix)
            && (output.Some? ==> Entries(Split(output.value)) == Selected(dir, Escaped(prefix) + "*", escapes))
  {
    NulInScript(prefix);
    if NUL !in prefix {
      ScriptReadsAsCommand(Escaped(prefix));
      CommandRuns(Script(Escaped(prefix)), Escaped(prefix) + "*", dir, escapes);
      FoundReads(dir, Escaped(prefix) + "*", escapes);
    }
  }

  /** A prefix that escapes exactly is answered by its offers, and so is one that
      holds a NUL. */
  lemma OfferedByLive(dir: seq<Entry>, prefix: string, escapes: bool)
    requires ValidListing(dir) && (NUL in prefix || (escapes ==> '\\' !in prefix))
    ensures LiveAnswer(dir, prefix, escapes) == Sorting.Sort(Offered(dir, prefix))
  {
    if NUL in prefix {
      NulPrefixOffersNothing(dir, prefix);
    } else {
      SelectedIsOffered(dir, prefix, escapes);
    }
  }

  /** Taking one entry out of a listing takes its offer out of the offers. */
  lemma OfferedWithout(b: seq<Entry>, i: nat, prefix: string)
    requires i < |b|
    ensures multiset(Offered(b, prefix)) ==
            multiset(Offered([b[i]], prefix)) + multiset(Offered(b[..i] + b[i + 1..], prefix))
  {
    assert b == b[..i] + ([b[i]] + b[i + 1..]);
    OfferedConcat(b[..i], [b[i]] + b[i + 1..], prefix);
    OfferedConcat([b[i]], b[i + 1..], prefix);
    OfferedConcat(b[..i], b[i + 1..], prefix);
  }

  lemma RestOfListing(a: seq<Entry>, b: seq<Entry>, i: nat)
    requires a != [] && multiset(a) == multiset(b) && i < |b| && b[i] == a[0]
    ensures multiset(a[1..]) == multiset(b[..i] + b[i + 1..])
  {
    assert a == [a[0]] + a[1..];
    assert b == b[..i] + ([b[i]] + b[i + 1..]);
    var one := multiset([a[0]]);
    assert multiset(a) == one + multiset(a[1..]);
    assert multiset(b) == one + multiset(b[..i] + b[i + 1..]);
    assert multiset(a[1..]) == multiset(a) - one;
    assert multiset(b[..i] + b[i + 1..]) == multiset(b) - one;
  }

  lemma {:induction false} OfferedIgnoresOrder(a: seq<Entry>, b: seq<Entry>, prefix: string)
    requires multiset(a) == multiset(b)
    ensures multiset(Offered(a, prefix)) == multiset(Offered(b, prefix))
    decreases |a|
  {
    assert |multiset(a)| == |a| && |multiset(b)| == |b|;
    if a != [] {
      assert a[0] in multiset(b);
      var i :| 0 <= i < |b| && b[i] == a[0];
      RestOfListing(a, b, i);
      OfferedIgnoresOrder(a[1..], b[..i] + b[i + 1..], prefix);
      OfferedWithout(b, i, prefix);
      OfferedConcat([a[0]], a[1..], prefix);
      assert a == [a[0]] + a[1..];
    }
  }

  lemma {:induction false} OfferedConcat(a: seq<Entry>, b: seq<Entry>, prefix: string)
    ensures Offered(a + b, prefix) == Offered(a, prefix) + Offered(b, prefix)
  {
    if a == [] {
      assert a + b == b;
    } else {
      assert (a + b)[1..] == a[1..] + b;
      OfferedConcat(a[1..], b, prefix);
    }
  }

  /** Both paths give the same answer although the directory may list in a different
      order each time: the sorted answers of any two listings are equal. */
  lemma ListingOrderIsImmaterial(a: seq<Entry>, b: seq<Entry>, prefix: string)
    requires multiset(a) == multiset(b)
    ensures Sorting.Sort(Offered(a, prefix)) == Sorting.Sort(Offered(b, prefix))
  {
    OfferedIgnoresOrder(a, b, prefix);
    Sorting.SortIgnoresOrder(Offered(a, prefix), Offered(b, prefix));
  }

  /** Both paths agree: listing the same directory twice, in whatever orders, the
      pipeline of glob escape, quoting, shell, `find`, NUL records and parser answers
      exactly what filtering by prefix answers. */
  lemma BothPathsAgree(live: seq<Entry>, stateless: seq<Entry>, prefix: string, escapes: bool)
    requires ValidListing(live) && multiset(live) == multiset(stateless)
    requires NUL in prefix || (escapes ==> '\\' !in prefix)
    ensures LiveAnswer(live, prefix, escapes) == Sorting.Sort(Offered(stateless, prefix))
  {
    OfferedByLive(live, prefix, escapes);
    ListingOrderIsImmaterial(live, stateless, prefix);
  }

  // ---- Where they do not ---------------------------------------------------------------------

  /** Every backslash stands before a `]`, as it does in escaped text. */
  predicate Tame(q: string) {
    q == [] || ((q[0] == '\\' ==> |q| > 1 && q[1] == ']') && Tame(q[1..]))
  }

  lemma {:induction false} TameDrop(q: string, n: nat)
    requires Tame(q) && n <= |q|
    ensures Tame(q[n..])
  {
    if n > 0 {
      TameDrop(q[1..], n - 1);
      assert q[1..][n - 1..] == q[n..];
    } else {
      assert q[0..] == q;
    }
  }

  lemma {:induction false} EscapedIsTame(v: string)
    ensures Tame(Escaped(v) + "*")
  {
    if v == [] {
      assert Escaped(v) + "*" == "*";
      assert "*"[1..] == "";
    } else {
      var tail := Escaped(v[1..]) + "*";
      EscapedIsTame(v[1..]);
      Reassociated(EscapedChar(v[0]), Escaped(v[1..]), "*");
      if IsGlobMeta(v[0]) {
        TamePrefix(v[0], tail);
      } else {
        assert ([v[0]] + tail)[1..] == tail;
      }
    }
  }

  lemma TamePrefix(c: char, tail: string)
    requires Tame(tail)
    ensures Tame([c, ']'] + tail) && Tame(['[', c, ']'] + tail)
  {
    var closing, member, whole := "]" + tail, [c, ']'] + tail, ['[', c, ']'] + tail;
    assert closing[1..] == tail && member[1..] == closing && whole[1..] == member;
  }

  /** No range starts at a backslash, and each starts at a character of the text. */
  predicate StartsIn(ranges: seq<Fnmatch.Range>, q: string) {
    forall k | 0 <= k < |ranges| :: ranges[k].lo != '\\' && ranges[k].lo in q
  }

  lemma RangePrepended(r: Fnmatch.Range, more: seq<Fnmatch.Range>, q: string, n: nat)
    requires r.lo != '\\' && r.lo in q && n <= |q| && StartsIn(more, q[n..])
    ensures StartsIn([r] + more, q)
  {
    assert forall k | 0 <= k < |more| :: ([r] + more)[k + 1] == more[k] && more[k].lo in q[n..];
  }

  /** Where a backslash escapes, the ranges of a class over escaped text start in it,
      none at a backslash, and a `]` closes the class. */
  lemma {:induction false} MembersAvoidBackslash(q: string, first: bool)
    requires Tame(q) && Fnmatch.Members(q, first, true).Some?
    ensures StartsIn(Fnmatch.Members(q, first, true).value.0, q)
    ensures ']' in q && (first && q[0] == '\\' ==> ']' in q[2..])
    decreases |q|, 1
  {
    if q[0] != ']' || first {
      var skip := if q[0] == '\\' then 1 else 0;
      var lo, n := q[skip], skip + 1;
      assert q[skip] in q;
      if |q| >= n + 2 && q[n] == '-' && q[n + 1] != ']' {
        assert q[n..][0] == q[n] && q[n..][1] == q[n + 1];
        var hiSkip := if q[n + 1] == '\\' then 1 else 0;
        assert q[n..][2 + hiSkip..] == q[n + 2 + hiSkip..];
        MembersAvoidFrom(q, n + 2 + hiSkip);
        RangePrepended(Fnmatch.Range(lo, q[n..][1 + hiSkip]), Fnmatch.Members(q[n + 2 + hiSkip..], false, true).value.0,
                       q, n + 2 + hiSkip);
      } else {
        MembersAvoidFrom(q, n);
        RangePrepended(Fnmatch.Range(lo, lo), Fnmatch.Members(q[n..], false, true).value.0, q, n);
      }
    }
  }

  lemma {:induction false} MembersAvoidFrom(q: string, n: nat)
    requires Tame(q) && 0 < n <= |q| && Fnmatch.Members(q[n..], false, true).Some?
    ensures StartsIn(Fnmatch.Members(q[n..], false, true).value.0, q[n..])
    ensures ']' in q && (n >= 2 ==> ']' in q[2..])
    decreases |q|, 0
  {
    TameDrop(q, n);
    MembersAvoidBackslash(q[n..], false);
    var i :| 0 <= i < |q[n..]| && q[n..][i] == ']';
    assert q[n + i] == ']' && (n >= 2 ==> q[2..][n + i - 2] == ']');
  }

  lemma {:induction false} EscapedConcat(u: string, v: string)
    ensures Escaped(u + v) == Escaped(u) + Escaped(v)
  {
    if u == [] {
      assert u + v == v;
    } else {
      assert (u + v)[1..] == u[1..] + v;
      EscapedConcat(u[1..], v);
      Reassociated(EscapedChar(u[0]), Escaped(u[1..]), Escaped(v));
    }
  }

  /** Escaping adds brackets and nothing else, and only around a glob character. */
  lemma {:induction false} EscapedCharacters(v: string)
    ensures forall c | c in Escaped(v) :: c in v || c == '[' || c == ']'
    ensures ']' in Escaped(v) ==> exists i :: 0 <= i < |v| && IsGlobMeta(v[i])
  {
    if v != [] {
      EscapedCharacters(v[1..]);
      assert v == [v[0]] + v[1..];
    }
  }

  lemma {:induction false} FirstBackslash(s: string) returns (u: string, v: string)
    requires '\\' in s
    ensures s == u + ("\\" + v) && '\\' !in u
  {
    if s[0] == '\\' {
      u, v := "", s[1..];
    } else {
      assert s == [s[0]] + s[1..];
      u, v := FirstBackslash(s[1..]);
      u := [s[0]] + u;
    }
  }
  /** What the escaped form of a backslash and more text is, and what the class that
      it then opens can hold. */
  lemma ClassOfBackslash(v: string)
    ensures Escaped("\\" + v) + "*" == "[" + ("\\]" + (Escaped(v) + "*"))
    ensures var q := "\\]" + (Escaped(v) + "*");
            var b := Fnmatch.ParseBracket(q, true);
            b.Some? ==>
              && !b.value.negated && ']' in Escaped(v)
              && StartsIn(b.value.ranges, q)
  {
    var rest := Escaped(v) + "*";
    var q := "\\]" + rest;
    assert ("\\" + v)[1..] == v;
    assert Escaped("\\" + v) == ['[', '\\', ']'] + Escaped(v);
    assert Escaped("\\" + v) + "*" == "[" + q;
    assert q == ['\\', ']'] + rest && q[2..] == rest;
    EscapedIsTame(v);
    TamePrefix('\\', rest);
    if Fnmatch.ParseBracket(q, true).Some? {
      MembersAvoidBackslash(q, true);
    }
  }

  /** The pattern for text that starts with a backslash misses the text itself, or
      it takes other text in its place. */
  lemma BackslashMisleads(v: string) returns (text: string)
    ensures Fnmatch.Matches(Escaped("\\" + v) + "*", text, true) != ("\\" + v <= text)
    ensures text == "\\" + v ||
            (|text| == 1 + |v| && text[1..] == v && text[0] in "\\]" + (Escaped(v) + "*") && ']' in Escaped(v))
  {
    var self := "\\" + v;
    var q := "\\]" + (Escaped(v) + "*");
    var p := "[" + q;
    ClassOfBackslash(v);
    assert p[1..] == q && self[1..] == v;
    var b := Fnmatch.ParseBracket(q, true);
    if Fnmatch.Matches(p, self, true) {
      assert b.Some? && Fnmatch.Admits(b.value, '\\');
      var k :| 0 <= k < |b.value.ranges| && b.value.ranges[k].lo <= '\\' <= b.value.ranges[k].hi;
      var lo := b.value.ranges[k].lo;
      text := [lo] + v;
      assert Fnmatch.Admits(b.value, lo);
      assert text[1..] == v;
    } else {
      text := self;
    }
  }

  /** A character of a name that a directory can hold. */
  predicate NameChar(c: char) {
    c != NUL && c != '/'
  }

  /** For any prefix with a backslash there is a name on which matcher and filter
      differ; it is valid if the prefix holds only characters of names. */
  lemma EscapedBackslashMisleads(prefix: string) returns (name: string)
    requires '\\' in prefix
    ensures Fnmatch.Matches(Escaped(prefix) + "*", name, true) != (prefix <= name)
    ensures (forall c | c in prefix :: NameChar(c)) ==> ValidName(name)
  {
    var u, v := FirstBackslash(prefix);
    var text := BackslashMisleads(v);
    name := u + text;
    EscapedConcat(u, "\\" + v);
    Reassociated(Escaped(u), Escaped("\\" + v), "*");
    EscapedTakesItself(u, Escaped("\\" + v) + "*", name, true);
    assert u <= name && name[|u|..] == text;
    assert prefix <= name <==> "\\" + v <= text;
    if forall c | c in prefix :: NameChar(c) {
      assert v == ("\\" + v)[1..];
      assert forall c | c in u || c in v :: c in prefix;
      SwappedNameIsValid(u, v, text);
    }
  }

  lemma SwappedNameIsValid(u: string, v: string, text: string)
    requires (forall c | c in u :: NameChar(c)) && forall c | c in v :: NameChar(c)
    requires text == "\\" + v ||
             (|text| == 1 + |v| && text[1..] == v && text[0] in "\\]" + (Escaped(v) + "*") && ']' in Escaped(v))
    ensures ValidName(u + text)
  {
    if text == "\\" + v {
      GlobNameIsValid(u, text, 0);
    } else {
      EscapedCharacters(v);
      assert text == [text[0]] + v;
      var i :| 0 <= i < |v| && IsGlobMeta(v[i]);
      GlobNameIsValid(u, text, i + 1);
    }
  }

  lemma GlobNameIsValid(u: string, text: string, i: nat)
    requires i < |text| && IsGlobMeta(text[i])
    requires (forall c | c in u :: NameChar(c)) && forall c | c in text :: NameChar(c)
    ensures ValidName(u + text)
  {
    assert (u + text)[|u| + i] == text[i];
  }

  /** Escaping is exact for every name just when no backslash meets a matcher that
      lets it escape inside brackets. */
  lemma EscapingIsExact(u: string, escapes: bool)
    ensures (forall s :: Fnmatch.Matches(Escaped(u) + "*", s, escapes) <==> u <= s) <==> (escapes ==> '\\' !in u)
  {
    if escapes && '\\' in u {
      var name := EscapedBackslashMisleads(u);
    } else {
      forall s
        ensures Fnmatch.Matches(Escaped(u) + "*", s, escapes) <==> u <= s
      {
        EscapedMatchesLiterally(u, s, escapes);
      }
    }
  }

  /** When the two paths agree: a prefix taken from the last component of a path is
      answered alike in every directory exactly if it cannot be passed at all or no
      backslash in it meets a matcher that lets it escape inside brackets. */
  lemma PathsAgreeExactly(prefix: string, escapes: bool)
    requires '/' !in prefix
    ensures (forall dir | ValidListing(dir) :: LiveAnswer(dir, prefix, escapes) == Sorting.Sort(Offered(dir, prefix)))
            <==> (NUL in prefix || (escapes ==> '\\' !in prefix))
  {
    if NUL !in prefix && escapes && '\\' in prefix {
      var name := EscapedBackslashMisleads(prefix);
      OneEntryTells(name, prefix);
    } else {
      forall dir | ValidListing(dir)
        ensures LiveAnswer(dir, prefix, escapes) == Sorting.Sort(Offered(dir, prefix))
      {
        OfferedByLive(dir, prefix, escapes);
      }
    }
  }

  lemma OneEntryTells(name: string, prefix: string)
    requires ValidName(name) && NUL !in prefix
    requires Fnmatch.Matches(Escaped(prefix) + "*", name, true) != (prefix <= name)
    ensures var dir := [Entry(name, 'f')];
            ValidListing(dir) && LiveAnswer(dir, prefix, true) != Sorting.Sort(Offered(dir, prefix))
  {
    var dir := [Entry(name, 'f')];
    assert dir[1..] == [];
    var pattern := Escaped(prefix) + "*";
    var live, stateless := Selected(dir, pattern, true), Offered(dir, prefix);
    assert Selected(dir[1..], pattern, true) == [] && Offered(dir[1..], prefix) == [];
    assert |live| == (if Fnmatch.Matches(pattern, name, true) then 1 else 0);
    assert |stateless| == (if prefix <= name then 1 else 0);
    assert |multiset(live)| == |live| && |multiset(stateless)| == |stateless|;
  }
}
