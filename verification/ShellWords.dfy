/** The fragment of the shell grammar that a single-quoted argument needs: word
    splitting and quote removal of section 2.2 of POSIX.1-2017 XCU. */
module ShellWords {
  import opened Options

  /** Every single quote closes the string, stands escaped, and reopens it. */
  function Quoted(s: string): string {
    if s == [] then []
    else (if s[0] == '\'' then "'\\''" else [s[0]]) + Quoted(s[1..])
  }

  datatype Mode = Blank | Word | Quote

  /** Characters that stand for themselves outside quotes. */
  predicate IsPlain(c: char) {
    'a' <= c <= 'z' || 'A' <= c <= 'Z' || '0' <= c <= '9' || c == '.' || c == '-' || c == '_'
  }

  /** Word splitting and quote removal; anything else a shell would interpret is
      outside this fragment. */
  function Words(s: string, m: Mode, word: string): Option<seq<string>>
    decreases |s|
  {
    if s == [] then
      match m
      case Blank => Some([])
      case Word => Some([word])
      case Quote => None
    else if m.Quote? then
      if s[0] == '\'' then Words(s[1..], Word, word) else Words(s[1..], Quote, word + [s[0]])
    else if s[0] == ' ' then
      var rest := Words(s[1..], Blank, "");
      if m.Blank? || rest.None? then rest else Some([word] + rest.value)
    else if s[0] == '\'' then Words(s[1..], Quote, word)
    else if s[0] == '\\' && |s| > 1 && s[1] != '\n' then Words(s[2..], Word, word + [s[1]])
    else if IsPlain(s[0]) then Words(s[1..], Word, word + [s[0]])
    else None
  }

  lemma EscapedQuoteReads(tail: string, word: string)
    ensures Words("'\\''" + tail, Quote, word) == Words(tail, Quote, word + ['\''])
  {
    var text := "'\\''" + tail;
    var a, b := "\\''" + tail, "'" + tail;
    assert text[1..] == a && a[2..] == b && b[1..] == tail;
    assert Words(text, Quote, word) == Words(a, Word, word);
    assert Words(a, Word, word) == Words(b, Word, word + ['\'']);
  }

  /** Quoting is exact: inside single quotes it reads back as the text itself. */
  lemma {:induction false} QuotedReadsBack(s: string, rest: string, word: string)
    ensures Words(Quoted(s) + rest, Quote, word) == Words(rest, Quote, word + s)
    decreases |s|
  {
    if s == [] {
      assert Quoted(s) + rest == rest && word + s == word;
    } else {
      var tail := Quoted(s[1..]) + rest;
      assert word + s == (word + [s[0]]) + s[1..];
      QuotedReadsBack(s[1..], rest, word + [s[0]]);
      if s[0] == '\'' {
        EscapedQuoteReads(tail, word);
        assert Quoted(s) + rest == "'\\''" + tail;
      } else {
        assert Quoted(s) + rest == [s[0]] + tail;
        assert ([s[0]] + tail)[1..] == tail;
      }
    }
  }

  lemma {:induction false} QuotelessReads(s: string, rest: string, word: string)
    requires '\'' !in s
    ensures Words(s + rest, Quote, word) == Words(rest, Quote, word + s)
    decreases |s|
  {
    if s == [] {
      assert s + rest == rest && word + s == word;
    } else {
      assert (s + rest)[1..] == s[1..] + rest;
      assert word + s == (word + [s[0]]) + s[1..];
      QuotelessReads(s[1..], rest, word + [s[0]]);
    }
  }

  /** A run of plain characters extends the word being read. */
  lemma {:induction false} PlainReads(s: string, rest: string, m: Mode, word: string)
    requires !m.Quote? && s != [] && forall i | 0 <= i < |s| :: IsPlain(s[i])
    ensures Words(s + rest, m, word) == Words(rest, Word, word + s)
    decreases |s|
  {
    var later := word + [s[0]];
    assert IsPlain(s[0]);
    assert (s + rest)[1..] == s[1..] + rest;
    assert Words(s + rest, m, word) == Words(s[1..] + rest, Word, later);
    if |s| > 1 {
      PlainReads(s[1..], rest, Word, later);
      assert word + s == later + s[1..];
    } else {
      assert s[1..] + rest == rest && word + s == later;
    }
  }

  predicate IsPlainWord(w: string) {
    w != [] && forall i | 0 <= i < |w| :: IsPlain(w[i])
  }

  lemma PlainWord(w: string, rest: string)
    requires IsPlainWord(w)
    requires Words(rest, Blank, "").Some?
    ensures Words(w + " " + rest, Blank, "") == Some([w] + Words(rest, Blank, "").value)
  {
    PlainReads(w, " " + rest, Blank, "");
    assert w + " " + rest == w + (" " + rest);
    assert (" " + rest)[1..] == rest;
    assert "" + w == w;
  }

  lemma FivePlainWords(a: string, b: string, c: string, d: string, e: string, rest: string)
    requires IsPlainWord(a) && IsPlainWord(b) && IsPlainWord(c) && IsPlainWord(d) && IsPlainWord(e)
    requires Words(rest, Blank, "").Some?
    ensures Words(a + " " + (b + " " + (c + " " + (d + " " + (e + " " + rest)))), Blank, "") ==
            Some([a, b, c, d, e] + Words(rest, Blank, "").value)
  {
    var r1 := e + " " + rest;
    PlainWord(e, rest);
    var r2 := d + " " + r1;
    PlainWord(d, r1);
    var r3 := c + " " + r2;
    PlainWord(c, r2);
    PlainWord(b, r3);
    PlainWord(a, b + " " + r3);
    FiveInFront(a, b, c, d, e, Words(rest, Blank, "").value);
  }

  lemma FiveInFront(a: string, b: string, c: string, d: string, e: string, tail: seq<string>)
    ensures [a] + ([b] + ([c] + ([d] + ([e] + tail)))) == [a, b, c, d, e] + tail
  {
  }

  lemma Reassociated(a: string, b: string, c: string)
    ensures (a + b) + c == a + (b + c)
  {
  }

  lemma QuoteOpens(rest: string)
    ensures Words("'" + rest, Blank, "") == Words(rest, Quote, "")
  {
    assert ("'" + rest)[1..] == rest;
  }

  /** A word that began with a quoted part ends where the quote and a blank follow. */
  lemma QuotedWordEnds(word: string, rest: string)
    ensures Words("'", Quote, word) == Some([word])
    ensures Words(rest, Blank, "").Some? ==>
              Words("' " + rest, Quote, word) == Some([word] + Words(rest, Blank, "").value)
  {
    assert "'"[1..] == "";
    assert ("' " + rest)[1..] == " " + rest;
    assert (" " + rest)[1..] == rest;
  }
}
