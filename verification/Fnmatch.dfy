/** File-name pattern matching as in section 2.13 of POSIX.1-2017 XCU, without
    the slash and leading-period rules, which `find -name` does not apply to base
    names, and without character classes. */
module Fnmatch {
  import opened Options

  /** An inclusive range of characters inside brackets. */
  datatype Range = Range(lo: char, hi: char)

  datatype Bracket = Bracket(negated: bool, ranges: seq<Range>, rest: string)

  /** The members of a bracket expression up to its `]`, which is literal in first
      place. Matchers differ on whether a backslash escapes here: `escapes`. */
  function Members(q: string, first: bool, escapes: bool): (r: Option<(seq<Range>, string)>)
    ensures r.Some? ==> |r.value.1| < |q|
  {
    if q == [] then None
    else if q[0] == ']' && !first then Some(([], q[1..]))
    else
      var skip := if escapes && q[0] == '\\' then 1 else 0;
      if |q| <= skip then None else
      var lo, after := q[skip], q[skip + 1..];
      if |after| >= 2 && after[0] == '-' && after[1] != ']' then
        var hiSkip := if escapes && after[1] == '\\' then 1 else 0;
        if |after| <= 1 + hiSkip then None else
        var more := Members(after[2 + hiSkip..], false, escapes);
        if more.None? then None else Some(([Range(lo, after[1 + hiSkip])] + more.value.0, more.value.1))
      else
        var more := Members(after, false, escapes);
        if more.None? then None else Some(([Range(lo, lo)] + more.value.0, more.value.1))
  }

  /** The bracket expression after a `[`, if it is closed. */
  function ParseBracket(q: string, escapes: bool): (r: Option<Bracket>)
    ensures r.Some? ==> |r.value.rest| < |q|
  {
    var negated := |q| > 0 && q[0] == '!';
    var members := Members(if negated then q[1..] else q, true, escapes);
    if members.None? then None else Some(Bracket(negated, members.value.0, members.value.1))
  }

  predicate Admits(b: Bracket, c: char) {
    b.negated != exists k :: 0 <= k < |b.ranges| && b.ranges[k].lo <= c <= b.ranges[k].hi
  }

  predicate Matches(p: string, s: string, escapes: bool)
    decreases |p|, |s|
  {
    if p == [] then s == []
    else if p[0] == '*' then Matches(p[1..], s, escapes) || (s != [] && Matches(p, s[1..], escapes))
    else if s == [] then false
    else if p[0] == '?' then Matches(p[1..], s[1..], escapes)
    else if p[0] == '\\' && |p| > 1 then s[0] == p[1] && Matches(p[2..], s[1..], escapes)
    else
      var b := if p[0] == '[' then ParseBracket(p[1..], escapes) else None;
      if b.Some? then Admits(b.value, s[0]) && Matches(b.value.rest, s[1..], escapes)
      else s[0] == p[0] && Matches(p[1..], s[1..], escapes)
  }
}
