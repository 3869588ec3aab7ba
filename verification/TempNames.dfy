/** Names of temporary files: a dot, the base name without its leading dots, sixteen
    hexadecimal digits and `.tmp`. */
module TempNames {
  function HexDigit(d: nat): char
    requires d < 16
  {
    if d < 10 then '0' + d as char else 'a' + (d - 10) as char
  }

  /** The low `width` hexadecimal digits of `n`, leading zeros kept. */
  function Hex(n: nat, width: nat): (r: string)
    ensures |r| == width
  {
    if width == 0 then "" else Hex(n / 16, width - 1) + [HexDigit(n % 16)]
  }

  function TrimDots(base: string): string {
    if base != "" && base[0] == '.' then TrimDots(base[1..]) else base
  }

  /** The temporary name next to a file called `base`. */
  function TempName(base: string, suffix: nat): string {
    "." + TrimDots(base) + "." + Hex(suffix, 16) + ".tmp"
  }

  lemma {:induction false} HexIsInjective(m: nat, n: nat, width: nat)
    requires Hex(m, width) == Hex(n, width) && m < Power16(width) && n < Power16(width)
    ensures m == n
  {
    if width > 0 {
      var a, b := Hex(m / 16, width - 1), Hex(n / 16, width - 1);
      assert Hex(m, width)[..width - 1] == a && Hex(n, width)[..width - 1] == b;
      assert Hex(m, width)[width - 1] == HexDigit(m % 16) && Hex(n, width)[width - 1] == HexDigit(n % 16);
      HexIsInjective(m / 16, n / 16, width - 1);
      assert m == 16 * (m / 16) + m % 16 && n == 16 * (n / 16) + n % 16;
    }
  }

  function Power16(width: nat): nat {
    if width == 0 then 1 else 16 * Power16(width - 1)
  }

  lemma {:induction false} TrimmedHasNoDot(base: string)
    ensures TrimDots(base) != "" ==> TrimDots(base)[0] != '.'
  {
    if base != "" && base[0] == '.' {
      TrimmedHasNoDot(base[1..]);
    }
  }

  /** Trimming a temporary name leaves more than trimming the name it was made from. */
  lemma TrimmedTempIsLonger(base: string, suffix: nat)
    ensures |TrimDots(TempName(base, suffix))| > |TrimDots(base)|
  {
    var trimmed, hex := TrimDots(base), Hex(suffix, 16);
    TrimmedHasNoDot(base);
    var name := TempName(base, suffix);
    var once := trimmed + "." + hex + ".tmp";
    assert name == "." + once && name[1..] == once;
    if trimmed == "" {
      var twice := hex + ".tmp";
      assert once[1..] == twice;
      HexHasNoDot(suffix, 16, 0);
      assert TrimDots(twice) == twice;
    } else {
      assert once[0] == trimmed[0];
      assert TrimDots(once) == once;
    }
  }

  predicate EndsTemporary(path: string) {
    |path| >= 4 && path[|path| - 4..] == ".tmp"
  }

  /** A temporary name ends in its digits and `.tmp`. */
  lemma TempNameEnds(dir: string, base: string, n: nat)
    ensures var path := dir + TempName(base, n);
            |path| >= 20 && path[|path| - 20..] == Hex(n, 16) + ".tmp" && EndsTemporary(path)
  {
    var front, end := dir + ("." + TrimDots(base) + "."), Hex(n, 16) + ".tmp";
    var path := dir + TempName(base, n);
    assert path == front + end;
    assert path[|path| - 20..] == end;
    assert path[|path| - 4..] == end[16..] == ".tmp";
  }

  /** A temporary name is never the target's own, and it is told from every path that
      does not end like one. */
  lemma TempIsNotTarget(dir: string, base: string, n: nat)
    ensures dir + TempName(base, n) != dir + base
    ensures EndsTemporary(dir + TempName(base, n))
  {
    TrimmedTempIsLonger(base, n);
    TempNameEnds(dir, base, n);
    assert (dir + TempName(base, n))[|dir|..] == TempName(base, n);
    assert (dir + base)[|dir|..] == base;
  }

  /** 64-bit suffixes that differ give temporary names that differ, whatever the files
      and their directories. */
  lemma SuffixesDecide(dir: string, base: string, m: nat, dir': string, base': string, n: nat)
    requires m < Power16(16) && n < Power16(16)
    ensures dir + TempName(base, m) == dir' + TempName(base', n) ==> m == n
  {
    if dir + TempName(base, m) == dir' + TempName(base', n) {
      TempNameEnds(dir, base, m);
      TempNameEnds(dir', base', n);
      assert Hex(m, 16) == (Hex(m, 16) + ".tmp")[..16];
      assert Hex(n, 16) == (Hex(n, 16) + ".tmp")[..16];
      HexIsInjective(m, n, 16);
    }
  }

  function DigitValue(c: char): nat {
    if '0' <= c <= '9' then (c - '0') as nat else if 'a' <= c <= 'f' then 10 + (c - 'a') as nat else 16
  }

  function HexValue(s: string): nat {
    if s == "" then 0 else 16 * HexValue(s[..|s| - 1]) + DigitValue(s[|s| - 1])
  }

  lemma {:induction false} HexReadsBack(n: nat, width: nat)
    requires n < Power16(width)
    ensures HexValue(Hex(n, width)) == n
    ensures forall i | 0 <= i < width :: DigitValue(Hex(n, width)[i]) < 16
  {
    if width > 0 {
      HexReadsBack(n / 16, width - 1);
      assert Hex(n, width)[..width - 1] == Hex(n / 16, width - 1);
      assert n == 16 * (n / 16) + n % 16;
    }
  }

  lemma {:induction false} DotsAreTrimmed(base: string) returns (k: nat)
    ensures k <= |base| && TrimDots(base) == base[k..]
    ensures (forall i | 0 <= i < k :: base[i] == '.') && (k < |base| ==> base[k] != '.')
  {
    if base != "" && base[0] == '.' {
      k := DotsAreTrimmed(base[1..]);
      assert forall i | 0 < i < k + 1 :: base[i] == base[1..][i - 1];
      k := k + 1;
    } else {
      k := 0;
    }
  }

  /** The form of a temporary name: hidden, the base name after its leading dots, the
      suffix as sixteen lower-case digits, and `.tmp`. */
  lemma TempNameForm(base: string, suffix: nat) returns (k: nat, digits: string)
    requires suffix < Power16(16)
    ensures k <= |base| && (forall i | 0 <= i < k :: base[i] == '.') && (k < |base| ==> base[k] != '.')
    ensures |digits| == 16 && HexValue(digits) == suffix && forall i | 0 <= i < 16 :: DigitValue(digits[i]) < 16
    ensures TempName(base, suffix) == "." + base[k..] + "." + digits + ".tmp"
  {
    k := DotsAreTrimmed(base);
    digits := Hex(suffix, 16);
    HexReadsBack(suffix, 16);
  }

  lemma {:induction false} HexHasNoDot(n: nat, width: nat, i: nat)
    requires i < width
    ensures Hex(n, width)[i] != '.'
  {
    if i < width - 1 {
      HexHasNoDot(n / 16, width - 1, i);
    }
  }
}
