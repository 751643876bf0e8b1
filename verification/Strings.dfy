/** The string operations the sources use: trimming, lines and numbers. */
module Strings {
  import opened Bytes
  import opened Numerals

  /** `char::is_whitespace`. */
  predicate White(c: char) {
    var n := c as int;
    || 9 <= n <= 13 || n == 32 || n == 0x85 || n == 0xA0 || n == 0x1680 || 0x2000 <= n <= 0x200A
    || n == 0x2028 || n == 0x2029 || n == 0x202F || n == 0x205F || n == 0x3000
  }

  function TrimStart(s: string): (t: string)
    ensures |t| <= |s|
  {
    if s != [] && White(s[0]) then TrimStart(s[1..]) else s
  }

  function TrimEnd(s: string): string {
    if s != [] && White(s[|s| - 1]) then TrimEnd(s[..|s| - 1]) else s
  }

  function Trim(s: string): string {
    TrimEnd(TrimStart(s))
  }

  predicate Trimmed(s: string) {
    s != [] ==> !White(s[0]) && !White(s[|s| - 1])
  }

  lemma {:induction false} TrimOf(s: string)
    requires Trimmed(s)
    ensures Trim(s) == s && Trim([' '] + s) == s
  {
    assert ([' '] + s)[1..] == s;
  }

  // ----- lines -----

  function LineEnd(s: string): (n: nat)
    ensures n <= |s|
  {
    if s == [] || s[0] == '\n' then 0 else 1 + LineEnd(s[1..])
  }

  function DropCarriage(s: string): string {
    if s != [] && s[|s| - 1] == '\r' then s[..|s| - 1] else s
  }

  /** `str::lines`. */
  function Lines(s: string): seq<string>
    decreases |s|
  {
    if s == [] then []
    else
      var n := LineEnd(s);
      if n == |s| then [s] else [DropCarriage(s[..n])] + Lines(s[n + 1..])
  }

  predicate Unbroken(lines: seq<string>) {
    forall i :: 0 <= i < |lines| ==> '\n' !in lines[i]
  }

  lemma {:induction false} LinesUnbroken(s: string)
    ensures Unbroken(Lines(s))
    decreases |s|
  {
    if s != [] {
      var n := LineEnd(s);
      LineEndFirst(s);
      if n < |s| {
        LinesUnbroken(s[n + 1..]);
      } else {
        assert s[..n] == s;
      }
    }
  }

  lemma {:induction false} LineEndFirst(s: string)
    ensures '\n' !in s[..LineEnd(s)] && (LineEnd(s) < |s| ==> s[LineEnd(s)] == '\n')
  {
    if s != [] && s[0] != '\n' {
      LineEndFirst(s[1..]);
      assert s[..LineEnd(s)] == [s[0]] + s[1..][..LineEnd(s) - 1];
    }
  }

  lemma {:induction false} LineEndOf(a: string, b: string)
    requires '\n' !in a
    ensures LineEnd(a) == |a| && LineEnd(a + (['\n'] + b)) == |a|
  {
    if a != [] {
      LineEndOf(a[1..], b);
      assert (a + (['\n'] + b))[1..] == a[1..] + (['\n'] + b);
    }
  }

  lemma {:induction false} FirstLine(first: string, rest: string)
    requires '\n' !in first
    ensures first != [] ==> Lines(first) == [first]
    ensures Lines(first + (['\n'] + rest)) == [DropCarriage(first)] + Lines(rest)
  {
    LineEndOf(first, rest);
    var s := first + (['\n'] + rest);
    assert s[..|first|] == first && s[|first| + 1..] == rest;
  }

  /** Lines written out, each with its newline. */
  function Unlines(lines: seq<string>): string {
    if lines == [] then [] else lines[0] + (['\n'] + Unlines(lines[1..]))
  }

  function DropCarriages(lines: seq<string>): (r: seq<string>)
    ensures |r| == |lines| && forall i :: 0 <= i < |lines| ==> r[i] == DropCarriage(lines[i])
  {
    seq(|lines|, i requires 0 <= i < |lines| => DropCarriage(lines[i]))
  }

  /** Lines written out are the lines read back, but for a carriage return at the end of one. */
  lemma {:induction false} LinesOfUnlines(lines: seq<string>)
    requires Unbroken(lines)
    ensures Lines(Unlines(lines)) == DropCarriages(lines)
  {
    if lines != [] {
      FirstLine(lines[0], Unlines(lines[1..]));
      LinesOfUnlines(lines[1..]);
      assert DropCarriages(lines) == [DropCarriage(lines[0])] + DropCarriages(lines[1..]);
    }
  }

  lemma {:induction false} UnlinesConcat(a: seq<string>, b: seq<string>)
    ensures Unlines(a + b) == Unlines(a) + Unlines(b)
  {
    if a == [] {
      assert a + b == b && Unlines(a) + Unlines(b) == Unlines(b);
    } else {
      UnlinesConcat(a[1..], b);
      assert (a + b)[1..] == a[1..] + b;
      Regroup(a[0], ['\n'], Unlines(a[1..]), Unlines(b));
    }
  }

  lemma {:induction false} Regroup(a: string, b: string, c: string, d: string)
    ensures a + (b + (c + d)) == (a + (b + c)) + d
  {
  }

  lemma {:induction false} UnlinesOne(line: string)
    ensures Unlines([line]) == line + ['\n']
  {
    assert [line][1..] == [];
  }

  lemma {:induction false} DropCarriagesTail(lines: seq<string>)
    requires lines != []
    ensures DropCarriages(lines)[1..] == DropCarriages(lines[1..])
    ensures DropCarriages(lines) == lines
       <==> DropCarriage(lines[0]) == lines[0] && DropCarriages(lines[1..]) == lines[1..]
  {
    var d := DropCarriages(lines);
    assert forall i :: 0 <= i < |lines| - 1 ==> d[1..][i] == DropCarriage(lines[1..][i]);
    assert d == [d[0]] + d[1..] && lines == [lines[0]] + lines[1..];
  }

  /** Dropping carriage returns leaves a text as it is exactly when no line ends in one. */
  lemma {:induction false} UnlinesSame(lines: seq<string>)
    ensures |Unlines(DropCarriages(lines))| <= |Unlines(lines)|
    ensures Unlines(DropCarriages(lines)) == Unlines(lines) <==> DropCarriages(lines) == lines
  {
    if lines != [] {
      UnlinesSame(lines[1..]);
      DropCarriagesTail(lines);
      var first, rest, kept := lines[0], Unlines(lines[1..]), Unlines(DropCarriages(lines[1..]));
      assert Unlines(DropCarriages(lines)) == DropCarriage(first) + (['\n'] + kept);
      if Unlines(DropCarriages(lines)) == Unlines(lines) {
        assert |DropCarriage(first)| == |first|;
        SameTail(first, ['\n'] + kept, ['\n'] + rest);
        SameTail(['\n'], kept, rest);
      }
    }
  }

  lemma {:induction false} SameTail(a: string, b: string, c: string)
    requires a + b == a + c
    ensures b == c
  {
    assert (a + b)[|a|..] == b && (a + c)[|a|..] == c;
  }

  // ----- searching -----

  function Find(s: string, pattern: string): (r: Option<nat>)
    ensures r.Some? ==> r.value + |pattern| <= |s| && s[r.value..r.value + |pattern|] == pattern
  {
    if |s| < |pattern| then None
    else if s[..|pattern|] == pattern then Some(0)
    else
      match Find(s[1..], pattern)
      case None => None
      case Some(i) => Some(i + 1)
  }

  /** The pattern right after text without its first character is the one found. */
  lemma {:induction false} FindFirst(a: string, pattern: string, rest: string)
    requires pattern != [] && pattern[0] !in a
    ensures Find(a + (pattern + rest), pattern) == Some(|a|)
  {
    var s := a + (pattern + rest);
    if a == [] {
      assert s[..|pattern|] == pattern;
    } else {
      FindFirst(a[1..], pattern, rest);
      assert s[1..] == a[1..] + (pattern + rest);
      assert s[..|pattern|][0] == a[0];
    }
  }

  /** A pattern that stands anywhere is found. */
  lemma {:induction false} FindSome(s: string, pattern: string, k: nat)
    requires k + |pattern| <= |s| && s[k..k + |pattern|] == pattern
    ensures Find(s, pattern).Some?
  {
    if k == 0 {
      assert s[..|pattern|] == s[0..|pattern|];
    } else {
      assert s[1..][k - 1..k - 1 + |pattern|] == s[k..k + |pattern|];
      FindSome(s[1..], pattern, k - 1);
    }
  }

  /** A character outside the pattern at the end of a text changes nothing. */
  lemma {:induction false} FindBefore(s: string, c: char, pattern: string)
    requires pattern != [] && c !in pattern
    ensures Find(s + [c], pattern) == Find(s, pattern)
  {
    var t := s + [c];
    if |pattern| <= |s| {
      assert t[..|pattern|] == s[..|pattern|];
      if s[..|pattern|] != pattern {
        FindBefore(s[1..], c, pattern);
        assert t[1..] == s[1..] + [c];
      }
    } else if |pattern| == |t| {
      assert t[..|pattern|][|s|] == c;
      assert pattern != t;
      FindShort(t[1..], pattern);
    }
  }

  function Shift(found: Option<nat>, n: nat): Option<nat> {
    match found case None => None case Some(i) => Some(n + i)
  }

  /** Text without the first character of a pattern is passed over. */
  lemma {:induction false} FindPast(a: string, b: string, pattern: string)
    requires pattern != [] && pattern[0] !in a
    ensures Find(a + b, pattern) == Shift(Find(b, pattern), |a|)
  {
    var s := a + b;
    if a == [] {
      assert s == b;
    } else {
      FindPast(a[1..], b, pattern);
      assert s[1..] == a[1..] + b;
      if |pattern| <= |s| {
        assert s[..|pattern|][0] == a[0];
      } else {
        FindShort(b, pattern);
      }
    }
  }

  lemma {:induction false} HeadDiffers(a: string, b: string, pattern: string)
    requires pattern != [] && a != [] && Find(a, pattern) == None && b != [] && b[0] !in pattern
    ensures |pattern| <= |a + b| ==> (a + b)[..|pattern|] != pattern
  {
    var s := a + b;
    if |pattern| <= |a| {
      assert s[..|pattern|] == a[..|pattern|];
    } else if |pattern| <= |s| {
      assert s[..|pattern|][|a|] == b[0];
    }
  }

  /** So is text that does not hold it, when what follows begins with a character outside it. */
  lemma {:induction false} FindAfter(a: string, b: string, pattern: string)
    requires pattern != [] && Find(a, pattern) == None && b != [] && b[0] !in pattern
    ensures Find(a + b, pattern) == Shift(Find(b, pattern), |a|)
  {
    var s := a + b;
    if a == [] {
      assert s == b;
    } else {
      FindNoneTail(a, pattern);
      FindAfter(a[1..], b, pattern);
      assert s[1..] == a[1..] + b;
      if |pattern| > |s| {
        FindShort(b, pattern);
      } else {
        HeadDiffers(a, b, pattern);
        FindStep(s, pattern);
      }
    }
  }

  lemma {:induction false} FindStep(s: string, pattern: string)
    requires 0 < |pattern| <= |s| && s[..|pattern|] != pattern
    ensures Find(s, pattern) == Shift(Find(s[1..], pattern), 1)
  {
  }

  lemma {:induction false} FindNoneTail(a: string, pattern: string)
    requires pattern != [] && a != [] && Find(a, pattern) == None
    ensures Find(a[1..], pattern) == None
  {
    if |a| < |pattern| {
      FindShort(a[1..], pattern);
    }
  }

  lemma {:induction false} FindAbsent(s: string, pattern: string)
    requires pattern != [] && pattern[0] !in s
    ensures Find(s, pattern) == None
  {
    FindPast(s, [], pattern);
    assert s + [] == s;
    FindShort([], pattern);
  }

  lemma {:induction false} FindChar(s: string, c: char)
    requires Find(s, [c]).Some?
    ensures c !in s[..Find(s, [c]).value] && s[Find(s, [c]).value] == c
  {
    if s[..1] != [c] {
      assert s[0] != c by {
        assert s[..1] == [s[0]];
      }
      FindChar(s[1..], c);
      var n := Find(s, [c]).value;
      assert s[..n] == [s[0]] + s[1..][..n - 1];
    }
  }

  lemma {:induction false} FindShort(s: string, pattern: string)
    requires |s| < |pattern|
    ensures Find(s, pattern) == None
  {
  }

  // ----- numbers -----

  function Unsigned(s: string): string {
    if |s| > 1 && s[0] == '+' then s[1..] else s
  }

  /** `str::parse::<u64>`. */
  function ParseU64(s: string): Option<nat> {
    var n := ParseDigits(Unsigned(s), 0x1_0000_0000_0000_0000);
    if n < 0 then None else Some(n)
  }

  /** `str::parse::<i64>`. */
  function ParseI64(s: string): Option<int> {
    if |s| > 1 && s[0] == '-' then
      var n := ParseDigits(s[1..], 0x8000_0000_0000_0001);
      if n < 0 then None else Some(-n)
    else
      var n := ParseDigits(Unsigned(s), 0x8000_0000_0000_0000);
      if n < 0 then None else Some(n)
  }
}
