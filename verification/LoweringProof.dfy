/**
 * What the rewriting of memory intrinsics does to a module's text: the lines it writes, the values they define, the
 * helpers they call and declare.
 */
module LoweringProof {
  import opened Bytes
  import opened Numerals
  import opened Strings
  import opened Lowering

  // ----- what a recognized site is made of -----

  lemma {:induction false} TrimWithin(s: string, c: char)
    requires c !in s
    ensures c !in TrimStart(s) && c !in TrimEnd(s) && c !in Trim(s)
    decreases |s|
  {
    TrimStartWithin(s, c);
    TrimEndWithin(s, c);
    TrimEndWithin(TrimStart(s), c);
  }

  lemma {:induction false} TrimStartWithin(s: string, c: char)
    requires c !in s
    ensures c !in TrimStart(s)
  {
    if s != [] && White(s[0]) {
      TrimStartWithin(s[1..], c);
    }
  }

  lemma {:induction false} TrimEndWithin(s: string, c: char)
    requires c !in s
    ensures c !in TrimEnd(s)
  {
    if s != [] && White(s[|s| - 1]) {
      TrimEndWithin(s[..|s| - 1], c);
    }
  }

  /** An argument has only characters of the list. */
  lemma {:induction false} SplitWithin(rest: string, current: string, depth: nat, c: char)
    requires c !in rest && c !in current && SplitRest(rest, current, depth).Some?
    ensures forall i :: 0 <= i < |SplitRest(rest, current, depth).value| ==>
              c !in SplitRest(rest, current, depth).value[i]
    decreases |rest|
  {
    var d := rest[0];
    if d == '(' {
      SplitWithin(rest[1..], current + [d], depth + 1, c);
    } else if d == ')' && depth > 0 {
      SplitWithin(rest[1..], current + [d], depth - 1, c);
    } else if d == ')' {
      TrimWithin(current, c);
    } else if d == ',' && depth == 0 {
      TrimWithin(current, c);
      SplitWithin(rest[1..], [], 0, c);
    } else {
      SplitWithin(rest[1..], current + [d], depth, c);
    }
  }

  lemma {:induction false} ScanNext(s: string, d: char, depth: nat)
    requires Scan(s, 0) == Some(depth) && (d == ')' ==> depth > 0) && (d == ',' ==> depth > 0)
    ensures Scan(s + [d], 0) == Some(if d == '(' then depth + 1 else if d == ')' then depth - 1 else depth)
  {
    ScanConcat(s, [d], 0);
  }

  lemma {:induction false} ScanConcat(a: string, b: string, depth: nat)
    requires Scan(a, depth).Some?
    ensures Scan(a + b, depth) == Scan(b, Scan(a, depth).value)
    decreases |a|
  {
    if a == [] {
      assert a + b == b;
    } else {
      assert (a + b)[1..] == a[1..] + b && (a + b)[0] == a[0];
      ScanConcat(a[1..], b, if a[0] == '(' then depth + 1 else if a[0] == ')' then depth - 1 else depth);
    }
  }

  /** White space is nothing to the scan. */
  lemma {:induction false} ScanTrimStart(s: string)
    ensures Scan(TrimStart(s), 0) == Scan(s, 0)
  {
    if s != [] && White(s[0]) {
      ScanTrimStart(s[1..]);
    }
  }

  lemma {:induction false} ScanTrimEnd(s: string)
    requires Scan(s, 0) == Some(0)
    ensures Scan(TrimEnd(s), 0) == Some(0)
  {
    if s != [] && White(s[|s| - 1]) {
      var front, c := s[..|s| - 1], s[|s| - 1];
      assert s == front + [c];
      ScanFront(front, c, 0);
      ScanTrimEnd(front);
    }
  }

  lemma {:induction false} ScanFront(a: string, c: char, depth: nat)
    requires White(c) && Scan(a + [c], depth).Some?
    ensures Scan(a, depth) == Scan(a + [c], depth)
    decreases |a|
  {
    if a == [] {
      assert a + [c] == [c] && [c][1..] == [];
    } else {
      assert (a + [c])[1..] == a[1..] + [c] && (a + [c])[0] == a[0];
      ScanFront(a[1..], c, if a[0] == '(' then depth + 1 else if a[0] == ')' then depth - 1 else depth);
    }
  }

  lemma {:induction false} TrimTrims(s: string)
    ensures Trimmed(Trim(s))
  {
    var t := TrimStart(s);
    TrimStartFirst(s);
    TrimEndLast(t);
  }

  lemma {:induction false} TrimStartFirst(s: string)
    ensures TrimStart(s) != [] ==> !White(TrimStart(s)[0])
  {
    if s != [] && White(s[0]) {
      TrimStartFirst(s[1..]);
    }
  }

  lemma {:induction false} TrimEndLast(s: string)
    ensures TrimEnd(s) <= s && (TrimEnd(s) != [] ==> !White(TrimEnd(s)[|TrimEnd(s)| - 1]))
  {
    if s != [] && White(s[|s| - 1]) {
      TrimEndLast(s[..|s| - 1]);
    }
  }

  lemma {:induction false} TrimIsArgument(s: string)
    requires Scan(s, 0) == Some(0)
    ensures IsArgument(Trim(s))
  {
    ScanTrimStart(s);
    ScanTrimEnd(TrimStart(s));
    TrimTrims(s);
  }

  /** What a list is split into are arguments. */
  lemma {:induction false} SplitGivesArguments(rest: string, current: string, depth: nat)
    requires Scan(current, 0) == Some(depth) && SplitRest(rest, current, depth).Some?
    ensures forall i :: 0 <= i < |SplitRest(rest, current, depth).value| ==>
              IsArgument(SplitRest(rest, current, depth).value[i])
    decreases |rest|
  {
    var d := rest[0];
    if d == ')' && depth == 0 {
      TrimIsArgument(current);
    } else if d == ',' && depth == 0 {
      TrimIsArgument(current);
      SplitGivesArguments(rest[1..], [], 0);
    } else {
      ScanNext(current, d, depth);
      var deeper := if d == '(' then depth + 1 else if d == ')' then depth - 1 else depth;
      SplitGivesArguments(rest[1..], current + [d], deeper);
    }
  }

  lemma {:induction false} IndentWhite(s: string)
    ensures AllWhite(s[..|s| - |TrimStart(s)|])
  {
    if s != [] && White(s[0]) {
      IndentWhite(s[1..]);
      var n := |s| - |TrimStart(s)|;
      assert s[..n] == [s[0]] + s[1..][..n - 1];
    }
  }

  /** On one line, indented by white space, with arguments for arguments. */
  predicate WellMade(site: Site) {
    && AllWhite(site.indent)
    && IsArgument(site.dst) && IsArgument(site.second) && IsArgument(site.len)
    && '\n' !in site.indent && '\n' !in site.dst && '\n' !in site.second && '\n' !in site.len
  }

  lemma {:induction false} CallWellMade(indent: string, helper: Helper, text: string)
    requires AllWhite(indent) && '\n' !in indent && '\n' !in text && RecognizeCall(indent, helper, text).Some?
    ensures WellMade(RecognizeCall(indent, helper, text).value)
    ensures RecognizeCall(indent, helper, text).value.helper == helper
  {
    var list := text[Find(text, "(").value..];
    SplitWithin(list[1..], [], 0, '\n');
    SplitGivesArguments(list[1..], [], 0);
  }

  lemma {:induction false} CallPartsOf(line: string, callee: Option<Callee>)
    requires '\n' !in line && CallIn(line, TrimStart(line), callee).Some?
    ensures var call := CallIn(line, TrimStart(line), callee).value;
            AllWhite(call.indent) && '\n' !in call.indent && '\n' !in call.text
  {
    IndentWhite(line);
  }

  lemma {:induction false} RecognizedWellMade(line: string)
    requires '\n' !in line && Recognize(line).Some?
    ensures WellMade(Recognize(line).value)
  {
    var call := CallIn(line, TrimStart(line), FindCallee(line)).value;
    CallPartsOf(line, FindCallee(line));
    CallWellMade(call.indent, call.helper, call.text);
  }

  // ----- the lines a site becomes -----

  function SiteLines(site: Site, serial: nat): seq<string> {
    (if Widens(site) then [Definition(site, Number(serial), Widening(site))] else [])
    + [Definition(site, ResultName(site, serial), HelperCall(site, serial))]
  }

  lemma {:induction false} RewrittenIsLines(site: Site, serial: nat)
    ensures Rewritten(site, serial) + ['\n'] == Unlines(SiteLines(site, serial))
  {
    var call := Definition(site, ResultName(site, serial), HelperCall(site, serial));
    UnlinesOne(call);
    if Widens(site) {
      var widen := Definition(site, Number(serial), Widening(site));
      UnlinesOne(widen);
      UnlinesConcat([widen], [call]);
      assert SiteLines(site, serial) == [widen] + [call];
    } else {
      assert SiteLines(site, serial) == [call] && [] + call == call;
    }
  }

  /** The value a line of IR defines. */
  function ValueOf(line: string): Option<string> {
    var body := TrimStart(line);
    if body == [] || body[0] != '%' then None
    else match Find(body, " = ") case None => None case Some(n) => Some(body[..n])
  }

  lemma {:induction false} DefinitionDefines(site: Site, name: string, action: string)
    requires AllWhite(site.indent) && name != [] && name[0] == '%' && ' ' !in name
    ensures TrimStart(Definition(site, name, action)) == name + (" = " + action)
    ensures ValueOf(Definition(site, name, action)) == Some(name)
  {
    var body := name + (" = " + action);
    TrimStartOf(site.indent, body);
    FindFirst(name, " = ", action);
    assert body[..|name|] == name;
  }

  // ----- names -----

  const TAG := "%synch.cc."

  /** The digits a string begins with. */
  function Digits(s: string): string {
    if s == [] || !IsDigit(s[0]) then [] else [s[0]] + Digits(s[1..])
  }

  lemma {:induction false} DigitsOf(d: string, tail: string)
    requires AllDigits(d) && (tail == [] || !IsDigit(tail[0]))
    ensures Digits(d + tail) == d
  {
    if d == [] {
      assert d + tail == tail;
    } else {
      DigitsOf(d[1..], tail);
      assert (d + tail)[1..] == d[1..] + tail && (d + tail)[0] == d[0];
      assert d == [d[0]] + d[1..];
    }
  }

  /** The number a name was made with. */
  function SerialOf(name: string): nat {
    if |name| < 10 then 0 else FromDecimal(Digits(name[10..]))
  }

  /** A value name of this pass, made with the given number. */
  predicate IsName(name: string, serial: nat) {
    TAG <= name && SerialOf(name) == serial && ' ' !in name && '\n' !in name && '@' !in name
  }

  lemma {:induction false} SerialOfName(serial: nat, tail: string)
    requires tail == [] || !IsDigit(tail[0])
    ensures SerialOf(Number(serial) + tail) == serial
  {
    DecimalRoundTrip(serial);
    DigitsOf(Decimal(serial), tail);
    assert (Number(serial) + tail)[10..] == Decimal(serial) + tail;
  }

  lemma {:induction false} NumberQuiet(serial: nat, c: char)
    requires !IsDigit(c) && c !in TAG
    ensures c !in Number(serial)
  {
    DecimalRoundTrip(serial);
    assert forall i :: 0 <= i < |Decimal(serial)| ==> IsDigit(Decimal(serial)[i]);
  }

  lemma {:induction false} NumberIsName(serial: nat)
    ensures IsName(Number(serial), serial)
  {
    SerialOfName(serial, []);
    assert Number(serial) + [] == Number(serial);
    NumberQuiet(serial, ' ');
    NumberQuiet(serial, '\n');
    NumberQuiet(serial, '@');
  }

  lemma {:induction false} ResultIsName(site: Site, serial: nat)
    ensures IsName(ResultName(site, serial), serial) && ResultName(site, serial) != Number(serial)
  {
    var tail := if site.helper.Memset? then ".set" else ".cpy";
    SerialOfName(serial, tail);
    NumberIsName(serial);
    assert |ResultName(site, serial)| == |Number(serial)| + 4;
    assert ' ' !in tail && '\n' !in tail && '@' !in tail;
  }

  /** The value names of a rewritten line, in the order they are defined. */
  function Names(site: Site, serial: nat): seq<string> {
    (if Widens(site) then [Number(serial)] else []) + [ResultName(site, serial)]
  }

  lemma {:induction false} NameDefined(site: Site, name: string, serial: nat, action: string)
    requires AllWhite(site.indent) && IsName(name, serial)
    ensures ValueOf(Definition(site, name, action)) == Some(name)
    ensures TrimStart(Definition(site, name, action)) == name + (" = " + action)
  {
    assert name[0] == TAG[0];
    DefinitionDefines(site, name, action);
  }

  /** A rewrite writes one line for each of its names, and that line defines the name. */
  lemma {:induction false} SiteLinesDefine(site: Site, serial: nat)
    requires WellMade(site)
    ensures |SiteLines(site, serial)| == |Names(site, serial)|
    ensures forall j :: 0 <= j < |SiteLines(site, serial)| ==>
              ValueOf(SiteLines(site, serial)[j]) == Some(Names(site, serial)[j])
  {
    NumberIsName(serial);
    ResultIsName(site, serial);
    NameDefined(site, Number(serial), serial, Widening(site));
    NameDefined(site, ResultName(site, serial), serial, HelperCall(site, serial));
  }

  // ----- laying lines out -----

  type Pieces = (string, nat) -> seq<string>

  /** The lines of a module in order: `pieces` for one that is rewritten, `keep` for one that is not. */
  function Lay(lower: Lowerer, pieces: Pieces, keep: string -> seq<string>, lines: seq<string>): seq<string> {
    if lines == [] then []
    else
      var front, last := lines[..|lines| - 1], lines[|lines| - 1];
      Lay(lower, pieces, keep, front)
      + if LowerLast(lower, lines).Some? then pieces(last, Count(lower, front)) else keep(last)
  }

  ghost predicate Spells(lower: Lowerer, pieces: Pieces) {
    forall line: string, n: nat {:trigger lower(line, n)} ::
      lower(line, n).Some? ==> lower(line, n).value.text + ['\n'] == Unlines(pieces(line, n))
  }

  function Whole(line: string): seq<string> {
    [line]
  }

  function Nothing(line: string): seq<string> {
    []
  }

  /** The output is the lines laid out. */
  lemma {:induction false} OutputIsLines(lower: Lowerer, pieces: Pieces, lines: seq<string>)
    requires Spells(lower, pieces)
    ensures Output(lower, lines) == Unlines(Lay(lower, pieces, Whole, lines))
  {
    if lines != [] {
      var front, last := lines[..|lines| - 1], lines[|lines| - 1];
      var n := Count(lower, front);
      var more := if LowerLast(lower, lines).Some? then pieces(last, n) else Whole(last);
      var text := match LowerLast(lower, lines) case None => last case Some(l) => l.text;
      OutputIsLines(lower, pieces, front);
      UnlinesOne(last);
      assert Unlines(more) == text + ['\n'];
      UnlinesConcat(Lay(lower, pieces, Whole, front), more);
      Associates(Output(lower, front), text, ['\n']);
    }
  }

  lemma {:induction false} Associates(a: string, b: string, c: string)
    ensures a + b + c == a + (b + c)
  {
  }

  /** The lines of one rewritten line. */
  function PiecesOf(line: string, serial: nat): seq<string> {
    match LowerLine(line)
    case None => []
    case Some(site) => SiteLines(site, serial)
  }

  lemma {:induction false} PiecesSpell()
    ensures Spells(LowerOne, PiecesOf)
  {
    forall line: string, n: nat | LowerOne(line, n).Some?
      ensures LowerOne(line, n).value.text + ['\n'] == Unlines(PiecesOf(line, n))
    {
      RewrittenIsLines(LowerLine(line).value, n);
    }
  }

  // ----- introduced values are distinct -----

  /** The line defines a value in the names this pass uses. */
  predicate Tagged(line: string) {
    ValueOf(line).Some? && TAG <= ValueOf(line).value
  }

  /** No two lines define the same tagged value, and all of those have numbers below `n`. */
  predicate Fresh(lines: seq<string>, n: nat) {
    && (forall i :: 0 <= i < |lines| && Tagged(lines[i]) ==> SerialOf(ValueOf(lines[i]).value) < n)
    && (forall i, j :: 0 <= i < j < |lines| && Tagged(lines[i]) && Tagged(lines[j]) ==>
          ValueOf(lines[i]) != ValueOf(lines[j]))
  }

  /** Every line defines a tagged value with the number `n`, no two the same one. */
  predicate Batch(lines: seq<string>, n: nat) {
    && (forall i :: 0 <= i < |lines| ==> Tagged(lines[i]) && SerialOf(ValueOf(lines[i]).value) == n)
    && (forall i, j :: 0 <= i < j < |lines| ==> ValueOf(lines[i]) != ValueOf(lines[j]))
  }

  lemma {:induction false} FreshBatch(a: seq<string>, b: seq<string>, n: nat)
    requires Fresh(a, n) && Batch(b, n)
    ensures Fresh(a + b, n + 1)
  {
  }

  lemma {:induction false} FreshPlain(a: seq<string>, b: seq<string>, n: nat)
    requires Fresh(a, n) && forall i :: 0 <= i < |b| ==> !Tagged(b[i])
    ensures Fresh(a + b, n)
  {
  }

  ghost predicate Introduces(pieces: Pieces) {
    forall line: string, n: nat :: '\n' !in line ==> Batch(pieces(line, n), n)
  }

  lemma {:induction false} BatchOf(lines: seq<string>, names: seq<string>, serial: nat)
    requires |lines| == |names| && forall j :: 0 <= j < |lines| ==> ValueOf(lines[j]) == Some(names[j])
    requires forall j :: 0 <= j < |names| ==> IsName(names[j], serial)
    requires forall i, j :: 0 <= i < j < |names| ==> names[i] != names[j]
    ensures Batch(lines, serial)
  {
  }

  lemma {:induction false} NamesDiffer(site: Site, serial: nat)
    ensures forall j :: 0 <= j < |Names(site, serial)| ==> IsName(Names(site, serial)[j], serial)
    ensures forall i, j :: 0 <= i < j < |Names(site, serial)| ==> Names(site, serial)[i] != Names(site, serial)[j]
  {
    NumberIsName(serial);
    ResultIsName(site, serial);
  }

  lemma {:induction false} SiteBatch(site: Site, serial: nat)
    requires WellMade(site)
    ensures Batch(SiteLines(site, serial), serial)
  {
    SiteLinesDefine(site, serial);
    NamesDiffer(site, serial);
    BatchOf(SiteLines(site, serial), Names(site, serial), serial);
  }

  lemma {:induction false} PiecesIntroduce()
    ensures Introduces(PiecesOf)
  {
    forall line: string, n: nat | '\n' !in line
      ensures Batch(PiecesOf(line, n), n)
    {
      if LowerLine(line).Some? {
        RecognizedWellMade(line);
        SiteBatch(LowerLine(line).value, n);
      }
    }
  }

  lemma {:induction false} LayFresh(lower: Lowerer, pieces: Pieces, keep: string -> seq<string>, lines: seq<string>)
    requires Introduces(pieces) && Unbroken(lines)
    requires forall i, k :: 0 <= i < |lines| && 0 <= k < |keep(lines[i])| ==> !Tagged(keep(lines[i])[k])
    ensures Fresh(Lay(lower, pieces, keep, lines), Count(lower, lines))
  {
    if lines != [] {
      var front, last := lines[..|lines| - 1], lines[|lines| - 1];
      assert forall i :: 0 <= i < |front| ==> front[i] == lines[i];
      LayFresh(lower, pieces, keep, front);
      if LowerLast(lower, lines).Some? {
        FreshBatch(Lay(lower, pieces, keep, front), pieces(last, Count(lower, front)), Count(lower, front));
      } else {
        FreshPlain(Lay(lower, pieces, keep, front), keep(last), Count(lower, front));
      }
    }
  }

  /** All the lines the rewrites of a module write, in order. */
  function RewrittenLines(ir: string): seq<string> {
    Lay(LowerOne, PiecesOf, Nothing, Lines(ir))
  }

  lemma {:induction false} LayTagged(lower: Lowerer, pieces: Pieces, lines: seq<string>)
    requires Introduces(pieces) && Unbroken(lines)
    ensures forall i :: 0 <= i < |Lay(lower, pieces, Nothing, lines)| ==> Tagged(Lay(lower, pieces, Nothing, lines)[i])
  {
    if lines != [] {
      LayTagged(lower, pieces, lines[..|lines| - 1]);
    }
  }

  /** Every line the rewrites write defines a value, and no two of them the same one. */
  lemma {:induction false} RewrittenDistinct(ir: string)
    ensures forall i :: 0 <= i < |RewrittenLines(ir)| ==> Tagged(RewrittenLines(ir)[i])
    ensures Fresh(RewrittenLines(ir), Count(LowerOne, Lines(ir)))
  {
    LinesUnbroken(ir);
    PiecesIntroduce();
    LayTagged(LowerOne, PiecesOf, Lines(ir));
    LayFresh(LowerOne, PiecesOf, Nothing, Lines(ir));
  }

  // ----- the output as lines -----

  /** The lines appended. */
  function TrailerLines(lower: Lowerer, a: Appendix, lines: seq<string>): seq<string> {
    var typed := TypedPointers(lower, lines);
    if !Calls(lower, lines, Memset) && !Calls(lower, lines, Memcpy) then []
    else a.note + (DeclarationLines(lower, a, lines, Memset, typed) + DeclarationLines(lower, a, lines, Memcpy, typed))
  }

  predicate Appends(lower: Lowerer, a: Appendix, lines: seq<string>, helper: Helper) {
    Calls(lower, lines, helper) && !ModuleNames(lines, a.symbol(helper))
  }

  function DeclarationLines(lower: Lowerer, a: Appendix, lines: seq<string>, helper: Helper, typed: bool): seq<string> {
    if Appends(lower, a, lines, helper) then [a.declare(helper, typed)] else []
  }

  lemma {:induction false} DeclarationIsLines(lower: Lowerer, a: Appendix, lines: seq<string>, helper: Helper,
                                              typed: bool)
    ensures Unlines(DeclarationLines(lower, a, lines, helper, typed))
         == if Calls(lower, lines, helper) then Declaration(a, lines, helper, typed) else []
  {
    UnlinesOne(a.declare(helper, typed));
  }

  lemma {:induction false} TrailerIsLines(lower: Lowerer, a: Appendix, lines: seq<string>)
    ensures Trailer(lower, a, lines) == Unlines(TrailerLines(lower, a, lines))
  {
    var typed := TypedPointers(lower, lines);
    var forSet := DeclarationLines(lower, a, lines, Memset, typed);
    var forCopy := DeclarationLines(lower, a, lines, Memcpy, typed);
    DeclarationIsLines(lower, a, lines, Memset, typed);
    DeclarationIsLines(lower, a, lines, Memcpy, typed);
    UnlinesConcat(forSet, forCopy);
    UnlinesConcat(a.note, forSet + forCopy);
    Associates(Unlines(a.note), Unlines(forSet), Unlines(forCopy));
  }

  function BodyLines(ir: string): seq<string> {
    Lay(LowerOne, PiecesOf, Whole, Lines(ir))
  }

  function OutputLines(ir: string): seq<string> {
    BodyLines(ir) + TrailerLines(LowerOne, Standard(), Lines(ir))
  }

  lemma {:induction false} TextIsLines(ir: string)
    ensures LoweredText(ir) == Unlines(OutputLines(ir))
  {
    PiecesSpell();
    OutputIsLines(LowerOne, PiecesOf, Lines(ir));
    TrailerIsLines(LowerOne, Standard(), Lines(ir));
    UnlinesConcat(BodyLines(ir), TrailerLines(LowerOne, Standard(), Lines(ir)));
  }

  // ----- no line is broken -----

  lemma {:induction false} JoinThree(a: string, b: string, c: string)
    ensures JoinArguments([a, b, c]) == a + ", " + (b + ", " + c)
  {
    var two, one := [b, c], [c];
    assert [a, b, c][1..] == two && two[1..] == one;
    assert JoinArguments(one) == c && JoinArguments(two) == b + ", " + c;
  }

  lemma {:induction false} TokenWithin(s: string, c: char)
    requires c !in s
    ensures forall i :: 0 <= i < |Tokens(s)| ==> c !in Tokens(s)[i]
    decreases |s|
  {
    if s != [] {
      if White(s[0]) {
        TokenWithin(s[1..], c);
      } else {
        TokenWithin(s[Lowering.Word(s)..], c);
      }
    }
  }

  lemma {:induction false} SecondQuiet(site: Site, serial: nat)
    requires WellMade(site)
    ensures '\n' !in SecondArgument(site, serial) && '\n' !in FillByte(site)
  {
    TokenWithin(site.second, '\n');
    NumberIsName(serial);
    match ParseI64(FillByte(site))
    case None =>
    case Some(v) =>
      DecimalRoundTrip(v % 256);
      assert forall i :: 0 <= i < |Decimal(v % 256)| ==> IsDigit(Decimal(v % 256)[i]);
  }

  lemma {:induction false} HeadQuiet(typed: bool)
    ensures '\n' !in CallHead(typed) && '@' !in CallHead(typed)
  {
  }

  lemma {:induction false} GlobalQuiet(helper: Helper)
    ensures '\n' !in Global(helper) && |Global(helper)| == 10
  {
  }

  lemma {:induction false} ListQuiet(site: Site, serial: nat)
    requires WellMade(site)
    ensures var list := ArgumentList(site, serial);
            '\n' !in list && list != [] && list[|list| - 1] == ')'
  {
    var d, a, n := site.dst, SecondArgument(site, serial), site.len;
    assert '\n' !in a by {
      SecondQuiet(site, serial);
    }
    JoinThree(d, a, n);
    ThreeQuiet(d, a, n);
  }

  lemma {:induction false} ThreeQuiet(a: string, b: string, c: string)
    requires '\n' !in a && '\n' !in b && '\n' !in c
    ensures '\n' !in a + ", " + (b + ", " + c)
  {
  }

  lemma {:induction false} CallQuiet(site: Site, serial: nat)
    requires WellMade(site)
    ensures var c := HelperCall(site, serial);
            '\n' !in c && c != [] && c[|c| - 1] == ')'
  {
    var head, global, list := CallHead(site.typed), Global(site.helper), ArgumentList(site, serial);
    HeadQuiet(site.typed);
    GlobalQuiet(site.helper);
    ListQuiet(site, serial);
    LastOf(head, global, list);
  }

  lemma {:induction false} LastOf(a: string, b: string, c: string)
    requires '\n' !in a && '\n' !in b && '\n' !in c && c != []
    ensures '\n' !in a + (b + c) && (a + (b + c))[|a + (b + c)| - 1] == c[|c| - 1]
  {
  }

  lemma {:induction false} WideningQuiet(site: Site)
    requires '\n' !in FillByte(site)
    ensures '\n' !in Widening(site) && Widening(site) != [] && Widening(site)[|Widening(site)| - 1] != '\r'
  {
  }

  lemma {:induction false} SiteLinesUnbroken(site: Site, serial: nat)
    requires WellMade(site)
    ensures Unbroken(SiteLines(site, serial)) && DropCarriages(SiteLines(site, serial)) == SiteLines(site, serial)
  {
    var x, y := Definition(site, Number(serial), Widening(site)),
                Definition(site, ResultName(site, serial), HelperCall(site, serial));
    assert '\n' !in x && DropCarriage(x) == x by {
      SecondQuiet(site, serial);
      WideningQuiet(site);
      NumberIsName(serial);
      DefinitionQuiet(site, Number(serial), Widening(site));
    }
    assert '\n' !in y && DropCarriage(y) == y by {
      CallQuiet(site, serial);
      ResultIsName(site, serial);
      DefinitionQuiet(site, ResultName(site, serial), HelperCall(site, serial));
    }
  }

  lemma {:induction false} DefinitionQuiet(site: Site, name: string, action: string)
    requires '\n' !in site.indent && '\n' !in name && '\n' !in action && action != [] && action[|action| - 1] != '\r'
    ensures '\n' !in Definition(site, name, action)
    ensures DropCarriage(Definition(site, name, action)) == Definition(site, name, action)
  {
  }

  // ----- what every line laid out is like -----

  predicate Every(quiet: string -> bool, lines: seq<string>) {
    forall i :: 0 <= i < |lines| ==> quiet(lines[i])
  }

  /** What line `i` of a module becomes. */
  function Piece(lower: Lowerer, pieces: Pieces, keep: string -> seq<string>, lines: seq<string>, i: nat): seq<string>
    requires i < |lines|
  {
    var n := Count(lower, lines[..i]);
    if lower(lines[i], n).Some? then pieces(lines[i], n) else keep(lines[i])
  }

  /** All lines laid out are like that exactly when those of every line are. */
  lemma {:induction false} LayEvery(lower: Lowerer, pieces: Pieces, keep: string -> seq<string>, lines: seq<string>,
                                    quiet: string -> bool)
    ensures Every(quiet, Lay(lower, pieces, keep, lines))
       <==> forall i :: 0 <= i < |lines| ==> Every(quiet, Piece(lower, pieces, keep, lines, i))
  {
    if lines != [] {
      var front, n := lines[..|lines| - 1], |lines| - 1;
      LayEvery(lower, pieces, keep, front, quiet);
      forall i | 0 <= i < n
        ensures Piece(lower, pieces, keep, lines, i) == Piece(lower, pieces, keep, front, i)
      {
        assert front[..i] == lines[..i];
      }
      EveryConcat(quiet, Lay(lower, pieces, keep, front), Piece(lower, pieces, keep, lines, n));
    }
  }

  lemma {:induction false} EveryConcat(quiet: string -> bool, a: seq<string>, b: seq<string>)
    ensures Every(quiet, a + b) <==> Every(quiet, a) && Every(quiet, b)
  {
    if Every(quiet, a + b) {
      assert forall i :: 0 <= i < |a| ==> (a + b)[i] == a[i];
      assert forall i :: 0 <= i < |b| ==> (a + b)[|a| + i] == b[i];
    }
  }

  // ----- a carriage return at the end of a line -----

  lemma {:induction false} TrimStartBefore(s: string, c: char)
    requires White(c)
    ensures TrimStart(s + [c]) == if TrimStart(s) == [] then [] else TrimStart(s) + [c]
  {
    if s == [] {
      assert s + [c] == [c] && [c][1..] == [];
    } else if White(s[0]) {
      TrimStartBefore(s[1..], c);
      assert (s + [c])[1..] == s[1..] + [c];
    }
  }

  lemma {:induction false} SameValue(line: string)
    ensures ValueOf(DropCarriage(line)) == ValueOf(line)
  {
    if DropCarriage(line) != line {
      var s := DropCarriage(line);
      assert line == s + ['\r'];
      var body := TrimStart(s);
      TrimStartBefore(s, '\r');
      FindBefore(body, '\r', " = ");
      if Find(body, " = ").Some? {
        assert (body + ['\r'])[..Find(body, " = ").value] == body[..Find(body, " = ").value];
      }
    }
  }

  lemma {:induction false} PrefixBefore(p: string, s: string, c: char)
    requires c !in p
    ensures p <= s + [c] <==> p <= s
  {
    if |p| <= |s| {
      assert (s + [c])[..|p|] == s[..|p|];
    } else if |p| == |s| + 1 {
      assert (s + [c])[|s|] == c;
    }
  }

  lemma {:induction false} SameDeclares(line: string, helper: Helper)
    ensures Declares(DropCarriage(line), Symbol(helper)) <==> Declares(line, Symbol(helper))
  {
    if DropCarriage(line) != line {
      var s := DropCarriage(line);
      assert line == s + ['\r'];
      TrimStartBefore(s, '\r');
      PrefixBefore("declare ", TrimStart(s), '\r');
      PrefixBefore("define ", TrimStart(s), '\r');
      FindBefore(TrimStart(s), '\r', "@" + Symbol(helper) + "(");
    }
  }

  lemma {:induction false} SplitBefore(rest: string, current: string, depth: nat)
    ensures SplitRest(rest + ['\r'], current, depth) == SplitRest(rest, current, depth)
    decreases |rest|
  {
    var s := rest + ['\r'];
    if rest == [] {
      assert s == ['\r'] && s[1..] == [];
    } else {
      var d := rest[0];
      assert s[0] == d && s[1..] == rest[1..] + ['\r'];
      if d == ',' && depth == 0 {
        SplitBefore(rest[1..], [], 0);
      } else if d != ')' || depth > 0 {
        SplitBefore(rest[1..], current + [d], if d == '(' then depth + 1 else if d == ')' then depth - 1 else depth);
      }
    }
  }

  lemma {:induction false} CallBefore(indent: string, helper: Helper, text: string)
    ensures RecognizeCall(indent, helper, text + ['\r']) == RecognizeCall(indent, helper, text)
  {
    FindBefore(text, '\r', "(");
    if Find(text, "(").Some? {
      var n := Find(text, "(").value;
      assert (text + ['\r'])[..n] == text[..n];
      assert (text + ['\r'])[n..] == text[n..] + ['\r'];
      assert (text[n..] + ['\r'])[1..] == text[n..][1..] + ['\r'];
      SplitBefore(text[n..][1..], [], 0);
    }
  }

  /** What every intrinsic's name is like. */
  predicate IsPrefix(name: string) {
    |name| >= 13 && name[0] == '@' && '(' !in name && ' ' !in name && '\r' !in name
  }

  predicate Prefixes(names: seq<Intrinsic>) {
    forall i :: 0 <= i < |names| ==> IsPrefix(names[i].prefix)
  }

  lemma {:induction false} LoweringsPrefixes()
    ensures Prefixes(Lowerings())
  {
    assert IsPrefix("@llvm.memset.");
    assert IsPrefix("@llvm.memcpy.");
    assert IsPrefix("@llvm.memmove.");
  }

  lemma {:induction false} AmongBefore(names: seq<Intrinsic>, s: string)
    requires Prefixes(names)
    ensures FindAmong(names, s + ['\r']) == FindAmong(names, s)
  {
    if names != [] {
      FindBefore(s, '\r', names[0].prefix);
      AmongBefore(names[1..], s);
    }
  }

  lemma {:induction false} CalleeBefore(s: string)
    ensures FindCallee(s + ['\r']) == FindCallee(s)
  {
    LoweringsPrefixes();
    AmongBefore(Lowerings(), s);
  }

  lemma {:induction false} AmongAbsent(names: seq<Intrinsic>, s: string)
    requires Prefixes(names) && '@' !in s
    ensures FindAmong(names, s) == None
  {
    if names != [] {
      FindAbsent(s, names[0].prefix);
      AmongAbsent(names[1..], s);
    }
  }

  lemma {:induction false} CalleeAbsent(s: string)
    requires '@' !in s
    ensures FindCallee(s) == None
  {
    LoweringsPrefixes();
    AmongAbsent(Lowerings(), s);
  }

  lemma {:induction false} NotBlank(s: string)
    requires FindCallee(s).Some?
    ensures TrimStart(s) != []
  {
    var callee := FindCallee(s).value;
    assert IsPrefix(callee.prefix) by {
      LoweringsPrefixes();
    }
    assert s[callee.at] == s[callee.at..callee.at + |callee.prefix|][0];
    Blank(s, callee.at);
  }

  lemma {:induction false} Blank(s: string, k: nat)
    requires k < |s| && !White(s[k])
    ensures TrimStart(s) != []
  {
    if White(s[0]) {
      assert s[1..][k - 1] == s[k];
      Blank(s[1..], k - 1);
    }
  }

  /** A carriage return at the end of a line does not change what becomes of it. */
  lemma {:induction false} SameLowering(line: string)
    ensures LowerLine(DropCarriage(line)) == LowerLine(line)
  {
    if DropCarriage(line) != line {
      var s := DropCarriage(line);
      assert line == s + ['\r'];
      CalleeBefore(s);
      if FindCallee(s).Some? {
        RecognizedBefore(s, FindCallee(s).value);
      }
    }
  }

  lemma {:induction false} RecognizedBefore(s: string, callee: Callee)
    requires FindCallee(s) == Some(callee)
    ensures RecognizeIn(CallIn(s + ['\r'], TrimStart(s + ['\r']), Some(callee)))
         == RecognizeIn(CallIn(s, TrimStart(s), Some(callee)))
  {
    NotBlank(s);
    TrimStartBefore(s, '\r');
    WithBefore(s, TrimStart(s), callee);
    if CallIn(s, TrimStart(s), Some(callee)).Some? {
      var call := CallIn(s, TrimStart(s), Some(callee)).value;
      CallBefore(call.indent, call.helper, call.text);
    }
  }

  lemma {:induction false} WithBefore(s: string, body: string, callee: Callee)
    requires |body| <= |s| && callee.at + |callee.prefix| <= |s|
    ensures var call := CallIn(s, body, Some(callee));
            CallIn(s + ['\r'], body + ['\r'], Some(callee))
            == if call.None? then None else Some(call.value.(text := call.value.text + ['\r']))
  {
    var line, from, indent := s + ['\r'], callee.at + |callee.prefix|, s[..|s| - |body|];
    PrefixBefore("declare ", body, '\r');
    assert line[..|line| - |body + ['\r']|] == indent;
    assert line[from..] == s[from..] + ['\r'];
  }

  // ----- the appended lines -----

  /** One whole line, that defines nothing and is not rewritten. */
  predicate Inert(line: string) {
    '\n' !in line && DropCarriage(line) == line && !Tagged(line) && LowerLine(line) == None
  }

  lemma {:induction false} CommentInert(line: string)
    requires line != [] && line[0] == ';' && '@' !in line && '\n' !in line && line[|line| - 1] != '\r'
    ensures Inert(line) && !Declares(line, Symbol(Memset)) && !Declares(line, Symbol(Memcpy))
  {
    assert TrimStart(line) == line;
    CalleeAbsent(line);
    assert !("declare " <= line) && !("define " <= line);
  }

  predicate Declarer(line: string, helper: Helper) {
    Declares(line, Symbol(helper))
  }

  predicate Clean(s: string) {
    '@' !in s && '\n' !in s && '\r' !in s
  }

  lemma {:induction false} CleanThree(a: string, b: string, c: string)
    requires Clean(a) && Clean(b) && Clean(c)
    ensures Clean(a + b + c)
  {
  }

  lemma {:induction false} FirstRemark()
    ensures Clean(Note()[1]) && Note()[1] != [] && Note()[1][0] == ';'
  {
    var a, b, c := "; Appended by synch-cc:", " the BPF backend cannot", " emit the libc call a";
    assert Clean(a);
    assert Clean(b);
    assert Clean(c);
    CleanThree(a, b, c);
  }

  lemma {:induction false} SecondRemark()
    ensures Clean(Note()[2]) && Note()[2] != [] && Note()[2][0] == ';'
  {
    var a, b, c := "; large memory intrinsic", " becomes, so those calls", " were rewritten to the";
    assert Clean(a);
    assert Clean(b);
    assert Clean(c);
    CleanThree(a, b, c);
  }

  lemma {:induction false} ThirdRemark()
    ensures Clean(Note()[3]) && Note()[3] != [] && Note()[3][0] == ';'
  {
    var a, b, c := "; host helpers the SDK's", " own memset and memcpy", " forward to.";
    assert Clean(a);
    assert Clean(b);
    assert Clean(c);
    CleanThree(a, b, c);
  }

  lemma {:induction false} BlankInert()
    ensures Inert([]) && !Declarer([], Memset) && !Declarer([], Memcpy)
  {
    CalleeAbsent([]);
  }

  lemma {:induction false} NoteInert(i: nat)
    requires i < |Note()|
    ensures Inert(Note()[i]) && !Declarer(Note()[i], Memset) && !Declarer(Note()[i], Memcpy)
  {
    if i == 0 {
      BlankInert();
    } else {
      FirstRemark();
      SecondRemark();
      ThirdRemark();
      CommentInert(Note()[i]);
    }
  }

  lemma {:induction false} DeclareText(helper: Helper, typed: bool)
    ensures '@' !in DeclareHead(typed) && '@' !in DeclareTail(helper, typed) && "declare " <= DeclareHead(typed)
    ensures '\n' !in DeclareHead(typed) && '\n' !in DeclareTail(helper, typed) && '\n' !in "@" + Symbol(helper) + "("
    ensures DeclareTail(helper, typed) != [] && DeclareTail(helper, typed)[|DeclareTail(helper, typed)| - 1] == ')'
  {
  }

  lemma {:induction false} DeclareInert(helper: Helper, typed: bool)
    ensures Inert(DeclareLine(helper, typed))
  {
    var head, name, tail := DeclareHead(typed), "@" + Symbol(helper) + "(", DeclareTail(helper, typed);
    DeclareText(helper, typed);
    var line := head + (name + tail);
    assert line[0] == head[0] == 'd' && TrimStart(line) == line;
    assert "declare " <= line;
    LastOf(head, name, tail);
  }

  /** A declaration declares its own helper and not the other. */
  lemma {:induction false} DeclareDeclares(helper: Helper, typed: bool, other: Helper)
    ensures Declarer(DeclareLine(helper, typed), other) <==> other == helper
  {
    var head, name, tail := DeclareHead(typed), "@" + Symbol(helper) + "(", DeclareTail(helper, typed);
    var line, pattern := head + (name + tail), "@" + Symbol(other) + "(";
    DeclareText(helper, typed);
    assert line[0] == head[0] == 'd' && TrimStart(line) == line && "declare " <= line;
    FindPast(head, name + tail, pattern);
    SymbolFound(helper, tail, other);
  }

  lemma {:induction false} SymbolFound(helper: Helper, tail: string, other: Helper)
    requires '@' !in tail
    ensures Find(("@" + Symbol(helper) + "(") + tail, "@" + Symbol(other) + "(").Some? <==> other == helper
  {
    var name, pattern := "@" + Symbol(helper) + "(", "@" + Symbol(other) + "(";
    var s := name + tail;
    assert s[..|pattern|] == name;
    if other != helper {
      assert name[7] != pattern[7];
      assert '@' !in s[1..];
      FindAbsent(s[1..], pattern);
    }
  }

  // ----- every helper called is declared, once -----

  /** How many lines are like that. */
  function Tally(like: string -> bool, lines: seq<string>): nat {
    if lines == [] then 0
    else Tally(like, lines[..|lines| - 1]) + if like(lines[|lines| - 1]) then 1 else 0
  }

  /** How many lines declare or define a helper. */
  function Declarers(lines: seq<string>, helper: Helper): nat {
    Tally(line => Declarer(line, helper), lines)
  }

  lemma {:induction false} TallyConcat(like: string -> bool, a: seq<string>, b: seq<string>)
    ensures Tally(like, a + b) == Tally(like, a) + Tally(like, b)
    decreases |b|
  {
    if b == [] {
      assert a + b == a;
    } else {
      TallyConcat(like, a, b[..|b| - 1]);
      assert (a + b)[..|a + b| - 1] == a + b[..|b| - 1];
    }
  }

  lemma {:induction false} TallyNone(like: string -> bool, lines: seq<string>)
    ensures Tally(like, lines) == 0 <==> forall i :: 0 <= i < |lines| ==> !like(lines[i])
  {
    if lines != [] {
      var front := lines[..|lines| - 1];
      TallyNone(like, front);
      assert forall i :: 0 <= i < |front| ==> front[i] == lines[i];
    }
  }

  lemma {:induction false} TallySame(like: string -> bool, a: seq<string>, b: seq<string>)
    requires |a| == |b| && forall i :: 0 <= i < |a| ==> like(a[i]) == like(b[i])
    ensures Tally(like, a) == Tally(like, b)
  {
    if a != [] {
      TallySame(like, a[..|a| - 1], b[..|b| - 1]);
    }
  }

  lemma {:induction false} DeclarersDropped(lines: seq<string>, helper: Helper)
    ensures Declarers(DropCarriages(lines), helper) == Declarers(lines, helper)
  {
    forall i | 0 <= i < |lines|
      ensures Declarer(DropCarriages(lines)[i], helper) == Declarer(lines[i], helper)
    {
      SameDeclares(lines[i], helper);
    }
    TallySame(line => Declarer(line, helper), DropCarriages(lines), lines);
  }

  lemma {:induction false} DeclarersNames(lines: seq<string>, helper: Helper)
    ensures Declarers(lines, helper) > 0 <==> ModuleNames(lines, Symbol(helper))
  {
    TallyNone(line => Declarer(line, helper), lines);
  }

  function NoPieces(line: string, serial: nat): seq<string> {
    []
  }

  /** The lines of a module that are kept. */
  function KeptLines(ir: string): seq<string> {
    Lay(LowerOne, NoPieces, Whole, Lines(ir))
  }

  ghost predicate Avoids(pieces: Pieces, like: string -> bool) {
    forall line: string, n: nat :: '\n' !in line ==> Tally(like, pieces(line, n)) == 0
  }

  lemma {:induction false} DefinitionUndeclaring(site: Site, name: string, serial: nat, action: string, helper: Helper)
    requires AllWhite(site.indent) && IsName(name, serial)
    ensures !Declarer(Definition(site, name, action), helper)
  {
    NameDefined(site, name, serial, action);
    assert name[0] == TAG[0] == '%';
    assert TrimStart(Definition(site, name, action))[0] == '%';
  }

  lemma {:induction false} SiteUndeclaring(site: Site, serial: nat, helper: Helper)
    requires WellMade(site)
    ensures Declarers(SiteLines(site, serial), helper) == 0
  {
    NumberIsName(serial);
    ResultIsName(site, serial);
    DefinitionUndeclaring(site, Number(serial), serial, Widening(site), helper);
    DefinitionUndeclaring(site, ResultName(site, serial), serial, HelperCall(site, serial), helper);
    TallyNone(line => Declarer(line, helper), SiteLines(site, serial));
  }

  lemma {:induction false} PiecesUndeclaring(helper: Helper)
    ensures Avoids(PiecesOf, line => Declarer(line, helper))
  {
    forall line: string, n: nat | '\n' !in line
      ensures Declarers(PiecesOf(line, n), helper) == 0
    {
      if LowerLine(line).Some? {
        RecognizedWellMade(line);
        SiteUndeclaring(LowerLine(line).value, n, helper);
      }
    }
  }

  lemma {:induction false} LayTally(lower: Lowerer, pieces: Pieces, lines: seq<string>, like: string -> bool)
    requires Avoids(pieces, like) && Unbroken(lines)
    ensures Tally(like, Lay(lower, pieces, Whole, lines)) == Tally(like, Lay(lower, NoPieces, Whole, lines))
  {
    if lines != [] {
      var front, last := lines[..|lines| - 1], lines[|lines| - 1];
      var n := Count(lower, front);
      var laid, kept := Lay(lower, pieces, Whole, front), Lay(lower, NoPieces, Whole, front);
      LayTally(lower, pieces, front, like);
      if LowerLast(lower, lines).Some? {
        TallyConcat(like, laid, pieces(last, n));
        assert Lay(lower, NoPieces, Whole, lines) == kept;
      } else {
        TallyConcat(like, laid, [last]);
        TallyConcat(like, kept, [last]);
      }
    }
  }

  lemma {:induction false} DeclarationCount(lines: seq<string>, helper: Helper, typed: bool, other: Helper)
    ensures Declarers(DeclarationLines(LowerOne, Standard(), lines, helper, typed), other)
         == if other == helper && Appends(LowerOne, Standard(), lines, helper) then 1 else 0
  {
    DeclareDeclares(helper, typed, other);
    var one := [DeclareLine(helper, typed)];
    assert one[..0] == [];
    assert Declarers(one, other) == Declarers([], other) + if Declarer(one[0], other) then 1 else 0;
  }

  lemma {:induction false} NoteUndeclaring(helper: Helper)
    ensures Declarers(Note(), helper) == 0
  {
    forall i | 0 <= i < |Note()|
      ensures !Declarer(Note()[i], helper)
    {
      NoteInert(i);
    }
    TallyNone(line => Declarer(line, helper), Note());
  }

  lemma {:induction false} TrailerCount(lines: seq<string>, helper: Helper)
    ensures Declarers(TrailerLines(LowerOne, Standard(), lines), helper)
         == if Appends(LowerOne, Standard(), lines, helper) then 1 else 0
  {
    var typed, like := TypedPointers(LowerOne, lines), (line: string) => Declarer(line, helper);
    var forSet := DeclarationLines(LowerOne, Standard(), lines, Memset, typed);
    var forCopy := DeclarationLines(LowerOne, Standard(), lines, Memcpy, typed);
    DeclarationCount(lines, Memset, typed, helper);
    DeclarationCount(lines, Memcpy, typed, helper);
    TallyConcat(like, forSet, forCopy);
    NoteUndeclaring(helper);
    TallyConcat(like, Note(), forSet + forCopy);
  }

  // ----- the output read back -----

  lemma {:induction false} TrailerInert(lines: seq<string>)
    ensures Every(Inert, TrailerLines(LowerOne, Standard(), lines))
  {
    var typed := TypedPointers(LowerOne, lines);
    var forSet := DeclarationLines(LowerOne, Standard(), lines, Memset, typed);
    var forCopy := DeclarationLines(LowerOne, Standard(), lines, Memcpy, typed);
    DeclareInert(Memset, typed);
    DeclareInert(Memcpy, typed);
    EveryConcat(Inert, forSet, forCopy);
    forall i | 0 <= i < |Note()|
      ensures Inert(Note()[i])
    {
      NoteInert(i);
    }
    EveryConcat(Inert, Note(), forSet + forCopy);
  }

  predicate OneLine(line: string) {
    '\n' !in line
  }

  lemma {:induction false} PiecesUnbroken(line: string, serial: nat)
    requires '\n' !in line
    ensures Unbroken(PiecesOf(line, serial)) && DropCarriages(PiecesOf(line, serial)) == PiecesOf(line, serial)
  {
    if LowerLine(line).Some? {
      RecognizedWellMade(line);
      SiteLinesUnbroken(LowerLine(line).value, serial);
    }
  }

  lemma {:induction false} OutputUnbroken(ir: string)
    ensures Unbroken(OutputLines(ir))
  {
    var lines := Lines(ir);
    LinesUnbroken(ir);
    forall i | 0 <= i < |lines|
      ensures Every(OneLine, Piece(LowerOne, PiecesOf, Whole, lines, i))
    {
      PiecesUnbroken(lines[i], Count(LowerOne, lines[..i]));
    }
    LayEvery(LowerOne, PiecesOf, Whole, lines, OneLine);
    TrailerInert(lines);
  }

  /** The lines of the text written. */
  lemma {:induction false} OutputRead(ir: string)
    ensures Lines(LoweredText(ir)) == DropCarriages(OutputLines(ir))
  {
    OutputUnbroken(ir);
    TextIsLines(ir);
    LinesOfUnlines(OutputLines(ir));
  }

  lemma {:induction false} FreshDropped(lines: seq<string>, n: nat)
    requires Fresh(lines, n)
    ensures Fresh(DropCarriages(lines), n)
  {
    forall i | 0 <= i < |lines|
      ensures ValueOf(DropCarriages(lines)[i]) == ValueOf(lines[i])
    {
      SameValue(lines[i]);
    }
  }

  /** A module that uses none of the names of this pass defines no such value twice afterwards. */
  lemma {:induction false} IntroducedDistinct(ir: string)
    requires forall i :: 0 <= i < |Lines(ir)| ==> !Tagged(Lines(ir)[i])
    ensures Fresh(Lines(LoweredText(ir)), Count(LowerOne, Lines(ir)))
  {
    var n := Count(LowerOne, Lines(ir));
    LinesUnbroken(ir);
    PiecesIntroduce();
    LayFresh(LowerOne, PiecesOf, Whole, Lines(ir));
    TrailerInert(Lines(ir));
    FreshPlain(BodyLines(ir), TrailerLines(LowerOne, Standard(), Lines(ir)), n);
    OutputRead(ir);
    FreshDropped(OutputLines(ir), n);
  }

  /** Of the lines that declare a helper, those not rewritten stay; one is added if a call needs it and none did. */
  lemma {:induction false} DeclarersOfOutput(ir: string, helper: Helper)
    ensures Declarers(Lines(LoweredText(ir)), helper)
         == Declarers(KeptLines(ir), helper) + if Appends(LowerOne, Standard(), Lines(ir), helper) then 1 else 0
  {
    var like := (line: string) => Declarer(line, helper);
    LinesUnbroken(ir);
    PiecesUndeclaring(helper);
    LayTally(LowerOne, PiecesOf, Lines(ir), like);
    TrailerCount(Lines(ir), helper);
    TallyConcat(like, BodyLines(ir), TrailerLines(LowerOne, Standard(), Lines(ir)));
    OutputRead(ir);
    DeclarersDropped(OutputLines(ir), helper);
  }

  /** The helper of a rewritten call is declared or defined, unless the only lines that did it were rewritten. */
  lemma {:induction false} CalledIsDeclared(ir: string, helper: Helper)
    requires Calls(LowerOne, Lines(ir), helper)
    ensures ModuleNames(Lines(LoweredText(ir)), Symbol(helper))
       <==> (ModuleNames(Lines(ir), Symbol(helper)) ==> ModuleNames(KeptLines(ir), Symbol(helper)))
  {
    DeclarersOfOutput(ir, helper);
    DeclarersNames(Lines(LoweredText(ir)), helper);
    DeclarersNames(KeptLines(ir), helper);
  }

  /** Line `i` of a module is rewritten to a call of the helper. */
  predicate CallsAt(lower: Lowerer, lines: seq<string>, helper: Helper, i: nat)
    requires i < |lines|
  {
    var lowered := lower(lines[i], Count(lower, lines[..i]));
    lowered.Some? && lowered.value.helper == helper
  }

  lemma {:induction false} CallsAtFront(lower: Lowerer, lines: seq<string>, helper: Helper, i: nat)
    requires i + 1 < |lines|
    ensures CallsAt(lower, lines[..|lines| - 1], helper, i) == CallsAt(lower, lines, helper, i)
  {
    assert lines[..|lines| - 1][..i] == lines[..i];
  }

  /** A helper is called exactly when some line is rewritten to a call of it. */
  lemma {:induction false} CallsIff(lower: Lowerer, lines: seq<string>, helper: Helper)
    ensures Calls(lower, lines, helper) <==> exists i :: 0 <= i < |lines| && CallsAt(lower, lines, helper, i)
  {
    if lines != [] {
      var front, n := lines[..|lines| - 1], |lines| - 1;
      CallsIff(lower, front, helper);
      forall i | 0 <= i < n
        ensures CallsAt(lower, front, helper, i) == CallsAt(lower, lines, helper, i)
      {
        CallsAtFront(lower, lines, helper, i);
      }
      assert CallsAt(lower, lines, helper, n)
             <==> LowerLast(lower, lines).Some? && LowerLast(lower, lines).value.helper == helper;
    }
  }

  /** Line `i` of a module is rewritten, and its name has the older spelling of pointers. */
  predicate TypedAt(lower: Lowerer, lines: seq<string>, i: nat)
    requires i < |lines|
  {
    var lowered := lower(lines[i], Count(lower, lines[..i]));
    lowered.Some? && lowered.value.typed
  }

  /** The older spelling is used in the declarations exactly when some rewritten line has it. */
  lemma {:induction false} TypedIff(lower: Lowerer, lines: seq<string>)
    ensures TypedPointers(lower, lines) <==> exists i :: 0 <= i < |lines| && TypedAt(lower, lines, i)
  {
    if lines != [] {
      var front, n := lines[..|lines| - 1], |lines| - 1;
      TypedIff(lower, front);
      forall i | 0 <= i < n
        ensures TypedAt(lower, front, i) == TypedAt(lower, lines, i)
      {
        assert front[..i] == lines[..i];
      }
      assert TypedAt(lower, lines, n) <==> LowerLast(lower, lines).Some? && LowerLast(lower, lines).value.typed;
    }
  }

  /** The text of a declaration. */
  lemma {:induction false} DeclarationText(typed: bool)
    ensures var p := if typed then "i8*" else "ptr";
            && DeclareLine(Memset, typed) == ("declare " + p + " ") + (("@" + "sy_memset" + "(") + (p + ", i32, i64)"))
            && DeclareLine(Memcpy, typed)
               == ("declare " + p + " ") + (("@" + "sy_memcpy" + "(") + (p + (", " + p + ", i64)")))
  {
  }

  lemma {:induction false} LoweredCalls(lines: seq<string>, i: nat)
    requires i < |lines| && LowerLine(lines[i]).Some?
    ensures Calls(LowerOne, lines, LowerLine(lines[i]).value.helper)
  {
    var helper := LowerLine(lines[i]).value.helper;
    assert CallsAt(LowerOne, lines, helper, i);
    CallsIff(LowerOne, lines, helper);
  }

  // ----- the arguments of an emitted call -----

  lemma {:induction false} ScanPlain(s: string, depth: nat)
    requires '(' !in s && ')' !in s && ',' !in s
    ensures Scan(s, depth) == Some(depth)
  {
    if s != [] {
      ScanPlain(s[1..], depth);
    }
  }

  lemma {:induction false} PlainIsArgument(s: string)
    requires '(' !in s && ')' !in s && ',' !in s && Trimmed(s)
    ensures IsArgument(s)
  {
    ScanPlain(s, 0);
  }

  lemma {:induction false} NumeralIsArgument(head: string, n: nat)
    requires head == "i32 " || head == "i32 " + TAG
    ensures IsArgument(head + Decimal(n))
  {
    var d := Decimal(n);
    DecimalRoundTrip(n);
    assert forall i :: 0 <= i < |d| ==> IsDigit(d[i]);
    assert '(' !in d && ')' !in d && ',' !in d && !White(d[|d| - 1]);
    assert '(' !in head && ')' !in head && ',' !in head && head[0] == 'i';
    PlainIsArgument(head + d);
  }

  lemma {:induction false} SecondIsArgument(site: Site, serial: nat)
    requires WellMade(site)
    ensures IsArgument(SecondArgument(site, serial))
  {
    if site.helper.Memset? {
      match ParseI64(FillByte(site))
      case Some(v) =>
        NumeralIsArgument("i32 ", v % 256);
      case None =>
        NumeralIsArgument("i32 " + TAG, serial);
        Associates("i32 ", TAG, Decimal(serial));
    }
  }

  /** The emitted call passes the destination and the length verbatim, and the second argument between them. */
  lemma {:induction false} ArgumentsCarried(site: Site, serial: nat)
    requires WellMade(site)
    ensures SplitArguments(ArgumentList(site, serial)) == Some([site.dst, SecondArgument(site, serial), site.len])
  {
    SecondIsArgument(site, serial);
    SplitOfJoin([site.dst, SecondArgument(site, serial), site.len], [')']);
  }

  // ----- a helper defined on the line that is rewritten -----

  lemma {:induction false} NamedPast(global: string, opens: string, name: string, rest: string)
    requires name != [] && name[0] !in opens && |global| < |name| && opens != [] && opens[0] !in name
    ensures Find(global + (opens + (name + rest)), name) == Some(|global| + |opens|)
  {
    var tail := opens + (name + rest);
    FindFirst(opens, name, rest);
    assert tail[0] == opens[0];
    FindShort(global, name);
    FindAfter(global, tail, name);
  }

  lemma {:induction false} NamedLater(before: string, global: string, opens: string, name: string, rest: string)
    requires name != [] && name[0] !in before && name[0] !in opens && |global| < |name| && opens != []
             && opens[0] !in name
    ensures Find(before + (global + (opens + (name + rest))), name) == Some(|before| + (|global| + |opens|))
  {
    var tail := global + (opens + (name + rest));
    NamedPast(global, opens, name, rest);
    FoundLater(before, tail, name, |global| + |opens|);
  }

  lemma {:induction false} FoundLater(before: string, tail: string, name: string, k: nat)
    requires name != [] && name[0] !in before && Find(tail, name) == Some(k)
    ensures Find(before + tail, name) == Some(|before| + k)
  {
    FindPast(before, tail, name);
  }

  predicate Solid(s: string) {
    s != [] && forall i :: 0 <= i < |s| ==> !White(s[i])
  }

  lemma {:induction false} WordSolid(a: string, rest: string)
    requires Solid(a) && (rest == [] || White(rest[0]))
    ensures Lowering.Word(a + rest) == |a|
  {
    assert (a + rest)[1..] == a[1..] + rest;
    if |a| == 1 {
      assert a[1..] + rest == rest;
    } else {
      WordSolid(a[1..], rest);
    }
  }

  lemma {:induction false} LastTokenOf(a: string, b: string)
    requires Solid(a) && Solid(b)
    ensures LastToken(a + ([' '] + b)) == Some(b)
  {
    var s := a + ([' '] + b);
    WordSolid(a, [' '] + b);
    assert s[..|a|] == a && s[|a|..] == [' '] + b && ([' '] + b)[1..] == b;
    assert Tokens(b) == [b] by {
      WordSolid(b, []);
      assert b + [] == b && b[..|b|] == b && b[|b|..] == [];
    }
    assert Tokens([' '] + b) == Tokens(b);
    assert Tokens(s) == [a] + [b];
  }

  const OPENS := "(ptr %p, i64 %n) { call void "

  function DefineArguments(): seq<string> {
    ["ptr %p", "i8" + ([' '] + "0"), "i64" + ([' '] + "%n"), "i1" + ([' '] + "false")]
  }

  function DefineCall(): string {
    CallText("p0.i64", DefineArguments(), ") ret void }")
  }

  /** `sy_memset` defined on one line, by an intrinsic call. */
  function DefineLine(): string {
    "define void " + (Global(Memset) + (OPENS + (Lowerings()[0].prefix + DefineCall())))
  }

  lemma {:induction false} DefineIsCall()
    ensures IsCall("p0.i64", DefineArguments(), ") ret void }")
  {
    assert IsArgument("ptr %p") by {
      PlainIsArgument("ptr %p");
    }
    assert IsArgument("i8" + ([' '] + "0")) by {
      PlainIsArgument("i8" + ([' '] + "0"));
    }
    assert IsArgument("i64" + ([' '] + "%n")) by {
      PlainIsArgument("i64" + ([' '] + "%n"));
    }
    assert IsArgument(DefineArguments()[3]) && LastToken(DefineArguments()[3]) == Some("false") by {
      PlainIsArgument("i1" + ([' '] + "false"));
      LastTokenOf("i1", "false");
    }
  }

  lemma {:induction false} DefineDecided(indent: string, typed: bool)
    ensures var args := DefineArguments();
            var site := Site(indent, Memset, typed, args[0], args[1], args[2]);
            Decide(Some(site)) == Some(site)
  {
    LastTokenOf("i64", "%n");
    LastTokenOf("i8", "0");
    assert ParseU64("%n") == None by {
      assert !IsDigit("%n"[0]);
    }
  }

  lemma {:induction false} DefineCallee()
    ensures FindCallee(DefineLine()) == Some(Callee(51, Lowerings()[0].prefix, Memset))
  {
    LoweringsPrefixes();
    GlobalQuiet(Memset);
    NamedLater("define void ", Global(Memset), OPENS, Lowerings()[0].prefix, DefineCall());
  }

  lemma {:induction false} AfterFour(a: string, b: string, c: string, d: string, e: string)
    ensures var s := a + (b + (c + (d + e)));
            s[|a| + (|b| + |c|) + |d|..] == e
  {
    var s, n := a + (b + (c + (d + e))), |a| + (|b| + |c|) + |d|;
    assert forall i :: 0 <= i < |e| ==> s[n + i] == e[i];
  }

  lemma {:induction false} DefineStarts(rest: string)
    ensures var line := "define void " + rest;
            "define " <= line && !("declare " <= line) && !White(line[0]) && line[0..] == line
  {
    var line := "define void " + rest;
    assert line[2] == 'f' && "declare "[2] == 'c';
  }

  lemma {:induction false} DefineLowered()
    ensures LowerLine(DefineLine()).Some? && LowerLine(DefineLine()).value.helper == Memset
  {
    var line, args, callee := DefineLine(), DefineArguments(), Callee(51, Lowerings()[0].prefix, Memset);
    DefineCallee();
    DefineIsCall();
    DefineStarts(Global(Memset) + (OPENS + (Lowerings()[0].prefix + DefineCall())));
    AfterFour("define void ", Global(Memset), OPENS, Lowerings()[0].prefix, DefineCall());
    DecidedCall(line, callee, "p0.i64", args, ") ret void }");
  }

  lemma {:induction false} DecidedCall(line: string, callee: Callee, suffix: string, args: seq<string>, tail: string)
    requires IsCall(suffix, args, tail) && args == DefineArguments()
    requires FindCallee(line) == Some(callee) && callee.at + |callee.prefix| <= |line| && callee.helper == Memset
    requires line[callee.at + |callee.prefix|..] == CallText(suffix, args, tail)
    requires line != [] && !White(line[0]) && line[0..] == line && !("declare " <= line)
    ensures LowerLine(line).Some? && LowerLine(line).value.helper == Memset
  {
    CallRecognized(line, callee, [], suffix, args, tail);
    DefineDecided([], Find(suffix, "p0i8").Some?);
  }

  lemma {:induction false} JoinWithin(args: seq<string>, c: char)
    requires args != [] && c !in ", " && forall i :: 0 <= i < |args| ==> c !in args[i]
    ensures c !in JoinArguments(args)
    decreases |args|
  {
    if |args| > 1 {
      JoinWithin(args[1..], c);
    }
  }

  lemma {:induction false} DefineUnbroken()
    ensures '\n' !in DefineLine()
  {
    var args := DefineArguments();
    assert '\n' !in args[0] && '\n' !in args[1] && '\n' !in args[2] && '\n' !in args[3];
    JoinWithin(args, '\n');
    assert '\n' !in DefineCall() by {
      assert '\n' !in "p0.i64" && '\n' !in ['('] && '\n' !in ") ret void }";
    }
    GlobalQuiet(Memset);
    assert '\n' !in Lowerings()[0].prefix && '\n' !in OPENS && '\n' !in "define void ";
  }

  lemma {:induction false} DefineDeclares()
    ensures Declares(DefineLine(), Symbol(Memset))
  {
    var line, rest := DefineLine(), OPENS + (Lowerings()[0].prefix + DefineCall());
    DefineStarts(Global(Memset) + rest);
    assert TrimStart(line) == line;
    var pattern := "@" + Symbol(Memset) + "(";
    assert Find(Global(Memset) + rest, pattern).Some? by {
      assert (Global(Memset) + rest)[..|pattern|] == pattern;
    }
    FindPast("define void ", Global(Memset) + rest, pattern);
  }

  lemma {:induction false} LoneLine(lines: seq<string>)
    requires |lines| == 1 && LowerLine(lines[0]).Some?
    ensures Calls(LowerOne, lines, LowerLine(lines[0]).value.helper) && Lay(LowerOne, NoPieces, Whole, lines) == []
  {
    LoweredCalls(lines, 0);
    assert lines[..0] == [];
  }

  /** A helper defined on the one line whose intrinsic is rewritten is called and no longer declared. */
  lemma {:induction false} DefinitionLost()
    ensures Calls(LowerOne, Lines(DefineLine()), Memset)
    ensures !ModuleNames(Lines(LoweredText(DefineLine())), Symbol(Memset))
  {
    var ir := DefineLine();
    DefineUnbroken();
    FirstLine(ir, []);
    assert LowerLine(ir).Some? && LowerLine(ir).value.helper == Memset by {
      DefineLowered();
    }
    LoneLine(Lines(ir));
    assert ModuleNames(Lines(ir), Symbol(Memset)) by {
      DefineDeclares();
      assert Declares(Lines(ir)[0], Symbol(Memset));
    }
    CalledIsDeclared(ir, Memset);
  }
}
