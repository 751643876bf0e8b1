/** What a second rewriting of memory intrinsics would find in the text the first one wrote, and when it changes it. */
module Relowering {
  import opened Bytes
  import opened Strings
  import opened Lowering
  import opened LoweringProof

  // ----- what a second pass finds -----

  function NestedCall(indent: string, list: string, found: Option<Callee>): Option<Call> {
    if found.None? || found.value.at + |found.value.prefix| > |list| then None
    else Some(Call(indent, found.value.helper, list[found.value.at + |found.value.prefix|..]))
  }

  /** The site of an intrinsic named inside an argument list. */
  function NestedIn(indent: string, list: string): Option<Site> {
    Decide(RecognizeIn(NestedCall(indent, list, FindCallee(list))))
  }

  function ShiftCallee(found: Option<Callee>, n: nat): Option<Callee> {
    match found case None => None case Some(c) => Some(c.(at := n + c.at))
  }

  lemma {:induction false} AmongShifts(names: seq<Intrinsic>, line: string, list: string, n: nat)
    requires forall i :: 0 <= i < |names| ==> Find(line, names[i].prefix) == Shift(Find(list, names[i].prefix), n)
    ensures FindAmong(names, line) == ShiftCallee(FindAmong(names, list), n)
  {
    if names != [] {
      assert Find(line, names[0].prefix) == Shift(Find(list, names[0].prefix), n);
      AmongShifts(names[1..], line, list, n);
    }
  }

  /** Text without an at sign names nothing, and neither does a short name before a parenthesis. */
  lemma {:induction false} CalleePast(names: seq<Intrinsic>, a: string, b: string)
    requires Prefixes(names)
    requires '@' !in a || (|a| < 13 && b != [] && b[0] == '(')
    ensures FindAmong(names, a + b) == ShiftCallee(FindAmong(names, b), |a|)
  {
    forall i | 0 <= i < |names|
      ensures Find(a + b, names[i].prefix) == Shift(Find(b, names[i].prefix), |a|)
    {
      var name := names[i].prefix;
      assert IsPrefix(name);
      if '@' !in a {
        FindPast(a, b, name);
      } else {
        FindShort(a, name);
        FindAfter(a, b, name);
      }
    }
    AmongShifts(names, a + b, b, |a|);
  }

  lemma {:induction false} AmongAfter(names: seq<Intrinsic>, before: string, global: string, list: string)
    requires Prefixes(names) && '@' !in before && |global| < 13 && list != [] && list[0] == '('
    ensures FindAmong(names, before + (global + list)) == ShiftCallee(FindAmong(names, list), |before| + |global|)
  {
    CalleePast(names, global, list);
    CalleePast(names, before, global + list);
    ShiftTwice(FindAmong(names, list), |global|, |before|);
  }

  lemma {:induction false} ShiftTwice(found: Option<Callee>, m: nat, n: nat)
    ensures ShiftCallee(ShiftCallee(found, m), n) == ShiftCallee(found, n + m)
  {
  }

  lemma {:induction false} CalleeAfter(before: string, global: string, list: string)
    requires '@' !in before && |global| < 13 && list != [] && list[0] == '('
    ensures FindCallee(before + (global + list)) == ShiftCallee(FindCallee(list), |before| + |global|)
  {
    LoweringsPrefixes();
    AmongAfter(Lowerings(), before, global, list);
  }

  lemma {:induction false} TrimStartPercent(indent: string, rest: string)
    requires AllWhite(indent) && rest != [] && rest[0] == '%'
    ensures TrimStart(indent + rest) == rest && !("declare " <= rest)
  {
    TrimStartOf(indent, rest);
  }

  lemma {:induction false} Dropped(line: string, head: string, list: string, k: nat)
    requires line == head + list && k <= |list|
    ensures line[|head| + k..] == list[k..]
  {
  }

  /** A line that names no intrinsic before its argument list. */
  lemma {:induction false} NestedRecognized(indent: string, before: string, global: string, list: string)
    requires AllWhite(indent) && before != [] && before[0] == '%' && '@' !in before
    requires |global| < 13 && list != [] && list[0] == '('
    ensures LowerLine(indent + (before + (global + list))) == NestedIn(indent, list)
  {
    var rest, head := before + (global + list), (indent + before) + global;
    var line := indent + rest;
    assert TrimStart(line) == rest && !("declare " <= rest) by {
      TrimStartPercent(indent, rest);
    }
    Associates(indent, before, global + list);
    assert FindCallee(line) == ShiftCallee(FindCallee(list), |head|) by {
      assert '@' !in indent + before;
      CalleeAfter(indent + before, global, list);
    }
    Associates(indent + before, global, list);
    ShiftedCall(line, rest, indent, head, list, FindCallee(list));
  }

  lemma {:induction false} ShiftedCall(line: string, body: string, indent: string, head: string, list: string,
                                       found: Option<Callee>)
    requires line == indent + body && line == head + list && !("declare " <= body)
    requires found.Some? ==> found.value.at + |found.value.prefix| <= |list|
    ensures CallIn(line, body, ShiftCallee(found, |head|)) == NestedCall(indent, list, found)
  {
    assert line[..|line| - |body|] == indent;
    if found.Some? {
      Dropped(line, head, list, found.value.at + |found.value.prefix|);
    }
  }

  lemma {:induction false} Regrouped(name: string, equals: string, head: string, rest: string)
    ensures name + (equals + (head + rest)) == (name + (equals + head)) + rest
  {
  }

  /** An emitted call is rewritten again exactly when its arguments hold an intrinsic call. */
  lemma {:induction false} CallAgain(site: Site, serial: nat)
    requires WellMade(site)
    ensures LowerLine(Definition(site, ResultName(site, serial), HelperCall(site, serial)))
         == NestedIn(site.indent, ArgumentList(site, serial))
  {
    var name, head, global, list := ResultName(site, serial), CallHead(site.typed), Global(site.helper),
                                    ArgumentList(site, serial);
    var before := name + (" = " + head);
    assert before[0] == '%' && '@' !in before by {
      ResultIsName(site, serial);
      HeadQuiet(site.typed);
      assert name[0] == TAG[0];
    }
    GlobalQuiet(site.helper);
    Regrouped(name, " = ", head, global + list);
    NestedRecognized(site.indent, before, global, list);
  }

  // ----- the widening is never rewritten -----

  lemma {:induction false} NeverCloses(rest: string, current: string, depth: nat)
    requires ')' !in rest
    ensures SplitRest(rest, current, depth) == None
    decreases |rest|
  {
    if rest != [] {
      var d := rest[0];
      if d == ',' && depth == 0 {
        NeverCloses(rest[1..], [], 0);
      } else {
        NeverCloses(rest[1..], current + [d], if d == '(' then depth + 1 else depth);
      }
    }
  }

  /** Text without a closing parenthesis adds nothing to a list. */
  lemma {:induction false} SplitOpen(rest: string, tail: string, current: string, depth: nat)
    requires ')' !in tail
    ensures SplitRest(rest + tail, current, depth) == SplitRest(rest, current, depth)
    decreases |rest|
  {
    var s := rest + tail;
    if rest == [] {
      assert s == tail;
      NeverCloses(tail, current, depth);
    } else {
      var d := rest[0];
      assert s[0] == d && s[1..] == rest[1..] + tail;
      if d == ',' && depth == 0 {
        SplitOpen(rest[1..], tail, [], 0);
      } else if d != ')' || depth > 0 {
        var deeper := if d == '(' then depth + 1 else if d == ')' then depth - 1 else depth;
        SplitOpen(rest[1..], tail, current + [d], deeper);
      }
    }
  }

  lemma {:induction false} TokenBlackened(s: string)
    ensures forall i :: 0 <= i < |Tokens(s)| ==> ' ' !in Tokens(s)[i]
    decreases |s|
  {
    if s != [] {
      if White(s[0]) {
        TokenBlackened(s[1..]);
      } else {
        WordUnspaced(s);
        TokenBlackened(s[Lowering.Word(s)..]);
      }
    }
  }

  lemma {:induction false} WordUnspaced(s: string)
    ensures ' ' !in s[..Lowering.Word(s)]
  {
    if s != [] && !White(s[0]) {
      WordUnspaced(s[1..]);
      assert s[..Lowering.Word(s)] == [s[0]] + s[1..][..Lowering.Word(s[1..])];
    }
  }

  /** A list without spaces in its text has no third argument that begins with `i64`. */
  lemma {:induction false} UnspacedUnrecognized(indent: string, helper: Helper, text: string, tail: string)
    requires ' ' !in text && '(' !in tail && ')' !in tail
    ensures RecognizeCall(indent, helper, text + tail) == None
  {
    var s := text + tail;
    match Find(s, "(")
    case None =>
    case Some(n) =>
      assert s[n] == s[n..n + 1][0] == '(';
      assert n < |text| && s[n..] == text[n..] + tail;
      var list := text[n + 1..];
      assert s[n..][1..] == list + tail;
      SplitOpen(list, tail, [], 0);
      match SplitRest(list, [], 0)
      case None =>
      case Some(args) =>
        SplitWithin(list, [], 0, ' ');
        assert |args| == 4 ==> !("i64 " <= args[2]) by {
          assert "i64 "[3] == ' ';
        }
  }

  lemma {:induction false} TokenText(line: string, before: string, token: string, tail: string, from: nat)
    requires line == before + (token + tail) && |before| <= from <= |before| + |token|
    ensures line[from..] == token[from - |before|..] + tail
  {
  }

  /** An intrinsic can only be named in the token. */
  lemma {:induction false} TokenCall(line: string, before: string, token: string, tail: string, body: string,
                                     callee: Callee)
    requires line == before + (token + tail) && '@' !in before && tail != [] && tail[0] == ' ' && '@' !in tail
    requires IsPrefix(callee.prefix) && callee.at + |callee.prefix| <= |line| && |body| <= |line|
    requires line[callee.at..callee.at + |callee.prefix|] == callee.prefix
    ensures |before| <= callee.at + |callee.prefix| <= |before| + |token|
    ensures var call := CallIn(line, body, Some(callee));
            call.Some? ==> call.value.text == token[callee.at + |callee.prefix| - |before|..] + tail
  {
    InsideToken(line, before, token, tail, callee.prefix, callee.at);
    TokenText(line, before, token, tail, callee.at + |callee.prefix|);
  }

  lemma {:induction false} WideningAgain(line: string, before: string, token: string, tail: string)
    requires line == before + (token + tail) && '@' !in before && ' ' !in token
    requires tail != [] && tail[0] == ' ' && '(' !in tail && ')' !in tail && '@' !in tail
    ensures LowerLine(line) == None
  {
    var found := CallIn(line, TrimStart(line), FindCallee(line));
    if found.Some? {
      var callee, call := FindCallee(line).value, found.value;
      assert IsPrefix(callee.prefix) by {
        LoweringsPrefixes();
      }
      TokenCall(line, before, token, tail, TrimStart(line), callee);
      UnspacedUnrecognized(call.indent, call.helper, token[callee.at + |callee.prefix| - |before|..], tail);
    }
  }

  lemma {:induction false} InsideToken(line: string, before: string, token: string, tail: string, name: string, at: nat)
    requires line == before + (token + tail) && '@' !in before && tail != [] && tail[0] == ' ' && '@' !in tail
    requires IsPrefix(name) && at + |name| <= |line| && line[at..at + |name|] == name
    ensures |before| <= at && at + |name| <= |before| + |token|
  {
    var n := |before| + |token|;
    assert line[at] == line[at..at + |name|][0] == '@';
    assert |before| <= at < n;
    assert line[n] == ' ';
    assert forall k :: at <= k < at + |name| ==> line[k] == line[at..at + |name|][k - at];
  }

  lemma {:induction false} WideningNever(site: Site, serial: nat)
    requires WellMade(site)
    ensures LowerLine(Definition(site, Number(serial), Widening(site))) == None
  {
    var name, token, tail := Number(serial), FillByte(site), " to i32";
    var before := site.indent + (name + (" = " + "zext i8 "));
    assert ' ' !in token by {
      TokenBlackened(site.second);
    }
    NumberIsName(serial);
    assert '@' !in site.indent;
    assert '@' !in before;
    Widened(site.indent, name, " = ", "zext i8 ", token, tail);
    WideningAgain(Definition(site, name, Widening(site)), before, token, tail);
  }

  lemma {:induction false} Widened(a: string, b: string, c: string, d: string, e: string, f: string)
    ensures a + (b + (c + (d + e + f))) == (a + (b + (c + d))) + (e + f)
  {
  }

  // ----- a second pass -----

  predicate Settled(line: string) {
    LowerLine(line) == None
  }

  /** The arguments of an emitted call hold no call that would be rewritten. */
  predicate Plain(site: Site, serial: nat) {
    NestedIn(site.indent, ArgumentList(site, serial)) == None
  }

  lemma {:induction false} SiteSettled(site: Site, serial: nat)
    requires WellMade(site)
    ensures Every(Settled, SiteLines(site, serial)) <==> Plain(site, serial)
  {
    CallAgain(site, serial);
    WideningNever(site, serial);
    EveryLast(Settled, Widens(site), Definition(site, Number(serial), Widening(site)),
              Definition(site, ResultName(site, serial), HelperCall(site, serial)));
  }

  lemma {:induction false} EveryLast(quiet: string -> bool, both: bool, first: string, last: string)
    requires quiet(first)
    ensures Every(quiet, (if both then [first] else []) + [last]) <==> quiet(last)
  {
    EveryConcat(quiet, if both then [first] else [], [last]);
    assert [last][0] == last;
  }

  predicate PlainAt(lines: seq<string>, i: nat)
    requires i < |lines|
  {
    LowerLine(lines[i]).Some? ==> Plain(LowerLine(lines[i]).value, Count(LowerOne, lines[..i]))
  }

  lemma {:induction false} PieceSettled(lines: seq<string>, i: nat)
    requires i < |lines| && '\n' !in lines[i]
    ensures Every(Settled, Piece(LowerOne, PiecesOf, Whole, lines, i)) <==> PlainAt(lines, i)
  {
    var n := Count(LowerOne, lines[..i]);
    match LowerLine(lines[i])
    case Some(site) =>
      RecognizedWellMade(lines[i]);
      SiteSettled(site, n);
    case None =>
      assert Whole(lines[i])[0] == lines[i];
  }

  /** A kind of line that a carriage return at the end does not change. */
  ghost predicate Steady(quiet: string -> bool) {
    forall line: string :: quiet(DropCarriage(line)) == quiet(line)
  }

  lemma {:induction false} SteadyDropped(quiet: string -> bool, lines: seq<string>)
    requires Steady(quiet)
    ensures Every(quiet, DropCarriages(lines)) <==> Every(quiet, lines)
  {
    assert forall i :: 0 <= i < |lines| ==> quiet(DropCarriage(lines[i])) == quiet(lines[i]);
    if Every(quiet, DropCarriages(lines)) {
      forall i | 0 <= i < |lines|
        ensures quiet(lines[i])
      {
        assert quiet(DropCarriages(lines)[i]);
      }
    }
  }

  lemma {:induction false} OutputEvery(ir: string, quiet: string -> bool)
    requires Steady(quiet) && Every(quiet, TrailerLines(LowerOne, Standard(), Lines(ir)))
    ensures Every(quiet, Lines(LoweredText(ir))) <==> Every(quiet, BodyLines(ir))
  {
    OutputRead(ir);
    SteadyDropped(quiet, OutputLines(ir));
    EveryConcat(quiet, BodyLines(ir), TrailerLines(LowerOne, Standard(), Lines(ir)));
  }

  lemma {:induction false} SettledSteady()
    ensures Steady(Settled)
  {
    forall line: string
      ensures Settled(DropCarriage(line)) == Settled(line)
    {
      SameLowering(line);
    }
  }

  lemma {:induction false} BodySettled(lines: seq<string>)
    requires Unbroken(lines)
    ensures Every(Settled, Lay(LowerOne, PiecesOf, Whole, lines))
       <==> forall i :: 0 <= i < |lines| ==> PlainAt(lines, i)
  {
    LayEvery(LowerOne, PiecesOf, Whole, lines, Settled);
    forall i | 0 <= i < |lines|
      ensures Every(Settled, Piece(LowerOne, PiecesOf, Whole, lines, i)) <==> PlainAt(lines, i)
    {
      PieceSettled(lines, i);
    }
  }

  lemma {:induction false} InertSettled(lines: seq<string>)
    requires Every(Inert, lines)
    ensures Every(Settled, lines)
  {
    forall i | 0 <= i < |lines|
      ensures Settled(lines[i])
    {
      assert Inert(lines[i]);
    }
  }

  /** No line of the output would be rewritten, unless an argument of an emitted call holds such a call. */
  lemma {:induction false} OutputSettled(ir: string)
    ensures Every(Settled, Lines(LoweredText(ir))) <==> forall i :: 0 <= i < |Lines(ir)| ==> PlainAt(Lines(ir), i)
  {
    TrailerInert(Lines(ir));
    InertSettled(TrailerLines(LowerOne, Standard(), Lines(ir)));
    SettledSteady();
    OutputEvery(ir, Settled);
    LinesUnbroken(ir);
    BodySettled(Lines(ir));
  }

  lemma {:induction false} SettledStays(lines: seq<string>)
    requires Every(Settled, lines)
    ensures Lay(LowerOne, PiecesOf, Whole, lines) == lines
    ensures !Calls(LowerOne, lines, Memset) && !Calls(LowerOne, lines, Memcpy)
  {
    if lines != [] {
      var front, last := lines[..|lines| - 1], lines[|lines| - 1];
      SettledStays(front);
      assert Settled(last);
      assert lines == front + [last];
    }
  }

  lemma {:induction false} LayGrows(lower: Lowerer, pieces: Pieces, lines: seq<string>)
    requires forall line: string, n: nat :: lower(line, n).Some? ==> pieces(line, n) != []
    ensures |Lay(lower, pieces, Whole, lines)| >= |lines|
  {
    if lines != [] {
      LayGrows(lower, pieces, lines[..|lines| - 1]);
    }
  }

  lemma {:induction false} BodyGrows(lines: seq<string>)
    ensures |Lay(LowerOne, PiecesOf, Whole, lines)| >= |lines|
  {
    LayGrows(LowerOne, PiecesOf, lines);
  }

  lemma {:induction false} NoteAppended(lower: Lowerer, a: Appendix, lines: seq<string>, helper: Helper)
    requires Calls(lower, lines, helper)
    ensures |TrailerLines(lower, a, lines)| >= |a.note|
  {
    assert Calls(lower, lines, Memset) || Calls(lower, lines, Memcpy);
  }

  lemma {:induction false} TrailerGrows(lines: seq<string>)
    requires !Every(Settled, lines)
    ensures TrailerLines(LowerOne, Standard(), lines) != []
  {
    var i :| 0 <= i < |lines| && !Settled(lines[i]);
    LoweredCalls(lines, i);
    NoteAppended(LowerOne, Standard(), lines, LowerLine(lines[i]).value.helper);
    assert |Standard().note| == 4;
  }

  /** A rewritten line brings the remark with it. */
  lemma {:induction false} UnsettledGrows(ir: string)
    requires !Every(Settled, Lines(ir))
    ensures |Lines(LoweredText(ir))| > |Lines(ir)|
  {
    var lines := Lines(ir);
    TrailerGrows(lines);
    BodyGrows(lines);
    OutputRead(ir);
  }

  predicate Uncarried(line: string) {
    DropCarriage(line) == line
  }

  predicate UncarriedAt(lines: seq<string>, i: nat)
    requires i < |lines|
  {
    LowerLine(lines[i]).None? ==> Uncarried(lines[i])
  }

  lemma {:induction false} PieceUncarried(lines: seq<string>, i: nat)
    requires i < |lines| && '\n' !in lines[i]
    ensures Every(Uncarried, Piece(LowerOne, PiecesOf, Whole, lines, i)) <==> UncarriedAt(lines, i)
  {
    var n := Count(LowerOne, lines[..i]);
    var p := PiecesOf(lines[i], n);
    PiecesUnbroken(lines[i], n);
    assert forall k :: 0 <= k < |p| ==> DropCarriages(p)[k] == DropCarriage(p[k]);
    assert Whole(lines[i])[0] == lines[i];
  }

  lemma {:induction false} BodyUncarried(lines: seq<string>)
    requires Unbroken(lines)
    ensures Every(Uncarried, Lay(LowerOne, PiecesOf, Whole, lines))
       <==> forall i :: 0 <= i < |lines| ==> UncarriedAt(lines, i)
  {
    LayEvery(LowerOne, PiecesOf, Whole, lines, Uncarried);
    forall i | 0 <= i < |lines|
      ensures Every(Uncarried, Piece(LowerOne, PiecesOf, Whole, lines, i)) <==> UncarriedAt(lines, i)
    {
      PieceUncarried(lines, i);
    }
  }

  lemma {:induction false} InertUncarried(lines: seq<string>)
    requires Every(Inert, lines)
    ensures Every(Uncarried, lines)
  {
    forall i | 0 <= i < |lines|
      ensures Uncarried(lines[i])
    {
      assert Inert(lines[i]);
    }
  }

  lemma {:induction false} DroppedSame(lines: seq<string>)
    ensures Unlines(DropCarriages(lines)) == Unlines(lines) <==> Every(Uncarried, lines)
  {
    UnlinesSame(lines);
    if Every(Uncarried, lines) {
      assert forall i :: 0 <= i < |lines| ==> Uncarried(lines[i]);
    } else {
      var i :| 0 <= i < |lines| && !Uncarried(lines[i]);
      assert DropCarriages(lines)[i] != lines[i];
    }
  }

  /** The text read and written again is the same exactly when no kept line ends in a carriage return. */
  lemma {:induction false} OutputUncarried(ir: string)
    ensures Unlines(Lines(LoweredText(ir))) == LoweredText(ir)
       <==> forall i :: 0 <= i < |Lines(ir)| ==> UncarriedAt(Lines(ir), i)
  {
    var lines, body, trailer := Lines(ir), BodyLines(ir), TrailerLines(LowerOne, Standard(), Lines(ir));
    assert Unlines(Lines(LoweredText(ir))) == LoweredText(ir) <==> Every(Uncarried, body + trailer) by {
      OutputRead(ir);
      TextIsLines(ir);
      DroppedSame(body + trailer);
    }
    TrailerInert(lines);
    InertUncarried(trailer);
    EveryConcat(Uncarried, body, trailer);
    LinesUnbroken(ir);
    BodyUncarried(lines);
  }

  /** When a second pass changes nothing. */
  lemma {:induction false} SecondPass(ir: string)
    ensures LoweredText(LoweredText(ir)) == LoweredText(ir)
       <==> ((forall i :: 0 <= i < |Lines(ir)| ==> PlainAt(Lines(ir), i))
             && (forall i :: 0 <= i < |Lines(ir)| ==> UncarriedAt(Lines(ir), i)))
  {
    var out := LoweredText(ir);
    OutputSettled(ir);
    if Every(Settled, Lines(out)) {
      SettledStays(Lines(out));
      assert OutputLines(out) == Lines(out);
      TextIsLines(out);
      OutputUncarried(ir);
    } else {
      UnsettledGrows(out);
    }
  }

  /** A lone carriage return is a line that the first pass keeps and the second strips. */
  lemma {:induction false} SecondPassStrips()
    ensures LoweredText(LoweredText(['\r'])) != LoweredText(['\r'])
  {
    var ir := ['\r'];
    FirstLine(ir, []);
    CalleeAbsent(ir);
    assert !Uncarried(Lines(ir)[0]);
    SecondPass(ir);
  }
}
