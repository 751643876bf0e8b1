/**
 * Rewriting of memory intrinsics in textual IR (`crates/synch-cc/src/lower.rs`): how a call's arguments are taken
 * apart, when a line is rewritten and to what, and the whole module.
 */
module Lowering {
  import opened Bytes
  import opened Numerals
  import opened Strings
  import opened Budget

  // ----- argument lists -----

  /** The rest of an argument list, given what has been read of the current argument and its depth. */
  function SplitRest(rest: string, current: string, depth: nat): Option<seq<string>> {
    if rest == [] then None
    else
      var c := rest[0];
      if c == '(' then SplitRest(rest[1..], current + [c], depth + 1)
      else if c == ')' && depth > 0 then SplitRest(rest[1..], current + [c], depth - 1)
      else if c == ')' then Some([Trim(current)])
      else if c == ',' && depth == 0 then
        match SplitRest(rest[1..], [], 0)
        case None => None
        case Some(more) => Some([Trim(current)] + more)
      else SplitRest(rest[1..], current + [c], depth)
  }

  function SplitArguments(s: string): Option<seq<string>> {
    if s == [] || s[0] != '(' then None else SplitRest(s[1..], [], 0)
  }

  function Prepend(done: seq<string>, more: Option<seq<string>>): Option<seq<string>> {
    match more
    case None => None
    case Some(rest) => Some(done + rest)
  }

  method SplitList(s: string) returns (r: Option<seq<string>>)
    ensures r == SplitArguments(s)
  {
    if s == [] || s[0] != '(' {
      return None;
    }
    var inner := s[1..];
    var depth, start := 0, 0;
    var arguments: seq<string> := [];
    var i := 0;
    ghost var goal := SplitRest(inner, [], 0);
    ghost var rest, current := inner, [];
    Unprepended(goal);
    while i < |inner|
      invariant 0 <= start <= i <= |inner|
      invariant rest == inner[i..] && current == inner[start..i]
      invariant Prepend(arguments, SplitRest(rest, current, depth)) == goal
    {
      var c := inner[i];
      assert rest[0] == c && rest[1..] == inner[i + 1..] && current + [c] == inner[start..i + 1];
      rest := rest[1..];
      if c == '(' {
        depth, current := depth + 1, current + [c];
      } else if c == ')' && depth > 0 {
        depth, current := depth - 1, current + [c];
      } else if c == ')' {
        return Some(arguments + [Trim(inner[start..i])]);
      } else if c == ',' && depth == 0 {
        Prepended(arguments, Trim(current), SplitRest(rest, [], 0));
        arguments := arguments + [Trim(inner[start..i])];
        start, current := i + 1, [];
      } else {
        current := current + [c];
      }
      i := i + 1;
    }
    r := None;
  }

  lemma {:induction false} Unprepended(more: Option<seq<string>>)
    ensures Prepend([], more) == more
  {
    if more.Some? {
      assert [] + more.value == more.value;
    }
  }

  lemma {:induction false} Prepended(done: seq<string>, next: string, more: Option<seq<string>>)
    ensures Prepend(done, match more case None => None case Some(rest) => Some([next] + rest))
         == Prepend(done + [next], more)
  {
    if more.Some? {
      assert done + ([next] + more.value) == done + [next] + more.value;
    }
  }

  /** The depth after reading `s`, unless a comma or a parenthesis in it would end the argument. */
  function Scan(s: string, depth: nat): Option<nat> {
    if s == [] then Some(depth)
    else if s[0] == '(' then Scan(s[1..], depth + 1)
    else if s[0] == ')' then if depth > 0 then Scan(s[1..], depth - 1) else None
    else if s[0] == ',' && depth == 0 then None
    else Scan(s[1..], depth)
  }

  /** The text of one argument: trimmed, its parentheses balanced, its commas inside them. */
  predicate IsArgument(s: string) {
    Trimmed(s) && Scan(s, 0) == Some(0)
  }

  function JoinArguments(args: seq<string>): string
    requires args != []
  {
    if |args| == 1 then args[0] else args[0] + ", " + JoinArguments(args[1..])
  }

  lemma {:induction false} SplitPast(arg: string, rest: string, current: string, depth: nat)
    requires Scan(arg, depth).Some?
    ensures SplitRest(arg + rest, current, depth) == SplitRest(rest, current + arg, Scan(arg, depth).value)
    decreases |arg|
  {
    if arg == [] {
      assert arg + rest == rest && current + arg == current;
    } else {
      var c := arg[0];
      assert (arg + rest)[0] == c && (arg + rest)[1..] == arg[1..] + rest;
      assert current + [c] + arg[1..] == current + arg;
      var deeper := if c == '(' then depth + 1 else if c == ')' then depth - 1 else depth;
      SplitPast(arg[1..], rest, current + [c], deeper);
    }
  }

  lemma {:induction false} Closes(current: string, tail: string)
    requires tail != [] && tail[0] == ')'
    ensures SplitRest(tail, current, 0) == Some([Trim(current)])
  {
  }

  lemma {:induction false} GoesOn(current: string, rest: string, more: seq<string>)
    requires SplitRest(rest, [], 0) == Some(more)
    ensures SplitRest([','] + rest, current, 0) == Some([Trim(current)] + more)
  {
    assert ([','] + rest)[1..] == rest;
  }

  lemma {:induction false} TrimAfter(space: string, first: string)
    requires (space == [] || space == [' ']) && Trimmed(first)
    ensures Trim(space + first) == first
  {
    TrimOf(first);
    assert [] + first == first;
  }

  lemma {:induction false} SplitLast(space: string, first: string, tail: string)
    requires (space == [] || space == [' ']) && IsArgument(first) && tail != [] && tail[0] == ')'
    ensures SplitRest(space + (first + tail), [], 0) == Some([first])
  {
    SplitFirst(space, first, tail);
    Closes(space + first, tail);
    TrimAfter(space, first);
  }

  lemma {:induction false} SplitMore(space: string, first: string, rest: string, more: seq<string>)
    requires (space == [] || space == [' ']) && IsArgument(first) && SplitRest(rest, [], 0) == Some(more)
    ensures SplitRest(space + (first + ([','] + rest)), [], 0) == Some([first] + more)
  {
    SplitFirst(space, first, [','] + rest);
    GoesOn(space + first, rest, more);
    TrimAfter(space, first);
  }

  lemma {:induction false} SplitOfJoinAfter(args: seq<string>, space: string, tail: string)
    requires args != [] && forall i :: 0 <= i < |args| ==> IsArgument(args[i])
    requires space == [] || space == [' ']
    requires tail != [] && tail[0] == ')'
    ensures SplitRest(space + (JoinArguments(args) + tail), [], 0) == Some(args)
    decreases |args|
  {
    if |args| == 1 {
      SplitLast(space, args[0], tail);
      assert args == [args[0]];
    } else {
      var rest := [' '] + (JoinArguments(args[1..]) + tail);
      SplitOfJoinAfter(args[1..], [' '], tail);
      SplitMore(space, args[0], rest, args[1..]);
      JoinRest(args, tail);
      assert args == [args[0]] + args[1..];
    }
  }

  lemma {:induction false} JoinRest(args: seq<string>, tail: string)
    requires |args| > 1
    ensures JoinArguments(args) + tail == args[0] + ([','] + ([' '] + (JoinArguments(args[1..]) + tail)))
  {
    assert ", " == [','] + [' '];
  }

  /** The first argument is read up to what ends it. */
  lemma {:induction false} SplitFirst(space: string, first: string, after: string)
    requires (space == [] || space == [' ']) && Scan(first, 0) == Some(0)
    ensures SplitRest(space + (first + after), [], 0) == SplitRest(after, space + first, 0)
  {
    assert Scan(space, 0) == Some(0);
    SplitPast(space, first + after, [], 0);
    SplitPast(first, after, [] + space, 0);
    assert [] + space == space;
  }

  /** A list written with its arguments is the list read back, whatever follows it. */
  lemma {:induction false} SplitOfJoin(args: seq<string>, tail: string)
    requires args != [] && forall i :: 0 <= i < |args| ==> IsArgument(args[i])
    requires tail != [] && tail[0] == ')'
    ensures SplitArguments(['('] + (JoinArguments(args) + tail)) == Some(args)
  {
    assert (['('] + (JoinArguments(args) + tail))[1..] == [] + (JoinArguments(args) + tail);
    SplitOfJoinAfter(args, [], tail);
  }

  // ----- tokens and numbers -----

  function Word(s: string): (n: nat)
    ensures n <= |s|
  {
    if s == [] || White(s[0]) then 0 else 1 + Word(s[1..])
  }

  /** `str::split_whitespace`. */
  function Tokens(s: string): seq<string>
    decreases |s|
  {
    if s == [] then []
    else if White(s[0]) then Tokens(s[1..])
    else
      var n := Word(s);
      [s[..n]] + Tokens(s[n..])
  }

  function LastToken(s: string): Option<string> {
    if Tokens(s) == [] then None else Some(Tokens(s)[|Tokens(s)| - 1])
  }

  function AlignmentIn(tokens: seq<string>): nat {
    if tokens == [] then 1
    else if tokens[0] != "align" then AlignmentIn(tokens[1..])
    else if |tokens| == 1 then 1
    else match ParseU64(tokens[1]) case None => 1 case Some(n) => n
  }

  function Alignment(argument: string): nat {
    AlignmentIn(Tokens(argument))
  }

  // ----- one line -----

  datatype Helper = Memset | Memcpy

  datatype Intrinsic = Intrinsic(prefix: string, helper: Helper)

  function Lowerings(): seq<Intrinsic> {
    [Intrinsic("@llvm.memset.", Memset), Intrinsic("@llvm.memcpy.", Memcpy), Intrinsic("@llvm.memmove.", Memcpy)]
  }

  datatype Callee = Callee(at: nat, prefix: string, helper: Helper)

  /** The first of these names that a line holds anywhere. */
  function FindAmong(names: seq<Intrinsic>, line: string): (r: Option<Callee>)
    ensures r.Some? ==> r.value.at + |r.value.prefix| <= |line|
    ensures r.Some? ==> line[r.value.at..r.value.at + |r.value.prefix|] == r.value.prefix
    ensures r.Some? ==> Intrinsic(r.value.prefix, r.value.helper) in names
  {
    if names == [] then None
    else
      match Find(line, names[0].prefix)
      case Some(at) => Some(Callee(at, names[0].prefix, names[0].helper))
      case None => FindAmong(names[1..], line)
  }

  /** The intrinsic a line names. */
  function FindCallee(line: string): Option<Callee> {
    FindAmong(Lowerings(), line)
  }

  /** A call site taken apart, its arguments verbatim. */
  datatype Site = Site(indent: string, helper: Helper, typed: bool, dst: string, second: string, len: string)

  /** The call whose name goes on with `text`. */
  function RecognizeCall(indent: string, helper: Helper, text: string): Option<Site> {
    match Find(text, "(")
    case None => None
    case Some(n) =>
      if !("p0" <= text[..n]) then None
      else
        match SplitArguments(text[n..])
        case None => None
        case Some(args) =>
          if |args| != 4 || !("i64 " <= args[2]) || LastToken(args[3]) != Some("false") then None
          else Some(Site(indent, helper, Find(text[..n], "p0i8").Some?, args[0], args[1], args[2]))
  }

  /** A call's indentation, its helper and its text from the end of the intrinsic's name on. */
  datatype Call = Call(indent: string, helper: Helper, text: string)

  function CallIn(line: string, body: string, callee: Option<Callee>): Option<Call>
    requires |body| <= |line|
  {
    if "declare " <= body || callee.None? then None
    else
      var from := callee.value.at + |callee.value.prefix|;
      if from > |line| then None else Some(Call(line[..|line| - |body|], callee.value.helper, line[from..]))
  }

  function RecognizeIn(call: Option<Call>): Option<Site> {
    match call case None => None case Some(c) => RecognizeCall(c.indent, c.helper, c.text)
  }

  function Recognize(line: string): Option<Site> {
    RecognizeIn(CallIn(line, TrimStart(line), FindCallee(line)))
  }

  function SiteAlignment(site: Site): nat {
    match site.helper
    case Memset => Alignment(site.dst)
    case Memcpy => if Alignment(site.dst) <= Alignment(site.second) then Alignment(site.dst) else Alignment(site.second)
  }

  /** A length known here that llc expands into stores. */
  predicate Expands(site: Site) {
    match LastToken(site.len)
    case None => false
    case Some(token) =>
      match ParseU64(token)
      case None => false
      case Some(n) => FitsBudget(n, SiteAlignment(site))
  }

  /** A site is rewritten unless llc expands it, or it has no fill byte to name. */
  function Decide(found: Option<Site>): Option<Site> {
    match found
    case None => None
    case Some(site) =>
      if Expands(site) || (site.helper.Memset? && LastToken(site.second).None?) then None else Some(site)
  }

  /** The site a line is rewritten for, if it is. */
  function LowerLine(line: string): Option<Site> {
    Decide(Recognize(line))
  }

  predicate AllWhite(s: string) {
    forall i :: 0 <= i < |s| ==> White(s[i])
  }

  lemma {:induction false} TrimStartOf(indent: string, body: string)
    requires AllWhite(indent) && body != [] && !White(body[0])
    ensures TrimStart(indent + body) == body
  {
    if indent == [] {
      assert indent + body == body;
    } else {
      TrimStartOf(indent[1..], body);
      assert (indent + body)[1..] == indent[1..] + body;
    }
  }

  /** An intrinsic call as clang prints it, from the callee's name on. */
  function CallText(suffix: string, args: seq<string>, tail: string): string
    requires args != []
  {
    suffix + (['('] + (JoinArguments(args) + tail))
  }

  predicate IsCall(suffix: string, args: seq<string>, tail: string) {
    && '(' !in suffix && "p0" <= suffix
    && |args| == 4 && (forall i :: 0 <= i < |args| ==> IsArgument(args[i]))
    && "i64 " <= args[2] && LastToken(args[3]) == Some("false")
    && tail != [] && tail[0] == ')'
  }

  lemma {:induction false} CallParts(indent: string, helper: Helper, suffix: string, args: seq<string>, tail: string)
    requires IsCall(suffix, args, tail)
    ensures RecognizeCall(indent, helper, CallText(suffix, args, tail))
         == Some(Site(indent, helper, Find(suffix, "p0i8").Some?, args[0], args[1], args[2]))
  {
    var text, list := CallText(suffix, args, tail), ['('] + (JoinArguments(args) + tail);
    assert Find(text, "(") == Some(|suffix|) by {
      FindFirst(suffix, "(", JoinArguments(args) + tail);
    }
    assert SplitArguments(list) == Some(args) by {
      SplitOfJoin(args, tail);
    }
    assert text[..|suffix|] == suffix && text[|suffix|..] == list;
  }

  lemma {:induction false} LineParts(line: string, indent: string)
    requires AllWhite(indent) && indent < line && !White(line[|indent|])
    ensures TrimStart(line) == line[|indent|..] && line[..|line| - |TrimStart(line)|] == indent
  {
    var body := line[|indent|..];
    assert line == indent + body;
    TrimStartOf(indent, body);
  }

  lemma {:induction false} CallFound(line: string, body: string, callee: Callee, indent: string, text: string)
    requires callee.at + |callee.prefix| <= |line| && line[callee.at + |callee.prefix|..] == text
    requires |body| <= |line| && !("declare " <= body) && line[..|line| - |body|] == indent
    ensures CallIn(line, body, Some(callee)) == Some(Call(indent, callee.helper, text))
  {
  }

  /** The site of a call carries its indentation and its first three arguments verbatim. */
  lemma {:induction false} CallRecognized(line: string, callee: Callee, indent: string, suffix: string,
                                          args: seq<string>, tail: string)
    requires IsCall(suffix, args, tail)
    requires FindCallee(line) == Some(callee) && callee.at + |callee.prefix| <= |line|
    requires line[callee.at + |callee.prefix|..] == CallText(suffix, args, tail)
    requires AllWhite(indent) && indent < line && !White(line[|indent|]) && !("declare " <= line[|indent|..])
    ensures Recognize(line) == Some(Site(indent, callee.helper, Find(suffix, "p0i8").Some?, args[0], args[1], args[2]))
  {
    LineParts(line, indent);
    CallFound(line, TrimStart(line), callee, indent, CallText(suffix, args, tail));
    CallParts(indent, callee.helper, suffix, args, tail);
  }

  // ----- what a site becomes -----

  function Number(serial: nat): string {
    "%synch.cc." + Decimal(serial)
  }

  /** The value that holds the call's result. */
  function ResultName(site: Site, serial: nat): string {
    Number(serial) + if site.helper.Memset? then ".set" else ".cpy"
  }

  /** A fill byte that is not a constant is widened by an instruction of its own. */
  predicate Widens(site: Site) {
    site.helper.Memset? && LastToken(site.second).Some? && ParseI64(LastToken(site.second).value).None?
  }

  function Pointer(typed: bool): string {
    if typed then "i8*" else "ptr"
  }

  function Symbol(helper: Helper): string {
    if helper.Memset? then "sy_memset" else "sy_memcpy"
  }

  function FillByte(site: Site): string {
    match LastToken(site.second) case None => "" case Some(t) => t
  }

  /** The second argument of the helper: the source as it was, or the fill byte as an `i32`. */
  function SecondArgument(site: Site, serial: nat): string {
    match site.helper
    case Memcpy => site.second
    case Memset => "i32 " + match ParseI64(FillByte(site)) case Some(v) => Decimal(v % 256) case None => Number(serial)
  }

  /** What a line does with the value it defines. */
  function Definition(site: Site, name: string, action: string): string {
    site.indent + (name + (" = " + action))
  }

  function Widening(site: Site): string {
    "zext i8 " + FillByte(site) + " to i32"
  }

  function ArgumentList(site: Site, serial: nat): string {
    ['('] + (JoinArguments([site.dst, SecondArgument(site, serial), site.len]) + [')'])
  }

  function CallHead(typed: bool): string {
    "call " + Pointer(typed) + " "
  }

  function Global(helper: Helper): string {
    "@" + Symbol(helper)
  }

  function HelperCall(site: Site, serial: nat): string {
    CallHead(site.typed) + (Global(site.helper) + ArgumentList(site, serial))
  }

  /** The text a line is replaced by: two lines when the fill byte has to be widened first. */
  function Rewritten(site: Site, serial: nat): string {
    (if Widens(site) then Definition(site, Number(serial), Widening(site)) + ['\n'] else [])
    + Definition(site, ResultName(site, serial), HelperCall(site, serial))
  }

  // ----- the module -----

  /** What a line becomes, with the helper it now calls and the pointer spelling it uses. */
  datatype Lowered = Lowered(text: string, helper: Helper, typed: bool)

  type Lowerer = (string, nat) -> Option<Lowered>

  /** How many lines are rewritten: the number of the next. */
  function Count(lower: Lowerer, lines: seq<string>): nat {
    if lines == [] then 0
    else
      var n := Count(lower, lines[..|lines| - 1]);
      if lower(lines[|lines| - 1], n).Some? then n + 1 else n
  }

  /** What the last line becomes, numbered after those before it. */
  function LowerLast(lower: Lowerer, lines: seq<string>): Option<Lowered>
    requires lines != []
  {
    lower(lines[|lines| - 1], Count(lower, lines[..|lines| - 1]))
  }

  /** Every line of the output is rewritten, or kept byte for byte. */
  function Output(lower: Lowerer, lines: seq<string>): string {
    if lines == [] then []
    else
      var line := match LowerLast(lower, lines) case None => lines[|lines| - 1] case Some(l) => l.text;
      Output(lower, lines[..|lines| - 1]) + line + ['\n']
  }

  predicate Calls(lower: Lowerer, lines: seq<string>, helper: Helper) {
    lines != [] && (Calls(lower, lines[..|lines| - 1], helper)
                    || (LowerLast(lower, lines).Some? && LowerLast(lower, lines).value.helper == helper))
  }

  predicate TypedPointers(lower: Lowerer, lines: seq<string>) {
    lines != [] && (TypedPointers(lower, lines[..|lines| - 1])
                    || (LowerLast(lower, lines).Some? && LowerLast(lower, lines).value.typed))
  }

  predicate Declares(line: string, symbol: string) {
    var body := TrimStart(line);
    ("declare " <= body || "define " <= body) && Find(body, "@" + symbol + "(").Some?
  }

  predicate ModuleNames(lines: seq<string>, symbol: string) {
    exists i :: 0 <= i < |lines| && Declares(lines[i], symbol)
  }

  /** What is appended: a remark, and the declarations the rewritten calls need and the module does not make. */
  datatype Appendix = Appendix(note: seq<string>, symbol: Helper -> string, declare: (Helper, bool) -> string)

  function Declaration(a: Appendix, lines: seq<string>, helper: Helper, typed: bool): string {
    if ModuleNames(lines, a.symbol(helper)) then [] else a.declare(helper, typed) + ['\n']
  }

  function Trailer(lower: Lowerer, a: Appendix, lines: seq<string>): string {
    var typed := TypedPointers(lower, lines);
    if !Calls(lower, lines, Memset) && !Calls(lower, lines, Memcpy) then []
    else
      Unlines(a.note)
      + (if Calls(lower, lines, Memset) then Declaration(a, lines, Memset, typed) else [])
      + (if Calls(lower, lines, Memcpy) then Declaration(a, lines, Memcpy, typed) else [])
  }

  lemma {:induction false} OutputNext(lower: Lowerer, lines: seq<string>, i: nat, text: string)
    requires i < |lines|
    requires text == match lower(lines[i], Count(lower, lines[..i])) case None => lines[i] case Some(l) => l.text
    ensures Output(lower, lines[..i + 1]) == Output(lower, lines[..i]) + text + ['\n']
  {
    assert lines[..i + 1][..i] == lines[..i] && lines[..i + 1][i] == lines[i];
  }

  method LowerBody(lower: Lowerer, lines: seq<string>)
    returns (out: string, typedPointers: bool, helpersCalled: seq<Helper>)
    ensures out == Output(lower, lines) && typedPointers == TypedPointers(lower, lines)
    ensures forall h :: h in helpersCalled <==> Calls(lower, lines, h)
  {
    out, typedPointers, helpersCalled := [], false, [];
    var serial := 0;
    for i := 0 to |lines|
      invariant out == Output(lower, lines[..i]) && serial == Count(lower, lines[..i])
      invariant typedPointers == TypedPointers(lower, lines[..i])
      invariant forall h :: h in helpersCalled <==> Calls(lower, lines[..i], h)
    {
      assert lines[..i + 1][..i] == lines[..i] && lines[..i + 1][i] == lines[i];
      match lower(lines[i], serial) {
        case Some(l) =>
          OutputNext(lower, lines, i, l.text);
          typedPointers := typedPointers || l.typed;
          if l.helper !in helpersCalled {
            helpersCalled := helpersCalled + [l.helper];
          }
          out := out + l.text;
          serial := serial + 1;
        case None =>
          OutputNext(lower, lines, i, lines[i]);
          out := out + lines[i];
      }
      out := out + ['\n'];
    }
    assert lines[..|lines|] == lines;
  }

  lemma {:induction false} Chained(a: string, b: string, c: string, d: string)
    ensures a + b + c + d == a + (b + c + d)
  {
  }

  method LowerLines(lower: Lowerer, a: Appendix, lines: seq<string>) returns (out: string)
    ensures out == Output(lower, lines) + Trailer(lower, a, lines)
  {
    var typedPointers, helpersCalled;
    out, typedPointers, helpersCalled := LowerBody(lower, lines);
    ghost var body := out;
    if helpersCalled == [] {
      assert out + [] == out;
      return;
    }
    assert Calls(lower, lines, helpersCalled[0]) && (helpersCalled[0] == Memset || helpersCalled[0] == Memcpy);
    var forSet, forCopy := [], [];
    if Memset in helpersCalled && !ModuleNames(lines, a.symbol(Memset)) {
      forSet := a.declare(Memset, typedPointers) + ['\n'];
    }
    if Memcpy in helpersCalled && !ModuleNames(lines, a.symbol(Memcpy)) {
      forCopy := a.declare(Memcpy, typedPointers) + ['\n'];
    }
    assert forSet == if Calls(lower, lines, Memset) then Declaration(a, lines, Memset, typedPointers) else [];
    assert forCopy == if Calls(lower, lines, Memcpy) then Declaration(a, lines, Memcpy, typedPointers) else [];
    assert Trailer(lower, a, lines) == Unlines(a.note) + forSet + forCopy;
    out := out + Unlines(a.note) + forSet + forCopy;
    Chained(body, Unlines(a.note), forSet, forCopy);
  }

  /** `lower_line`: the text for a site carries the site's number. */
  function LowerOne(line: string, serial: nat): Option<Lowered> {
    match LowerLine(line)
    case None => None
    case Some(site) => Some(Lowered(Rewritten(site, serial), site.helper, site.typed))
  }

  function DeclareHead(typed: bool): string {
    "declare " + Pointer(typed) + " "
  }

  function DeclareTail(helper: Helper, typed: bool): string {
    Pointer(typed) + (if helper.Memset? then ", i32, i64)" else ", " + Pointer(typed) + ", i64)")
  }

  function DeclareLine(helper: Helper, typed: bool): string {
    DeclareHead(typed) + (("@" + Symbol(helper) + "(") + DeclareTail(helper, typed))
  }

  function Note(): seq<string> {
    [[],
     "; Appended by synch-cc:" + " the BPF backend cannot" + " emit the libc call a",
     "; large memory intrinsic" + " becomes, so those calls" + " were rewritten to the",
     "; host helpers the SDK's" + " own memset and memcpy" + " forward to."]
  }

  function Standard(): Appendix {
    Appendix(Note(), Symbol, DeclareLine)
  }

  /** The whole pass. */
  function LoweredText(ir: string): string {
    Output(LowerOne, Lines(ir)) + Trailer(LowerOne, Standard(), Lines(ir))
  }

  method LowerMemIntrinsics(ir: string) returns (out: string)
    ensures out == LoweredText(ir)
  {
    out := LowerLines(LowerOne, Standard(), Lines(ir));
  }
}
