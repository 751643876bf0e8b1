/**
 * Which memory intrinsics are rewritten, and to what text: for calls as clang prints them, the decision is whether llc
 * can expand the length into at most 128 stores, and the text is written out.
 */
module LoweringBudget {
  import opened Bytes
  import opened Numerals
  import opened Strings
  import opened Budget
  import opened Lowering
  import opened LoweringProof
  import Relowering

  // ----- an argument as its words -----

  /** Words with a space between each two. */
  function Spaced(ws: seq<string>): string
    requires ws != []
  {
    if |ws| == 1 then ws[0] else ws[0] + ([' '] + Spaced(ws[1..]))
  }

  predicate AllSolid(ws: seq<string>) {
    forall i :: 0 <= i < |ws| ==> Solid(ws[i])
  }

  lemma {:induction false} TokensFirst(a: string, rest: string)
    requires Solid(a)
    ensures Tokens(a + ([' '] + rest)) == [a] + Tokens(rest) && Tokens(a) == [a]
  {
    var s := a + ([' '] + rest);
    WordSolid(a, [' '] + rest);
    assert s[..|a|] == a && s[|a|..] == [' '] + rest && ([' '] + rest)[1..] == rest;
    assert Tokens([' '] + rest) == Tokens(rest);
    WordSolid(a, []);
    assert a + [] == a && a[..|a|] == a && a[|a|..] == [];
  }

  lemma {:induction false} TokensSpaced(ws: seq<string>)
    requires ws != [] && AllSolid(ws)
    ensures Tokens(Spaced(ws)) == ws
  {
    if |ws| == 1 {
      TokensFirst(ws[0], []);
      assert ws == [ws[0]];
    } else {
      TokensFirst(ws[0], Spaced(ws[1..]));
      TokensSpaced(ws[1..]);
      assert ws == [ws[0]] + ws[1..];
    }
  }

  // ----- alignment and length -----

  lemma {:induction false} DecimalParses(n: nat)
    requires n < 0x1_0000_0000_0000_0000
    ensures ParseU64(Decimal(n)) == Some(n) && Solid(Decimal(n))
  {
    var d := Decimal(n);
    DecimalRoundTrip(n);
    assert IsDigit(d[0]) && !IsDigit('+');
    assert Unsigned(d) == d;
    forall i | 0 <= i < |d|
      ensures !White(d[i])
    {
      assert IsDigit(d[i]);
    }
  }

  /** The words give the alignment `a`: it follows the first `align`, and is 1 where there is none. */
  ghost predicate AlignedBy(ws: seq<string>, a: nat) {
    || ("align" !in ws && a == 1)
    || (a < 0x1_0000_0000_0000_0000 && exists i :: AlignAt(ws, a, i))
  }

  predicate AlignAt(ws: seq<string>, a: nat, i: nat) {
    i + 1 < |ws| && ws[i] == "align" && "align" !in ws[..i] && ws[i + 1] == Decimal(a)
  }

  lemma {:induction false} AlignmentAt(ws: seq<string>, a: nat, i: nat)
    requires AlignAt(ws, a, i) && a < 0x1_0000_0000_0000_0000
    ensures AlignmentIn(ws) == a
  {
    if i == 0 {
      DecimalParses(a);
    } else {
      assert ws[0] == ws[..i][0] && ws[0] != "align";
      assert ws[1..][..i - 1] == ws[..i][1..];
      AlignmentAt(ws[1..], a, i - 1);
    }
  }

  lemma {:induction false} AlignmentAbsent(ws: seq<string>)
    requires "align" !in ws
    ensures AlignmentIn(ws) == 1
  {
    if ws != [] {
      AlignmentAbsent(ws[1..]);
    }
  }

  lemma {:induction false} AlignmentIs(ws: seq<string>, a: nat)
    requires ws != [] && AllSolid(ws) && AlignedBy(ws, a)
    ensures Alignment(Spaced(ws)) == a
  {
    TokensSpaced(ws);
    if "align" !in ws && a == 1 {
      AlignmentAbsent(ws);
    } else {
      var i :| AlignAt(ws, a, i);
      AlignmentAt(ws, a, i);
    }
  }

  // ----- the decision -----

  /** The widest store for an alignment: the power of two it is, up to eight bytes, and else one byte. */
  predicate WidestStore(a: nat, w: nat) {
    if a == 1 || a == 2 || a == 4 || a == 8 then w == a
    else if PowerOfTwo(a) then w == 8
    else w == 1
  }

  lemma {:induction false} WidestIs(a: nat, w: nat)
    requires WidestStore(a, w)
    ensures Width(a) == w && PowerOfTwo(w)
  {
    WidthIsPower(a);
    if a < 8 {
      SmallPowers(a);
    }
  }

  lemma {:induction false} SmallPowers(a: nat)
    requires a < 8
    ensures PowerOfTwo(a) <==> a == 1 || a == 2 || a == 4
  {
    assert PowerOfTwo(2) && PowerOfTwo(4);
    assert !PowerOfTwo(3) && !PowerOfTwo(5) && !PowerOfTwo(7) && !PowerOfTwo(0);
  }

  /** Stores of at most `w` bytes that make up `n`, no more than 128 of them. */
  ghost predicate Expandable(n: nat, w: nat) {
    exists sizes :: Expansion(sizes, w) && Sum(sizes) == n && |sizes| <= 128
  }

  lemma {:induction false} FitsIff(n: nat, a: nat, w: nat)
    requires WidestStore(a, w)
    ensures FitsBudget(n, a) <==> Expandable(n, w)
  {
    WidestIs(a, w);
    if FitsBudget(n, a) {
      var sizes := StoresAreEnough(n, w);
    }
    if sizes :| Expansion(sizes, w) && Sum(sizes) == n && |sizes| <= 128 {
      StoresAreFewest(sizes, w);
    }
  }

  /** The alignment the decision goes by: that of the destination, and for a copy the lesser of the two. */
  ghost predicate SiteAligned(helper: Helper, dst: seq<string>, second: seq<string>, a: nat) {
    match helper
    case Memset => AlignedBy(dst, a)
    case Memcpy =>
      exists x: nat, y: nat :: AlignedBy(dst, x) && AlignedBy(second, y) && a == if x <= y then x else y
  }

  predicate Worded(dst: seq<string>, second: seq<string>) {
    dst != [] && AllSolid(dst) && second != [] && AllSolid(second)
  }

  function SiteOf(indent: string, helper: Helper, typed: bool, dst: seq<string>, second: seq<string>, len: string): Site
    requires dst != [] && second != []
  {
    Site(indent, helper, typed, Spaced(dst), Spaced(second), "i64" + ([' '] + len))
  }

  lemma {:induction false} AlignmentOfSite(site: Site, dst: seq<string>, second: seq<string>, a: nat)
    requires Worded(dst, second) && site.dst == Spaced(dst) && site.second == Spaced(second)
    requires SiteAligned(site.helper, dst, second, a)
    ensures SiteAlignment(site) == a
  {
    if site.helper.Memset? {
      AlignmentIs(dst, a);
    } else {
      var x: nat, y: nat :| AlignedBy(dst, x) && AlignedBy(second, y) && a == if x <= y then x else y;
      AlignmentIs(dst, x);
      AlignmentIs(second, y);
    }
  }

  lemma {:induction false} LastOfSpaced(ws: seq<string>)
    requires ws != [] && AllSolid(ws)
    ensures LastToken(Spaced(ws)) == Some(ws[|ws| - 1])
  {
    TokensSpaced(ws);
  }

  /** A length known here is left to llc exactly when llc can expand it. */
  lemma {:induction false} DecidedByBudget(
    site: Site, dst: seq<string>, second: seq<string>, n: nat, a: nat, w: nat)
    requires Worded(dst, second) && n < 0x1_0000_0000_0000_0000
    requires site == SiteOf(site.indent, site.helper, site.typed, dst, second, Decimal(n))
    requires SiteAligned(site.helper, dst, second, a) && WidestStore(a, w)
    ensures Decide(Some(site)) == if Expandable(n, w) then None else Some(site)
  {
    AlignmentOfSite(site, dst, second, a);
    DecimalParses(n);
    LastTokenOf("i64", Decimal(n));
    LastOfSpaced(second);
    FitsIff(n, a, w);
  }


  /** Any other length is the host's. */
  lemma {:induction false} DecidedUnknown(site: Site, dst: seq<string>, second: seq<string>, len: string)
    requires Worded(dst, second) && Solid(len) && !(AllDigits(len) || (len[0] == '+' && AllDigits(len[1..])))
    requires site == SiteOf(site.indent, site.helper, site.typed, dst, second, len)
    ensures Decide(Some(site)) == Some(site)
  {
    LastTokenOf("i64", len);
    LastOfSpaced(second);
    assert ParseU64(len) == None;
  }

  // ----- a line as clang prints it -----

  /** The names of the intrinsics, and the helper each goes to. */
  predicate Named(name: string, helper: Helper) {
    || (name == "@llvm.memset." && helper == Memset)
    || (name == "@llvm.memcpy." && helper == Memcpy)
    || (name == "@llvm.memmove." && helper == Memcpy)
  }

  predicate NamesNone(s: string) {
    Find(s, "@llvm.memset.").None? && Find(s, "@llvm.memcpy.").None? && Find(s, "@llvm.memmove.").None?
  }

  lemma {:induction false} OtherName(name: string, rest: string, other: string)
    requires |name| == 13 || |name| == 14
    requires IsPrefix(name) && '@' !in name[1..] && IsPrefix(other) && Find(rest, other).None?
    requires name[..12] != other[..12]
    ensures Find(name + rest, other) == None
  {
    var s := name + rest;
    assert s[1..] == name[1..] + rest;
    if |other| <= |s| {
      assert s[..12] == name[..12] && s[..|other|][..12] == s[..12];
    }
    FindPast(name[1..], rest, other);
  }

  lemma {:induction false} NameFacts()
    ensures "@llvm.memset."[..12] == "@llvm.memset" && "@llvm.memcpy."[..12] == "@llvm.memcpy"
    ensures "@llvm.memmove."[..12] == "@llvm.memmov"
    ensures '@' !in "@llvm.memset."[1..] && '@' !in "@llvm.memcpy."[1..] && '@' !in "@llvm.memmove."[1..]
  {
  }

  lemma {:induction false} AmongAt(names: seq<Intrinsic>, s: string, k: nat, at: nat)
    requires k < |names| && Find(s, names[k].prefix) == Some(at)
    requires forall j :: 0 <= j < k ==> Find(s, names[j].prefix).None?
    ensures FindAmong(names, s) == Some(Callee(at, names[k].prefix, names[k].helper))
  {
    if k > 0 {
      assert Find(s, names[0].prefix).None?;
      AmongAt(names[1..], s, k - 1, at);
    }
  }

  lemma {:induction false} AmongStart(names: seq<Intrinsic>, rest: string, k: nat)
    requires Prefixes(names) && k < |names| && (|names[k].prefix| == 13 || |names[k].prefix| == 14)
    requires '@' !in names[k].prefix[1..]
    requires forall j :: 0 <= j < k ==>
               Find(rest, names[j].prefix).None? && names[j].prefix[..12] != names[k].prefix[..12]
    ensures FindAmong(names, names[k].prefix + rest) == Some(Callee(0, names[k].prefix, names[k].helper))
  {
    var name := names[k].prefix;
    var s := name + rest;
    assert s[..|name|] == name;
    forall j | 0 <= j < k
      ensures Find(s, names[j].prefix).None?
    {
      OtherName(name, rest, names[j].prefix);
    }
    AmongAt(names, s, k, 0);
  }

  lemma {:induction false} NameFound(name: string, helper: Helper, rest: string)
    requires Named(name, helper) && NamesNone(rest)
    ensures FindCallee(name + rest) == Some(Callee(0, name, helper))
  {
    var names := Lowerings();
    var k := if name == names[0].prefix then 0 else if name == names[1].prefix then 1 else 2;
    LoweringsPrefixes();
    NameFacts();
    assert names[k].prefix == name && names[k].helper == helper;
    AmongStart(names, rest, k);
  }

  /** One call: what stands before the intrinsic's name, the name, the rest of it, the arguments and what follows. */
  function PrintedLine(indent: string, before: string, name: string, suffix: string, args: seq<string>,
                       tail: string): string
    requires args != []
  {
    indent + (before + (name + CallText(suffix, args, tail)))
  }

  predicate Printed(indent: string, before: string, name: string, helper: Helper, suffix: string, args: seq<string>,
                    tail: string) {
    && AllWhite(indent) && before != [] && !White(before[0]) && '@' !in before && !("declare " <= before + name)
    && Named(name, helper) && IsCall(suffix, args, tail) && NamesNone(CallText(suffix, args, tail))
  }

  lemma {:induction false} NotDeclared(before: string, name: string, text: string)
    requires |name| >= 8 && !("declare " <= before + name)
    ensures !("declare " <= before + (name + text))
  {
    var d, s := before + name, before + (name + text);
    assert s == d + text;
    assert d[..8] == s[..8];
  }

  lemma {:induction false} PrintedParts(line: string, indent: string, before: string, name: string, text: string)
    requires line == indent + (before + (name + text)) && before != []
    ensures indent < line && line[|indent|] == before[0] && line[|indent|..] == before + (name + text)
    ensures line == (indent + before) + (name + text) && line[|indent| + |before| + |name|..] == text
  {
    var rest := before + (name + text);
    assert line[..|indent|] == indent;
    Associates(indent, before, name + text);
    Associates(indent + before, name, text);
    var head := indent + before + name;
    assert line == head + text && line[|head|..] == text;
  }

  lemma {:induction false} PrintedCallee(front: string, name: string, helper: Helper, text: string)
    requires '@' !in front && Named(name, helper) && NamesNone(text)
    ensures FindCallee(front + (name + text)) == Some(Callee(|front|, name, helper))
  {
    NameFound(name, helper, text);
    LoweringsPrefixes();
    Relowering.CalleePast(Lowerings(), front, name + text);
  }

  /** A printed call is taken apart into its indentation, helper, pointer spelling and first three arguments. */
  lemma {:induction false} PrintedRecognized(
    indent: string, before: string, name: string, helper: Helper, suffix: string, args: seq<string>, tail: string)
    requires Printed(indent, before, name, helper, suffix, args, tail)
    ensures Recognize(PrintedLine(indent, before, name, suffix, args, tail))
         == Some(Site(indent, helper, Find(suffix, "p0i8").Some?, args[0], args[1], args[2]))
  {
    var text := CallText(suffix, args, tail);
    var line := PrintedLine(indent, before, name, suffix, args, tail);
    var callee := Callee(|indent| + |before|, name, helper);
    PrintedParts(line, indent, before, name, text);
    assert '@' !in indent + before;
    PrintedCallee(indent + before, name, helper, text);
    assert |name| >= 8;
    NotDeclared(before, name, text);
    CallRecognized(line, callee, indent, suffix, args, tail);
  }

  /** `text` goes on from an intrinsic's name as a call of four arguments, the third an `i64` and the last `false`. */
  predicate GoesOn(text: string, m: nat, args: seq<string>) {
    && m < |text| && text[m] == '(' && '(' !in text[..m] && "p0" <= text[..m]
    && SplitArguments(text[m..]) == Some(args)
    && |args| == 4 && "i64 " <= args[2] && LastToken(args[3]) == Some("false")
  }

  /** Nothing else is taken for a call: no declaration, no other name, no volatile one. */
  lemma {:induction false} RecognizedOnly(line: string)
      returns (at: nat, name: string, helper: Helper, m: nat, args: seq<string>)
    requires Recognize(line).Some?
    ensures Named(name, helper) && !("declare " <= TrimStart(line))
    ensures at + |name| <= |line| && line[at..at + |name|] == name && GoesOn(line[at + |name|..], m, args)
    ensures Recognize(line).value
         == Site(line[..|line| - |TrimStart(line)|], helper, Find(line[at + |name|..][..m], "p0i8").Some?,
                 args[0], args[1], args[2])
  {
    var callee := FindCallee(line).value;
    at, name, helper := callee.at, callee.prefix, callee.helper;
    NamedIn(name, helper);
    var indent, text := line[..|line| - |TrimStart(line)|], line[at + |name|..];
    assert CallIn(line, TrimStart(line), Some(callee)) == Some(Call(indent, helper, text));
    m, args := CallOnly(indent, helper, text);
  }

  lemma {:induction false} CallOnly(indent: string, helper: Helper, text: string) returns (m: nat, args: seq<string>)
    requires RecognizeCall(indent, helper, text).Some?
    ensures GoesOn(text, m, args)
    ensures RecognizeCall(indent, helper, text).value
         == Site(indent, helper, Find(text[..m], "p0i8").Some?, args[0], args[1], args[2])
  {
    m := Find(text, "(").value;
    args := SplitArguments(text[m..]).value;
    FindChar(text, '(');
  }

  lemma {:induction false} NamedIn(name: string, helper: Helper)
    requires Intrinsic(name, helper) in Lowerings()
    ensures Named(name, helper)
  {
  }

  /**
   * A printed call with a numeral for its length stays exactly when llc can expand it: into at most 128 stores, none
   * wider than the alignment its pointers promise.
   */
  lemma {:induction false} KeptIff(
    indent: string, before: string, name: string, helper: Helper, suffix: string, args: seq<string>, tail: string,
    dst: seq<string>, second: seq<string>, n: nat, a: nat, w: nat)
    requires Printed(indent, before, name, helper, suffix, args, tail)
    requires Worded(dst, second) && n < 0x1_0000_0000_0000_0000
    requires args[0] == Spaced(dst) && args[1] == Spaced(second) && args[2] == "i64" + ([' '] + Decimal(n))
    requires SiteAligned(helper, dst, second, a) && WidestStore(a, w)
    ensures LowerLine(PrintedLine(indent, before, name, suffix, args, tail)).None? <==> Expandable(n, w)
  {
    PrintedRecognized(indent, before, name, helper, suffix, args, tail);
    var site := Site(indent, helper, Find(suffix, "p0i8").Some?, args[0], args[1], args[2]);
    DecidedByBudget(site, dst, second, n, a, w);
  }

  /** With a length only known at run time it never stays. */
  lemma {:induction false} UnknownRewritten(
    indent: string, before: string, name: string, helper: Helper, suffix: string, args: seq<string>, tail: string,
    dst: seq<string>, second: seq<string>, len: string)
    requires Printed(indent, before, name, helper, suffix, args, tail)
    requires Worded(dst, second) && Solid(len) && !(AllDigits(len) || (len[0] == '+' && AllDigits(len[1..])))
    requires args[0] == Spaced(dst) && args[1] == Spaced(second) && args[2] == "i64" + ([' '] + len)
    ensures LowerLine(PrintedLine(indent, before, name, suffix, args, tail)).Some?
  {
    PrintedRecognized(indent, before, name, helper, suffix, args, tail);
    var site := Site(indent, helper, Find(suffix, "p0i8").Some?, args[0], args[1], args[2]);
    DecidedUnknown(site, dst, second, len);
  }

  // ----- the text it becomes -----

  /** A copy becomes one line, with its arguments as they were. */
  lemma {:induction false} CopyText(site: Site, k: nat)
    requires site.helper == Memcpy
    ensures Rewritten(site, k)
         == site.indent
            + (("%synch.cc." + Decimal(k) + ".cpy")
               + (" = "
                  + (("call " + (if site.typed then "i8*" else "ptr") + " ")
                     + ("@sy_memcpy" + (['('] + ((site.dst + ", " + (site.second + ", " + site.len)) + [')']))))))
  {
    JoinThree(site.dst, site.second, site.len);
    assert "@" + "sy_memcpy" == "@sy_memcpy";
  }

  function Signed(v: int): string {
    if v < 0 then ['-'] + Decimal(-v) else Decimal(v)
  }

  lemma {:induction false} SignedParses(v: int)
    requires -0x8000_0000_0000_0000 <= v < 0x8000_0000_0000_0000
    ensures ParseI64(Signed(v)) == Some(v)
  {
    var d := Decimal(if v < 0 then -v else v);
    DecimalRoundTrip(if v < 0 then -v else v);
    assert IsDigit(d[0]) && !IsDigit('+') && !IsDigit('-');
    if v < 0 {
      assert Signed(v)[1..] == d;
    } else {
      assert Unsigned(d) == d;
    }
  }

  /** The line of a fill: the pointer, the byte as an `i32`, and the length. */
  function SetLine(site: Site, k: nat, fill: string): string {
    site.indent
    + (("%synch.cc." + Decimal(k) + ".set")
       + (" = "
          + (("call " + (if site.typed then "i8*" else "ptr") + " ")
             + ("@sy_memset" + (['('] + ((site.dst + ", " + (("i32 " + fill) + ", " + site.len)) + [')']))))))
  }

  /** A fill with a constant becomes one line, the constant taken modulo 256. */
  lemma {:induction false} ConstantSetText(site: Site, k: nat, second: seq<string>, v: int, b: nat)
    requires site.helper == Memset && second != [] && AllSolid(second) && site.second == Spaced(second)
    requires second[|second| - 1] == Signed(v) && -0x8000_0000_0000_0000 <= v < 0x8000_0000_0000_0000
    requires b < 256 && (v - b) % 256 == 0
    ensures Rewritten(site, k) == SetLine(site, k, Decimal(b))
  {
    LastOfSpaced(second);
    SignedParses(v);
    Remainder(v, b);
    SetCall(site, k, Decimal(b));
    var line := SetLine(site, k, Decimal(b));
    assert [] + line == line;
  }

  lemma {:induction false} Remainder(v: int, b: nat)
    requires b < 256 && (v - b) % 256 == 0
    ensures v % 256 == b
  {
  }

  lemma {:induction false} SetCall(site: Site, k: nat, fill: string)
    requires site.helper == Memset && SecondArgument(site, k) == "i32 " + fill
    ensures Definition(site, ResultName(site, k), HelperCall(site, k)) == SetLine(site, k, fill)
  {
    JoinThree(site.dst, "i32 " + fill, site.len);
    assert "@" + "sy_memset" == "@sy_memset";
  }

  /** A fill with a value becomes two: the value widened, and the fill with that. */
  lemma {:induction false} ValueSetText(site: Site, k: nat, second: seq<string>, value: string)
    requires site.helper == Memset && second != [] && AllSolid(second) && site.second == Spaced(second)
    requires second[|second| - 1] == value && value[0] == '%'
    ensures Rewritten(site, k)
         == (site.indent + (("%synch.cc." + Decimal(k)) + (" = " + ("zext i8 " + value + " to i32"))) + ['\n'])
            + SetLine(site, k, "%synch.cc." + Decimal(k))
  {
    LastOfSpaced(second);
    assert !IsDigit('%') && Unsigned(value) == value;
    assert ParseI64(value) == None;
    SetCall(site, k, "%synch.cc." + Decimal(k));
  }
}
