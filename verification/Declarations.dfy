/**
 * A socket program's declaration and the text an approval is stored as (`crates/synch-core/src/sock.rs`). The three
 * families of capabilities are parameters, each with its id and its JSON codec.
 */
module Declarations {
  import opened Words
  import opened Bytes
  import opened Numerals
  import opened Strings
  import opened Sorting

  const MAX_VALUE_BYTES := 4096
  const MAX_EGRESS := 32
  const MAX_CAPABILITIES := 16

  datatype Declaration<P, F, T> = Declaration(
    name: string, egress: seq<string>, processes: seq<P>, transfers: seq<F>, writes: seq<T>,
    maxStreams: Option<u32>, stackFrameSize: Option<u32>, guarded: Option<bool>)

  function Default<P, F, T>(): Declaration<P, F, T> {
    Declaration([], [], [], [], [], None, None, None)
  }

  datatype Json<!C> = Json(id: C -> nat, encode: C -> string, decode: string -> Option<C>)

  datatype Codec<!P, !F, !T> = Codec(process: Json<P>, transfer: Json<F>, write: Json<T>)

  // ----- safe text -----

  predicate IsControl(c: char) {
    (c as int) < 0x20 || 0x7F <= (c as int) <= 0x9F
  }

  /** No control characters and no directional formatting. */
  predicate SafeChar(c: char) {
    var n := c as int;
    && !IsControl(c)
    && n != 0x61C && n != 0x200E && n != 0x200F && n != 0x2028 && n != 0x2029
    && !(0x202A <= n <= 0x202E) && !(0x2066 <= n <= 0x2069)
  }

  predicate AllSafe(s: string) {
    forall i :: 0 <= i < |s| ==> SafeChar(s[i])
  }

  function Utf8Length(s: string): nat {
    if s == [] then 0
    else
      var n := s[|s| - 1] as int;
      Utf8Length(s[..|s| - 1]) + if n < 0x80 then 1 else if n < 0x800 then 2 else if n < 0x1_0000 then 3 else 4
  }

  predicate SafeText(s: string) {
    Utf8Length(s) <= MAX_VALUE_BYTES && AllSafe(s)
  }

  function HexDigit(d: nat): char
    requires d < 16
  {
    "0123456789abcdef"[d]
  }

  function Hex(n: nat): string {
    if n < 16 then [HexDigit(n)] else Hex(n / 16) + [HexDigit(n % 16)]
  }

  /** `char::escape_default` for a character that is not safe. */
  function EscapeChar(c: char): string {
    if c == '\t' then ['\\', 't'] else if c == '\r' then ['\\', 'r'] else if c == '\n' then ['\\', 'n']
    else ['\\', 'u', '{'] + Hex(c as int) + ['}']
  }

  function Escape(s: string): string {
    if s == [] then []
    else
      var c := s[|s| - 1];
      Escape(s[..|s| - 1]) + if SafeChar(c) then [c] else EscapeChar(c)
  }

  lemma {:induction false} HexSafe(n: nat)
    ensures AllSafe(Hex(n))
  {
    if n >= 16 {
      HexSafe(n / 16);
    }
  }

  lemma {:induction false} EscapeSafe(s: string)
    ensures AllSafe(Escape(s))
  {
    if s != [] {
      var c := s[|s| - 1];
      EscapeSafe(s[..|s| - 1]);
      HexSafe(c as int);
      assert AllSafe(if SafeChar(c) then [c] else EscapeChar(c));
    }
  }

  lemma {:induction false} EscapeOfSafe(s: string)
    requires AllSafe(s)
    ensures Escape(s) == s
  {
    if s != [] {
      EscapeOfSafe(s[..|s| - 1]);
      assert s == s[..|s| - 1] + [s[|s| - 1]];
    }
  }

  // ----- directives -----

  datatype Kind = Name | Egress | Process | Transfer | Write | Streams | Frame | Guard

  function Word(k: Kind): string {
    match k
    case Name => "name"
    case Egress => "egress"
    case Process => "process"
    case Transfer => "file-transfer"
    case Write => "tree-write"
    case Streams => "max-streams"
    case Frame => "stack-frame-size"
    case Guard => "guarded-stack-frames"
  }

  function KindOf(w: string): Option<Kind> {
    if w == "name" then Some(Name)
    else if w == "egress" then Some(Egress)
    else if w == "process" then Some(Process)
    else if w == "file-transfer" then Some(Transfer)
    else if w == "tree-write" then Some(Write)
    else if w == "max-streams" then Some(Streams)
    else if w == "stack-frame-size" then Some(Frame)
    else if w == "guarded-stack-frames" then Some(Guard)
    else None
  }

  lemma {:induction false} KindOfWord(k: Kind)
    ensures KindOf(Word(k)) == Some(k)
  {
    assert |Word(k)| == match k
                        case Name => 4
                        case Egress => 6
                        case Process => 7
                        case Transfer => 13
                        case Write => 10
                        case Streams => 11
                        case Frame => 16
                        case Guard => 20;
  }

  predicate Plain(w: string) {
    w != [] && forall i :: 0 <= i < |w| ==> !White(w[i])
  }

  lemma {:induction false} WordPlain(k: Kind)
    ensures Plain(Word(k))
  {
  }

  // ----- items -----

  datatype Item<P, F, T> =
    | NameItem(text: string)
    | EgressItem(text: string)
    | ProcessItem(process: P)
    | TransferItem(transfer: F)
    | WriteItem(write: T)
    | StreamsItem(limit: Option<u32>)
    | FrameItem(size: Option<u32>)
    | GuardItem(on: bool)

  function KindOfItem<P, F, T>(item: Item<P, F, T>): Kind {
    match item
    case NameItem(_) => Name
    case EgressItem(_) => Egress
    case ProcessItem(_) => Process
    case TransferItem(_) => Transfer
    case WriteItem(_) => Write
    case StreamsItem(_) => Streams
    case FrameItem(_) => Frame
    case GuardItem(_) => Guard
  }

  predicate ValidFrame(size: nat) {
    16 <= size <= 32 * 1024 && size % 16 == 0
  }

  function Number(n: Option<u32>): string {
    match n case None => [] case Some(v) => Decimal(v)
  }

  function OnOff(on: bool): string {
    if on then "enabled" else "disabled"
  }

  function ValueText<P, F, T>(codec: Codec<P, F, T>, item: Item<P, F, T>): string {
    match item
    case NameItem(text) => Escape(text)
    case EgressItem(text) => Escape(text)
    case ProcessItem(p) => codec.process.encode(p)
    case TransferItem(f) => codec.transfer.encode(f)
    case WriteItem(t) => codec.write.encode(t)
    case StreamsItem(n) => Number(n)
    case FrameItem(n) => Number(n)
    case GuardItem(on) => OnOff(on)
  }

  function LineOf<P, F, T>(codec: Codec<P, F, T>, item: Item<P, F, T>): string {
    Word(KindOfItem(item)) + ([' '] + ValueText(codec, item))
  }

  /** `str::parse::<u32>`. */
  function ParseU32(s: string): Option<u32> {
    var n := ParseDigits(Unsigned(s), 0x1_0000_0000);
    if n < 0 then None else Some(n)
  }

  /** What a directive and the text after it say. */
  function ReadValue<P, F, T>(codec: Codec<P, F, T>, kind: Kind, v: string): Option<Item<P, F, T>> {
    match kind
    case Name => if SafeText(v) then Some(NameItem(v)) else None
    case Egress => if SafeText(v) then Some(EgressItem(v)) else None
    case Process => (match codec.process.decode(v) case None => None case Some(p) => Some(ProcessItem(p)))
    case Transfer => (match codec.transfer.decode(v) case None => None case Some(f) => Some(TransferItem(f)))
    case Write => (match codec.write.decode(v) case None => None case Some(t) => Some(WriteItem(t)))
    case Streams => Some(StreamsItem(ParseU32(v)))
    case Frame =>
      var n := ParseU32(v);
      Some(FrameItem(if n.Some? && ValidFrame(n.value) then n else None))
    case Guard =>
      if v == "enabled" then Some(GuardItem(true)) else if v == "disabled" then Some(GuardItem(false)) else None
  }

  /** Everything before the first space, and everything after it. */
  function SplitOnce(s: string): Option<(string, string)> {
    if s == [] then None
    else if s[0] == ' ' then Some(([], s[1..]))
    else
      match SplitOnce(s[1..])
      case None => None
      case Some((a, b)) => Some(([s[0]] + a, b))
  }

  function ReadLine<P, F, T>(codec: Codec<P, F, T>, line: string): Option<Item<P, F, T>> {
    match SplitOnce(Trim(line))
    case None => None
    case Some((w, v)) =>
      match KindOf(w)
      case None => None
      case Some(kind) => ReadValue(codec, kind, v)
  }

  /** An item joins a declaration if there is room for it. */
  function Apply<P, F, T>(d: Declaration<P, F, T>, item: Item<P, F, T>): Declaration<P, F, T> {
    match item
    case NameItem(text) => d.(name := text)
    case EgressItem(text) => if |d.egress| < MAX_EGRESS then d.(egress := d.egress + [text]) else d
    case ProcessItem(p) => if |d.processes| < MAX_CAPABILITIES then d.(processes := d.processes + [p]) else d
    case TransferItem(f) => if |d.transfers| < MAX_CAPABILITIES then d.(transfers := d.transfers + [f]) else d
    case WriteItem(t) => if |d.writes| < MAX_CAPABILITIES then d.(writes := d.writes + [t]) else d
    case StreamsItem(n) => d.(maxStreams := n)
    case FrameItem(n) => d.(stackFrameSize := n)
    case GuardItem(on) => d.(guarded := Some(on))
  }

  function Absorb<P, F, T>(d: Declaration<P, F, T>, item: Option<Item<P, F, T>>): Declaration<P, F, T> {
    match item case None => d case Some(i) => Apply(d, i)
  }

  function ReadLines<P, F, T>(codec: Codec<P, F, T>, lines: seq<string>): Declaration<P, F, T> {
    if lines == [] then Default()
    else Absorb(ReadLines(codec, lines[..|lines| - 1]), ReadLine(codec, lines[|lines| - 1]))
  }

  /** `Declaration::parse`. A blank line reads as nothing. */
  method Parse<P, F, T>(codec: Codec<P, F, T>, text: string) returns (d: Declaration<P, F, T>)
    ensures d == ReadLines(codec, Lines(text))
  {
    var lines := Lines(text);
    d := Default();
    for i := 0 to |lines|
      invariant d == ReadLines(codec, lines[..i])
    {
      assert lines[..i + 1][..i] == lines[..i];
      if Trim(lines[i]) != [] {
        d := Absorb(d, ReadLine(codec, lines[i]));
      }
    }
    assert lines[..|lines|] == lines;
  }

  // ----- rendering -----

  predicate CharLess(a: char, b: char) {
    a < b
  }

  /** Code point order, which is the order of `String`. */
  function Below(): (string, string) -> bool {
    Lexicographic(CharLess)
  }

  function ById<C>(json: Json<C>): (C, C) -> bool {
    (a, b) => json.id(a) < json.id(b)
  }

  function Map<X, Y>(f: X -> Y, xs: seq<X>): (ys: seq<Y>)
    ensures |ys| == |xs| && forall i :: 0 <= i < |xs| ==> ys[i] == f(xs[i])
  {
    seq(|xs|, i requires 0 <= i < |xs| => f(xs[i]))
  }

  function Hosts(egress: seq<string>): seq<string> {
    Dedup(Sort(Below(), egress))
  }

  function NameItems<P, F, T>(d: Declaration<P, F, T>): seq<Item<P, F, T>> {
    if d.name != [] then [NameItem(d.name)] else []
  }

  function EgressItems<P, F, T>(hosts: seq<string>): seq<Item<P, F, T>> {
    Map(h => EgressItem(h), hosts)
  }

  function ProcessItems<P, F, T>(ps: seq<P>): seq<Item<P, F, T>> {
    Map(c => ProcessItem(c), ps)
  }

  function TransferItems<P, F, T>(fs: seq<F>): seq<Item<P, F, T>> {
    Map(c => TransferItem(c), fs)
  }

  function WriteItems<P, F, T>(ts: seq<T>): seq<Item<P, F, T>> {
    Map(c => WriteItem(c), ts)
  }

  function LimitItems<P, F, T>(d: Declaration<P, F, T>): seq<Item<P, F, T>> {
    StreamsItems(d.maxStreams) + (FrameItems(d.stackFrameSize) + GuardItems(d.guarded))
  }

  /** What there is to write, in the order it is written. */
  function Items<P, F, T>(codec: Codec<P, F, T>, d: Declaration<P, F, T>): seq<Item<P, F, T>> {
    NameItems(d)
    + (EgressItems(Hosts(d.egress))
       + (ProcessItems(Sort(ById(codec.process), d.processes))
          + (TransferItems(Sort(ById(codec.transfer), d.transfers))
             + (WriteItems(Sort(ById(codec.write), d.writes)) + LimitItems(d)))))
  }

  function JoinLines(lines: seq<string>): string {
    if lines == [] then [] else if |lines| == 1 then lines[0] else lines[0] + (['\n'] + JoinLines(lines[1..]))
  }

  /** `Declaration::render`. */
  function Render<P, F, T>(codec: Codec<P, F, T>, d: Declaration<P, F, T>): string {
    JoinLines(Map(i => LineOf(codec, i), Items(codec, d)))
  }

  // ----- one line for one item -----

  predicate Whole(line: string) {
    line != [] && '\n' !in line && line[|line| - 1] != '\r'
  }

  /** Whole lines joined are the same lines split. */
  lemma {:induction false} LinesOfJoin(lines: seq<string>)
    requires forall i :: 0 <= i < |lines| ==> Whole(lines[i])
    ensures Lines(JoinLines(lines)) == lines
  {
    if |lines| == 1 {
      FirstLine(lines[0], []);
      assert lines == [lines[0]];
    } else if lines != [] {
      LinesOfJoin(lines[1..]);
      FirstLine(lines[0], JoinLines(lines[1..]));
      assert lines == [lines[0]] + lines[1..];
    }
  }

  /** What the JSON of a capability is taken to be: text on one line, trimmed, that reads back. */
  ghost predicate Encodes<C(!new)>(json: Json<C>) {
    forall c: C ::
      && json.decode(json.encode(c)) == Some(c)
      && json.encode(c) != [] && Trimmed(json.encode(c)) && '\n' !in json.encode(c)
  }

  ghost predicate EncodesAll<P(!new), F(!new), T(!new)>(codec: Codec<P, F, T>) {
    Encodes(codec.process) && Encodes(codec.transfer) && Encodes(codec.write)
  }

  /** A value has no line break, and does not end in a carriage return. */
  predicate Quiet(v: string) {
    '\n' !in v && (v != [] ==> v[|v| - 1] != '\r')
  }

  lemma {:induction false} NumberQuiet(n: Option<u32>)
    ensures Quiet(Number(n)) && Trimmed(Number(n))
  {
    if n.Some? {
      DecimalRoundTrip(n.value);
      assert forall c :: IsDigit(c) ==> !White(c) && c != '\n' && c != '\r';
    }
  }

  lemma {:induction false} EscapeQuiet(s: string)
    ensures Quiet(Escape(s))
  {
    EscapeSafe(s);
    assert !SafeChar('\n') && !SafeChar('\r');
  }

  lemma {:induction false} ValueQuiet<P(!new), F(!new), T(!new)>(codec: Codec<P, F, T>, item: Item<P, F, T>)
    requires EncodesAll(codec)
    ensures Quiet(ValueText(codec, item))
  {
    match item
    case NameItem(text) => EscapeQuiet(text);
    case EgressItem(text) => EscapeQuiet(text);
    case ProcessItem(p) => assert White('\r');
    case TransferItem(f) => assert White('\r');
    case WriteItem(t) => assert White('\r');
    case StreamsItem(n) => NumberQuiet(n);
    case FrameItem(n) => NumberQuiet(n);
    case GuardItem(on) =>
  }

  lemma {:induction false} LineWhole<P(!new), F(!new), T(!new)>(codec: Codec<P, F, T>, item: Item<P, F, T>)
    requires EncodesAll(codec)
    ensures Whole(LineOf(codec, item))
  {
    var w, v := Word(KindOfItem(item)), ValueText(codec, item);
    WordPlain(KindOfItem(item));
    ValueQuiet(codec, item);
    assert White('\n');
    assert '\n' !in w;
  }

  /** Whatever a declaration holds, its text has one line for each item. */
  lemma {:induction false} RenderLines<P(!new), F(!new), T(!new)>(codec: Codec<P, F, T>, d: Declaration<P, F, T>)
    requires EncodesAll(codec)
    ensures Lines(Render(codec, d)) == Map(i => LineOf(codec, i), Items(codec, d))
  {
    var items := Items(codec, d);
    var lines := Map(i => LineOf(codec, i), items);
    forall k | 0 <= k < |lines|
      ensures Whole(lines[k])
    {
      LineWhole(codec, items[k]);
    }
    LinesOfJoin(lines);
  }

  // ----- reading a line back -----

  lemma {:induction false} SplitOnceOf(w: string, v: string)
    requires Plain(w)
    ensures SplitOnce(w) == None && SplitOnce(w + ([' '] + v)) == Some((w, v))
  {
    assert White(' ') && !White(w[0]);
    if |w| == 1 {
      assert w[1..] == [] && (w + ([' '] + v))[1..] == [' '] + v && ([' '] + v)[1..] == v;
      assert [w[0]] + [] == w;
    } else {
      SplitOnceOf(w[1..], v);
      assert (w + ([' '] + v))[1..] == w[1..] + ([' '] + v);
      assert [w[0]] + w[1..] == w;
    }
  }

  lemma {:induction false} TrimEndAfter(w: string, v: string)
    requires Plain(w)
    ensures TrimEnd(w + ([' '] + v)) == if TrimEnd(v) == [] then w else w + ([' '] + TrimEnd(v))
  {
    var s := w + ([' '] + v);
    if v == [] {
      assert s[..|s| - 1] == w && White(' ');
    } else if White(v[|v| - 1]) {
      TrimEndAfter(w, v[..|v| - 1]);
      assert s[..|s| - 1] == w + ([' '] + v[..|v| - 1]);
    }
  }

  /** A directive's line, trimmed and split, gives back the directive and its value without trailing space. */
  lemma {:induction false} LineParts(w: string, v: string)
    requires Plain(w)
    ensures SplitOnce(Trim(w + ([' '] + v))) == if TrimEnd(v) == [] then None else Some((w, TrimEnd(v)))
  {
    var s := w + ([' '] + v);
    assert s[0] == w[0] && TrimStart(s) == s;
    TrimEndAfter(w, v);
    SplitOnceOf(w, TrimEnd(v));
  }

  /** What a line written for an item is read as. */
  function Reread<P, F, T>(codec: Codec<P, F, T>, item: Item<P, F, T>): Option<Item<P, F, T>> {
    var v := TrimEnd(ValueText(codec, item));
    if v == [] then None else ReadValue(codec, KindOfItem(item), v)
  }

  lemma {:induction false} ReadLineOf<P, F, T>(codec: Codec<P, F, T>, item: Item<P, F, T>)
    ensures ReadLine(codec, LineOf(codec, item)) == Reread(codec, item)
  {
    var k := KindOfItem(item);
    WordPlain(k);
    KindOfWord(k);
    LineParts(Word(k), ValueText(codec, item));
  }

  // ----- reading a text back -----

  function Fold<D, I>(step: (D, I) -> D, d: D, items: seq<I>): D {
    if items == [] then d else step(Fold(step, d, items[..|items| - 1]), items[|items| - 1])
  }

  lemma {:induction false} FoldConcat<D, I>(step: (D, I) -> D, d: D, a: seq<I>, b: seq<I>)
    ensures Fold(step, d, a + b) == Fold(step, Fold(step, d, a), b)
    decreases |b|
  {
    if b == [] {
      assert a + b == a;
    } else {
      FoldConcat(step, d, a, b[..|b| - 1]);
      assert (a + b)[..|a + b| - 1] == a + b[..|b| - 1];
    }
  }

  function Stepper<P, F, T>(codec: Codec<P, F, T>): (Declaration<P, F, T>, Item<P, F, T>) -> Declaration<P, F, T> {
    (d, i) => Absorb(d, Reread(codec, i))
  }

  /** The items of a text absorbed one after another, as they are read back. */
  function Gather<P, F, T>(
    codec: Codec<P, F, T>, d: Declaration<P, F, T>, items: seq<Item<P, F, T>>): Declaration<P, F, T>
  {
    Fold(Stepper(codec), d, items)
  }

  lemma {:induction false} GatherConcat<P, F, T>(
      codec: Codec<P, F, T>, d: Declaration<P, F, T>, a: seq<Item<P, F, T>>, b: seq<Item<P, F, T>>)
    ensures Gather(codec, d, a + b) == Gather(codec, Gather(codec, d, a), b)
  {
    FoldConcat(Stepper(codec), d, a, b);
  }

  lemma {:induction false} ReadLinesOf<P, F, T>(codec: Codec<P, F, T>, items: seq<Item<P, F, T>>)
    ensures ReadLines(codec, Map(i => LineOf(codec, i), items)) == Gather(codec, Default(), items)
  {
    if items != [] {
      var front, last := items[..|items| - 1], items[|items| - 1];
      var lines := Map(i => LineOf(codec, i), items);
      ReadLinesOf(codec, front);
      ReadLineOf(codec, last);
      assert lines[..|lines| - 1] == Map(i => LineOf(codec, i), front);
    }
  }

  /** Items kept while there is room. */
  function Fill<X>(have: seq<X>, limit: nat, xs: seq<Option<X>>): seq<X> {
    if xs == [] then have
    else
      var front, last := Fill(have, limit, xs[..|xs| - 1]), xs[|xs| - 1];
      if last.Some? && |front| < limit then front + [last.value] else front
  }

  /** The text that survives: escaped, without trailing space, and short enough. */
  function Kept(text: string): Option<string> {
    var v := TrimEnd(Escape(text));
    if v != [] && SafeText(v) then Some(v) else None
  }

  function Wrap<X>(xs: seq<X>): seq<Option<X>> {
    Map(c => Some(c), xs)
  }

  /** One more item kept if there is room. */
  function Fill1<X>(have: seq<X>, limit: nat, x: Option<X>): seq<X> {
    if x.Some? && |have| < limit then have + [x.value] else have
  }

  lemma {:induction false} FillNext<X, Y>(have: seq<X>, limit: nat, f: Y -> Option<X>, ys: seq<Y>)
    requires ys != []
    ensures Fill(have, limit, Map(f, ys)) == Fill1(Fill(have, limit, Map(f, ys[..|ys| - 1])), limit, f(ys[|ys| - 1]))
  {
    assert Map(f, ys)[..|ys| - 1] == Map(f, ys[..|ys| - 1]);
  }

  lemma {:induction false} GatherNext<P, F, T, Y>(
    codec: Codec<P, F, T>, d: Declaration<P, F, T>, f: Y -> Item<P, F, T>, ys: seq<Y>)
    requires ys != []
    ensures Gather(codec, d, Map(f, ys))
         == Absorb(Gather(codec, d, Map(f, ys[..|ys| - 1])), Reread(codec, f(ys[|ys| - 1])))
  {
    assert Map(f, ys)[..|ys| - 1] == Map(f, ys[..|ys| - 1]);
  }

  /** Reading an item of this kind adds to the declaration what is kept of it, if there is room. */
  ghost predicate Adds<P, F, T, X(!new), Y(!new)>(
    codec: Codec<P, F, T>, item: Y -> Item<P, F, T>, keep: Y -> Option<X>, limit: nat,
    put: seq<X> -> Declaration<P, F, T>)
  {
    forall xs: seq<X>, y: Y :: Absorb(put(xs), Reread(codec, item(y))) == put(Fill1(xs, limit, keep(y)))
  }

  lemma {:induction false} GatherKind<P, F, T, X(!new), Y(!new)>(
    codec: Codec<P, F, T>, item: Y -> Item<P, F, T>, keep: Y -> Option<X>, limit: nat,
    put: seq<X> -> Declaration<P, F, T>, have: seq<X>, ys: seq<Y>)
    requires Adds(codec, item, keep, limit, put)
    ensures Gather(codec, put(have), Map(item, ys)) == put(Fill(have, limit, Map(keep, ys)))
  {
    if ys == [] {
      assert Map(keep, ys) == [] && Map(item, ys) == [];
    } else {
      GatherKind(codec, item, keep, limit, put, have, ys[..|ys| - 1]);
      GatherNext(codec, put(have), item, ys);
      FillNext(have, limit, keep, ys);
    }
  }

  lemma {:induction false} GatherEgress<P, F, T>(codec: Codec<P, F, T>, d: Declaration<P, F, T>, hosts: seq<string>)
    ensures Gather(codec, d, EgressItems(hosts)) == d.(egress := Fill(d.egress, MAX_EGRESS, Map(Kept, hosts)))
  {
    var put := (xs: seq<string>) => d.(egress := xs);
    assert Adds(codec, (h: string) => EgressItem(h), Kept, MAX_EGRESS, put);
    GatherKind(codec, (h: string) => EgressItem(h), Kept, MAX_EGRESS, put, d.egress, hosts);
  }

  lemma {:induction false} TrimEndOf(s: string)
    requires Trimmed(s)
    ensures TrimEnd(s) == s
  {
  }

  lemma {:induction false} EncodedKept<C(!new)>(json: Json<C>, c: C)
    requires Encodes(json)
    ensures json.decode(TrimEnd(json.encode(c))) == Some(c) && TrimEnd(json.encode(c)) != []
  {
    TrimEndOf(json.encode(c));
  }

  lemma {:induction false} GatherProcesses<P(!new), F, T>(codec: Codec<P, F, T>, d: Declaration<P, F, T>, cs: seq<P>)
    requires Encodes(codec.process)
    ensures Gather(codec, d, ProcessItems(cs)) == d.(processes := Fill(d.processes, MAX_CAPABILITIES, Wrap(cs)))
  {
    var put := (xs: seq<P>) => d.(processes := xs);
    forall xs: seq<P>, c: P
      ensures Absorb(put(xs), Reread(codec, ProcessItem(c))) == put(Fill1(xs, MAX_CAPABILITIES, Some(c)))
    {
      EncodedKept(codec.process, c);
    }
    GatherKind(codec, (c: P) => ProcessItem(c), c => Some(c), MAX_CAPABILITIES, put, d.processes, cs);
  }

  lemma {:induction false} GatherTransfers<P, F(!new), T>(codec: Codec<P, F, T>, d: Declaration<P, F, T>, cs: seq<F>)
    requires Encodes(codec.transfer)
    ensures Gather(codec, d, TransferItems(cs)) == d.(transfers := Fill(d.transfers, MAX_CAPABILITIES, Wrap(cs)))
  {
    var put := (xs: seq<F>) => d.(transfers := xs);
    forall xs: seq<F>, c: F
      ensures Absorb(put(xs), Reread(codec, TransferItem(c))) == put(Fill1(xs, MAX_CAPABILITIES, Some(c)))
    {
      EncodedKept(codec.transfer, c);
    }
    GatherKind(codec, (c: F) => TransferItem(c), c => Some(c), MAX_CAPABILITIES, put, d.transfers, cs);
  }

  lemma {:induction false} GatherWrites<P, F, T(!new)>(codec: Codec<P, F, T>, d: Declaration<P, F, T>, cs: seq<T>)
    requires Encodes(codec.write)
    ensures Gather(codec, d, WriteItems(cs)) == d.(writes := Fill(d.writes, MAX_CAPABILITIES, Wrap(cs)))
  {
    var put := (xs: seq<T>) => d.(writes := xs);
    forall xs: seq<T>, c: T
      ensures Absorb(put(xs), Reread(codec, WriteItem(c))) == put(Fill1(xs, MAX_CAPABILITIES, Some(c)))
    {
      EncodedKept(codec.write, c);
    }
    GatherKind(codec, (c: T) => WriteItem(c), c => Some(c), MAX_CAPABILITIES, put, d.writes, cs);
  }

  lemma {:induction false} NumberRead(n: u32)
    ensures TrimEnd(Number(Some(n))) == Number(Some(n)) != [] && ParseU32(Number(Some(n))) == Some(n)
  {
    NumberQuiet(Some(n));
    TrimEndOf(Number(Some(n)));
    DecimalRoundTrip(n);
    assert IsDigit(Decimal(n)[0]) && !IsDigit('+');
  }

  function FrameKept(size: Option<u32>): Option<u32> {
    if size.Some? && ValidFrame(size.value) then size else None
  }

  lemma {:induction false} GatherOne<P, F, T>(codec: Codec<P, F, T>, d: Declaration<P, F, T>, item: Item<P, F, T>)
    ensures Gather(codec, d, [item]) == Absorb(d, Reread(codec, item))
  {
    var items := [item];
    assert items[..|items| - 1] == [];
    assert Fold(Stepper(codec), d, items) == Stepper(codec)(Fold(Stepper(codec), d, []), item);
  }

  function StreamsItems<P, F, T>(n: Option<u32>): seq<Item<P, F, T>> {
    if n.Some? then [StreamsItem(n)] else []
  }

  function FrameItems<P, F, T>(n: Option<u32>): seq<Item<P, F, T>> {
    if n.Some? then [FrameItem(n)] else []
  }

  function GuardItems<P, F, T>(on: Option<bool>): seq<Item<P, F, T>> {
    if on.Some? then [GuardItem(on.value)] else []
  }

  lemma {:induction false} GatherStreams<P, F, T>(codec: Codec<P, F, T>, e: Declaration<P, F, T>, n: Option<u32>)
    requires e.maxStreams == None
    ensures Gather(codec, e, StreamsItems(n)) == e.(maxStreams := n)
  {
    if n.Some? {
      NumberRead(n.value);
      GatherOne(codec, e, StreamsItem(n));
    }
  }

  lemma {:induction false} GatherFrame<P, F, T>(codec: Codec<P, F, T>, e: Declaration<P, F, T>, n: Option<u32>)
    requires e.stackFrameSize == None
    ensures Gather(codec, e, FrameItems(n)) == e.(stackFrameSize := FrameKept(n))
  {
    if n.Some? {
      NumberRead(n.value);
      GatherOne(codec, e, FrameItem(n));
    }
  }

  lemma {:induction false} GatherGuard<P, F, T>(codec: Codec<P, F, T>, e: Declaration<P, F, T>, on: Option<bool>)
    requires e.guarded == None
    ensures Gather(codec, e, GuardItems(on)) == e.(guarded := on)
  {
    if on.Some? {
      GuardRead(on.value);
      GatherOne(codec, e, GuardItem(on.value));
    }
  }

  lemma {:induction false} GatherLimits<P, F, T>(
    codec: Codec<P, F, T>, d: Declaration<P, F, T>, e: Declaration<P, F, T>)
    requires e.maxStreams == None && e.stackFrameSize == None && e.guarded == None
    ensures Gather(codec, e, LimitItems(d))
         == e.(maxStreams := d.maxStreams, stackFrameSize := FrameKept(d.stackFrameSize), guarded := d.guarded)
  {
    var e1 := e.(maxStreams := d.maxStreams);
    var e2 := e1.(stackFrameSize := FrameKept(d.stackFrameSize));
    GatherConcat(codec, e, StreamsItems(d.maxStreams), FrameItems(d.stackFrameSize) + GuardItems(d.guarded));
    GatherStreams(codec, e, d.maxStreams);
    GatherConcat(codec, e1, FrameItems(d.stackFrameSize), GuardItems(d.guarded));
    GatherFrame(codec, e1, d.stackFrameSize);
    GatherGuard(codec, e2, d.guarded);
  }

  lemma {:induction false} GuardRead(on: bool)
    ensures TrimEnd(OnOff(on)) == OnOff(on) != [] && (OnOff(on) == "enabled" <==> on)
  {
    assert |"enabled"| == 7 && |"disabled"| == 8;
  }

  /** What is left of any declaration once it has been stored as text and read back. */
  function Survivor<P, F, T>(codec: Codec<P, F, T>, d: Declaration<P, F, T>): Declaration<P, F, T> {
    Declaration(
      match Kept(d.name) case None => [] case Some(text) => text,
      Fill([], MAX_EGRESS, Map(Kept, Hosts(d.egress))),
      Fill([], MAX_CAPABILITIES, Wrap(Sort(ById(codec.process), d.processes))),
      Fill([], MAX_CAPABILITIES, Wrap(Sort(ById(codec.transfer), d.transfers))),
      Fill([], MAX_CAPABILITIES, Wrap(Sort(ById(codec.write), d.writes))),
      d.maxStreams, FrameKept(d.stackFrameSize), d.guarded)
  }

  lemma {:induction false} GatherName<P, F, T>(codec: Codec<P, F, T>, d: Declaration<P, F, T>)
    ensures Gather(codec, Default(), NameItems(d))
         == Default().(name := match Kept(d.name) case None => [] case Some(text) => text)
  {
    if d.name != [] {
      GatherOne(codec, Default(), NameItem(d.name));
    }
  }

  /**
   * For every declaration, safe or not: each item is read back as one of the same kind, a name or rule with its text
   * escaped and without trailing space, or not at all; nothing is read back that was not an item.
   */
  lemma {:induction false} ReadOfRender<P(!new), F(!new), T(!new)>(codec: Codec<P, F, T>, d: Declaration<P, F, T>)
    requires EncodesAll(codec)
    ensures ReadLines(codec, Lines(Render(codec, d))) == Survivor(codec, d)
  {
    RenderLines(codec, d);
    ReadLinesOf(codec, Items(codec, d));
    GatherItems(codec, d);
  }

  lemma {:induction false} GatherItems<P(!new), F(!new), T(!new)>(codec: Codec<P, F, T>, d: Declaration<P, F, T>)
    requires EncodesAll(codec)
    ensures Gather(codec, Default(), Items(codec, d)) == Survivor(codec, d)
  {
    var hosts := Hosts(d.egress);
    var ps, fs, ts := Sort(ById(codec.process), d.processes), Sort(ById(codec.transfer), d.transfers),
                      Sort(ById(codec.write), d.writes);
    var s4: seq<Item<P, F, T>> := WriteItems(ts) + LimitItems(d);
    var s3: seq<Item<P, F, T>> := TransferItems(fs) + s4;
    var s2: seq<Item<P, F, T>> := ProcessItems(ps) + s3;
    var s1: seq<Item<P, F, T>> := EgressItems(hosts) + s2;
    GatherConcat(codec, Default(), NameItems(d), s1);
    GatherName(codec, d);
    var e1 := Gather(codec, Default(), NameItems(d));
    GatherConcat(codec, e1, EgressItems(hosts), s2);
    GatherEgress(codec, e1, hosts);
    var e2 := Gather(codec, e1, EgressItems(hosts));
    GatherConcat(codec, e2, ProcessItems(ps), s3);
    GatherProcesses(codec, e2, ps);
    var e3 := Gather(codec, e2, ProcessItems(ps));
    GatherConcat(codec, e3, TransferItems(fs), s4);
    GatherTransfers(codec, e3, fs);
    var e4 := Gather(codec, e3, TransferItems(fs));
    GatherConcat(codec, e4, WriteItems(ts), LimitItems(d));
    GatherWrites(codec, e4, ts);
    GatherLimits(codec, d, Gather(codec, e4, WriteItems(ts)));
  }

  // ----- what validation ensures -----

  /** What `validate` asks of the counts and the plain values. */
  predicate Bounded<P, F, T>(d: Declaration<P, F, T>) {
    && |d.egress| <= MAX_EGRESS
    && |d.processes| <= MAX_CAPABILITIES && |d.transfers| <= MAX_CAPABILITIES && |d.writes| <= MAX_CAPABILITIES
    && SafeText(d.name)
    && (forall i :: 0 <= i < |d.egress| ==> SafeText(d.egress[i]))
    && (d.stackFrameSize.Some? ==> ValidFrame(d.stackFrameSize.value))
  }

  /** No trailing space for the trimming to take. */
  predicate Tidy(s: string) {
    s != [] ==> !White(s[|s| - 1])
  }

  /** Sorted and without repeats: the same declaration. */
  function Canonical<P, F, T>(codec: Codec<P, F, T>, d: Declaration<P, F, T>): Declaration<P, F, T> {
    d.(egress := Hosts(d.egress),
       processes := Sort(ById(codec.process), d.processes),
       transfers := Sort(ById(codec.transfer), d.transfers),
       writes := Sort(ById(codec.write), d.writes))
  }

  /** Exactly the non-empty safe texts without trailing space are kept as they are. */
  lemma {:induction false} KeptIff(s: string)
    ensures Kept(s) == Some(s) <==> s != [] && SafeText(s) && Tidy(s)
  {
    if SafeText(s) {
      EscapeOfSafe(s);
      TrimEndIff(s);
    }
  }

  lemma {:induction false} TrimEndIff(s: string)
    ensures |TrimEnd(s)| <= |s| && (TrimEnd(s) == s <==> Tidy(s))
  {
    if s != [] && White(s[|s| - 1]) {
      TrimEndIff(s[..|s| - 1]);
    }
  }

  lemma {:induction false} FillShorter<X>(limit: nat, os: seq<Option<X>>)
    ensures |Fill([], limit, os)| <= |os|
  {
    if os != [] {
      FillShorter(limit, os[..|os| - 1]);
    }
  }

  /** All of a list is kept exactly when it fits and each of its items is kept. */
  lemma {:induction false} FillIff<X>(limit: nat, xs: seq<X>, os: seq<Option<X>>)
    requires |os| == |xs|
    ensures Fill([], limit, os) == xs <==> |xs| <= limit && forall i :: 0 <= i < |xs| ==> os[i] == Some(xs[i])
  {
    if xs != [] {
      var n := |xs| - 1;
      var fill := Fill([], limit, os[..n]);
      FillIff(limit, xs[..n], os[..n]);
      FillShorter(limit, os[..n]);
      assert xs == xs[..n] + [xs[n]];
      assert Fill([], limit, os) == if os[n].Some? && |fill| < limit then fill + [os[n].value] else fill;
      if Fill([], limit, os) == xs {
        assert fill == xs[..n];
      }
    }
  }

  lemma {:induction false} HostsFrom(egress: seq<string>)
    ensures forall h :: h in Hosts(egress) <==> h in egress
  {
    var sorted := Sort(Below(), egress);
    SortPermutes(Below(), egress);
    DedupShorter(sorted);
    assert forall h :: h in sorted <==> h in multiset(sorted);
    assert forall h :: h in egress <==> h in multiset(egress);
  }

  /** What a network rule has to be to be kept. */
  predicate KeepsRule(h: string) {
    h != [] && SafeText(h) && Tidy(h)
  }

  lemma {:induction false} HostsKept(egress: seq<string>)
    ensures Fill([], MAX_EGRESS, Map(Kept, Hosts(egress))) == Hosts(egress)
       <==> |Hosts(egress)| <= MAX_EGRESS && forall h :: h in egress ==> KeepsRule(h)
  {
    var hosts := Hosts(egress);
    HostsFrom(egress);
    FillIff(MAX_EGRESS, hosts, Map(Kept, hosts));
    forall i | 0 <= i < |hosts|
      ensures Map(Kept, hosts)[i] == Some(hosts[i]) <==> KeepsRule(hosts[i])
    {
      KeptIff(hosts[i]);
    }
    EachIn(hosts, egress);
  }

  lemma {:induction false} EachIn(hosts: seq<string>, egress: seq<string>)
    requires forall h :: h in hosts <==> h in egress
    ensures (forall i :: 0 <= i < |hosts| ==> KeepsRule(hosts[i])) <==> forall h :: h in egress ==> KeepsRule(h)
  {
  }

  lemma {:induction false} CapabilitiesKept<C>(json: Json<C>, cs: seq<C>)
    ensures Fill([], MAX_CAPABILITIES, Wrap(Sort(ById(json), cs))) == Sort(ById(json), cs) <==> |cs| <= MAX_CAPABILITIES
  {
    SortPermutes(ById(json), cs);
    FillIff(MAX_CAPABILITIES, Sort(ById(json), cs), Wrap(Sort(ById(json), cs)));
  }

  /** What a declaration has to be to be read back as itself. */
  predicate Lasting<P, F, T>(d: Declaration<P, F, T>) {
    && SafeText(d.name) && Tidy(d.name)
    && |Hosts(d.egress)| <= MAX_EGRESS && (forall h :: h in d.egress ==> KeepsRule(h))
    && |d.processes| <= MAX_CAPABILITIES && |d.transfers| <= MAX_CAPABILITIES && |d.writes| <= MAX_CAPABILITIES
    && (d.stackFrameSize.Some? ==> ValidFrame(d.stackFrameSize.value))
  }

  lemma {:induction false} NameKept(name: string)
    ensures (match Kept(name) case None => [] case Some(text) => text) == name <==> SafeText(name) && Tidy(name)
  {
    KeptIff(name);
    if name == [] {
      assert Escape([]) == [];
    }
  }

  /** A declaration is read back as itself, in canonical order, exactly when it is lasting. */
  lemma {:induction false} SurvivesIff<P(!new), F(!new), T(!new)>(codec: Codec<P, F, T>, d: Declaration<P, F, T>)
    requires EncodesAll(codec)
    ensures ReadLines(codec, Lines(Render(codec, d))) == Canonical(codec, d) <==> Lasting(d)
  {
    ReadOfRender(codec, d);
    NameKept(d.name);
    HostsKept(d.egress);
    CapabilitiesKept(codec.process, d.processes);
    CapabilitiesKept(codec.transfer, d.transfers);
    CapabilitiesKept(codec.write, d.writes);
  }

  /** A declaration that validates is, exactly when it has no trailing spaces and no empty rule. */
  lemma {:induction false} BoundedSurvives<P(!new), F(!new), T(!new)>(codec: Codec<P, F, T>, d: Declaration<P, F, T>)
    requires EncodesAll(codec) && Bounded(d)
    ensures ReadLines(codec, Lines(Render(codec, d))) == Canonical(codec, d)
       <==> Tidy(d.name) && forall h :: h in d.egress ==> h != [] && Tidy(h)
  {
    SurvivesIff(codec, d);
    HostsFewer(d.egress);
    assert forall h :: h in d.egress ==> SafeText(h);
  }

  /** An empty rule validates and is lost. */
  lemma {:induction false} EmptyRuleLost<P(!new), F(!new), T(!new)>(codec: Codec<P, F, T>, d: Declaration<P, F, T>)
    requires EncodesAll(codec) && d == Default().(egress := [""])
    ensures Bounded(d) && ReadLines(codec, Lines(Render(codec, d))) != Canonical(codec, d)
  {
    assert "" in d.egress;
    BoundedSurvives(codec, d);
  }

  lemma {:induction false} HostsFewer(egress: seq<string>)
    ensures |Hosts(egress)| <= |egress|
  {
    SortPermutes(Below(), egress);
    DedupShorter(Sort(Below(), egress));
  }

  // ----- the text is stable -----

  lemma {:induction false} HostsSettle(egress: seq<string>)
    ensures Hosts(Hosts(egress)) == Hosts(egress)
  {
    LexOrders(CharLess);
    SortSorts(Below(), egress);
    DedupSettles(Below(), Sort(Below(), egress));
    SortOfSorted(Below(), Hosts(egress));
  }

  lemma {:induction false} ByIdSettles<C(!new)>(json: Json<C>, cs: seq<C>)
    ensures Sort(ById(json), Sort(ById(json), cs)) == Sort(ById(json), cs)
  {
    assert Ordering(ById(json));
    SortSorts(ById(json), cs);
    SortOfSorted(ById(json), Sort(ById(json), cs));
  }

  /** The canonical declaration has the same text, so what was approved can be compared with what is claimed now. */
  lemma {:induction false} RenderStable<P(!new), F(!new), T(!new)>(codec: Codec<P, F, T>, d: Declaration<P, F, T>)
    ensures Render(codec, Canonical(codec, d)) == Render(codec, d)
  {
    HostsSettle(d.egress);
    ByIdSettles(codec.process, d.processes);
    ByIdSettles(codec.transfer, d.transfers);
    ByIdSettles(codec.write, d.writes);
  }
}
