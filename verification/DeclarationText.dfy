/** The stored text of a declaration (`crates/synch-core/src/sock.rs`), line by line: words, order and escapes. */
module DeclarationText {
  import opened Words
  import opened Bytes
  import opened Numerals
  import opened Strings
  import opened Sorting
  import opened Declarations

  // ----- the text itself -----

  /** In code point order: equal up to some place, and there the first ends or has the lesser character. */
  ghost predicate Precedes(a: string, b: string) {
    exists k: nat :: k <= |a| && k < |b| && a[..k] == b[..k] && (k == |a| || (a[k] as int) < (b[k] as int))
  }

  lemma {:induction false} LexPrecedes(a: string, b: string)
    requires Lex(CharLess, a, b)
    ensures Precedes(a, b)
  {
    if a == [] || CharLess(a[0], b[0]) {
      assert a[..0] == b[..0];
    } else {
      LexPrecedes(a[1..], b[1..]);
      var k: nat :| k <= |a[1..]| && k < |b[1..]| && a[1..][..k] == b[1..][..k]
                    && (k == |a[1..]| || (a[1..][k] as int) < (b[1..][k] as int));
      assert a[..k + 1] == [a[0]] + a[1..][..k] && b[..k + 1] == [b[0]] + b[1..][..k];
    }
  }

  /** Rules are written in code point order, each once. */
  lemma {:induction false} RulesAscend(egress: seq<string>)
    ensures forall h :: h in Hosts(egress) <==> h in egress
    ensures forall i, j :: 0 <= i < j < |Hosts(egress)| ==> Precedes(Hosts(egress)[i], Hosts(egress)[j])
  {
    var hosts := Hosts(egress);
    HostsFrom(egress);
    LexOrders(CharLess);
    SortSorts(Below(), egress);
    DedupSettles(Below(), Sort(Below(), egress));
    DedupFinds(Below(), hosts);
    forall i, j | 0 <= i < j < |hosts|
      ensures Precedes(hosts[i], hosts[j])
    {
      assert !Below()(hosts[j], hosts[i]) && hosts[i] != hosts[j];
      LexTotal(CharLess, hosts[i], hosts[j]);
      LexPrecedes(hosts[i], hosts[j]);
    }
  }

  /** Capabilities are written by ascending number, all of them. */
  lemma {:induction false} NumbersAscend<C(!new)>(json: Json<C>, cs: seq<C>)
    ensures var sorted := Sort(ById(json), cs);
            && multiset(sorted) == multiset(cs)
            && forall i, j :: 0 <= i < j < |sorted| ==> json.id(sorted[i]) <= json.id(sorted[j])
  {
    assert Ordering(ById(json));
    SortSorts(ById(json), cs);
    SortPermutes(ById(json), cs);
    var sorted := Sort(ById(json), cs);
    assert forall i, j :: 0 <= i < j < |sorted| ==> !ById(json)(sorted[j], sorted[i]);
  }

  /** The line of each kind of item. */
  lemma {:induction false} LineText<P, F, T>(codec: Codec<P, F, T>, item: Item<P, F, T>)
    ensures LineOf(codec, item)
         == match item
            case NameItem(text) => "name" + ([' '] + Escape(text))
            case EgressItem(text) => "egress" + ([' '] + Escape(text))
            case ProcessItem(p) => "process" + ([' '] + codec.process.encode(p))
            case TransferItem(f) => "file-transfer" + ([' '] + codec.transfer.encode(f))
            case WriteItem(t) => "tree-write" + ([' '] + codec.write.encode(t))
            case StreamsItem(n) => "max-streams" + ([' '] + (match n case None => [] case Some(v) => Decimal(v)))
            case FrameItem(n) => "stack-frame-size" + ([' '] + (match n case None => [] case Some(v) => Decimal(v)))
            case GuardItem(on) => "guarded-stack-frames" + ([' '] + (if on then "enabled" else "disabled"))
  {
  }

  function Rank<P, F, T>(item: Item<P, F, T>): nat {
    match item
    case NameItem(_) => 0
    case EgressItem(_) => 1
    case ProcessItem(_) => 2
    case TransferItem(_) => 3
    case WriteItem(_) => 4
    case StreamsItem(_) => 5
    case FrameItem(_) => 6
    case GuardItem(_) => 7
  }

  predicate Ranked<P, F, T>(items: seq<Item<P, F, T>>, lo: nat, hi: nat) {
    && (forall i :: 0 <= i < |items| ==> lo <= Rank(items[i]) <= hi)
    && (forall i, j :: 0 <= i < j < |items| ==> Rank(items[i]) <= Rank(items[j]))
  }

  lemma {:induction false} RankedConcat<P, F, T>(a: seq<Item<P, F, T>>, b: seq<Item<P, F, T>>, lo: nat, mid: nat,
                                                 hi: nat)
    requires Ranked(a, lo, mid) && Ranked(b, mid, hi) && lo <= mid <= hi
    ensures Ranked(a + b, lo, hi)
  {
  }

  lemma {:induction false} MapRanked<P, F, T, Y>(f: Y -> Item<P, F, T>, ys: seq<Y>, r: nat)
    requires forall y :: y in ys ==> Rank(f(y)) == r
    ensures Ranked(Map(f, ys), r, r)
  {
    forall i | 0 <= i < |ys|
      ensures Rank(Map(f, ys)[i]) == r
    {
      assert ys[i] in ys;
    }
  }

  lemma {:induction false} LimitsRanked<P, F, T>(d: Declaration<P, F, T>)
    ensures Ranked<P, F, T>(LimitItems(d), 5, 7)
  {
    var streams: seq<Item<P, F, T>> := StreamsItems(d.maxStreams);
    var size: seq<Item<P, F, T>> := FrameItems(d.stackFrameSize);
    var guard: seq<Item<P, F, T>> := GuardItems(d.guarded);
    RankedConcat(size, guard, 6, 7, 7);
    RankedConcat(streams, size + guard, 5, 6, 7);
  }

  /** The kinds come in one order. */
  lemma {:induction false} KindsInOrder<P, F, T>(codec: Codec<P, F, T>, d: Declaration<P, F, T>)
    ensures Ranked(Items(codec, d), 0, 7)
  {
    var ps, fs, ts := Sort(ById(codec.process), d.processes), Sort(ById(codec.transfer), d.transfers),
                      Sort(ById(codec.write), d.writes);
    var names: seq<Item<P, F, T>> := NameItems(d);
    var rules: seq<Item<P, F, T>> := EgressItems(Hosts(d.egress));
    var processes: seq<Item<P, F, T>> := ProcessItems(ps);
    var transfers: seq<Item<P, F, T>> := TransferItems(fs);
    var writes: seq<Item<P, F, T>> := WriteItems(ts);
    var limits: seq<Item<P, F, T>> := LimitItems(d);
    LimitsRanked(d);
    MapRanked<P, F, T, T>(c => WriteItem(c), ts, 4);
    MapRanked<P, F, T, F>(c => TransferItem(c), fs, 3);
    MapRanked<P, F, T, P>(c => ProcessItem(c), ps, 2);
    MapRanked<P, F, T, string>(h => EgressItem(h), Hosts(d.egress), 1);
    AllRanked(names, rules, processes, transfers, writes, limits);
  }

  lemma {:induction false} AllRanked<P, F, T>(
    a: seq<Item<P, F, T>>, b: seq<Item<P, F, T>>, c: seq<Item<P, F, T>>, d: seq<Item<P, F, T>>, e: seq<Item<P, F, T>>,
    f: seq<Item<P, F, T>>)
    requires Ranked(a, 0, 0) && Ranked(b, 1, 1) && Ranked(c, 2, 2) && Ranked(d, 3, 3) && Ranked(e, 4, 4)
             && Ranked(f, 5, 7)
    ensures Ranked(a + (b + (c + (d + (e + f)))), 0, 7)
  {
    RankedConcat(e, f, 4, 5, 7);
    RankedConcat(d, e + f, 3, 4, 7);
    RankedConcat(c, d + (e + f), 2, 3, 7);
    RankedConcat(b, c + (d + (e + f)), 1, 2, 7);
    RankedConcat(a, b + (c + (d + (e + f))), 0, 1, 7);
  }

  // ----- escapes -----

  function HexDigitValue(c: char): nat {
    if '0' <= c <= '9' then c as int - '0' as int else if 'a' <= c <= 'f' then c as int - 'a' as int + 10 else 0
  }

  function HexValue(s: string): nat {
    if s == [] then 0 else 16 * HexValue(s[..|s| - 1]) + HexDigitValue(s[|s| - 1])
  }

  lemma {:induction false} HexDigitReads(d: nat)
    requires d < 16
    ensures HexDigitValue(HexDigit(d)) == d && (d > 0 ==> HexDigit(d) != '0')
  {
  }

  /** Hexadecimal digits spell the number, with none to spare. */
  lemma {:induction false} HexReads(n: nat)
    ensures HexValue(Hex(n)) == n && (|Hex(n)| > 1 ==> Hex(n)[0] != '0') && (n > 0 ==> Hex(n)[0] != '0')
  {
    if n < 16 {
      HexDigitReads(n);
      assert Hex(n)[..0] == [];
    } else {
      HexReads(n / 16);
      HexDigitReads(n % 16);
      assert Hex(n)[..|Hex(n)| - 1] == Hex(n / 16);
    }
  }

  lemma {:induction false} EscapeConcat(a: string, b: string)
    ensures Escape(a + b) == Escape(a) + Escape(b)
    decreases |b|
  {
    if b == [] {
      assert a + b == a;
    } else {
      var front, c := b[..|b| - 1], b[|b| - 1];
      var e := if SafeChar(c) then [c] else EscapeChar(c);
      EscapeConcat(a, front);
      assert (a + b)[..|a + b| - 1] == a + front;
      assert Escape(a + b) == Escape(a + front) + e && Escape(b) == Escape(front) + e;
      Gathered(Escape(a), Escape(front), e);
    }
  }

  lemma {:induction false} Gathered(a: string, b: string, c: string)
    ensures (a + b) + c == a + (b + c)
  {
  }

  lemma {:induction false} EscapeSingle(c: char)
    ensures Escape([c]) == if SafeChar(c) then [c] else EscapeChar(c)
  {
    var s := [c];
    assert s[..0] == [] && s[0] == c;
    assert Escape(s) == [] + if SafeChar(c) then [c] else EscapeChar(c);
  }

  lemma {:induction false} Braced(open: string, digits: string)
    requires |open| == 3
    ensures var e := open + digits + ['}'];
            e[..3] == open && e[|e| - 1] == '}' && e[3..|e| - 1] == digits
  {
  }

  /** A safe character is kept. */
  lemma {:induction false} SafeKept(c: char)
    requires SafeChar(c)
    ensures Escape([c]) == [c]
  {
    EscapeSingle(c);
  }

  /** Another becomes its number in hexadecimal, in braces, */
  lemma {:induction false} UnsafeEscaped(c: char)
    requires !SafeChar(c) && c != '\t' && c != '\r' && c != '\n'
    ensures var e := Escape([c]);
            |e| > 4 && e[..3] == "\\u{" && e[|e| - 1] == '}' && HexValue(e[3..|e| - 1]) == c as int
  {
    EscapeSingle(c);
    HexReads(c as int);
    Braced(['\\', 'u', '{'], Hex(c as int));
    assert "\\u{" == ['\\', 'u', '{'];
  }

  /** but for tabs and the ends of lines. */
  lemma {:induction false} LineEndsEscaped()
    ensures Escape(['\t']) == "\\t" && Escape(['\r']) == "\\r" && Escape(['\n']) == "\\n"
  {
    EscapeSingle('\t');
    EscapeSingle('\r');
    EscapeSingle('\n');
  }

  // ----- reading any text -----

  /** A line is split at its first space. */
  lemma {:induction false} SplitOnceIff(s: string, w: string, v: string)
    ensures SplitOnce(s) == Some((w, v)) <==> ' ' !in w && s == w + ([' '] + v)
  {
    if SplitOnce(s) == Some((w, v)) {
      SplitFound(s);
    }
    if ' ' !in w && s == w + ([' '] + v) {
      SplitAt(w, v);
    }
  }

  lemma {:induction false} SplitFound(s: string)
    requires SplitOnce(s).Some?
    ensures ' ' !in SplitOnce(s).value.0 && s == SplitOnce(s).value.0 + ([' '] + SplitOnce(s).value.1)
  {
    if s[0] == ' ' {
      assert s == [] + ([' '] + s[1..]);
    } else {
      SplitFound(s[1..]);
      var (a, b) := SplitOnce(s[1..]).value;
      assert s == [s[0]] + s[1..];
      assert [s[0]] + (a + ([' '] + b)) == ([s[0]] + a) + ([' '] + b);
    }
  }

  lemma {:induction false} SplitAt(w: string, v: string)
    requires ' ' !in w
    ensures SplitOnce(w + ([' '] + v)) == Some((w, v))
  {
    var s := w + ([' '] + v);
    if w == [] {
      assert s == [' '] + v && s[1..] == v;
    } else {
      SplitAt(w[1..], v);
      assert s[1..] == w[1..] + ([' '] + v) && [w[0]] + w[1..] == w;
    }
  }

  /** A rule is read exactly from its directive and safe text after one space. */
  lemma {:induction false} RuleReadIff<P, F, T>(codec: Codec<P, F, T>, line: string, v: string)
    ensures ReadLine(codec, line) == Some(EgressItem(v)) <==> Trim(line) == "egress" + ([' '] + v) && SafeText(v)
  {
    if Trim(line) == "egress" + ([' '] + v) {
      DirectiveRead(codec, line, Egress, v);
    }
    if ReadLine(codec, line) == Some(EgressItem(v)) {
      var (w, u) := SplitOnce(Trim(line)).value;
      SplitOnceIff(Trim(line), w, u);
      KindOnly(w, Egress);
    }
  }

  lemma {:induction false} KindOnly(w: string, k: Kind)
    ensures KindOf(w) == Some(k) <==> w == Word(k)
  {
    KindOfWord(k);
  }

  lemma {:induction false} DirectiveRead<P, F, T>(codec: Codec<P, F, T>, line: string, k: Kind, v: string)
    requires Trim(line) == Word(k) + ([' '] + v)
    ensures ReadLine(codec, line) == ReadValue(codec, k, v)
  {
    WordUnspaced(k);
    SplitAt(Word(k), v);
    KindOfWord(k);
  }

  lemma {:induction false} WordUnspaced(k: Kind)
    ensures ' ' !in Word(k)
  {
  }

  /** A directive of no kind known here is passed over. */
  lemma {:induction false} UnknownIgnored<P, F, T>(codec: Codec<P, F, T>, line: string, w: string, v: string)
    requires Trim(line) == w + ([' '] + v) && ' ' !in w && forall k :: w != Word(k)
    ensures ReadLine(codec, line) == None
  {
    SplitAt(w, v);
    if KindOf(w).Some? {
      KindOnly(w, KindOf(w).value);
    }
  }
}
