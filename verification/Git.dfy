/**
 * Git-aware classification of tree paths (`crates/synch-core/src/git.rs`): where the innermost git directory of a
 * path ends. The class of the part inside it is the parameter `classOf`.
 */
module Git {
  import opened Bytes
  import opened Text

  const DOT_GIT: Bytes := [0x2E, 0x67, 0x69, 0x74]
  const WORKTREES: Bytes := [0x77, 0x6F, 0x72, 0x6B, 0x74, 0x72, 0x65, 0x65, 0x73]
  const MODULES: Bytes := [0x6D, 0x6F, 0x64, 0x75, 0x6C, 0x65, 0x73]

  datatype GitPath<C> = Pointer(path: Bytes) | Inside(root: Bytes, inner: Bytes, class_: C)

  predicate EndsWith(b: Bytes, tail: Bytes) {
    |tail| <= |b| && b[|b| - |tail|..] == tail
  }

  /** A component that opens a git directory: `.git`, or a bare repository's name anywhere but last. */
  predicate Opens(part: Bytes, isLast: bool) {
    part == DOT_GIT || (!isLast && |part| > 4 && EndsWith(part, DOT_GIT))
  }

  predicate OpensAt(parts: seq<Bytes>, i: nat)
    requires i < |parts|
  {
    Opens(parts[i], i == |parts| - 1)
  }

  // ----- the reference -----

  /** The first component that opens a root. */
  function FirstOpen(parts: seq<Bytes>, i: nat): (r: nat)
    requires i <= |parts|
    ensures i <= r <= |parts|
    ensures forall j :: i <= j < r ==> !OpensAt(parts, j)
    ensures r < |parts| ==> OpensAt(parts, r)
    decreases |parts| - i
  {
    if i == |parts| || OpensAt(parts, i) then i else FirstOpen(parts, i + 1)
  }

  /** The end of a submodule's name: it runs up to a name git keeps at the top, and leaves one component inside. */
  function NameEnd(parts: seq<Bytes>, top: set<Bytes>, i: nat): (r: nat)
    requires i + 1 < |parts|
    ensures i <= r && r + 1 < |parts|
    decreases |parts| - i
  {
    if i + 2 < |parts| && parts[i + 1] !in top then NameEnd(parts, top, i + 1) else i
  }

  /** How many components the innermost root has, given that the first `k` make one. */
  function Innermost(parts: seq<Bytes>, top: set<Bytes>, k: nat): (r: nat)
    requires 0 < k < |parts|
    ensures k <= r < |parts|
    decreases |parts| - k
  {
    if parts[k] == WORKTREES && k + 2 < |parts| then Innermost(parts, top, k + 2)
    else if parts[k] == MODULES && k + 2 < |parts| then Innermost(parts, top, NameEnd(parts, top, k + 1) + 1)
    else k
  }

  datatype Extent = Outside | Final | Root(length: nat)

  /** The components of a path that make up its root. */
  function RootOf(parts: seq<Bytes>, top: set<Bytes>): Extent {
    var i := FirstOpen(parts, 0);
    if i == |parts| then Outside
    else if i == |parts| - 1 then Final
    else Root(Innermost(parts, top, i + 1))
  }

  // ----- the scan -----

  predicate IsSpan(path: Bytes, span: (nat, nat), part: Bytes) {
    span.0 <= span.1 <= |path| && path[span.0..span.1] == part
  }

  /** The spans hold the parts one after another from the start, a slash between each two. */
  predicate Located(path: Bytes, spans: seq<(nat, nat)>, parts: seq<Bytes>) {
    && |spans| == |parts|
    && (forall i :: 0 <= i < |spans| ==> IsSpan(path, spans[i], parts[i]))
    && (forall i :: 0 < i < |spans| ==> spans[i].0 == spans[i - 1].1 + 1)
    && (spans != [] ==> spans[0].0 == 0)
  }

  function Next(spans: seq<(nat, nat)>): nat {
    if spans == [] then 0 else spans[|spans| - 1].1 + 1
  }

  lemma {:induction false} LocatedPush(path: Bytes, spans: seq<(nat, nat)>, parts: seq<Bytes>, i: nat)
    requires Located(path, spans, parts) && Next(spans) <= i <= |path|
    ensures Located(path, spans + [(Next(spans), i)], parts + [path[Next(spans)..i]])
  {
  }

  lemma {:induction false} SplitPush(whole: seq<Bytes>, done: seq<Bytes>, part: Bytes, rest: Bytes)
    requires SLASH !in part && whole == done + Split(part + [SLASH] + rest)
    ensures whole == (done + [part]) + Split(rest)
  {
    SplitFirst(part, rest);
    Reassociate(done, part, Split(rest));
  }

  lemma {:induction false} Reassociate(a: seq<Bytes>, x: Bytes, b: seq<Bytes>)
    ensures a + ([x] + b) == (a + [x]) + b
  {
  }

  lemma {:induction false} Cut(path: Bytes, start: nat, i: nat)
    requires start <= i < |path| && path[i] == SLASH
    ensures path[start..] == path[start..i] + [SLASH] + path[i + 1..]
  {
  }

  /** The components that end before `i` are located, and the one that began last goes on. */
  ghost predicate Progress(path: Bytes, spans: seq<(nat, nat)>, done: seq<Bytes>, whole: seq<Bytes>, i: nat) {
    && Next(spans) <= i <= |path|
    && SLASH !in path[Next(spans)..i]
    && Located(path, spans, done)
    && whole == done + Split(path[Next(spans)..])
  }

  lemma {:induction false} AtSlash(path: Bytes, spans: seq<(nat, nat)>, done: seq<Bytes>, whole: seq<Bytes>, i: nat)
    requires Progress(path, spans, done, whole, i) && i < |path| && path[i] == SLASH
    ensures Progress(path, spans + [(Next(spans), i)], done + [path[Next(spans)..i]], whole, i + 1)
  {
    var start := Next(spans);
    assert whole == (done + [path[start..i]]) + Split(path[i + 1..]) by {
      Cut(path, start, i);
      SplitPush(whole, done, path[start..i], path[i + 1..]);
    }
    LocatedPush(path, spans, done, i);
    assert path[i + 1..i + 1] == [];
  }

  lemma {:induction false} PastByte(path: Bytes, spans: seq<(nat, nat)>, done: seq<Bytes>, whole: seq<Bytes>, i: nat)
    requires Progress(path, spans, done, whole, i) && i < |path| && path[i] != SLASH
    ensures Progress(path, spans, done, whole, i + 1)
  {
    assert path[Next(spans)..i + 1] == path[Next(spans)..i] + [path[i]];
  }

  lemma {:induction false} AtEnd(path: Bytes, spans: seq<(nat, nat)>, done: seq<Bytes>, whole: seq<Bytes>)
    requires Progress(path, spans, done, whole, |path|)
    ensures Located(path, spans + [(Next(spans), |path|)], whole)
  {
    var rest := path[Next(spans)..];
    assert path[Next(spans)..|path|] == rest;
    SplitFirst(rest, []);
    LocatedPush(path, spans, done, |path|);
  }

  /** Where each component of a path starts and ends, in bytes. */
  method Components(path: Bytes, ghost whole: seq<Bytes>) returns (spans: seq<(nat, nat)>)
    requires whole == Split(path)
    ensures Located(path, spans, whole) && Next(spans) == |path| + 1
  {
    spans := [];
    var start := 0;
    ghost var done: seq<Bytes> := [];
    assert path[0..] == path && done + whole == whole;
    for i := 0 to |path|
      invariant start == Next(spans) && Progress(path, spans, done, whole, i)
    {
      if path[i] == SLASH {
        AtSlash(path, spans, done, whole, i);
        done := done + [path[start..i]];
        spans := spans + [(start, i)];
        start := i + 1;
      } else {
        PastByte(path, spans, done, whole, i);
      }
    }
    AtEnd(path, spans, done, whole);
    spans := spans + [(start, |path|)];
  }

  /** The name of component `i`. */
  function NameAt(path: Bytes, spans: seq<(nat, nat)>, i: nat): Bytes
    requires i < |spans| && spans[i].0 <= spans[i].1 <= |path|
  {
    path[spans[i].0..spans[i].1]
  }

  /** A path up to the end of one component is the components up to it. */
  lemma {:induction false} RootText(path: Bytes, spans: seq<(nat, nat)>, k: nat)
    requires Located(path, spans, Split(path)) && 0 < k < |spans|
    ensures spans[k - 1].1 < |path|
    ensures path[..spans[k - 1].1] == Join(Split(path)[..k]) && path[spans[k - 1].1 + 1..] == Join(Split(path)[k..])
  {
    var parts := Split(path);
    SpanEnd(path, spans, parts, k);
    assert path == Join(parts) by {
      JoinSplit(path);
    }
    JoinCut(path, parts, k);
  }

  lemma {:induction false} JoinCut(path: Bytes, parts: seq<Bytes>, k: nat)
    requires 0 < k < |parts| && path == Join(parts)
    ensures var n := |Join(parts[..k])|;
            n < |path| && path[..n] == Join(parts[..k]) && path[n + 1..] == Join(parts[k..])
  {
    var front, back := parts[..k], parts[k..];
    assert parts == front + back;
    JoinConcat(front, back);
  }

  /** The end of a component is the length of the text up to it. */
  lemma {:induction false} SpanEnd(path: Bytes, spans: seq<(nat, nat)>, parts: seq<Bytes>, k: nat)
    requires Located(path, spans, parts) && 0 < k <= |parts|
    ensures spans[k - 1].1 == |Join(parts[..k])|
  {
    assert IsSpan(path, spans[k - 1], parts[k - 1]);
    if k == 1 {
      assert parts[..1] == [parts[0]];
    } else {
      SpanEnd(path, spans, parts, k - 1);
      assert parts[..k] == parts[..k - 1] + [parts[k - 1]];
      JoinConcat(parts[..k - 1], [parts[k - 1]]);
    }
  }

  /** What `classify` answers, by components. */
  function Classified<C>(path: Bytes, top: set<Bytes>, classOf: Bytes -> C): Option<GitPath<C>> {
    var parts := Split(path);
    match RootOf(parts, top)
    case Outside => None
    case Final => Some(Pointer(path))
    case Root(k) =>
      if 0 < k < |parts| then Some(Inside(Join(parts[..k]), Join(parts[k..]), classOf(Join(parts[k..])))) else None
  }

  lemma {:induction false} StartsGrow(path: Bytes, spans: seq<(nat, nat)>, parts: seq<Bytes>, k: nat, i: nat)
    requires Located(path, spans, parts) && k < i < |spans|
    ensures spans[k].0 < spans[i].0
    decreases i
  {
    assert IsSpan(path, spans[i - 1], parts[i - 1]);
    if k < i - 1 {
      StartsGrow(path, spans, parts, k, i - 1);
    }
  }

  /** The loop for a submodule's name. */
  method FindNameEnd(path: Bytes, spans: seq<(nat, nat)>, ghost parts: seq<Bytes>, top: set<Bytes>, i: nat)
    returns (nameEnd: nat)
    requires Located(path, spans, parts) && i + 1 < |spans|
    ensures nameEnd == NameEnd(parts, top, i)
  {
    var last := |spans| - 1;
    nameEnd := i;
    while nameEnd + 1 < last
      invariant nameEnd + 1 < |spans| && NameEnd(parts, top, nameEnd) == NameEnd(parts, top, i)
      decreases last - nameEnd
    {
      assert IsSpan(path, spans[nameEnd + 1], parts[nameEnd + 1]);
      if NameAt(path, spans, nameEnd + 1) in top {
        break;
      }
      nameEnd := nameEnd + 1;
    }
  }

  /** The scan so far: nothing opened, or a root of `k` components with `i` at or past its first inner component. */
  ghost predicate Scanned(parts: seq<Bytes>, top: set<Bytes>, i: nat, open: bool, k: nat)
    requires i <= |parts|
  {
    if !open then FirstOpen(parts, 0) == FirstOpen(parts, i)
    else 0 < k < |parts| && k <= i && RootOf(parts, top) == Root(if i == k then Innermost(parts, top, k) else k)
  }

  /** One turn of the scan inside a root. */
  method Nested(path: Bytes, spans: seq<(nat, nat)>, ghost parts: seq<Bytes>, top: set<Bytes>, i: nat, end: nat,
                ghost k: nat)
      returns (next: nat, end': nat, ghost k': nat)
    requires Located(path, spans, parts) && i < |spans| && Scanned(parts, top, i, true, k) && end == spans[k - 1].1
    ensures i < next <= |spans| && Scanned(parts, top, next, true, k') && end' == spans[k' - 1].1
  {
    var last := |spans| - 1;
    assert IsSpan(path, spans[i], parts[i]);
    if k < i {
      StartsGrow(path, spans, parts, k, i);
    }
    var component, firstInside := NameAt(path, spans, i), spans[i].0 == end + 1;
    if firstInside && component == WORKTREES && i + 2 <= last {
      return i + 2, spans[i + 1].1, k + 2;
    }
    if firstInside && component == MODULES && i + 2 <= last {
      var nameEnd := FindNameEnd(path, spans, parts, top, i + 1);
      return nameEnd + 1, spans[nameEnd].1, nameEnd + 1;
    }
    return i + 1, end, k;
  }

  /** The scan of the components: the end of the innermost root, or that the path is a final `.git`. */
  method Scan(path: Bytes, spans: seq<(nat, nat)>, ghost parts: seq<Bytes>, top: set<Bytes>)
      returns (pointer: bool, rootEnd: Option<nat>, ghost k: nat)
    requires Located(path, spans, parts)
    ensures pointer <==> RootOf(parts, top) == Final
    ensures !pointer ==> (rootEnd.None? <==> RootOf(parts, top) == Outside)
    ensures !pointer && rootEnd.Some? ==>
              0 < k < |parts| && RootOf(parts, top) == Root(k) && rootEnd.value == spans[k - 1].1
  {
    pointer, rootEnd, k := false, None, 0;
    var i := 0;
    while i < |spans|
      invariant i <= |spans| && Scanned(parts, top, i, rootEnd.Some?, k)
      invariant rootEnd.Some? ==> rootEnd.value == spans[k - 1].1
      decreases |spans| - i
    {
      match rootEnd {
        case None =>
          assert IsSpan(path, spans[i], parts[i]);
          var component := NameAt(path, spans, i);
          if component == DOT_GIT {
            if i == |spans| - 1 {
              return true, None, 0;
            }
            rootEnd, k := Some(spans[i].1), i + 1;
          } else if i < |spans| - 1 && |component| > 4 && EndsWith(component, DOT_GIT) {
            rootEnd, k := Some(spans[i].1), i + 1;
          }
          i := i + 1;
        case Some(end) =>
          var end';
          i, end', k := Nested(path, spans, parts, top, i, end, k);
          rootEnd := Some(end');
      }
    }
  }

  method Classify<C>(path: Bytes, top: set<Bytes>, classOf: Bytes -> C) returns (r: Option<GitPath<C>>)
    ensures r == Classified(path, top, classOf)
  {
    ghost var parts := Split(path);
    var spans := Components(path, parts);
    var pointer, rootEnd;
    ghost var k;
    pointer, rootEnd, k := Scan(path, spans, parts, top);
    if pointer {
      return Some(Pointer(path));
    }
    if rootEnd.None? {
      return None;
    }
    RootText(path, spans, k);
    var end := rootEnd.value;
    var inner := if end < |path| then path[end + 1..] else [];
    r := Some(Inside(path[..end], inner, classOf(inner)));
  }

  // ----- what a classification says -----

  /**
   * An accepted path is a final `.git` alone, or its root, a slash and what is inside, of the class of that; what is
   * inside a path of whole components is not empty.
   */
  lemma {:induction false} ClassifiedParts<C>(path: Bytes, top: set<Bytes>, classOf: Bytes -> C)
    requires Classified(path, top, classOf).Some?
    ensures match Classified(path, top, classOf).value
            case Pointer(p) => p == path && Split(path)[|Split(path)| - 1] == DOT_GIT
            case Inside(root, inner, c) =>
              path == root + [SLASH] + inner && c == classOf(inner) && Split(path) == Split(root) + Split(inner)
              && (WholeComponents(Split(path)) ==> inner != [])
  {
    var parts := Split(path);
    if RootOf(parts, top).Root? {
      var k := RootOf(parts, top).length;
      var front, back := parts[..k], parts[k..];
      JoinSplit(path);
      assert parts == front + back;
      JoinConcat(front, back);
      SplitJoin(front);
      SplitJoin(back);
      LastWhole(parts, k, Join(back));
    }
  }

  predicate WholeComponents(parts: seq<Bytes>) {
    forall j :: 0 <= j < |parts| ==> parts[j] != []
  }

  lemma {:induction false} LastWhole(parts: seq<Bytes>, k: nat, inner: Bytes)
    requires k < |parts| && Split(inner) == parts[k..]
    ensures WholeComponents(parts) ==> inner != []
  {
    if inner == [] {
      assert Split(inner) == [inner];
      assert parts[k..][0] == parts[k];
    }
  }

  /** `.git`, or a longer name that ends in it and is not the last of its path. */
  predicate RootName(parts: seq<Bytes>, i: nat)
    requires i < |parts|
  {
    || parts[i] == [0x2E, 0x67, 0x69, 0x74]
    || (i + 1 < |parts| && |parts[i]| > 4 && parts[i][|parts[i]| - 4..] == [0x2E, 0x67, 0x69, 0x74])
  }

  /** Component `i` is the first that names a root. */
  predicate FirstRoot(parts: seq<Bytes>, i: nat) {
    i < |parts| && RootName(parts, i) && forall j :: 0 <= j < i ==> !RootName(parts, j)
  }

  predicate NoRootName(parts: seq<Bytes>) {
    forall i :: 0 <= i < |parts| ==> !RootName(parts, i)
  }

  lemma {:induction false} NoRootIff(parts: seq<Bytes>)
    ensures FirstOpen(parts, 0) == |parts| <==> NoRootName(parts)
  {
    var i := FirstOpen(parts, 0);
    assert forall j :: 0 <= j < |parts| ==> OpensAt(parts, j) == RootName(parts, j);
    assert i < |parts| ==> RootName(parts, i);
  }

  /** A path is outside exactly when no component names a root. */
  lemma {:induction false} OutsideIff<C>(path: Bytes, top: set<Bytes>, classOf: Bytes -> C)
    ensures Classified(path, top, classOf).None? <==> NoRootName(Split(path))
  {
    var parts := Split(path);
    NoRootIff(parts);
    assert Classified(path, top, classOf).None? <==> FirstOpen(parts, 0) == |parts|;
  }

  // ----- how far a root reaches -----

  /**
   * A root of `k` components goes on to one of `n`: a linked worktree of one name, or a submodule, whose name runs up
   * to a name git keeps at the top or to the last component.
   */
  predicate Deepens(parts: seq<Bytes>, top: set<Bytes>, k: nat, n: nat) {
    && k + 2 <= n < |parts|
    && ( || (parts[k] == [0x77, 0x6F, 0x72, 0x6B, 0x74, 0x72, 0x65, 0x65, 0x73] && n == k + 2)
         || (&& parts[k] == [0x6D, 0x6F, 0x64, 0x75, 0x6C, 0x65, 0x73]
             && (forall j :: k + 2 <= j < n ==> parts[j] !in top)
             && (parts[n] in top || n == |parts| - 1)))
  }

  ghost predicate Rests(parts: seq<Bytes>, top: set<Bytes>, k: nat) {
    forall n :: !Deepens(parts, top, k, n)
  }

  /** The roots of a path from the first one on, each inside the one before. */
  predicate Reaches(parts: seq<Bytes>, top: set<Bytes>, cuts: seq<nat>) {
    && cuts != [] && 0 < cuts[0] < |parts| && FirstRoot(parts, cuts[0] - 1)
    && forall i :: 0 < i < |cuts| ==> Deepens(parts, top, cuts[i - 1], cuts[i])
  }

  lemma {:induction false} NameEndIff(parts: seq<Bytes>, top: set<Bytes>, i: nat, r: nat)
    requires i + 1 < |parts|
    ensures NameEnd(parts, top, i) == r
       <==> i <= r < |parts| - 1 && (forall j :: i < j <= r ==> parts[j] !in top)
            && (r + 2 == |parts| || parts[r + 1] in top)
    decreases |parts| - i
  {
    if i + 2 < |parts| && parts[i + 1] !in top {
      NameEndIff(parts, top, i + 1, r);
    }
  }

  /** One turn of the rules, if there is one. */
  lemma {:induction false} DeepensIff(parts: seq<Bytes>, top: set<Bytes>, k: nat, n: nat)
    requires 0 < k < |parts|
    ensures Deepens(parts, top, k, n) ==> Innermost(parts, top, k) == Innermost(parts, top, n)
    ensures (parts[k] == WORKTREES || parts[k] == MODULES) && k + 2 < |parts| ==> exists m :: Deepens(parts, top, k, m)
    ensures !((parts[k] == WORKTREES || parts[k] == MODULES) && k + 2 < |parts|) ==> Innermost(parts, top, k) == k
  {
    if parts[k] == WORKTREES && k + 2 < |parts| {
      assert Deepens(parts, top, k, k + 2);
    } else if parts[k] == MODULES && k + 2 < |parts| {
      var r := NameEnd(parts, top, k + 1);
      NameEndIff(parts, top, k + 1, r);
      assert Deepens(parts, top, k, r + 1);
      if Deepens(parts, top, k, n) {
        NameEndIff(parts, top, k + 1, n - 1);
      }
    }
  }

  lemma {:induction false} ReachesInnermost(parts: seq<Bytes>, top: set<Bytes>, cuts: seq<nat>)
    requires Reaches(parts, top, cuts)
    ensures var last := cuts[|cuts| - 1];
            0 < last < |parts| && Innermost(parts, top, cuts[0]) == Innermost(parts, top, last)
    decreases |cuts|
  {
    if |cuts| > 1 {
      var front, last := cuts[..|cuts| - 1], cuts[|cuts| - 1];
      ReachesInnermost(parts, top, front);
      assert Deepens(parts, top, cuts[|cuts| - 2], last);
      DeepensIff(parts, top, cuts[|cuts| - 2], last);
    }
  }

  lemma {:induction false} FirstRootOpen(parts: seq<Bytes>, i: nat)
    requires FirstRoot(parts, i)
    ensures FirstOpen(parts, 0) == i
  {
    var f := FirstOpen(parts, 0);
    assert OpensAt(parts, i) == RootName(parts, i);
    assert f < |parts| ==> OpensAt(parts, f) == RootName(parts, f);
  }

  /** It is a pointer exactly when the first component that names a root is the last. */
  lemma {:induction false} PointerIff<C>(path: Bytes, top: set<Bytes>, classOf: Bytes -> C)
    ensures Classified(path, top, classOf) == Some(Pointer(path)) <==> FirstRoot(Split(path), |Split(path)| - 1)
  {
    var parts := Split(path);
    var i := FirstOpen(parts, 0);
    if FirstRoot(parts, |parts| - 1) {
      FirstRootOpen(parts, |parts| - 1);
    } else if i == |parts| - 1 {
      assert forall j :: 0 <= j <= i ==> OpensAt(parts, j) == RootName(parts, j);
      assert FirstRoot(parts, i);
    }
  }

  /** Where the rules reach and go no further is where the root ends. */
  lemma {:induction false} ReachedIsRoot(parts: seq<Bytes>, top: set<Bytes>, cuts: seq<nat>)
    requires Reaches(parts, top, cuts) && Rests(parts, top, cuts[|cuts| - 1])
    ensures RootOf(parts, top) == Root(cuts[|cuts| - 1])
  {
    FirstRootOpen(parts, cuts[0] - 1);
    ReachesInnermost(parts, top, cuts);
    DeepensIff(parts, top, cuts[|cuts| - 1], 0);
  }

  lemma {:induction false} ReachFrom(parts: seq<Bytes>, top: set<Bytes>, cuts: seq<nat>) returns (all: seq<nat>)
    requires Reaches(parts, top, cuts)
    ensures Reaches(parts, top, all) && all[|all| - 1] == Innermost(parts, top, cuts[0])
    ensures Rests(parts, top, all[|all| - 1])
    decreases |parts| - cuts[|cuts| - 1]
  {
    var k := cuts[|cuts| - 1];
    ReachesInnermost(parts, top, cuts);
    DeepensIff(parts, top, k, 0);
    if (parts[k] == WORKTREES || parts[k] == MODULES) && k + 2 < |parts| {
      var n :| Deepens(parts, top, k, n);
      all := ReachFrom(parts, top, cuts + [n]);
    } else {
      all := cuts;
    }
  }

  /** And every root ends where the rules reach and go no further. */
  lemma {:induction false} RootIsReached(parts: seq<Bytes>, top: set<Bytes>) returns (cuts: seq<nat>)
    requires RootOf(parts, top).Root?
    ensures Reaches(parts, top, cuts) && RootOf(parts, top) == Root(cuts[|cuts| - 1])
    ensures Rests(parts, top, cuts[|cuts| - 1])
  {
    var i := FirstOpen(parts, 0);
    assert forall j :: 0 <= j <= i ==> OpensAt(parts, j) == RootName(parts, j);
    cuts := ReachFrom(parts, top, [i + 1]);
    var first := [i + 1];
    assert Reaches(parts, top, first) && first[0] == i + 1;
  }

  /** A path cut where the rules reach and go no further: the root before the cut, the rest inside. */
  lemma {:induction false} ReachedClassified<C>(
    front: seq<Bytes>, back: seq<Bytes>, top: set<Bytes>, classOf: Bytes -> C, cuts: seq<nat>)
    requires front != [] && back != [] && NoSlash(front + back) && Reaches(front + back, top, cuts)
    requires cuts[|cuts| - 1] == |front| && Rests(front + back, top, |front|)
    ensures Classified(Join(front + back), top, classOf) == Some(Inside(Join(front), Join(back), classOf(Join(back))))
  {
    var parts := front + back;
    SplitJoin(parts);
    ReachedIsRoot(parts, top, cuts);
    assert parts[..|front|] == front && parts[|front|..] == back;
  }

  /** Nothing at the start of what is inside opens another root. */
  predicate Plain(inner: seq<Bytes>) {
    inner != [] && (|inner| > 2 ==> inner[0] != WORKTREES && inner[0] != MODULES)
  }

  lemma {:induction false} PlainRests(front: seq<Bytes>, inner: seq<Bytes>, top: set<Bytes>)
    requires Plain(inner)
    ensures Rests(front + inner, top, |front|)
  {
    assert (front + inner)[|front|] == inner[0];
  }

  /** A submodule's directory under a root is a root: the name ends before the first name git keeps at the top. */
  lemma {:induction false} SubmoduleRoot<C>(
    root: seq<Bytes>, name: seq<Bytes>, inner: seq<Bytes>, top: set<Bytes>, classOf: Bytes -> C, cuts: seq<nat>)
    requires name != [] && (forall j :: 1 <= j < |name| ==> name[j] !in top)
    requires Plain(inner) && (inner[0] in top || |inner| == 1)
    requires var path := root + [MODULES] + name + inner;
             NoSlash(path) && Reaches(path, top, cuts) && cuts[|cuts| - 1] == |root|
    ensures var front := root + [MODULES] + name;
            Classified(Join(front + inner), top, classOf)
            == Some(Inside(Join(front), Join(inner), classOf(Join(inner))))
  {
    var front := root + [MODULES] + name;
    var parts := front + inner;
    assert parts[|root|] == MODULES && parts[|front|] == inner[0];
    assert forall j :: |root| + 2 <= j < |front| ==> parts[j] == name[j - |root| - 1];
    assert Deepens(parts, top, |root|, |front|);
    PlainRests(front, inner, top);
    ReachedClassified(front, inner, top, classOf, cuts + [|front|]);
  }

  /** So is a linked worktree's, whose name is one component. */
  lemma {:induction false} WorktreeRoot<C>(
    root: seq<Bytes>, name: Bytes, inner: seq<Bytes>, top: set<Bytes>, classOf: Bytes -> C, cuts: seq<nat>)
    requires Plain(inner)
    requires var path := root + [WORKTREES, name] + inner;
             NoSlash(path) && Reaches(path, top, cuts) && cuts[|cuts| - 1] == |root|
    ensures var front := root + [WORKTREES, name];
            Classified(Join(front + inner), top, classOf)
            == Some(Inside(Join(front), Join(inner), classOf(Join(inner))))
  {
    var front := root + [WORKTREES, name];
    var parts := front + inner;
    assert parts[|root|] == WORKTREES;
    assert Deepens(parts, top, |root|, |front|);
    PlainRests(front, inner, top);
    ReachedClassified(front, inner, top, classOf, cuts + [|front|]);
  }

  predicate OpensNothing(dirs: seq<Bytes>) {
    forall j :: 0 <= j < |dirs| ==> !Opens(dirs[j], false)
  }

  lemma {:induction false} FirstOpenAfter(dirs: seq<Bytes>, parts: seq<Bytes>, i: nat)
    requires parts != [] && i <= |parts|
    ensures FirstOpen(dirs + parts, |dirs| + i) == |dirs| + FirstOpen(parts, i)
    decreases |parts| - i
  {
    if i < |parts| && !OpensAt(parts, i) {
      FirstOpenAfter(dirs, parts, i + 1);
      assert (dirs + parts)[|dirs| + i] == parts[i];
    } else if i < |parts| {
      assert (dirs + parts)[|dirs| + i] == parts[i];
    }
  }

  lemma {:induction false} FirstOpenSkips(dirs: seq<Bytes>, parts: seq<Bytes>, i: nat)
    requires OpensNothing(dirs) && parts != [] && i <= |dirs|
    ensures FirstOpen(dirs + parts, i) == FirstOpen(dirs + parts, |dirs|)
    decreases |dirs| - i
  {
    if i < |dirs| {
      assert (dirs + parts)[i] == dirs[i];
      FirstOpenSkips(dirs, parts, i + 1);
    }
  }

  lemma {:induction false} NameEndAfter(dirs: seq<Bytes>, parts: seq<Bytes>, top: set<Bytes>, i: nat)
    requires i + 1 < |parts|
    ensures NameEnd(dirs + parts, top, |dirs| + i) == |dirs| + NameEnd(parts, top, i)
    decreases |parts| - i
  {
    assert (dirs + parts)[|dirs| + i + 1] == parts[i + 1];
    if i + 2 < |parts| && parts[i + 1] !in top {
      NameEndAfter(dirs, parts, top, i + 1);
    }
  }

  lemma {:induction false} InnermostAfter(dirs: seq<Bytes>, parts: seq<Bytes>, top: set<Bytes>, k: nat)
    requires 0 < k < |parts|
    ensures Innermost(dirs + parts, top, |dirs| + k) == |dirs| + Innermost(parts, top, k)
    decreases |parts| - k
  {
    assert (dirs + parts)[|dirs| + k] == parts[k];
    if parts[k] == WORKTREES && k + 2 < |parts| {
      InnermostAfter(dirs, parts, top, k + 2);
    } else if parts[k] == MODULES && k + 2 < |parts| {
      NameEndAfter(dirs, parts, top, k + 1);
      InnermostAfter(dirs, parts, top, NameEnd(parts, top, k + 1) + 1);
    }
  }

  lemma {:induction false} RootOfAfter(dirs: seq<Bytes>, parts: seq<Bytes>, top: set<Bytes>)
    requires OpensNothing(dirs) && parts != []
    ensures RootOf(dirs + parts, top) == match RootOf(parts, top)
                                         case Root(k) => Root(|dirs| + k)
                                         case other => other
  {
    FirstOpenSkips(dirs, parts, 0);
    FirstOpenAfter(dirs, parts, 0);
    var i := FirstOpen(parts, 0);
    if i < |parts| - 1 {
      InnermostAfter(dirs, parts, top, i + 1);
    }
  }

  lemma {:induction false} JoinAfter(dir: Bytes, parts: seq<Bytes>, k: nat)
    requires 0 < k < |parts|
    ensures Join((Split(dir) + parts)[..|Split(dir)| + k]) == dir + [SLASH] + Join(parts[..k])
    ensures (Split(dir) + parts)[|Split(dir)| + k..] == parts[k..]
  {
    var dirs := Split(dir);
    assert (dirs + parts)[..|dirs| + k] == dirs + parts[..k];
    JoinConcat(dirs, parts[..k]);
    JoinSplit(dir);
  }

  /** Directories above that open no root only lengthen the root: what is inside, and its class, stay the same. */
  lemma {:induction false} PrefixOnlyLengthens<C>(dir: Bytes, path: Bytes, top: set<Bytes>, classOf: Bytes -> C)
    requires OpensNothing(Split(dir))
    ensures Classified(dir + [SLASH] + path, top, classOf)
         == match Classified(path, top, classOf)
            case None => None
            case Some(Pointer(p)) => Some(Pointer(dir + [SLASH] + p))
            case Some(Inside(root, inner, c)) => Some(Inside(dir + [SLASH] + root, inner, c))
  {
    var dirs, parts := Split(dir), Split(path);
    SplitConcat(dir, path);
    RootOfAfter(dirs, parts, top);
    match RootOf(parts, top)
    case Outside =>
    case Final =>
    case Root(k) => JoinAfter(dir, parts, k);
  }
}
