/**
 * Canonical paths (`crates/synch-core/src/path.rs`) and the `f:` keyspace (`crates/synch-core/src/record.rs`).
 * Strings are their UTF-8 bytes. Unicode's canonical composition is the parameter `nfc`.
 */
module Keys {
  import opened Words
  import opened Bytes
  import opened Text

  const MAX_KEY_LEN := 4096
  const PREFIX_FILE: u8 := 0x66
  const COLON: u8 := 0x3A

  datatype PathError = Empty | LeadingSlash | EmptyComponent | DotComponent | ControlCharacter | PathTooLong

  datatype KeyError = BadSpace | BadPath(error: PathError) | Malformed | KeyTooLong

  datatype Try<+T, +E> = Good(value: T) | Bad(error: E)

  /** What is used of composition: it is idempotent, keeps text valid, and makes no control characters. */
  ghost predicate Composes(nfc: Bytes -> Bytes) {
    forall b: Bytes :: nfc(nfc(b)) == nfc(b) && (Utf8(b) ==> Utf8(nfc(b))) && (!HasControl(b) ==> !HasControl(nfc(b)))
  }

  // ----- paths -----

  predicate IsDot(c: Bytes) {
    c == [DOT] || c == [DOT, DOT]
  }

  /** What is wrong with the first bad component. */
  function FirstBad(parts: seq<Bytes>): Option<PathError> {
    if parts == [] then None
    else if parts[0] == [] then Some(EmptyComponent)
    else if IsDot(parts[0]) then Some(DotComponent)
    else FirstBad(parts[1..])
  }

  function Normalize(nfc: Bytes -> Bytes, path: Bytes): Try<Bytes, PathError> {
    if path == [] then Bad(Empty)
    else if path[0] == SLASH then Bad(LeadingSlash)
    else if HasControl(path) then Bad(ControlCharacter)
    else
      match FirstBad(Split(nfc(path)))
      case Some(e) => Bad(e)
      case None => if |nfc(path)| > MAX_KEY_LEN then Bad(PathTooLong) else Good(nfc(path))
  }

  lemma {:induction false} FirstBadSplit(parts: seq<Bytes>, i: nat)
    requires i <= |parts|
    ensures FirstBad(parts[..i]).Some? ==> FirstBad(parts) == FirstBad(parts[..i])
    ensures FirstBad(parts[..i]).None? ==> FirstBad(parts) == FirstBad(parts[i..])
  {
    if i > 0 {
      FirstBadSplit(parts[1..], i - 1);
      assert parts[..i][1..] == parts[1..][..i - 1] && parts[1..][i - 1..] == parts[i..];
    } else {
      assert parts[0..] == parts;
    }
  }

  method NormalizePath(nfc: Bytes -> Bytes, path: Bytes) returns (r: Try<Bytes, PathError>)
    ensures r == Normalize(nfc, path)
  {
    if path == [] {
      return Bad(Empty);
    }
    if path[0] == SLASH {
      return Bad(LeadingSlash);
    }
    if HasControl(path) {
      return Bad(ControlCharacter);
    }
    var parts := Split(nfc(path));
    var out: Bytes := [];
    for i := 0 to |parts|
      invariant i == 0 ==> out == []
      invariant i > 0 ==> out != [] && out == Join(parts[..i])
      invariant FirstBad(parts) == FirstBad(parts[i..])
    {
      var component := parts[i];
      assert parts[i..][1..] == parts[i + 1..];
      if component == [] {
        return Bad(EmptyComponent);
      }
      if IsDot(component) {
        return Bad(DotComponent);
      }
      assert parts[..i + 1] == parts[..i] + [component];
      if i > 0 {
        JoinConcat(parts[..i], [component]);
      }
      if out != [] {
        out := out + [SLASH];
      }
      out := out + component;
    }
    assert parts[..|parts|] == parts;
    JoinSplit(nfc(path));
    if |out| > MAX_KEY_LEN {
      return Bad(PathTooLong);
    }
    r := Good(out);
  }

  predicate Canonical(nfc: Bytes -> Bytes, path: Bytes) {
    Normalize(nfc, path) == Good(path)
  }

  /** A path begins with its first component. */
  lemma {:induction false} FirstByte(path: Bytes)
    requires path != [] && path[0] == SLASH
    ensures Split(path)[0] == []
  {
  }

  lemma {:induction false} NormalizeIsCanonical(nfc: Bytes -> Bytes, path: Bytes)
    requires Composes(nfc) && Normalize(nfc, path).Good?
    ensures Normalize(nfc, path) == Good(nfc(path)) && Canonical(nfc, nfc(path)) && (Utf8(path) ==> Utf8(nfc(path)))
  {
    var n := nfc(path);
    assert nfc(n) == n;
    if n != [] && n[0] == SLASH {
      FirstByte(n);
    }
  }

  /** A name a path may have between its slashes: not empty, not `.`, not `..`. */
  predicate Proper(c: Bytes) {
    c != [] && c != [0x2E] && c != [0x2E, 0x2E]
  }

  predicate AllProper(parts: seq<Bytes>) {
    forall i :: 0 <= i < |parts| ==> Proper(parts[i])
  }

  /** Component `i` is the first bad one. */
  predicate BadFirst(parts: seq<Bytes>, i: nat) {
    i < |parts| && !Proper(parts[i]) && AllProper(parts[..i])
  }

  lemma {:induction false} FirstBadIff(parts: seq<Bytes>)
    ensures FirstBad(parts).None? <==> AllProper(parts)
  {
    if parts != [] {
      FirstBadIff(parts[1..]);
      assert parts == [parts[0]] + parts[1..];
    }
  }

  lemma {:induction false} FirstBadAt(parts: seq<Bytes>) returns (i: nat)
    requires FirstBad(parts).Some?
    ensures BadFirst(parts, i) && FirstBad(parts) == Some(if parts[i] == [] then EmptyComponent else DotComponent)
  {
    i := 0;
    if Proper(parts[0]) {
      var k := FirstBadAt(parts[1..]);
      i := k + 1;
      assert parts[..i] == [parts[0]] + parts[1..][..k];
    }
  }

  /** Exactly these paths are accepted, and they become their composed form. */
  lemma {:induction false} NormalizeIff(nfc: Bytes -> Bytes, path: Bytes)
    ensures Normalize(nfc, path).Good?
       <==> path != [] && path[0] != 0x2F && !HasControl(path) && |nfc(path)| <= 4096 && AllProper(Split(nfc(path)))
    ensures Normalize(nfc, path).Good? ==> Normalize(nfc, path).value == nfc(path)
  {
    FirstBadIff(Split(nfc(path)));
  }

  /** What is said of the others: the first check that fails, and among the components the first bad one. */
  lemma {:induction false} NormalizeErrors(nfc: Bytes -> Bytes, path: Bytes)
    requires Normalize(nfc, path).Bad?
    ensures match Normalize(nfc, path).error
            case Empty => path == []
            case LeadingSlash => path != [] && path[0] == 0x2F
            case ControlCharacter => path != [] && path[0] != 0x2F && HasControl(path)
            case PathTooLong => |nfc(path)| > 4096 && AllProper(Split(nfc(path)))
            case EmptyComponent => exists i: nat :: BadFirst(Split(nfc(path)), i) && Split(nfc(path))[i] == []
            case DotComponent => exists i: nat :: BadFirst(Split(nfc(path)), i) && Split(nfc(path))[i] != []
  {
    var parts := Split(nfc(path));
    FirstBadIff(parts);
    if FirstBad(parts).Some? {
      var i := FirstBadAt(parts);
      assert BadFirst(parts, i);
    }
  }

  // ----- keys -----

  predicate ValidSpace(space: Bytes) {
    space != [] && |space| <= 63 && SLASH !in space && !HasControl(space)
  }

  function KeyOf(space: Bytes, rest: Bytes): Bytes {
    [PREFIX_FILE, COLON] + (space + [SLASH] + rest)
  }

  function FileKey(nfc: Bytes -> Bytes, space: Bytes, path: Bytes): Try<Bytes, KeyError> {
    if !ValidSpace(space) then Bad(BadSpace)
    else
      match Normalize(nfc, path)
      case Bad(e) => Bad(BadPath(e))
      case Good(n) => if |KeyOf(space, n)| > MAX_KEY_LEN then Bad(KeyTooLong) else Good(KeyOf(space, n))
  }

  function SpacePrefix(space: Bytes): Try<Bytes, KeyError> {
    if ValidSpace(space) then Good(KeyOf(space, [])) else Bad(BadSpace)
  }

  function TrimStart(b: Bytes): Bytes {
    if b != [] && b[0] == SLASH then TrimStart(b[1..]) else b
  }

  function TrimEnd(b: Bytes): Bytes {
    if b != [] && b[|b| - 1] == SLASH then TrimEnd(b[..|b| - 1]) else b
  }

  function DirPrefix(nfc: Bytes -> Bytes, space: Bytes, dir: Bytes): Try<Bytes, KeyError> {
    match SpacePrefix(space)
    case Bad(e) => Bad(e)
    case Good(prefix) =>
      if TrimStart(dir) == [] then Good(prefix)
      else
        match Normalize(nfc, TrimEnd(TrimStart(dir)))
        case Bad(e) => Bad(BadPath(e))
        case Good(n) => Good(prefix + n + [SLASH])
  }

  function ParseFileKey(nfc: Bytes -> Bytes, key: Bytes): Try<(Bytes, Bytes), KeyError> {
    if |key| < 4 || key[0] != PREFIX_FILE || key[1] != COLON then Bad(Malformed)
    else
      var rest := key[2..];
      var n := FirstSlash(rest);
      if !Utf8(rest) || n == |rest| then Bad(Malformed)
      else
        var space, path := rest[..n], rest[n + 1..];
        if !ValidSpace(space) then Bad(BadSpace)
        else if path == [] || Normalize(nfc, path) != Good(path) then Bad(Malformed)
        else Good((space, path))
  }

  // ----- keys and parts are the same thing -----

  lemma {:induction false} KeyParts(space: Bytes, rest: Bytes)
    requires SLASH !in space
    ensures var key := KeyOf(space, rest);
            var n := FirstSlash(key[2..]);
            key[2..] == space + [SLASH] + rest && n == |space| && key[2..][..n] == space && key[2..][n + 1..] == rest
  {
    FirstSlashOf(space, rest);
  }

  /** A key built for a file parses to its space and canonical path. */
  lemma {:induction false} ParseOfFileKey(nfc: Bytes -> Bytes, space: Bytes, path: Bytes)
    requires Composes(nfc) && Utf8(space) && Utf8(path) && FileKey(nfc, space, path).Good?
    ensures ParseFileKey(nfc, FileKey(nfc, space, path).value) == Good((space, nfc(path)))
  {
    NormalizeIsCanonical(nfc, path);
    KeyParts(space, nfc(path));
    Utf8Split(space, SLASH, nfc(path));
  }

  /** A key that parses is the key of its parts, unless it is over the length bound that parsing does not check. */
  lemma {:induction false} FileKeyOfParse(nfc: Bytes -> Bytes, key: Bytes)
    requires ParseFileKey(nfc, key).Good?
    ensures var (space, path) := ParseFileKey(nfc, key).value;
            && Utf8(space) && Utf8(path) && Canonical(nfc, path)
            && FileKey(nfc, space, path) == if |key| <= MAX_KEY_LEN then Good(key) else Bad(KeyTooLong)
  {
    var (space, path) := ParseFileKey(nfc, key).value;
    Parted(key, |space|);
    Utf8Split(space, SLASH, path);
  }

  /** A key parses exactly when it is `f:`, a space, a slash and a canonical path, all of it valid text. */
  lemma {:induction false} ParseIff(nfc: Bytes -> Bytes, key: Bytes, space: Bytes, path: Bytes)
    ensures ParseFileKey(nfc, key) == Good((space, path))
       <==> && key == [0x66, 0x3A] + (space + [0x2F] + path)
            && 1 <= |space| <= 63 && 0x2F !in space && !HasControl(space) && Utf8(space)
            && Utf8(path) && Canonical(nfc, path)
  {
    if ParseFileKey(nfc, key) == Good((space, path)) {
      ParsedFrom(nfc, key, space, path);
    } else if key == KeyOf(space, path) && ValidSpace(space) && Utf8(space) && Utf8(path) && Canonical(nfc, path) {
      LongKeyParses(nfc, space, path);
    }
  }

  lemma {:induction false} ParsedFrom(nfc: Bytes -> Bytes, key: Bytes, space: Bytes, path: Bytes)
    requires ParseFileKey(nfc, key) == Good((space, path))
    ensures key == KeyOf(space, path) && ValidSpace(space) && Utf8(space) && Utf8(path) && Canonical(nfc, path)
  {
    Parted(key, |space|);
    Utf8Split(space, SLASH, path);
  }

  /** No path that parses out of a key leads out of the directory it is put in. */
  lemma {:induction false} ParsedStaysInside(nfc: Bytes -> Bytes, key: Bytes)
    requires ParseFileKey(nfc, key).Good?
    ensures var path := ParseFileKey(nfc, key).value.1;
            path != [] && path[0] != 0x2F && AllProper(Split(path))
  {
    NormalizeIff(nfc, ParseFileKey(nfc, key).value.1);
  }

  /** A key is built exactly for a space of 1 to 63 bytes and a path that normalizes, within the bound. */
  lemma {:induction false} FileKeyIff(nfc: Bytes -> Bytes, space: Bytes, path: Bytes)
    ensures FileKey(nfc, space, path).Good?
       <==> && 1 <= |space| <= 63 && 0x2F !in space && !HasControl(space)
            && Normalize(nfc, path).Good? && |space| + |nfc(path)| + 3 <= 4096
    ensures FileKey(nfc, space, path).Good? ==>
              FileKey(nfc, space, path).value == [0x66, 0x3A] + (space + [0x2F] + nfc(path))
  {
    NormalizeIff(nfc, path);
  }

  /** The key of a canonical path parses whatever its length, and is not built when it is over the bound. */
  lemma {:induction false} LongKeyParses(nfc: Bytes -> Bytes, space: Bytes, path: Bytes)
    requires ValidSpace(space) && Utf8(space) && Utf8(path) && Canonical(nfc, path)
    ensures ParseFileKey(nfc, KeyOf(space, path)) == Good((space, path))
    ensures FileKey(nfc, space, path)
         == if |space| + |path| + 3 <= MAX_KEY_LEN then Good(KeyOf(space, path)) else Bad(KeyTooLong)
  {
    KeyParts(space, path);
    Utf8Split(space, SLASH, path);
  }

  /** A path of one component, `n` letters long. */
  function Letters(n: nat): Bytes {
    seq(n, i => 0x61)
  }

  lemma {:induction false} LettersUtf8(n: nat)
    ensures Utf8(Letters(n))
  {
    if n > 0 {
      LettersUtf8(n - 1);
      assert Letters(n)[1..] == Letters(n - 1);
    }
  }

  lemma {:induction false} LettersCanonical(nfc: Bytes -> Bytes, n: nat)
    requires 0 < n <= MAX_KEY_LEN && nfc(Letters(n)) == Letters(n)
    ensures Canonical(nfc, Letters(n))
  {
    var path := Letters(n);
    assert path[0] == 0x61;
    SplitFirst(path, []);
    assert [path][1..] == [];
    assert FirstBad([path]) == FirstBad([]);
    assert !HasControl(path) by {
      assert forall i :: 0 <= i < |path| ==> !ControlAt(path, i);
    }
  }

  /** One letter for a space and 4093 to 4096 for a path: the key parses, to parts no key is built for. */
  lemma {:induction false} OverlongKey(nfc: Bytes -> Bytes, n: nat)
    requires 4092 < n <= 4096 && nfc(Letters(n)) == Letters(n)
    ensures var key := KeyOf(Letters(1), Letters(n));
            && |key| == n + 4 > MAX_KEY_LEN && ParseFileKey(nfc, key) == Good((Letters(1), Letters(n)))
            && FileKey(nfc, Letters(1), Letters(n)) == Bad(KeyTooLong)
  {
    LettersUtf8(1);
    LettersUtf8(n);
    LettersCanonical(nfc, n);
    assert !HasControl(Letters(1)) by {
      assert forall i :: 0 <= i < 1 ==> !ControlAt(Letters(1), i);
    }
    LongKeyParses(nfc, Letters(1), Letters(n));
  }

  lemma {:induction false} Parted(key: Bytes, n: nat)
    requires |key| >= 2 && key[0] == PREFIX_FILE && key[1] == COLON && n < |key[2..]| && key[2..][n] == SLASH
    ensures key[2..] == key[2..][..n] + [SLASH] + key[2..][n + 1..] && key == KeyOf(key[2..][..n], key[2..][n + 1..])
  {
    var rest := key[2..];
    assert rest == rest[..n] + [SLASH] + rest[n + 1..];
    assert key == [PREFIX_FILE, COLON] + rest;
  }

  // ----- prefixes -----

  /** Strictly under a directory, by whole components; everything is under the empty one. */
  predicate Under(dir: Bytes, path: Bytes) {
    dir == [] || Split(dir) < Split(path)
  }

  lemma {:induction false} UnderIff(dir: Bytes, path: Bytes)
    requires dir != []
    ensures dir + [SLASH] <= path <==> Split(dir) < Split(path)
  {
    if dir + [SLASH] <= path {
      var rest := path[|dir| + 1..];
      assert path == dir + [SLASH] + rest;
      SplitConcat(dir, rest);
    }
    if Split(dir) < Split(path) {
      var rest := Split(path)[|Split(dir)|..];
      assert Split(path) == Split(dir) + rest;
      JoinConcat(Split(dir), rest);
      JoinSplit(dir);
      JoinSplit(path);
      assert path == dir + [SLASH] + Join(rest);
    }
  }

  lemma {:induction false} KeyExtends(s: Bytes, a: Bytes, tail: Bytes)
    ensures KeyOf(s, a) + tail == KeyOf(s, a + tail)
  {
    assert s + [SLASH] + a + tail == s + [SLASH] + (a + tail);
  }

  /** One key continues another's space and a slash exactly when the spaces are the same and the rest continues. */
  lemma {:induction false} PrefixSpace(s: Bytes, a: Bytes, t: Bytes, b: Bytes)
    requires SLASH !in s && SLASH !in t
    ensures KeyOf(s, a) <= KeyOf(t, b) <==> s == t && a <= b
  {
    var x, y := KeyOf(s, a), KeyOf(t, b);
    if x <= y {
      var tail := y[|x|..];
      assert y == x + tail;
      KeyExtends(s, a, tail);
      KeyParts(s, a + tail);
      KeyParts(t, b);
    }
    if s == t && a <= b {
      var tail := b[|a|..];
      assert b == a + tail;
      KeyExtends(s, a, tail);
    }
  }

  /** A scan of a directory prefix meets exactly the files of that space that lie under the directory. */
  lemma {:induction false} DirPrefixIff(nfc: Bytes -> Bytes, s: Bytes, dir: Bytes, t: Bytes, path: Bytes)
    requires Composes(nfc) && DirPrefix(nfc, s, dir).Good? && FileKey(nfc, t, path).Good?
    ensures DirPrefix(nfc, s, dir).value <= FileKey(nfc, t, path).value
       <==> s == t && Under(if TrimStart(dir) == [] then [] else nfc(TrimEnd(TrimStart(dir))), nfc(path))
  {
    NormalizeIsCanonical(nfc, path);
    var n := nfc(path);
    if TrimStart(dir) == [] {
      PrefixSpace(s, [], t, n);
    } else {
      var d := nfc(TrimEnd(TrimStart(dir)));
      NormalizeIsCanonical(nfc, TrimEnd(TrimStart(dir)));
      assert d != [];
      PrefixUnder(s, d, t, n);
    }
  }

  lemma {:induction false} PrefixUnder(s: Bytes, dir: Bytes, t: Bytes, path: Bytes)
    requires SLASH !in s && SLASH !in t && dir != []
    ensures KeyOf(s, []) + dir + [SLASH] <= KeyOf(t, path) <==> s == t && Split(dir) < Split(path)
  {
    UnderIff(dir, path);
    PrefixSpace(s, dir + [SLASH], t, path);
    assert KeyOf(s, []) + dir + [SLASH] == KeyOf(s, dir + [SLASH]);
  }

  function Slashes(n: nat): Bytes {
    if n == 0 then [] else [0x2F] + Slashes(n - 1)
  }

  lemma {:induction false} TrimStartSlashes(n: nat, rest: Bytes)
    requires rest == [] || rest[0] != 0x2F
    ensures TrimStart(Slashes(n) + rest) == rest
  {
    if n == 0 {
      assert Slashes(n) + rest == rest;
    } else {
      TrimStartSlashes(n - 1, rest);
      assert (Slashes(n) + rest)[1..] == Slashes(n - 1) + rest;
    }
  }

  lemma {:induction false} SlashesLast(n: nat)
    requires n > 0
    ensures Slashes(n) == Slashes(n - 1) + [0x2F]
  {
    if n > 1 {
      SlashesLast(n - 1);
    }
  }

  lemma {:induction false} TrimEndSlashes(rest: Bytes, n: nat)
    requires rest != [] && rest[|rest| - 1] != 0x2F
    ensures TrimEnd(rest + Slashes(n)) == rest
    decreases n
  {
    var b := rest + Slashes(n);
    if n == 0 {
      assert b == rest;
    } else {
      SlashesLast(n);
      assert b[..|b| - 1] == rest + Slashes(n - 1);
      TrimEndSlashes(rest, n - 1);
    }
  }

  lemma {:induction false} LastByte(path: Bytes)
    requires path != [] && AllProper(Split(path))
    ensures path[|path| - 1] != 0x2F
  {
    var front, last, parts := path[..|path| - 1], path[|path| - 1], Split(path);
    assert Proper(parts[|parts| - 1]);
    SplitConcat(front, []);
    SplitFirst([], []);
    assert path == front + [last];
    assert last == SLASH ==> path == front + [SLASH] + [];
  }

  /** Slashes around a directory do not count, and slashes alone are the whole space. */
  lemma {:induction false} DirPrefixText(nfc: Bytes -> Bytes, space: Bytes, m: nat, dir: Bytes, n: nat)
    requires 1 <= |space| <= 63 && 0x2F !in space && !HasControl(space)
    requires dir == [] || Canonical(nfc, dir)
    ensures DirPrefix(nfc, space, Slashes(m) + (dir + Slashes(n)))
         == Good([0x66, 0x3A] + (space + [0x2F] + []) + if dir == [] then [] else dir + [0x2F])
  {
    if dir == [] {
      SlashesJoin(m, n);
      assert dir + Slashes(n) == Slashes(n);
      TrimStartSlashes(m + n, []);
      assert Slashes(m + n) + [] == Slashes(m + n);
      assert KeyOf(space, []) + [] == KeyOf(space, []);
    } else {
      NormalizeIff(nfc, dir);
      LastByte(dir);
      TrimStartSlashes(m, dir + Slashes(n));
      TrimEndSlashes(dir, n);
      assert KeyOf(space, []) + dir + [SLASH] == KeyOf(space, []) + (dir + [SLASH]);
    }
  }

  lemma {:induction false} SlashesJoin(m: nat, n: nat)
    ensures Slashes(m) + Slashes(n) == Slashes(m + n)
  {
    if m > 0 {
      SlashesJoin(m - 1, n);
    } else {
      assert Slashes(0) + Slashes(n) == Slashes(n);
    }
  }

  /** So the keys of different spaces never share a prefix scan. */
  lemma {:induction false} SpacesApart(nfc: Bytes -> Bytes, s: Bytes, t: Bytes, path: Bytes)
    requires Composes(nfc) && ValidSpace(s) && FileKey(nfc, t, path).Good?
    ensures SpacePrefix(s).value <= FileKey(nfc, t, path).value <==> s == t
  {
    NormalizeIsCanonical(nfc, path);
    PrefixSpace(s, [], t, nfc(path));
  }
}
