/** UTF-8 text as its bytes: validity, control characters, and splitting at slashes. */
module Text {
  import opened Words
  import opened Bytes

  const SLASH: u8 := 0x2F
  const DOT: u8 := 0x2E

  // ----- validity (RFC 3629) -----

  predicate Continues(b: Bytes, i: nat) {
    i < |b| && 0x80 <= b[i] <= 0xBF
  }

  /** The length of the character `b` begins with, zero when there is none. */
  function CharLength(b: Bytes): (n: nat)
    ensures n <= |b|
  {
    if b == [] then 0
    else if b[0] < 0x80 then 1
    else if 0xC2 <= b[0] <= 0xDF && Continues(b, 1) then 2
    else if 0xE0 <= b[0] <= 0xEF && Continues(b, 1) && Continues(b, 2)
            && (b[0] == 0xE0 ==> b[1] >= 0xA0) && (b[0] == 0xED ==> b[1] <= 0x9F) then 3
    else if 0xF0 <= b[0] <= 0xF4 && Continues(b, 1) && Continues(b, 2) && Continues(b, 3)
            && (b[0] == 0xF0 ==> b[1] >= 0x90) && (b[0] == 0xF4 ==> b[1] <= 0x8F) then 4
    else 0
  }

  predicate Utf8(b: Bytes) {
    b == [] || (CharLength(b) > 0 && Utf8(b[CharLength(b)..]))
  }

  /** A character that fits before an ASCII byte ends before it. */
  lemma {:induction false} CharBefore(a: Bytes, x: u8, b: Bytes)
    requires a != [] && x < 0x80
    ensures CharLength(a + [x] + b) == CharLength(a)
  {
    var s := a + [x] + b;
    assert forall i :: 0 <= i < |a| ==> s[i] == a[i];
    assert s[|a|] == x;
  }

  /** An ASCII byte separates valid text from valid text. */
  lemma {:induction false} Utf8Split(a: Bytes, x: u8, b: Bytes)
    requires x < 0x80
    ensures Utf8(a + [x] + b) <==> Utf8(a) && Utf8(b)
  {
    var s := a + [x] + b;
    if a == [] {
      assert s[1..] == b;
    } else {
      var n := CharLength(a);
      CharBefore(a, x, b);
      if n > 0 {
        Utf8Split(a[n..], x, b);
        assert s[n..] == a[n..] + [x] + b;
      }
    }
  }

  // ----- control characters -----

  /** A character of category Cc begins at `i`: U+0000 to U+001F and U+007F to U+009F. */
  predicate ControlAt(b: Bytes, i: nat)
    requires i < |b|
  {
    b[i] < 0x20 || b[i] == 0x7F || (b[i] == 0xC2 && i + 1 < |b| && 0x80 <= b[i + 1] <= 0x9F)
  }

  predicate HasControl(b: Bytes) {
    exists i :: 0 <= i < |b| && ControlAt(b, i)
  }

  /** The bits a continuation byte carries. */
  function Low(x: u8): nat
    requires 0x80 <= x <= 0xBF
  {
    x - 0x80
  }

  /** The code point of the character that `b` begins with. */
  function CodePoint(b: Bytes): nat
    requires CharLength(b) > 0
  {
    var n, first: int := CharLength(b), b[0];
    if n == 1 then first
    else if n == 2 then (first - 0xC0) * 0x40 + Low(b[1])
    else if n == 3 then (first - 0xE0) * 0x1000 + Low(b[1]) * 0x40 + Low(b[2])
    else (first - 0xF0) * 0x4_0000 + Low(b[1]) * 0x1000 + Low(b[2]) * 0x40 + Low(b[3])
  }

  /** The characters of valid text. */
  function Characters(b: Bytes): seq<nat>
    requires Utf8(b)
  {
    if b == [] then [] else [CodePoint(b)] + Characters(b[CharLength(b)..])
  }

  /** A Unicode scalar value. */
  predicate IsScalar(c: nat) {
    c < 0xD800 || 0xE000 <= c <= 0x10_FFFF
  }

  /** One character in one to four bytes, as section 3 of RFC 3629 lays its bits out. */
  function EncodeScalar(c: nat): Bytes
    requires IsScalar(c)
  {
    if c < 0x80 then [c]
    else if c < 0x800 then [0xC0 + c / 0x40, 0x80 + c % 0x40]
    else if c < 0x1_0000 then [0xE0 + c / 0x1000, 0x80 + c / 0x40 % 0x40, 0x80 + c % 0x40]
    else [0xF0 + c / 0x4_0000, 0x80 + c / 0x1000 % 0x40, 0x80 + c / 0x40 % 0x40, 0x80 + c % 0x40]
  }

  function EncodeScalars(cs: seq<nat>): Bytes
    requires forall i :: 0 <= i < |cs| ==> IsScalar(cs[i])
  {
    if cs == [] then [] else EncodeScalar(cs[0]) + EncodeScalars(cs[1..])
  }

  lemma {:induction false} ScalarLength(c: nat, rest: Bytes)
    requires IsScalar(c)
    ensures CharLength(EncodeScalar(c) + rest) == |EncodeScalar(c)| > 0
  {
    var b := EncodeScalar(c) + rest;
    assert forall i :: 0 <= i < |EncodeScalar(c)| ==> b[i] == EncodeScalar(c)[i];
  }

  /** A whole character is the encoding of its code point, which is a scalar value. */
  lemma {:induction false} FirstScalar(b: Bytes)
    requires CharLength(b) > 0
    ensures IsScalar(CodePoint(b)) && b[..CharLength(b)] == EncodeScalar(CodePoint(b))
  {
    var n := CharLength(b);
    if n == 1 {
      assert b[..1] == [b[0]];
    } else if n == 2 {
      assert b[..2] == [b[0], b[1]];
    } else if n == 3 {
      assert b[..3] == [b[0], b[1], b[2]];
      ThreeBytes(b[0] - 0xE0, Low(b[1]), Low(b[2]));
    } else {
      assert b[..4] == [b[0], b[1], b[2], b[3]];
      FourBytes(b[0] - 0xF0, Low(b[1]), Low(b[2]), Low(b[3]));
    }
  }

  lemma {:induction false} ThreeBytes(x: nat, y: nat, z: nat)
    requires y < 0x40 && z < 0x40
    ensures var c := x * 0x1000 + y * 0x40 + z;
            c / 0x1000 == x && c / 0x40 % 0x40 == y && c % 0x40 == z
  {
  }

  lemma {:induction false} FourBytes(x: nat, y: nat, z: nat, w: nat)
    requires y < 0x40 && z < 0x40 && w < 0x40
    ensures var c := x * 0x4_0000 + y * 0x1000 + z * 0x40 + w;
            c / 0x4_0000 == x && c / 0x1000 % 0x40 == y && c / 0x40 % 0x40 == z && c % 0x40 == w
  {
    ThreeBytes(x * 0x40 + y, z, w);
    DivideTwice(x * 0x4_0000 + y * 0x1000 + z * 0x40 + w, 0x1000, 0x40);
  }

  /** Valid text is exactly the encoding of some scalar values, its characters. */
  lemma {:induction false} Utf8Decodes(b: Bytes)
    requires Utf8(b)
    ensures forall i :: 0 <= i < |Characters(b)| ==> IsScalar(Characters(b)[i])
    ensures EncodeScalars(Characters(b)) == b
    decreases |b|
  {
    if b != [] {
      var n := CharLength(b);
      FirstScalar(b);
      Utf8Decodes(b[n..]);
      var rest := Characters(b[n..]);
      assert Characters(b)[1..] == rest;
      assert forall i :: 0 < i < |Characters(b)| ==> Characters(b)[i] == rest[i - 1];
      assert b == b[..n] + b[n..];
    }
  }

  lemma {:induction false} EncodedIsUtf8(cs: seq<nat>)
    requires forall i :: 0 <= i < |cs| ==> IsScalar(cs[i])
    ensures Utf8(EncodeScalars(cs))
  {
    if cs != [] {
      var b, e := EncodeScalars(cs), EncodeScalar(cs[0]);
      ScalarLength(cs[0], EncodeScalars(cs[1..]));
      EncodedIsUtf8(cs[1..]);
      assert b[|e|..] == EncodeScalars(cs[1..]);
    }
  }

  /** `char::is_control`: the category Cc. */
  predicate IsControl(c: nat) {
    c <= 0x1F || 0x7F <= c <= 0x9F
  }

  lemma {:induction false} FirstControl(b: Bytes)
    requires b != [] && CharLength(b) > 0
    ensures IsControl(CodePoint(b)) <==> ControlAt(b, 0)
    ensures forall i :: 0 < i < CharLength(b) ==> !ControlAt(b, i)
  {
    assert forall i :: 0 < i < CharLength(b) ==> Continues(b, i);
  }

  lemma {:induction false} ControlAfter(b: Bytes, n: nat)
    requires n <= |b|
    ensures HasControl(b) <==> HasControl(b[n..]) || exists i :: 0 <= i < n && ControlAt(b, i)
  {
    var rest := b[n..];
    assert forall i :: 0 <= i < |rest| ==> ControlAt(rest, i) == ControlAt(b, n + i);
    if i :| 0 <= i < |b| && ControlAt(b, i) {
      if i >= n {
        assert ControlAt(rest, i - n);
      }
    }
    if i :| 0 <= i < |rest| && ControlAt(rest, i) {
      assert ControlAt(b, n + i);
    }
  }

  /** The byte test finds exactly the control characters. */
  lemma {:induction false} ControlIff(b: Bytes)
    requires Utf8(b)
    ensures HasControl(b) <==> exists i :: 0 <= i < |Characters(b)| && IsControl(Characters(b)[i])
    decreases |b|
  {
    if b != [] {
      var n := CharLength(b);
      var rest := Characters(b[n..]);
      FirstControl(b);
      ControlAfter(b, n);
      ControlIff(b[n..]);
      assert Characters(b)[0] == CodePoint(b);
      assert forall i :: 0 <= i < |rest| ==> Characters(b)[i + 1] == rest[i];
      if i :| 0 <= i < |Characters(b)| && IsControl(Characters(b)[i]) {
        assert i > 0 ==> IsControl(rest[i - 1]);
      }
      if i :| 0 <= i < |rest| && IsControl(rest[i]) {
        assert IsControl(Characters(b)[i + 1]);
      }
    }
  }

  // ----- components -----

  /** The index of the first slash, or the length. */
  function FirstSlash(b: Bytes): (n: nat)
    ensures n <= |b| && SLASH !in b[..n] && (n < |b| ==> b[n] == SLASH)
  {
    if b == [] || b[0] == SLASH then 0
    else
      var n := 1 + FirstSlash(b[1..]);
      assert b[..n] == [b[0]] + b[1..][..n - 1];
      n
  }

  /** `str::split('/')`: never empty. */
  function Split(b: Bytes): (parts: seq<Bytes>)
    ensures parts != []
    decreases |b|
  {
    var n := FirstSlash(b);
    if n == |b| then [b] else [b[..n]] + Split(b[n + 1..])
  }

  function Join(parts: seq<Bytes>): Bytes
    requires parts != []
  {
    if |parts| == 1 then parts[0] else parts[0] + [SLASH] + Join(parts[1..])
  }

  lemma {:induction false} FirstSlashOf(a: Bytes, b: Bytes)
    requires SLASH !in a
    ensures FirstSlash(a) == |a| && FirstSlash(a + [SLASH] + b) == |a|
  {
    if a != [] {
      FirstSlashOf(a[1..], b);
      assert (a + [SLASH] + b)[1..] == a[1..] + [SLASH] + b;
    }
  }

  /** Splitting at the first slash peels off the first component. */
  lemma {:induction false} SplitFirst(a: Bytes, b: Bytes)
    requires SLASH !in a
    ensures Split(a) == [a] && Split(a + [SLASH] + b) == [a] + Split(b)
  {
    var s := a + [SLASH] + b;
    FirstSlashOf(a, b);
    assert s[..|a|] == a && s[|a| + 1..] == b;
  }

  predicate NoSlash(parts: seq<Bytes>) {
    forall i :: 0 <= i < |parts| ==> SLASH !in parts[i]
  }

  lemma {:induction false} JoinSplit(b: Bytes)
    ensures NoSlash(Split(b)) && Join(Split(b)) == b
    decreases |b|
  {
    var n := FirstSlash(b);
    if n < |b| {
      JoinSplit(b[n + 1..]);
      assert Split(b)[1..] == Split(b[n + 1..]);
      assert b == b[..n] + [SLASH] + b[n + 1..];
    } else {
      assert b[..n] == b;
    }
  }

  lemma {:induction false} Regroup(a: Bytes, b: Bytes, c: Bytes, d: Bytes)
    ensures (a + [SLASH] + b) + c + d == a + [SLASH] + (b + c + d)
  {
  }

  /** A slash between two texts always separates components. */
  lemma {:induction false} SplitConcat(a: Bytes, b: Bytes)
    ensures Split(a + [SLASH] + b) == Split(a) + Split(b)
    decreases |a|
  {
    var n := FirstSlash(a);
    if n == |a| {
      assert a[..n] == a;
      SplitFirst(a, b);
    } else {
      var first, rest := a[..n], a[n + 1..];
      assert a == first + [SLASH] + rest;
      var tail := rest + [SLASH] + b;
      assert Split(tail) == Split(rest) + Split(b) by {
        SplitConcat(rest, b);
      }
      SplitFirst(first, rest);
      SplitFirst(first, tail);
      Regroup(first, rest, [SLASH], b);
      Cons(first, Split(rest), Split(b));
    }
  }

  lemma {:induction false} Cons(x: Bytes, y: seq<Bytes>, z: seq<Bytes>)
    ensures [x] + (y + z) == ([x] + y) + z
  {
  }

  lemma {:induction false} SplitJoin(parts: seq<Bytes>)
    requires parts != [] && NoSlash(parts)
    ensures Split(Join(parts)) == parts
  {
    if |parts| == 1 {
      SplitFirst(parts[0], []);
    } else {
      SplitFirst(parts[0], Join(parts[1..]));
      SplitJoin(parts[1..]);
      assert parts == [parts[0]] + parts[1..];
    }
  }

  lemma {:induction false} JoinConcat(x: seq<Bytes>, y: seq<Bytes>)
    requires x != [] && y != []
    ensures Join(x + y) == Join(x) + [SLASH] + Join(y)
  {
    if |x| == 1 {
      assert (x + y)[1..] == y;
    } else {
      JoinConcat(x[1..], y);
      assert (x + y)[1..] == x[1..] + y;
      assert x[0] + [SLASH] + (Join(x[1..]) + [SLASH] + Join(y)) == (x[0] + [SLASH] + Join(x[1..])) + [SLASH] + Join(y);
    }
  }
}
