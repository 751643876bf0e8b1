/**
 The ELF64 container of `crates/synch-cc/src/fold.rs`: section headers and section bytes read out of an
 object, and laid out again into one.
 */
module Elf {
  import opened Words
  import opened Bytes

  const SHT_NOBITS: u32 := 8
  const SHDR: nat := 64

  datatype Section = Section(
    nameOffset: u32, kind: u32, flags: u64, addr: u64, offset: u64, size: u64,
    link: u32, info: u32, align: u64, entsize: u64, data: Bytes)

  // ----- one section header -----

  function EncodeHeader(s: Section): (h: Bytes)
    ensures |h| == SHDR
  {
    LE(s.nameOffset, 4) + LE(s.kind, 4) + LE(s.flags, 8) + LE(s.addr, 8) + LE(s.offset, 8) + LE(s.size, 8)
    + LE(s.link, 4) + LE(s.info, 4) + LE(s.align, 8) + LE(s.entsize, 8)
  }

  function FromLE4(b: Bytes): u32
    requires |b| == 4
  {
    Pow256Values();
    FromLE(b)
  }

  function FromLE8(b: Bytes): u64
    requires |b| == 8
  {
    Pow256Values();
    FromLE(b)
  }

  function DecodeHeader(h: Bytes): Section
    requires |h| == SHDR
  {
    Section(FromLE4(h[0..4]), FromLE4(h[4..8]), FromLE8(h[8..16]), FromLE8(h[16..24]), FromLE8(h[24..32]),
            FromLE8(h[32..40]), FromLE4(h[40..44]), FromLE4(h[44..48]), FromLE8(h[48..56]), FromLE8(h[56..64]), [])
  }

  lemma {:induction false} HeaderRoundTrip(s: Section)
    ensures DecodeHeader(EncodeHeader(s)) == s.(data := [])
  {
    var h := EncodeHeader(s);
    assert h[0..4] == LE(s.nameOffset, 4) && h[4..8] == LE(s.kind, 4);
    assert h[8..16] == LE(s.flags, 8) && h[16..24] == LE(s.addr, 8);
    assert h[24..32] == LE(s.offset, 8) && h[32..40] == LE(s.size, 8);
    assert h[40..44] == LE(s.link, 4) && h[44..48] == LE(s.info, 4);
    assert h[48..56] == LE(s.align, 8);
    assert h[56..] == LE(s.entsize, 8) && h[56..] == h[56..64];
    Pow256Values();
    LERoundTrip(s.nameOffset, 4);
    LERoundTrip(s.kind, 4);
    LERoundTrip(s.flags, 8);
    LERoundTrip(s.addr, 8);
    LERoundTrip(s.offset, 8);
    LERoundTrip(s.size, 8);
    LERoundTrip(s.link, 4);
    LERoundTrip(s.info, 4);
    LERoundTrip(s.align, 8);
    LERoundTrip(s.entsize, 8);
  }

  // ----- reading -----

  /** The bytes behind a header: none for `.bss` and for an empty section. */
  function SectionData(obj: Bytes, s: Section): Result<Bytes> {
    if s.kind == SHT_NOBITS || s.size == 0 then Ok([])
    else if s.offset + s.size > U64_MAX then Err("section data overflows")
    else if s.offset + s.size > |obj| then Err("section data is out of bounds")
    else Ok(obj[s.offset..s.offset + s.size])
  }

  function ReadSection(obj: Bytes, at: nat): Result<Section> {
    if at > U64_MAX then Err("section table overflows")
    else if at + SHDR > |obj| then Err("a section header is out of bounds")
    else
      var header := DecodeHeader(obj[at..at + SHDR]);
      var data :- SectionData(obj, header);
      Ok(header.(data := data))
  }

  /** The outcome of reading section `i` of the table at `shoff`. */
  function SectionReader(obj: Bytes, shoff: nat): nat -> Result<Section> {
    (i: nat) => ReadSection(obj, shoff + i * SHDR)
  }

  /** The `n` sections of the table; the first that cannot be read is the error. */
  function SectionsAt(obj: Bytes, shoff: nat, n: nat): (r: Result<seq<Section>>)
    ensures r.Ok? ==> |r.value| == n
  {
    Collect(SectionReader(obj, shoff), n)
  }

  method ReadSections(obj: Bytes, shoff: nat, shnum: nat) returns (r: Result<seq<Section>>)
    ensures r == SectionsAt(obj, shoff, shnum)
  {
    ghost var reader := SectionReader(obj, shoff);
    var out := [];
    var index := 0;
    while index < shnum
      invariant 0 <= index <= shnum && Collect(reader, index) == Ok(out)
    {
      var section := ReadSection(obj, shoff + index * SHDR);
      assert section == reader(index);
      if section.Err? {
        CollectErr(reader, index + 1, shnum);
        return Err(section.error);
      }
      out := out + [section.value];
      index := index + 1;
    }
    return Ok(out);
  }

  // ----- laying out -----

  function Zeros(n: nat): (z: Bytes)
    ensures |z| == n
  {
    seq(n, _ => 0)
  }

  /** Pads to the next multiple of `to`. */
  function AlignTo(out: Bytes, to: nat): (r: Bytes)
    ensures out <= r
    ensures to > 1 ==> |r| % to == 0
  {
    if to > 1 && |out| % to != 0 then
      PadAligns(|out|, to);
      out + Zeros(to - |out| % to)
    else out
  }

  /** The padding is zero bytes, and no more of them than the next multiple takes. */
  lemma {:induction false} AlignPads(out: Bytes, to: nat, n: nat)
    requires |out| <= n && (to > 1 ==> n % to == 0)
    ensures |AlignTo(out, to)| <= n && forall i :: |out| <= i < |AlignTo(out, to)| ==> AlignTo(out, to)[i] == 0
  {
    if to > 1 && |out| % to != 0 {
      var q, k := |out| / to, n / to;
      assert |out| == to * q + |out| % to && n == to * k;
      if k <= q {
        Multiples(to, k, q);
      } else {
        Multiples(to, q + 1, k);
      }
    }
  }

  lemma {:induction false} Multiples(m: nat, j: nat, k: nat)
    requires j <= k
    ensures m * j <= m * k
  {
  }

  lemma {:induction false} PadAligns(n: nat, to: nat)
    requires to > 1
    ensures (n + (to - n % to)) % to == 0
  {
    var q := n / to;
    assert n == to * q + n % to;
    assert n + (to - n % to) == to * (q + 1);
    MultipleMod(to, q + 1);
  }

  lemma {:induction false} MultipleMod(m: nat, k: nat)
    requires m > 0
    ensures (m * k) % m == 0
  {
    var x := m * k;
    var q := x / m;
    assert x == m * q + x % m;
    if q < k {
      AtLeastOnce(m, k - q);
    } else if k < q {
      AtLeastOnce(m, q - k);
    }
  }

  lemma {:induction false} AtLeastOnce(m: nat, d: int)
    requires d >= 1
    ensures m * d >= m
  {
  }

  /** True if section `k` gets bytes in the file. */
  predicate InFile(ss: seq<Section>, k: nat)
    requires k < |ss|
  {
    k != 0 && ss[k].kind != SHT_NOBITS
  }

  /** The output once the first `k` sections are placed after the 64-byte file header. */
  function Body(header: Bytes, ss: seq<Section>, k: nat): (out: Bytes)
    requires k <= |ss|
    ensures header <= out
    decreases k
  {
    if k == 0 then header
    else if !InFile(ss, k - 1) then Body(header, ss, k - 1)
    else AlignTo(Body(header, ss, k - 1), Max(ss[k - 1].align, 1)) + ss[k - 1].data
  }

  function OffsetOf(header: Bytes, ss: seq<Section>, k: nat): nat
    requires k < |ss|
  {
    if k == 0 then 0
    else if !InFile(ss, k) then |Body(header, ss, k)|
    else |AlignTo(Body(header, ss, k), Max(ss[k].align, 1))|
  }

  /** Everything before the section table. */
  function Image(header: Bytes, ss: seq<Section>): Bytes {
    AlignTo(Body(header, ss, |ss|), 8)
  }

  /** The layout has a length a file can have. */
  predicate Placeable(header: Bytes, ss: seq<Section>) {
    |Image(header, ss)| + SHDR * |ss| <= U64_MAX && forall s :: s in ss ==> |s.data| <= U64_MAX
  }

  lemma {:induction false} BodyGrows(header: Bytes, ss: seq<Section>, j: nat, k: nat)
    requires j <= k <= |ss|
    ensures Body(header, ss, j) <= Body(header, ss, k)
    decreases k
  {
    if j < k {
      BodyGrows(header, ss, j, k - 1);
    }
  }

  lemma {:induction false} OffsetBound(header: Bytes, ss: seq<Section>, k: nat)
    requires k < |ss|
    ensures OffsetOf(header, ss, k) <= |Image(header, ss)|
    ensures InFile(ss, k) ==>
              |header| <= OffsetOf(header, ss, k) <= |Body(header, ss, |ss|)| - |ss[k].data|
  {
    BodyGrows(header, ss, k, |ss|);
    BodyGrows(header, ss, k + 1, |ss|);
  }

  /** A section with its new place. */
  function Placed(header: Bytes, ss: seq<Section>, k: nat): Section
    requires k < |ss| && Placeable(header, ss)
  {
    OffsetBound(header, ss, k);
    assert ss[k] in ss;
    ss[k].(offset := OffsetOf(header, ss, k), size := if k == 0 then 0 else |ss[k].data|)
  }

  function PlacedAll(header: Bytes, ss: seq<Section>): (placed: seq<Section>)
    requires Placeable(header, ss)
    ensures |placed| == |ss|
  {
    seq(|ss|, k requires 0 <= k < |ss| => Placed(header, ss, k))
  }

  /** The section table: one header after another. */
  function Table(ss: seq<Section>): (t: Bytes)
    ensures |t| == SHDR * |ss|
  {
    if ss == [] then [] else Table(ss[..|ss| - 1]) + EncodeHeader(ss[|ss| - 1])
  }

  /** Overwrites the table offset in the file header. */
  function PatchOffset(file: Bytes, shoff: nat): (out: Bytes)
    requires |file| >= 64
    ensures |out| == |file|
  {
    file[..40] + LE(shoff, 8) + file[48..]
  }

  /** The whole file: image, table, and the table's offset patched into the header. */
  function Rebuilt(header: Bytes, ss: seq<Section>): Bytes
    requires |header| == 64 && Placeable(header, ss)
  {
    var image := Image(header, ss);
    PatchOffset(image + Table(PlacedAll(header, ss)), |image|)
  }

  /** Places one section, padding to its alignment. */
  method PlaceNext(header: Bytes, sections: seq<Section>, index: nat, before: Bytes)
    returns (out: Bytes, section: Section)
    requires Placeable(header, sections) && index < |sections| && before == Body(header, sections, index)
    ensures out == Body(header, sections, index + 1) && section == Placed(header, sections, index)
  {
    out, section := before, sections[index];
    OffsetBound(header, sections, index);
    assert section in sections;
    if index == 0 {
      section := section.(offset := 0, size := 0);
    } else if section.kind == SHT_NOBITS {
      section := section.(offset := |out|, size := |section.data|);
    } else {
      out := AlignTo(out, Max(section.align, 1));
      section := section.(offset := |out|, size := |section.data|);
      out := out + section.data;
    }
  }

  /** Places every section in turn. */
  method PlaceSections(header: Bytes, sections: seq<Section>) returns (out: Bytes, placed: seq<Section>)
    requires Placeable(header, sections)
    ensures out == Body(header, sections, |sections|)
    ensures |placed| == |sections|
    ensures forall k :: 0 <= k < |placed| ==> placed[k] == Placed(header, sections, k)
  {
    out := header;
    placed := [];
    var index := 0;
    while index < |sections|
      invariant 0 <= index == |placed| <= |sections|
      invariant out == Body(header, sections, index)
      invariant forall k :: 0 <= k < index ==> placed[k] == Placed(header, sections, k)
    {
      var section;
      out, section := PlaceNext(header, sections, index, out);
      placed := placed + [section];
      index := index + 1;
    }
  }

  method EncodeTable(placed: seq<Section>) returns (table: Bytes)
    ensures table == Table(placed)
  {
    table := [];
    for index := 0 to |placed|
      invariant table == Table(placed[..index])
    {
      assert placed[..index + 1][..index] == placed[..index];
      table := table + EncodeHeader(placed[index]);
    }
    assert placed[..|placed|] == placed;
  }

  /** Lays the sections out again behind the file header of `obj`. */
  method Rebuild(obj: Bytes, sections: seq<Section>) returns (out: Bytes)
    requires |obj| >= 64 && Placeable(obj[..64], sections)
    ensures out == Rebuilt(obj[..64], sections)
  {
    var placed;
    out, placed := PlaceSections(obj[..64], sections);
    assert placed == PlacedAll(obj[..64], sections);
    out := AlignTo(out, 8);
    var shoff := |out|;
    var table := EncodeTable(placed);
    out := PatchOffset(out + table, shoff);
  }

  // ----- reading back what was laid out -----

  lemma {:induction false} TableEntry(ss: seq<Section>, i: nat)
    requires i < |ss|
    ensures Table(ss)[SHDR * i..SHDR * i + SHDR] == EncodeHeader(ss[i])
  {
    var n := |ss| - 1;
    if i < n {
      TableEntry(ss[..n], i);
      assert Table(ss)[SHDR * i..SHDR * i + SHDR] == Table(ss[..n])[SHDR * i..SHDR * i + SHDR];
    } else {
      assert Table(ss)[SHDR * n..] == EncodeHeader(ss[n]);
    }
  }

  /** Nothing past the patched field of the header moves. */
  lemma {:induction false} PatchKeeps(file: Bytes, shoff: nat, from: nat, to: nat)
    requires |file| >= 64 && 48 <= from <= to <= |file|
    ensures PatchOffset(file, shoff)[from..to] == file[from..to]
  {
    var out := PatchOffset(file, shoff);
    assert out[48..] == file[48..];
    SliceOfSlice(out, 48, from, to);
    SliceOfSlice(file, 48, from, to);
  }

  lemma {:induction false} SliceOfSlice(s: Bytes, k: nat, from: nat, to: nat)
    requires k <= from <= to <= |s|
    ensures s[k..][from - k..to - k] == s[from..to]
  {
  }

  lemma {:induction false} HeaderInTable(header: Bytes, ss: seq<Section>, i: nat)
    requires |header| == 64 && Placeable(header, ss) && i < |ss|
    ensures var at := |Image(header, ss)| + i * SHDR;
            && at + SHDR <= |Rebuilt(header, ss)|
            && Rebuilt(header, ss)[at..at + SHDR] == EncodeHeader(Placed(header, ss, i))
  {
    EntryInFile(Image(header, ss), PlacedAll(header, ss), i);
  }

  lemma {:induction false} EntryInFile(image: Bytes, placed: seq<Section>, i: nat)
    requires |image| >= 64 && i < |placed|
    ensures var at, out := |image| + i * SHDR, PatchOffset(image + Table(placed), |image|);
            at + SHDR <= |out| && out[at..at + SHDR] == EncodeHeader(placed[i])
  {
    var at := |image| + i * SHDR;
    PatchKeeps(image + Table(placed), |image|, at, at + SHDR);
    TableEntry(placed, i);
    SliceBehind(image, Table(placed), SHDR * i, SHDR * i + SHDR);
  }

  lemma {:induction false} SliceBehind(a: Bytes, b: Bytes, from: nat, to: nat)
    requires from <= to <= |b|
    ensures (a + b)[|a| + from..|a| + to] == b[from..to]
  {
  }

  lemma {:induction false} DataInImage(header: Bytes, ss: seq<Section>, i: nat)
    requires |header| == 64 && Placeable(header, ss) && i < |ss| && InFile(ss, i)
    ensures var at := OffsetOf(header, ss, i);
            at + |ss[i].data| <= |Rebuilt(header, ss)| && Rebuilt(header, ss)[at..at + |ss[i].data|] == ss[i].data
  {
    var image := Image(header, ss);
    var file := image + Table(PlacedAll(header, ss));
    var at, len := OffsetOf(header, ss, i), |ss[i].data|;
    OffsetBound(header, ss, i);
    PatchKeeps(file, |image|, at, at + len);
    BodyGrows(header, ss, i + 1, |ss|);
    SliceOfPrefix(Body(header, ss, i + 1), file, at, at + len);
    SliceOfTail(AlignTo(Body(header, ss, i), Max(ss[i].align, 1)), ss[i].data);
  }

  lemma {:induction false} SliceOfPrefix(a: Bytes, b: Bytes, from: nat, to: nat)
    requires a <= b && from <= to <= |a|
    ensures b[from..to] == a[from..to]
  {
  }

  lemma {:induction false} SliceOfTail(a: Bytes, b: Bytes)
    ensures (a + b)[|a|..|a| + |b|] == b
  {
  }

  /** What reading a rebuilt file yields: every section as placed, the reserved one without bytes. */
  function Restored(header: Bytes, ss: seq<Section>): (read: seq<Section>)
    requires Placeable(header, ss) && ss != []
    ensures |read| == |ss|
  {
    PlacedAll(header, ss)[0 := Placed(header, ss, 0).(data := [])]
  }

  /**
   Section `i` of a rebuilt file reads back as it was placed, with its bytes. Section 0 is the reserved
   one: it is given no place, so its bytes, if it had any, are gone.
   */
  lemma {:induction false} ReadBackSection(header: Bytes, ss: seq<Section>, i: nat)
    requires |header| == 64 && Placeable(header, ss) && i < |ss|
    requires ss[i].kind == SHT_NOBITS ==> ss[i].data == []
    ensures ReadSection(Rebuilt(header, ss), |Image(header, ss)| + i * SHDR)
         == Ok(Restored(header, ss)[i])
  {
    HeaderInTable(header, ss, i);
    PlacedData(header, ss, i);
    ReadEncoded(Rebuilt(header, ss), |Image(header, ss)| + i * SHDR, Placed(header, ss, i),
                if i == 0 then [] else ss[i].data);
  }

  lemma {:induction false} ReadEncoded(obj: Bytes, at: nat, s: Section, data: Bytes)
    requires at <= U64_MAX && at + SHDR <= |obj| && obj[at..at + SHDR] == EncodeHeader(s)
    requires SectionData(obj, s) == Ok(data)
    ensures ReadSection(obj, at) == Ok(s.(data := data))
  {
    HeaderRoundTrip(s);
  }

  lemma {:induction false} PlacedData(header: Bytes, ss: seq<Section>, i: nat)
    requires |header| == 64 && Placeable(header, ss) && i < |ss|
    requires ss[i].kind == SHT_NOBITS ==> ss[i].data == []
    ensures SectionData(Rebuilt(header, ss), Placed(header, ss, i)) == Ok(if i == 0 then [] else ss[i].data)
  {
    if InFile(ss, i) {
      DataInImage(header, ss, i);
      OffsetBound(header, ss, i);
      DataAt(Rebuilt(header, ss), Placed(header, ss, i), ss[i].data);
    }
  }

  lemma {:induction false} DataAt(obj: Bytes, s: Section, data: Bytes)
    requires |obj| <= U64_MAX && s.kind != SHT_NOBITS && s.size == |data|
    requires s.offset + |data| <= |obj| && obj[s.offset..s.offset + |data|] == data
    ensures SectionData(obj, s) == Ok(data)
  {
  }

  /** No `.bss` carries bytes, which is how every section list read from a file comes. */
  ghost predicate BssEmpty(ss: seq<Section>) {
    forall i :: 0 <= i < |ss| && ss[i].kind == SHT_NOBITS ==> ss[i].data == []
  }

  lemma {:induction false} SectionsOk(obj: Bytes, shoff: nat, want: seq<Section>)
    requires forall i :: 0 <= i < |want| ==> ReadSection(obj, shoff + i * SHDR) == Ok(want[i])
    ensures SectionsAt(obj, shoff, |want|) == Ok(want)
  {
    CollectOk(SectionReader(obj, shoff), |want|, want);
  }

  lemma {:induction false} ReadBackList(header: Bytes, ss: seq<Section>)
    requires |header| == 64 && Placeable(header, ss) && BssEmpty(ss) && ss != []
    ensures SectionsAt(Rebuilt(header, ss), |Image(header, ss)|, |ss|) == Ok(Restored(header, ss))
  {
    var out, shoff, want := Rebuilt(header, ss), |Image(header, ss)|, Restored(header, ss);
    forall i | 0 <= i < |want|
      ensures ReadSection(out, shoff + i * SHDR) == Ok(want[i])
    {
      ReadBackSection(header, ss, i);
    }
    SectionsOk(out, shoff, want);
  }

  /** The whole list reads back as placed exactly when the reserved section had no bytes. */
  lemma {:induction false} ReadBack(header: Bytes, ss: seq<Section>)
    requires |header| == 64 && Placeable(header, ss) && BssEmpty(ss) && ss != []
    ensures SectionsAt(Rebuilt(header, ss), |Image(header, ss)|, |ss|) == Ok(PlacedAll(header, ss))
            <==> ss[0].data == []
  {
    ReadBackList(header, ss);
    var read, placed := Restored(header, ss), PlacedAll(header, ss);
    assert read[0] == placed[0] <==> ss[0].data == [];
    assert read == placed <==> read[0] == placed[0];
  }

  /** The file header survives but for the table offset, which names the new table. */
  lemma {:induction false} HeaderReadBack(header: Bytes, ss: seq<Section>)
    requires |header| == 64 && Placeable(header, ss)
    ensures var out := Rebuilt(header, ss);
            && |out| >= 64 && out[..40] == header[..40] && out[48..64] == header[48..64]
            && FromLE(out[40..48]) == |Image(header, ss)|
  {
    var image := Image(header, ss);
    var file := image + Table(PlacedAll(header, ss));
    var out := PatchOffset(file, |image|);
    assert header <= Body(header, ss, |ss|) <= image <= file;
    PatchKeeps(file, |image|, 48, 64);
    assert file[48..64] == header[48..64];
    assert out[..40] == file[..40] == header[..40];
    assert out[40..48] == LE(|image|, 8);
    Pow256Values();
    LERoundTrip(|image|, 8);
  }

  /** File extents of different sections never overlap, and each starts on its alignment. */
  lemma {:induction false} ExtentsDisjoint(header: Bytes, ss: seq<Section>, i: nat, j: nat)
    requires i < j < |ss| && InFile(ss, i) && InFile(ss, j)
    ensures OffsetOf(header, ss, i) + |ss[i].data| <= OffsetOf(header, ss, j)
    ensures ss[i].align > 1 ==> OffsetOf(header, ss, i) % ss[i].align == 0
    ensures ss[j].align > 1 ==> OffsetOf(header, ss, j) % ss[j].align == 0
  {
    BodyGrows(header, ss, i + 1, j);
  }

  /** The size a `.bss` header declares is not kept: it reads back as zero. */
  lemma {:induction false} BssSizeLost(header: Bytes, ss: seq<Section>, i: nat)
    requires |header| == 64 && Placeable(header, ss) && 0 < i < |ss|
    requires ss[i].kind == SHT_NOBITS && ss[i].data == []
    ensures ReadSection(Rebuilt(header, ss), |Image(header, ss)| + i * SHDR).Ok?
    ensures ReadSection(Rebuilt(header, ss), |Image(header, ss)| + i * SHDR).value.size == ss[i].size
       <==> ss[i].size == 0
  {
    ReadBackSection(header, ss, i);
  }
}
