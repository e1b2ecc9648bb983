/** The Windows executable check: which byte strings it accepts, and that every read stays in the file. */
module PeReader {
  import opened Bytes
  import opened Binary

  datatype Platform = WindowsX64 | WindowsArm64

  function Machine(platform: Platform): nat {
    match platform
    case WindowsX64 => 0x8664
    case WindowsArm64 => 0xAA64
  }

  datatype Section = Section(virtual: nat, span: nat, rawOffset: nat, rawSize: nat, flags: nat)

  function Max(a: nat, b: nat): nat {
    if a < b then b else a
  }

  // ---- The headers -------------------------------------------------------------------------------

  predicate DosOk(data: Bytes) {
    && |data| >= 64 && data[..2] == Ascii("MZ")
    && U32(data, 0x3C) + 24 <= |data| && data[U32(data, 0x3C)..U32(data, 0x3C) + 4] == Ascii("PE") + [0, 0]
  }

  /** Where the optional header starts; the COFF header ends there. */
  function Optional(data: Bytes): nat
    requires |data| >= 64
  {
    U32(data, 0x3C) + 24
  }

  function SectionCount(data: Bytes): nat
    requires |data| >= 64 && Optional(data) <= |data|
  {
    U16(data, Optional(data) - 18)
  }

  function OptionalSize(data: Bytes): nat
    requires |data| >= 64 && Optional(data) <= |data|
  {
    U16(data, Optional(data) - 4)
  }

  predicate CoffOk(data: Bytes, platform: Platform)
    requires |data| >= 64 && Optional(data) <= |data|
  {
    var at := Optional(data);
    && U16(data, at - 20) == Machine(platform)
    && Bit(U16(data, at - 2), 0x0002) && !Bit(U16(data, at - 2), 0x2000)
    && 1 <= SectionCount(data) <= 96 && 128 <= OptionalSize(data) <= 4096
    && at + OptionalSize(data) <= |data|
  }

  function SectionTable(data: Bytes): nat
    requires |data| >= 64 && Optional(data) <= |data|
  {
    Optional(data) + OptionalSize(data)
  }

  predicate OptionalOk(data: Bytes)
    requires |data| >= 64 && Optional(data) + 128 <= |data|
  {
    var at := Optional(data);
    && U16(data, at) == 0x20B
    && U32(data, at + 16) != 0 && U32(data, at + 56) != 0 && U16(data, at + 68) != 0
    && SectionTable(data) <= U32(data, at + 60) <= |data|
    && 2 <= U32(data, at + 108) <= 32 && 112 + U32(data, at + 108) * 8 <= OptionalSize(data)
    && SectionTable(data) + SectionCount(data) * 40 <= |data|
    && SectionTable(data) + SectionCount(data) * 40 <= U32(data, at + 60)
  }

  /** The headers pass; all fields the rest of the check reads are then inside the file. */
  predicate HeadersOk(data: Bytes, platform: Platform) {
    DosOk(data) && CoffOk(data, platform) && OptionalOk(data)
  }

  function EntryRva(data: Bytes): nat
    requires |data| >= 64 && Optional(data) + 128 <= |data|
  {
    U32(data, Optional(data) + 16)
  }

  function SizeOfImage(data: Bytes): nat
    requires |data| >= 64 && Optional(data) + 128 <= |data|
  {
    U32(data, Optional(data) + 56)
  }

  function SizeOfHeaders(data: Bytes): nat
    requires |data| >= 64 && Optional(data) + 128 <= |data|
  {
    U32(data, Optional(data) + 60)
  }

  // ---- Sections ----------------------------------------------------------------------------------

  function SectionAt(data: Bytes, at: nat): Section
    requires at + 40 <= |data|
  {
    Section(U32(data, at + 12), Max(U32(data, at + 8), U32(data, at + 16)), U32(data, at + 20), U32(data, at + 16),
      U32(data, at + 36))
  }

  /** A section spans the larger of its two sizes. */
  lemma SpanIsLarger(data: Bytes, at: nat)
    requires at + 40 <= |data|
    ensures var s := SectionAt(data, at);
      && s.span >= U32(data, at + 8) && s.span >= U32(data, at + 16)
      && (s.span == U32(data, at + 8) || s.span == U32(data, at + 16))
  {
  }

  function Sections(data: Bytes, table: nat, count: nat): (sections: seq<Section>)
    requires table + count * 40 <= |data|
    ensures |sections| == count
  {
    seq(count, k requires 0 <= k < count => SectionAt(data, table + k * 40))
  }

  predicate SectionFits(s: Section, sizeOfImage: nat, sizeOfHeaders: nat, length: nat) {
    && s.virtual != 0 && s.span != 0 && s.virtual + s.span <= sizeOfImage
    && (s.rawSize != 0 ==> sizeOfHeaders <= s.rawOffset && s.rawOffset + s.rawSize <= length)
  }

  predicate RawOverlap(a: Section, b: Section) {
    a.rawSize != 0 && b.rawSize != 0 && a.rawOffset < b.rawOffset + b.rawSize && b.rawOffset < a.rawOffset + a.rawSize
  }

  predicate SectionsFit(sections: seq<Section>, sizeOfImage: nat, sizeOfHeaders: nat, length: nat) {
    && (forall k :: 0 <= k < |sections| ==> SectionFits(sections[k], sizeOfImage, sizeOfHeaders, length))
    && (forall i, j :: 0 <= i < j < |sections| ==> !RawOverlap(sections[i], sections[j]))
  }

  datatype Range = Range(start: nat, end: nat)

  predicate Crosses(s: Section, r: Range) {
    s.rawOffset < r.end && r.start < s.rawOffset + s.rawSize
  }

  predicate HasRange(s: Section, r: Range) {
    s.rawSize != 0 && RangeOf(s) == r
  }

  predicate IsRangeOf(r: Range, sections: seq<Section>) {
    exists k :: 0 <= k < |sections| && HasRange(sections[k], r)
  }

  /** The raw ranges noted so far are those of the sections with raw data. */
  predicate RangesOf(ranges: seq<Range>, sections: seq<Section>) {
    && (forall r :: 0 <= r < |ranges| ==> IsRangeOf(ranges[r], sections))
    && (forall k :: 0 <= k < |sections| && sections[k].rawSize != 0 ==> RangeOf(sections[k]) in ranges)
  }

  function RangeOf(s: Section): Range {
    Range(s.rawOffset, s.rawOffset + s.rawSize)
  }

  predicate CrossesAny(ranges: seq<Range>, s: Section) {
    exists r :: 0 <= r < |ranges| && Crosses(s, ranges[r])
  }

  predicate OverlapsAny(sections: seq<Section>, s: Section) {
    exists k :: 0 <= k < |sections| && RawOverlap(sections[k], s)
  }

  lemma CrossIsOverlap(s: Section, t: Section)
    requires s.rawSize != 0 && t.rawSize != 0
    ensures Crosses(s, RangeOf(t)) <==> RawOverlap(t, s)
  {
  }

  lemma CrossesMeansOverlap(ranges: seq<Range>, sections: seq<Section>, s: Section)
    requires RangesOf(ranges, sections) && s.rawSize != 0
    ensures CrossesAny(ranges, s) <==> OverlapsAny(sections, s)
  {
    if CrossesAny(ranges, s) {
      var r :| 0 <= r < |ranges| && Crosses(s, ranges[r]);
      assert IsRangeOf(ranges[r], sections);
      var k :| 0 <= k < |sections| && HasRange(sections[k], ranges[r]);
      CrossIsOverlap(s, sections[k]);
      assert RawOverlap(sections[k], s);
    }
    if OverlapsAny(sections, s) {
      var k :| 0 <= k < |sections| && RawOverlap(sections[k], s);
      assert RangeOf(sections[k]) in ranges;
      var r :| 0 <= r < |ranges| && ranges[r] == RangeOf(sections[k]);
      CrossIsOverlap(s, sections[k]);
      assert Crosses(s, ranges[r]);
    }
  }

  lemma RangesGrow(ranges: seq<Range>, sections: seq<Section>, s: Section)
    requires RangesOf(ranges, sections)
    ensures s.rawSize != 0 ==> RangesOf(ranges + [RangeOf(s)], sections + [s])
    ensures s.rawSize == 0 ==> RangesOf(ranges, sections + [s])
  {
    var all, grown := sections + [s], ranges + [RangeOf(s)];
    assert all[|sections|] == s && grown[|ranges|] == RangeOf(s);
    forall r | 0 <= r < |ranges|
      ensures IsRangeOf(ranges[r], all)
    {
      assert IsRangeOf(ranges[r], sections);
      var k :| 0 <= k < |sections| && HasRange(sections[k], ranges[r]);
      assert all[k] == sections[k];
    }
    forall k | 0 <= k < |sections| && sections[k].rawSize != 0
      ensures RangeOf(all[k]) in grown
    {
      assert RangeOf(sections[k]) in ranges;
    }
  }

  /** One more section fits exactly if it fits alone and overlaps none before it. */
  lemma SectionJoins(all: seq<Section>, k: nat, sizeOfImage: nat, sizeOfHeaders: nat, length: nat)
    requires k < |all|
    ensures SectionsFit(all[..k + 1], sizeOfImage, sizeOfHeaders, length) <==>
      && SectionsFit(all[..k], sizeOfImage, sizeOfHeaders, length)
      && SectionFits(all[k], sizeOfImage, sizeOfHeaders, length) && !OverlapsAny(all[..k], all[k])
    ensures SectionsFit(all, sizeOfImage, sizeOfHeaders, length) ==>
      SectionsFit(all[..k + 1], sizeOfImage, sizeOfHeaders, length)
  {
    var more := all[..k + 1];
    assert forall i :: 0 <= i < k ==> more[i] == all[..k][i];
    assert more[k] == all[k];
    if SectionsFit(more, sizeOfImage, sizeOfHeaders, length) {
      forall i | 0 <= i < k
        ensures !RawOverlap(all[..k][i], all[k])
      {
        assert !RawOverlap(more[i], more[k]);
      }
    }
  }

  /** The checks on one section against the ranges noted so far. */
  method CheckSection(s: Section, ranges: seq<Range>, sizeOfImage: nat, sizeOfHeaders: nat, length: nat)
    returns (ok: bool)
    ensures ok <==>
      SectionFits(s, sizeOfImage, sizeOfHeaders, length) && (s.rawSize != 0 ==> !CrossesAny(ranges, s))
  {
    if s.virtual == 0 || s.span == 0 || s.virtual + s.span > sizeOfImage {
      return false;
    }
    if s.rawSize != 0 {
      if s.rawOffset < sizeOfHeaders || s.rawOffset + s.rawSize > length || CrossesAny(ranges, s) {
        return false;
      }
    }
    return true;
  }

  /** Reads the section table, or stops at a section that does not fit or overlaps an earlier one. */
  method ReadSections(data: Bytes, table: nat, count: nat, sizeOfImage: nat, sizeOfHeaders: nat)
    returns (r: Option<seq<Section>>)
    requires table + count * 40 <= |data|
    ensures r == if SectionsFit(Sections(data, table, count), sizeOfImage, sizeOfHeaders, |data|)
      then Some(Sections(data, table, count)) else None
  {
    ghost var all := Sections(data, table, count);
    var sections: seq<Section> := [];
    var ranges: seq<Range> := [];
    for k := 0 to count
      invariant sections == all[..k] && RangesOf(ranges, sections)
      invariant SectionsFit(sections, sizeOfImage, sizeOfHeaders, |data|)
    {
      var s := SectionAt(data, table + k * 40);
      assert s == all[k];
      SectionJoins(all, k, sizeOfImage, sizeOfHeaders, |data|);
      RangesGrow(ranges, sections, s);
      var ok := CheckSection(s, ranges, sizeOfImage, sizeOfHeaders, |data|);
      if s.rawSize != 0 {
        CrossesMeansOverlap(ranges, sections, s);
        ranges := ranges + [RangeOf(s)];
      }
      if !ok {
        return None;
      }
      sections := sections + [s];
    }
    assert all[..count] == all;
    return Some(sections);
  }

  // ---- Mapping addresses -------------------------------------------------------------------------

  predicate Covers(s: Section, rva: nat, size: nat) {
    s.virtual <= rva && rva + size <= s.virtual + s.span
  }

  /** The index of the first section that covers the range, or the number of sections. */
  function FirstCover(sections: seq<Section>, rva: nat, size: nat): (k: nat)
    ensures k <= |sections|
    ensures k < |sections| ==> Covers(sections[k], rva, size)
    ensures forall i :: 0 <= i < k ==> !Covers(sections[i], rva, size)
  {
    if sections == [] || Covers(sections[0], rva, size) then 0 else 1 + FirstCover(sections[1..], rva, size)
  }

  /** Only the first covering section counts, and its raw data must hold the whole range. */
  function Mapped(sections: seq<Section>, rva: nat, size: nat): Option<nat> {
    var k := FirstCover(sections, rva, size);
    if size < 1 || rva + size > 0x1_0000_0000 || k == |sections| then None
    else if rva - sections[k].virtual + size > sections[k].rawSize then None
    else Some(sections[k].rawOffset + (rva - sections[k].virtual))
  }

  method MapRva(sections: seq<Section>, rva: nat, size: nat) returns (r: Option<nat>)
    ensures r == Mapped(sections, rva, size)
  {
    if size < 1 || rva + size > 0x1_0000_0000 {
      return None;
    }
    var k := 0;
    while k < |sections|
      invariant k <= |sections| && forall i :: 0 <= i < k ==> !Covers(sections[i], rva, size)
    {
      var s := sections[k];
      if s.virtual <= rva && rva + size <= s.virtual + s.span {
        assert k == FirstCover(sections, rva, size);
        var relative := rva - s.virtual;
        if relative + size > s.rawSize {
          break;
        }
        return Some(s.rawOffset + relative);
      }
      k := k + 1;
    }
    return None;
  }

  /** A mapped range lies inside the raw data of one section, and so inside the file. */
  lemma MappedInside(sections: seq<Section>, rva: nat, size: nat, sizeOfImage: nat, sizeOfHeaders: nat, length: nat)
    requires SectionsFit(sections, sizeOfImage, sizeOfHeaders, length) && Mapped(sections, rva, size).Some?
    ensures
      var k, o := FirstCover(sections, rva, size), Mapped(sections, rva, size).value;
      k < |sections| && sections[k].rawOffset <= o && o + size <= sections[k].rawOffset + sections[k].rawSize <= length
    ensures forall j ::
      0 <= j < |sections| && j != FirstCover(sections, rva, size) && sections[j].rawSize != 0 ==>
        Mapped(sections, rva, size).value + size <= sections[j].rawOffset
        || sections[j].rawOffset + sections[j].rawSize <= Mapped(sections, rva, size).value
  {
    var k := FirstCover(sections, rva, size);
    forall j | 0 <= j < |sections| && j != k && sections[j].rawSize != 0
      ensures !RawOverlap(sections[k], sections[j])
    {
      assert if j < k then !RawOverlap(sections[j], sections[k]) else !RawOverlap(sections[k], sections[j]);
    }
  }

  /** An address maps exactly through the first section around the range, if its raw data holds the range. */
  lemma MappedExactly(sections: seq<Section>, rva: nat, size: nat, k: nat)
    requires k < |sections| && sections[k].virtual <= rva && rva + size <= sections[k].virtual + sections[k].span
    requires forall j :: 0 <= j < k ==> rva < sections[j].virtual || sections[j].virtual + sections[j].span < rva + size
    ensures Mapped(sections, rva, size) ==
      if 1 <= size && rva + size <= 0x1_0000_0000 && rva - sections[k].virtual + size <= sections[k].rawSize
      then Some(sections[k].rawOffset + (rva - sections[k].virtual)) else None
  {
    assert FirstCover(sections, rva, size) == k;
  }

  // ---- Import names ------------------------------------------------------------------------------

  const NAME_SCAN: nat := 4096

  /** The search that bounds a name: again the first section around the address. */
  method NameLimit(sections: seq<Section>, rva: nat, nameOffset: nat) returns (r: Option<nat>)
    requires Mapped(sections, rva, 1) == Some(nameOffset)
    ensures r.Some?
    ensures r.value == LimitIn(sections[FirstCover(sections, rva, 1)], nameOffset)
  {
    r := None;
    var k := 0;
    while k < |sections|
      invariant k <= FirstCover(sections, rva, 1)
    {
      var s := sections[k];
      if s.virtual <= rva < s.virtual + s.span {
        var relative := rva - s.virtual;
        if relative < s.rawSize {
          r := Some(LimitIn(s, nameOffset));
        }
        break;
      }
      k := k + 1;
    }
  }

  function LimitIn(s: Section, nameOffset: nat): nat {
    if s.rawOffset + s.rawSize < nameOffset + NAME_SCAN then s.rawOffset + s.rawSize else nameOffset + NAME_SCAN
  }

  predicate NameCharacters(name: Bytes) {
    name != [] && forall i :: 0 <= i < |name| ==> name[i] < 128 && name[i] !in Ascii("/\\:")
  }

  /** The name at an address: zero-terminated within its section and 4096 bytes, ASCII, no path characters. */
  predicate NameAt(data: Bytes, sections: seq<Section>, rva: nat, name: Bytes) {
    && Mapped(sections, rva, 1).Some?
    && var o := Mapped(sections, rva, 1).value;
      IsTerminated(data, o, LimitIn(sections[FirstCover(sections, rva, 1)], o), name) && NameCharacters(name)
  }

  lemma NameUnique(data: Bytes, sections: seq<Section>, rva: nat, name: Bytes, other: Bytes)
    requires NameAt(data, sections, rva, name) && NameAt(data, sections, rva, other)
    ensures name == other
  {
    var o := Mapped(sections, rva, 1).value;
    TerminatedUnique(data, o, LimitIn(sections[FirstCover(sections, rva, 1)], o), name, other);
  }

  method ReadName(
    data: Bytes, sections: seq<Section>, rva: nat, ghost sizeOfImage: nat, ghost sizeOfHeaders: nat)
    returns (r: Option<Bytes>)
    requires SectionsFit(sections, sizeOfImage, sizeOfHeaders, |data|)
    ensures r.Some? ==> NameAt(data, sections, rva, r.value)
    ensures r.None? ==> forall name :: !NameAt(data, sections, rva, name)
  {
    var offset := MapRva(sections, rva, 1);
    if offset.None? {
      return None;
    }
    MappedInside(sections, rva, 1, sizeOfImage, sizeOfHeaders, |data|);
    var limit := NameLimit(sections, rva, offset.value);
    r := ReadTerminated(data, offset.value, limit.value);
    if r.Some? && !NameCharacters(r.value) {
      forall name | NameAt(data, sections, rva, name)
        ensures false
      {
        TerminatedUnique(data, offset.value, limit.value, r.value, name);
      }
      return None;
    }
  }

  function Lower(b: Byte): Byte {
    if 65 <= b <= 90 then b + 32 else b
  }

  function LowerAll(name: Bytes): Bytes {
    seq(|name|, i requires 0 <= i < |name| => Lower(name[i]))
  }

  /** libsodium*.dll, in any case. */
  predicate IsLibsodium(name: Bytes) {
    var low, stem, suffix := LowerAll(name), Ascii("libsodium"), Ascii(".dll");
    stem <= low && |low| >= |suffix| && low[|low| - |suffix|..] == suffix
  }
}
