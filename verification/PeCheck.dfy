/** The import table of a Windows executable and the whole check. */
module PeCheck {
  import opened Bytes
  import opened Binary
  import opened PeReader

  const DESCRIPTOR: nat := 20

  predicate ZeroDescriptor(data: Bytes, at: nat)
    requires at + DESCRIPTOR <= |data|
  {
    && U32(data, at) == 0 && U32(data, at + 4) == 0 && U32(data, at + 8) == 0 && U32(data, at + 12) == 0
    && U32(data, at + 16) == 0
  }

  predicate ImportAt(data: Bytes, sections: seq<Section>, at: nat, name: Bytes)
    requires at + DESCRIPTOR <= |data|
  {
    && !ZeroDescriptor(data, at) && U32(data, at + 12) != 0 && U32(data, at + 16) != 0
    && NameAt(data, sections, U32(data, at + 12), name)
  }

  ghost predicate NoImportAt(data: Bytes, sections: seq<Section>, at: nat)
    requires at + DESCRIPTOR <= |data|
  {
    forall name :: !ImportAt(data, sections, at, name)
  }

  /** The descriptors of the table up to the first all-zero one name exactly these libraries. */
  predicate ImportsAre(data: Bytes, sections: seq<Section>, offset: nat, limit: nat, names: seq<Bytes>) {
    && offset + (|names| + 1) * DESCRIPTOR <= limit <= |data|
    && ZeroDescriptor(data, offset + |names| * DESCRIPTOR)
    && forall i :: 0 <= i < |names| ==> ImportAt(data, sections, offset + i * DESCRIPTOR, names[i])
  }

  /** The names read so far. */
  predicate ReadSoFar(data: Bytes, sections: seq<Section>, offset: nat, names: seq<Bytes>) {
    && offset + |names| * DESCRIPTOR <= |data|
    && forall i :: 0 <= i < |names| ==> ImportAt(data, sections, offset + i * DESCRIPTOR, names[i])
  }

  /** Any complete reading extends what was read so far. */
  lemma {:induction false} ReadingsAgree(
    data: Bytes, sections: seq<Section>, offset: nat, limit: nat, read: seq<Bytes>, names: seq<Bytes>)
    requires ReadSoFar(data, sections, offset, read) && ImportsAre(data, sections, offset, limit, names)
    ensures |read| <= |names| && read == names[..|read|]
  {
    if read != [] {
      var k := |read| - 1;
      ReadingsAgree(data, sections, offset, limit, read[..k], names);
      assert ImportAt(data, sections, offset + k * DESCRIPTOR, read[k]);
      assert k < |names|;
      NameUnique(data, sections, U32(data, offset + k * DESCRIPTOR + 12), read[k], names[k]);
    }
  }

  /** So there is at most one list of imports. */
  lemma ImportsUnique(data: Bytes, sections: seq<Section>, offset: nat, limit: nat, names: seq<Bytes>,
                      other: seq<Bytes>)
    requires ImportsAre(data, sections, offset, limit, names) && ImportsAre(data, sections, offset, limit, other)
    ensures names == other
  {
    ReadingsAgree(data, sections, offset, limit, names, other);
    ReadingsAgree(data, sections, offset, limit, other, names);
  }

  /** A descriptor that cannot be read rules out every complete reading. */
  lemma StopsReading(data: Bytes, sections: seq<Section>, offset: nat, limit: nat, read: seq<Bytes>)
    requires ReadSoFar(data, sections, offset, read)
    requires offset + (|read| + 1) * DESCRIPTOR <= limit <= |data| ==>
      && !ZeroDescriptor(data, offset + |read| * DESCRIPTOR)
      && NoImportAt(data, sections, offset + |read| * DESCRIPTOR)
    ensures forall names :: !ImportsAre(data, sections, offset, limit, names)
  {
    forall names | ImportsAre(data, sections, offset, limit, names)
      ensures false
    {
      ReadingsAgree(data, sections, offset, limit, read, names);
      if |read| < |names| {
        NextRead(data, sections, offset, limit, names, |read|);
      }
    }
  }

  lemma NextRead(data: Bytes, sections: seq<Section>, offset: nat, limit: nat, names: seq<Bytes>, k: nat)
    requires ImportsAre(data, sections, offset, limit, names) && k < |names|
    ensures offset + (k + 1) * DESCRIPTOR <= limit <= |data|
    ensures ImportAt(data, sections, offset + k * DESCRIPTOR, names[k])
  {
  }

  /** Walks the descriptors; ends well only at an all-zero one inside the table. */
  method ReadImports(
    data: Bytes, sections: seq<Section>, offset: nat, limit: nat, ghost sizeOfImage: nat, ghost sizeOfHeaders: nat)
    returns (r: Option<seq<Bytes>>)
    requires offset <= limit <= |data| && SectionsFit(sections, sizeOfImage, sizeOfHeaders, |data|)
    ensures r.Some? ==> ImportsAre(data, sections, offset, limit, r.value)
    ensures r.None? ==> forall names :: !ImportsAre(data, sections, offset, limit, names)
  {
    var names: seq<Bytes> := [];
    var at := offset;
    while at + DESCRIPTOR <= limit
      invariant at == offset + |names| * DESCRIPTOR <= limit && ReadSoFar(data, sections, offset, names)
      decreases limit - at
    {
      if ZeroDescriptor(data, at) {
        return Some(names);
      }
      var rva := U32(data, at + 12);
      if rva == 0 || U32(data, at + 16) == 0 {
        StopsReading(data, sections, offset, limit, names);
        return None;
      }
      var name := ReadName(data, sections, rva, sizeOfImage, sizeOfHeaders);
      if name.None? {
        StopsReading(data, sections, offset, limit, names);
        return None;
      }
      names := names + [name.value];
      at := at + DESCRIPTOR;
    }
    StopsReading(data, sections, offset, limit, names);
    return None;
  }

  // ---- The whole check ---------------------------------------------------------------------------

  predicate EntryExecutable(sections: seq<Section>, entry: nat) {
    var k := FirstCover(sections, entry, 1);
    k < |sections| && Bit(sections[k].flags, 0x2000_0000)
  }

  function AllSections(data: Bytes): seq<Section>
    requires |data| >= 64 && Optional(data) <= |data| && SectionTable(data) + SectionCount(data) * 40 <= |data|
  {
    Sections(data, SectionTable(data), SectionCount(data))
  }

  function ImportRva(data: Bytes): nat
    requires |data| >= 64 && Optional(data) + 128 <= |data|
  {
    U32(data, Optional(data) + 120)
  }

  function ImportSize(data: Bytes): nat
    requires |data| >= 64 && Optional(data) + 128 <= |data|
  {
    U32(data, Optional(data) + 124)
  }

  /** The table is mapped, ends in a zero descriptor, and names at least one library and no libsodium. */
  predicate ImportsAccepted(data: Bytes, sections: seq<Section>, rva: nat, size: nat, names: seq<Bytes>) {
    && rva != 0 && size >= 40 && Mapped(sections, rva, size).Some?
    && ImportsAre(data, sections, Mapped(sections, rva, size).value, Mapped(sections, rva, size).value + size, names)
    && names != [] && forall i :: 0 <= i < |names| ==> !IsLibsodium(names[i])
  }

  ghost predicate PeAccepted(data: Bytes, platform: Platform, names: seq<Bytes>) {
    && HeadersOk(data, platform)
    && SectionsFit(AllSections(data), SizeOfImage(data), SizeOfHeaders(data), |data|)
    && EntryExecutable(AllSections(data), EntryRva(data))
    && ImportsAccepted(data, AllSections(data), ImportRva(data), ImportSize(data), names)
  }

  method CheckImports(
    data: Bytes, sections: seq<Section>, rva: nat, size: nat, ghost sizeOfImage: nat, ghost sizeOfHeaders: nat)
    returns (ok: bool, ghost names: seq<Bytes>)
    requires SectionsFit(sections, sizeOfImage, sizeOfHeaders, |data|)
    ensures ok ==> ImportsAccepted(data, sections, rva, size, names)
    ensures !ok ==> forall others :: !ImportsAccepted(data, sections, rva, size, others)
  {
    names := [];
    if rva == 0 || size < 40 {
      return false, names;
    }
    var offset := MapRva(sections, rva, size);
    if offset.None? {
      return false, names;
    }
    MappedInside(sections, rva, size, sizeOfImage, sizeOfHeaders, |data|);
    var read := ReadImports(data, sections, offset.value, offset.value + size, sizeOfImage, sizeOfHeaders);
    if read.None? {
      return false, names;
    }
    names := read.value;
    ok := read.value != [] && forall i :: 0 <= i < |read.value| ==> !IsLibsodium(read.value[i]);
    forall others | ImportsAccepted(data, sections, rva, size, others)
      ensures others == names
    {
      ImportsUnique(data, sections, offset.value, offset.value + size, names, others);
    }
  }

  /** Accepts or refuses every byte string; it never reads outside it. */
  method ValidateWindowsPe(data: Bytes, platform: Platform) returns (ok: bool, ghost names: seq<Bytes>)
    ensures ok ==> PeAccepted(data, platform, names)
    ensures !ok ==> forall others :: !PeAccepted(data, platform, others)
  {
    names := [];
    if !HeadersOk(data, platform) {
      return false, names;
    }
    var sections := ReadSections(data, SectionTable(data), SectionCount(data), SizeOfImage(data), SizeOfHeaders(data));
    if sections.None? || !EntryExecutable(sections.value, EntryRva(data)) {
      return false, names;
    }
    ok, names := CheckImports(
      data, sections.value, ImportRva(data), ImportSize(data), SizeOfImage(data), SizeOfHeaders(data));
  }

  // ---- What acceptance means ---------------------------------------------------------------------

  lemma DosBytes(data: Bytes)
    requires DosOk(data)
    ensures var at := U32(data, 0x3C);
      && data[0] == 0x4D && data[1] == 0x5A
      && data[at] == 0x50 && data[at + 1] == 0x45 && data[at + 2] == 0 && data[at + 3] == 0
  {
    var at := U32(data, 0x3C);
    var dos, pe := Ascii("MZ"), Ascii("PE") + [0, 0];
    assert data[..2] == dos && data[0] == data[..2][0] && data[1] == data[..2][1];
    assert pe[0] == 0x50 && pe[1] == 0x45;
    MarkBytes(data, at, pe);
  }

  lemma MarkBytes(data: Bytes, at: nat, mark: Bytes)
    requires |mark| == 4 && at + 4 <= |data| && data[at..at + 4] == mark
    ensures data[at] == mark[0] && data[at + 1] == mark[1] && data[at + 2] == mark[2] && data[at + 3] == mark[3]
  {
    var part := data[at..at + 4];
    assert part[0] == data[at] && part[1] == data[at + 1] && part[2] == data[at + 2] && part[3] == data[at + 3];
  }

  /** What the header bytes of an accepted image say: this machine, an executable, no library, 64 bits. */
  lemma AcceptedHeaderBytes(data: Bytes, platform: Platform, names: seq<Bytes>)
    requires PeAccepted(data, platform, names)
    ensures var at := U32(data, 0x3C);
      && at + 152 <= |data| && data[0] == 0x4D && data[1] == 0x5A
      && data[at] == 0x50 && data[at + 1] == 0x45 && data[at + 2] == 0 && data[at + 3] == 0
      && data[at + 4] == 0x64 && data[at + 5] == (if platform == WindowsX64 then 0x86 else 0xAA)
      && (data[at + 22] as int / 2) % 2 == 1 && (data[at + 23] as int / 32) % 2 == 0
      && data[at + 24] == 0x0B && data[at + 25] == 2
  {
    var at := U32(data, 0x3C);
    DosBytes(data);
    MachineBytes(data, at + 4, platform);
    FlagBytes(data, at + 22);
    MagicBytes(data, at + 24);
  }

  lemma MachineBytes(data: Bytes, at: nat, platform: Platform)
    requires at + 2 <= |data| && U16(data, at) == Machine(platform)
    ensures data[at] == 0x64 && data[at + 1] == if platform == WindowsX64 then 0x86 else 0xAA
  {
  }

  lemma MagicBytes(data: Bytes, at: nat)
    requires at + 2 <= |data| && U16(data, at) == 0x20B
    ensures data[at] == 0x0B && data[at + 1] == 2
  {
  }

  /** The two flags that make an image an executable and not a library. */
  lemma FlagBytes(data: Bytes, at: nat)
    requires at + 2 <= |data| && Bit(U16(data, at), 0x0002) && !Bit(U16(data, at), 0x2000)
    ensures (data[at] as int / 2) % 2 == 1 && (data[at + 1] as int / 32) % 2 == 0
  {
    var low, high := data[at] as int, data[at + 1] as int;
    assert (low + 256 * high) / 2 == low / 2 + 128 * high;
    assert (low + 256 * high) / 0x2000 == high / 32;
  }

  /** Every section lies in the image and is not empty, and the entry point in one that is executable. */
  lemma AcceptedImage(data: Bytes, platform: Platform, names: seq<Bytes>, i: nat) returns (k: nat)
    requires PeAccepted(data, platform, names) && i < |AllSections(data)|
    ensures var s := AllSections(data)[i]; 0 < s.virtual < s.virtual + s.span <= SizeOfImage(data)
    ensures k < |AllSections(data)| && (AllSections(data)[k].flags / 0x2000_0000) % 2 == 1
    ensures var s := AllSections(data)[k]; s.virtual <= EntryRva(data) < s.virtual + s.span && EntryRva(data) > 0
    ensures 1 <= |AllSections(data)| <= 96 && 1 <= |names|
  {
    assert SectionFits(AllSections(data)[i], SizeOfImage(data), SizeOfHeaders(data), |data|);
    k := FirstCover(AllSections(data), EntryRva(data), 1);
  }

  /** The raw data of the sections lies in the file behind the headers, pairwise apart. */
  lemma AcceptedSectionsApart(data: Bytes, platform: Platform, names: seq<Bytes>, i: nat, j: nat)
    requires PeAccepted(data, platform, names) && i < |AllSections(data)| && j < |AllSections(data)| && i != j
    requires AllSections(data)[i].rawSize != 0 && AllSections(data)[j].rawSize != 0
    ensures
      var s, t := AllSections(data)[i], AllSections(data)[j];
      && SizeOfHeaders(data) <= s.rawOffset && s.rawOffset + s.rawSize <= |data|
      && (s.rawOffset + s.rawSize <= t.rawOffset || t.rawOffset + t.rawSize <= s.rawOffset)
  {
    var low, high := if i < j then i else j, if i < j then j else i;
    assert !RawOverlap(AllSections(data)[low], AllSections(data)[high]);
  }

  /** The name at an address stands in one section's raw data, its terminator included. */
  predicate NameInside(data: Bytes, sections: seq<Section>, rva: nat, name: Bytes) {
    && Mapped(sections, rva, 1).Some?
    && var o, s := Mapped(sections, rva, 1).value, sections[FirstCover(sections, rva, 1)];
      s.rawOffset <= o && o + |name| < s.rawOffset + s.rawSize <= |data|
      && name == data[o..o + |name|] && data[o + |name|] == 0
  }

  lemma NameStaysInside(
    data: Bytes, sections: seq<Section>, rva: nat, name: Bytes, sizeOfImage: nat, sizeOfHeaders: nat)
    requires SectionsFit(sections, sizeOfImage, sizeOfHeaders, |data|) && NameAt(data, sections, rva, name)
    ensures NameInside(data, sections, rva, name)
  {
    MappedInside(sections, rva, 1, sizeOfImage, sizeOfHeaders, |data|);
  }

  lemma NamedDescriptor(data: Bytes, sections: seq<Section>, table: nat, limit: nat, names: seq<Bytes>, i: nat)
    requires ImportsAre(data, sections, table, limit, names) && i < |names|
    ensures table + i * DESCRIPTOR + DESCRIPTOR <= |data|
    ensures NameAt(data, sections, U32(data, table + i * DESCRIPTOR + 12), names[i])
  {
    assert ImportAt(data, sections, table + i * DESCRIPTOR, names[i]);
  }

  /** Each import name is read from one section's raw data, its terminator included. */
  lemma AcceptedNamesInside(data: Bytes, platform: Platform, names: seq<Bytes>, i: nat)
    requires PeAccepted(data, platform, names) && i < |names|
    ensures Mapped(AllSections(data), ImportRva(data), ImportSize(data)).Some?
    ensures
      var at := Mapped(AllSections(data), ImportRva(data), ImportSize(data)).value + i * DESCRIPTOR;
      at + DESCRIPTOR <= |data| && NameInside(data, AllSections(data), U32(data, at + 12), names[i])
  {
    var sections := AllSections(data);
    var table := Mapped(sections, ImportRva(data), ImportSize(data)).value;
    NamedDescriptor(data, sections, table, table + ImportSize(data), names, i);
    NameStaysInside(data, sections, U32(data, table + i * DESCRIPTOR + 12), names[i], SizeOfImage(data),
      SizeOfHeaders(data));
  }

  /** No descriptor before the terminator names libsodium, in whatever case it is written. */
  lemma AcceptedWithoutLibsodium(
    data: Bytes, platform: Platform, names: seq<Bytes>, read: seq<Bytes>, middle: Bytes, k: nat)
    requires PeAccepted(data, platform, names) && k < |read|
    requires
      var table := Mapped(AllSections(data), ImportRva(data), ImportSize(data)).value;
      ReadSoFar(data, AllSections(data), table, read)
    ensures k < |names| && read[k] == names[k] && LowerAll(read[k]) != Ascii("libsodium") + middle + Ascii(".dll")
  {
    var table := Mapped(AllSections(data), ImportRva(data), ImportSize(data)).value;
    ReadingsAgree(data, AllSections(data), table, table + ImportSize(data), read, names);
    var low := Ascii("libsodium") + middle + Ascii(".dll");
    assert Ascii("libsodium") <= low && low[|low| - |Ascii(".dll")|..] == Ascii(".dll");
    assert !IsLibsodium(names[k]);
  }
}
