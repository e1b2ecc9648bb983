/** A small Windows executable, byte by byte, that the check accepts: the fields lie where the format puts them. */
module SmallPe {
  import opened Bytes
  import opened Binary
  import opened PeReader
  import opened PeCheck

  /**
   * 64 bytes of DOS header, "PE", a COFF header, 128 bytes of optional header, one section header, and 64
   * bytes of section data: an import descriptor, a zero one, and the name k.dll.
   */
  function ByteAt(i: nat): Byte {
    if i < 88 then HeadByte(i) else if i < 216 then OptionalByte(i - 88) else if i < 256 then SectionByte(i - 216)
    else DataByte(i - 256)
  }

  function HeadByte(i: nat): Byte {
    if i == 0 then 0x4D else if i == 1 then 0x5A
    else if i == 60 then 64
    else if i == 64 then 0x50 else if i == 65 then 0x45
    else if i == 68 then 0x64 else if i == 69 then 0x86
    else if i == 70 then 1
    else if i == 84 then 128
    else if i == 86 then 0x22
    else 0
  }

  function OptionalByte(i: nat): Byte {
    if i == 0 then 0x0B else if i == 1 then 0x02
    else if i == 17 then 0x10
    else if i == 57 then 0x20
    else if i == 61 then 1
    else if i == 68 then 3
    else if i == 108 then 2
    else if i == 121 then 0x10
    else if i == 124 then 40
    else 0
  }

  function SectionByte(i: nat): Byte {
    if i == 8 then 64
    else if i == 13 then 0x10
    else if i == 16 then 64
    else if i == 21 then 1
    else if i == 36 then 0x20 else if i == 39 then 0x60
    else 0
  }

  function DataByte(i: nat): Byte {
    if i == 12 then 40 else if i == 13 then 0x10
    else if i == 17 then 0x10
    else if i == 40 then 107 else if i == 41 then 46 else if i == 42 then 100 else if i == 43 then 108
    else if i == 44 then 108
    else 0
  }

  function Image(): (image: Bytes)
    ensures |image| == 320
  {
    seq(320, i requires 0 <= i < 320 => ByteAt(i))
  }

  function CodeSection(): Section {
    Section(0x1000, 64, 256, 64, 0x6000_0020)
  }

  lemma HeadFields()
    ensures var d := Image();
      && U32(d, 60) == 64 && U16(d, 68) == 0x8664 && U16(d, 70) == 1 && U16(d, 84) == 128 && U16(d, 86) == 0x22
      && d[0] == 0x4D && d[1] == 0x5A && d[64] == 0x50 && d[65] == 0x45 && d[66] == 0 && d[67] == 0
  {
  }

  lemma OptionalFields()
    ensures var d := Image();
      && U16(d, 88) == 0x20B && U32(d, 104) == 0x1000 && U32(d, 144) == 0x2000 && U32(d, 148) == 256
      && U16(d, 156) == 3 && U32(d, 196) == 2 && U32(d, 208) == 0x1000 && U32(d, 212) == 40
  {
  }

  lemma SectionFields()
    ensures SectionAt(Image(), 216) == CodeSection()
  {
  }

  lemma ImportFields()
    ensures var d := Image();
      && U32(d, 268) == 0x1028 && U32(d, 272) == 0x1000 && ZeroDescriptor(d, 276)
  {
  }

  lemma HeadersPass()
    ensures HeadersOk(Image(), WindowsX64) && Optional(Image()) == 88 && SectionTable(Image()) == 216
    ensures SectionCount(Image()) == 1
  {
    var d := Image();
    HeadFields();
    OptionalFields();
    assert d[..2] == Ascii("MZ");
    assert d[64..68] == Ascii("PE") + [0, 0];
  }

  lemma SectionsPass()
    ensures HeadersOk(Image(), WindowsX64) && AllSections(Image()) == [CodeSection()]
    ensures SizeOfImage(Image()) == 0x2000 && SizeOfHeaders(Image()) == 256 && EntryRva(Image()) == 0x1000
    ensures ImportRva(Image()) == 0x1000 && ImportSize(Image()) == 40
  {
    HeadersPass();
    HeadFields();
    OptionalFields();
    SectionFields();
    assert AllSections(Image())[0] == SectionAt(Image(), 216);
  }

  lemma CodeMaps(rva: nat, size: nat)
    requires 0x1000 <= rva && size >= 1 && rva + size <= 0x1040
    ensures FirstCover([CodeSection()], rva, size) == 0
    ensures Mapped([CodeSection()], rva, size) == Some(256 + (rva - 0x1000))
  {
  }

  function Name(): Bytes { [107, 46, 100, 108, 108] }

  lemma NameReads()
    ensures NameAt(Image(), [CodeSection()], 0x1028, Name())
  {
    var d := Image();
    CodeMaps(0x1028, 1);
    assert d[296..301] == Name();
    assert FirstZeroAt(d, 296, 301);
  }

  lemma ImportsPass()
    ensures ImportsAccepted(Image(), [CodeSection()], 0x1000, 40, [Name()])
  {
    CodeMaps(0x1000, 40);
    ImportFields();
    NameReads();
    assert ImportAt(Image(), [CodeSection()], 256, Name());
    assert !IsLibsodium(Name());
  }

  lemma EntryPasses()
    ensures EntryExecutable([CodeSection()], 0x1000)
  {
    CodeMaps(0x1000, 1);
    assert Bit(CodeSection().flags, 0x2000_0000);
  }

  lemma OneSectionFits()
    ensures SectionsFit([CodeSection()], 0x2000, 256, 320)
  {
  }

  lemma OtherMachine()
    ensures !HeadersOk(Image(), WindowsArm64)
  {
    HeadFields();
  }

  /** The image is accepted as an x64 executable that imports k.dll, and as nothing else. */
  lemma ImageIsAccepted()
    ensures PeAccepted(Image(), WindowsX64, [Name()]) && !HeadersOk(Image(), WindowsArm64)
  {
    SectionsPass();
    OneSectionFits();
    EntryPasses();
    ImportsPass();
    OtherMachine();
  }
}
