/** A small Linux executable, byte by byte, that the check accepts: the fields lie where the format puts them. */
module SmallElf {
  import opened Bytes
  import opened Binary
  import opened ElfReader
  import opened Strings

  /** ASCII text is its own decoding and folding. */
  function Plain(): Unicode {
    Unicode((b: Bytes) => Some(AsText(b)), (s: string) => s)
  }

  function AsText(b: Bytes): (s: string)
    ensures |s| == |b|
  {
    seq(|b|, i requires 0 <= i < |b| => b[i] as int as char)
  }

  /**
   * A 64-byte header, three program headers (loaded, interpreter, dynamic), the interpreter's path, six
   * dynamic entries, and the strings they point into.
   */
  function ByteAt(i: nat): Byte {
    if i < 64 then HeadByte(i) else if i < 120 then LoadByte(i - 64) else if i < 176 then InterpreterByte(i - 120)
    else if i < 232 then DynamicByte(i - 176) else if i < 260 then PathByte(i - 232)
    else if i < 356 then EntryByte(i - 260) else StringByte(i - 356)
  }

  function HeadByte(i: nat): Byte {
    if i == 0 then 0x7F else if i == 1 then 69 else if i == 2 then 76 else if i == 3 then 70
    else if i == 4 then 2 else if i == 5 then 1
    else if i == 16 then 3
    else if i == 18 then 0x3E
    else if i == 32 then 64
    else if i == 54 then 56
    else if i == 56 then 3
    else 0
  }

  function LoadByte(i: nat): Byte {
    if i == 0 then 1 else if i == 17 then 0x10 else if i == 32 then 0x77 else if i == 33 then 1 else 0
  }

  function InterpreterByte(i: nat): Byte {
    if i == 0 then 3 else if i == 8 then 232 else if i == 32 then 28 else 0
  }

  function DynamicByte(i: nat): Byte {
    if i == 0 then 2 else if i == 8 then 4 else if i == 9 then 1 else if i == 32 then 96 else 0
  }

  /** "/lib64/ld-linux-x86-64.so.2" and a zero. */
  function PathByte(i: nat): Byte
    requires i < 28
  {
    [47, 108, 105, 98, 54, 52, 47, 108, 100, 45, 108, 105, 110, 117, 120, 45, 120, 56, 54, 45, 54, 52, 46, 115, 111,
     46, 50, 0][i]
  }

  /** A library, the string table and its size, two search paths, and the end. */
  function EntryByte(i: nat): Byte {
    if i == 0 then 1 else if i == 8 then 1
    else if i == 16 then 5 else if i == 24 then 0x64 else if i == 25 then 0x11
    else if i == 32 then 10 else if i == 40 then 19
    else if i == 48 then 15 else if i == 56 then 11
    else if i == 64 then 29 else if i == 72 then 11
    else 0
  }

  /** A zero, "libc.so.6", a zero, "$ORIGIN" and a zero. */
  function StringByte(i: nat): Byte {
    if i < 19 then [0, 108, 105, 98, 99, 46, 115, 111, 46, 54, 0, 36, 79, 82, 73, 71, 73, 78, 0][i] else 0
  }

  function File(): (file: Bytes)
    ensures |file| == 375
  {
    seq(375, i requires 0 <= i < 375 => ByteAt(i))
  }

  const LOADED := Program(PT_LOAD, 0, 0x1000, 375)
  const INTERPRETER := Program(PT_INTERP, 232, 0, 28)
  const TABLE := Program(PT_DYNAMIC, 260, 0, 96)

  lemma HeadFields()
    ensures var d := File();
      && U16(d, 16) == 3 && U16(d, 18) == 0x3E && U64(d, 32) == 64 && U16(d, 54) == 56 && U16(d, 56) == 3
  {
  }

  lemma LoadFields()
    ensures var d := File();
      U32(d, 64) == 1 && U64(d, 72) == 0 && U64(d, 80) == 0x1000 && U64(d, 96) == 375
  {
  }

  lemma InterpreterFields()
    ensures var d := File();
      U32(d, 120) == 3 && U64(d, 128) == 232 && U64(d, 136) == 0 && U64(d, 152) == 28
  {
  }

  lemma TableFields()
    ensures var d := File();
      U32(d, 176) == 2 && U64(d, 184) == 260 && U64(d, 192) == 0 && U64(d, 208) == 96
  {
  }

  lemma ThreePrograms()
    ensures Programs(File(), 64, 56, 3) == [LOADED, INTERPRETER, TABLE]
  {
    LoadFields();
    InterpreterFields();
    TableFields();
    ProgramsAre(File(), ProgramAt(File(), 64), ProgramAt(File(), 120), ProgramAt(File(), 176));
  }

  lemma ProgramsAre(d: Bytes, a: Program, b: Program, c: Program)
    requires |d| == 375 && a == ProgramAt(d, 64) && b == ProgramAt(d, 120) && c == ProgramAt(d, 176)
    ensures Programs(d, 64, 56, 3) == [a, b, c]
  {
    var programs := Programs(d, 64, 56, 3);
    assert programs[0] == a && programs[1] == b && programs[2] == c;
  }

  lemma MagicPasses()
    ensures File()[..6] == [0x7F] + Ascii("ELF") + [2, 1]
  {
    var d := File();
    assert d[0] == 0x7F && d[1] == 69 && d[2] == 76 && d[3] == 70 && d[4] == 2 && d[5] == 1;
    var magic := Ascii("ELF");
    assert magic[0] == 69 && magic[1] == 76 && magic[2] == 70;
  }

  lemma HeaderPasses()
    ensures HeaderOk(File(), LinuxX64) && !HeaderOk(File(), LinuxArm64)
    ensures AllPrograms(File()) == Programs(File(), 64, 56, 3)
  {
    HeadFields();
    MagicPasses();
  }

  // ---- Strings -----------------------------------------------------------------------------------

  lemma InterpreterText()
    ensures IsTerminated(File(), 232, 260, File()[232..259])
    ensures AsText(File()[232..259]) == Interpreter(LinuxX64)
  {
    var d := File();
    forall i | 232 <= i < 259
      ensures d[i] != 0 && d[i] == PathByte(i - 232)
    {
    }
    assert FirstZeroAt(d, 232, 259);
    var text, expected := AsText(d[232..259]), Interpreter(LinuxX64);
    assert |expected| == 27;
    forall i | 0 <= i < 27
      ensures text[i] == expected[i]
    {
      assert d[232..259][i] == PathByte(i);
      PathIs(i);
    }
  }

  lemma PathIs(i: nat)
    requires i < 27
    ensures PathByte(i) as int as char == Interpreter(LinuxX64)[i]
  {
  }

  // ---- The dynamic table -------------------------------------------------------------------------

  lemma LibraryEntry()
    ensures U64(File(), 260) == 1 && U64(File(), 268) == 1
  {
  }

  lemma StringsEntry()
    ensures U64(File(), 276) == 5 && U64(File(), 284) == 0x1164
  {
  }

  lemma SizeEntry()
    ensures U64(File(), 292) == 10 && U64(File(), 300) == 19
  {
  }

  lemma FirstPathEntry()
    ensures U64(File(), 308) == 15 && U64(File(), 316) == 11
  {
  }

  lemma SecondPathEntry()
    ensures U64(File(), 324) == 29 && U64(File(), 332) == 11
  {
  }

  lemma EndEntry()
    ensures U64(File(), 340) == 0 && U64(File(), 348) == 0
  {
  }

  /** Six entries, by tag and value. */
  predicate Lists(d: Bytes, at: nat, tags: seq<nat>, values: seq<nat>) {
    && |tags| == |values| && at + 16 * |tags| <= |d|
    && forall k :: 0 <= k < |tags| ==> Tag(d, at, k) == tags[k] && Value(d, at, k) == values[k]
  }

  const TAGS: seq<nat> := [1, 5, 10, 15, 29, 0]
  const VALUES: seq<nat> := [1, 0x1164, 19, 11, 11, 0]

  predicate Entry(d: Bytes, at: nat, tag: nat, value: nat) {
    at + 16 <= |d| && U64(d, at) == tag && U64(d, at + 8) == value
  }

  lemma ListsSix(d: Bytes, at: nat)
    requires Entry(d, at, 1, 1) && Entry(d, at + 16, 5, 0x1164) && Entry(d, at + 32, 10, 19)
    requires Entry(d, at + 48, 15, 11) && Entry(d, at + 64, 29, 11) && Entry(d, at + 80, 0, 0)
    ensures Lists(d, at, TAGS, VALUES)
  {
  }

  lemma SixEntries()
    ensures Lists(File(), 260, TAGS, VALUES)
  {
    LibraryEntry();
    StringsEntry();
    SizeEntry();
    FirstPathEntry();
    SecondPathEntry();
    EndEntry();
    ListsSix(File(), 260);
  }

  lemma FiveCount(d: Bytes, at: nat)
    requires Lists(d, at, TAGS, VALUES)
    ensures Entries(d, at, 0, 6) == 5
  {
    assert Tag(d, at, 5) == TAGS[5] == 0;
    forall k | 0 <= k < 5
      ensures Tag(d, at, k) != 0
    {
      assert Tag(d, at, k) == TAGS[k];
    }
  }

  function Gathered(): Dynamic {
    Dynamic(Some(0x1164), Some(19), [11, 11], [1])
  }

  /** One library, one string table, and a search path under each of the two tags. */
  lemma FiveCollect(d: Bytes, at: nat)
    requires Lists(d, at, TAGS, VALUES)
    ensures Collected(d, at, 5) == Gathered()
  {
    assert Collected(d, at, 0) == Dynamic(None, None, [], []);
    assert Collected(d, at, 1) == WithTag(Collected(d, at, 0), TAGS[0], VALUES[0]) == Dynamic(None, None, [], [1]);
    var strings := Dynamic(Some(0x1164), None, [], [1]);
    assert Collected(d, at, 2) == WithTag(Collected(d, at, 1), TAGS[1], VALUES[1]) == strings;
    var sized := Dynamic(Some(0x1164), Some(19), [], [1]);
    assert Collected(d, at, 3) == WithTag(strings, TAGS[2], VALUES[2]) == sized;
    var searched := Dynamic(Some(0x1164), Some(19), [11], [1]);
    assert Collected(d, at, 4) == WithTag(sized, TAGS[3], VALUES[3]) == searched;
    assert Collected(d, at, 5) == WithTag(searched, TAGS[4], VALUES[4]);
  }

  lemma TableCollects()
    ensures DynamicOf(File(), TABLE) == Gathered()
  {
    SixEntries();
    FiveCount(File(), 260);
    FiveCollect(File(), 260);
  }

  lemma StringsAt(programs: seq<Program>)
    requires programs == [LOADED, INTERPRETER, TABLE]
    ensures FileOffset(programs, 0x1164) == Some(356)
  {
  }

  lemma LibraryText()
    ensures CString(Plain(), File(), 357, 375) == Some(AsText(File()[357..366]))
    ensures LibraryOk(Plain(), AsText(File()[357..366]))
  {
    var d := File();
    forall i | 357 <= i < 366
      ensures d[i] != 0
    {
      assert d[i] == StringByte(i - 356);
    }
    assert d[366] == StringByte(10);
    assert FirstZeroAt(d, 357, 366);
    CStringIsTerminated(Plain(), d, 357, 375, d[357..366]);
    var text := AsText(d[357..366]);
    assert text[3] == d[360] as int as char && d[360] == StringByte(4) == 99;
    assert "libsodium.so"[3] == 's';
  }

  lemma PathText()
    ensures CString(Plain(), File(), 367, 375) == Some("$ORIGIN")
  {
    var d := File();
    forall i | 367 <= i < 374
      ensures d[i] != 0
    {
      assert d[i] == StringByte(i - 356);
    }
    assert d[374] == StringByte(18);
    assert FirstZeroAt(d, 367, 374);
    CStringIsTerminated(Plain(), d, 367, 375, d[367..374]);
    var text := AsText(d[367..374]);
    forall i | 0 <= i < 7
      ensures text[i] == "$ORIGIN"[i]
    {
      assert text[i] == d[367 + i] as int as char && d[367 + i] == StringByte(11 + i);
    }
    assert text == "$ORIGIN";
  }

  lemma PathPasses()
    ensures PathOk("$ORIGIN")
  {
    SplitPlain("$ORIGIN", ':');
  }

  lemma GatheredPasses(u: Unicode, d: Bytes, programs: seq<Program>, p: Program)
    requires p.fileOffset + p.fileSize <= |d| && p.fileSize % 16 == 0 && 375 <= |d| && DynamicOf(d, p) == Gathered()
    requires FileOffset(programs, 0x1164) == Some(356)
    requires CString(u, d, 357, 375).Some? && LibraryOk(u, CString(u, d, 357, 375).value)
    requires CString(u, d, 367, 375).Some? && PathOk(CString(u, d, 367, 375).value)
    ensures DynamicOk(u, d, programs, p)
  {
  }

  lemma TablePasses(programs: seq<Program>)
    requires programs == [LOADED, INTERPRETER, TABLE]
    ensures DynamicOk(Plain(), File(), programs, TABLE)
  {
    TableCollects();
    StringsAt(programs);
    LibraryText();
    PathText();
    PathPasses();
    GatheredPasses(Plain(), File(), programs, TABLE);
  }

  lemma SegmentsPass(programs: seq<Program>)
    requires programs == [LOADED, INTERPRETER, TABLE]
    ensures SegmentsOk(Plain(), File(), programs)
    ensures Last(programs, PT_DYNAMIC) == Some(TABLE) && Last(programs, PT_INTERP) == Some(INTERPRETER)
    ensures InterpreterOf(Plain(), File(), Some(INTERPRETER)) == Some(Interpreter(LinuxX64))
  {
    InterpreterText();
    CStringIsTerminated(Plain(), File(), 232, 260, File()[232..259]);
    LastSnoc([LOADED, INTERPRETER], TABLE, PT_INTERP);
    LastSnoc([LOADED, INTERPRETER], TABLE, PT_DYNAMIC);
    LastSnoc([LOADED], INTERPRETER, PT_INTERP);
    assert [LOADED, INTERPRETER] + [TABLE] == programs && [LOADED] + [INTERPRETER] == [LOADED, INTERPRETER];
  }

  /** The file is accepted as an x64 executable, and its dynamic table is read as it was written. */
  lemma FileIsAccepted()
    ensures ElfAccepted(Plain(), File(), LinuxX64) && !HeaderOk(File(), LinuxArm64)
    ensures DynamicOf(File(), TABLE) == Dynamic(Some(0x1164), Some(19), [11, 11], [1])
  {
    HeaderPasses();
    ThreePrograms();
    SegmentsPass([LOADED, INTERPRETER, TABLE]);
    TablePasses([LOADED, INTERPRETER, TABLE]);
    TableCollects();
  }
}
