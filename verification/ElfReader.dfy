/** The Linux executable check: which byte strings it accepts, and that every read stays in the file. */
module ElfReader {
  import opened Bytes
  import opened Binary
  import opened Strings

  datatype Platform = LinuxX64 | LinuxArm64

  function Machine(platform: Platform): nat {
    match platform
    case LinuxX64 => 0x3E
    case LinuxArm64 => 0xB7
  }

  function Interpreter(platform: Platform): string {
    match platform
    case LinuxX64 => "/lib64/ld-linux-x86-64.so.2"
    case LinuxArm64 => "/lib/ld-linux-aarch64.so.1"
  }

  /** UTF-8 decoding and Unicode case folding. */
  datatype Unicode = Unicode(decode: Bytes -> Option<string>, fold: string -> string)

  const PT_LOAD: nat := 1
  const PT_DYNAMIC: nat := 2
  const PT_INTERP: nat := 3

  // ---- Strings -----------------------------------------------------------------------------------

  /** The first zero byte before the limit, or the limit. */
  function ZeroFrom(data: Bytes, from: nat, limit: nat): (end: nat)
    requires from <= limit <= |data|
    ensures from <= end <= limit && (end < limit ==> data[end] == 0)
    ensures forall i :: from <= i < end ==> data[i] != 0
    decreases limit - from
  {
    if from == limit || data[from] == 0 then from else ZeroFrom(data, from + 1, limit)
  }

  function CString(u: Unicode, data: Bytes, offset: nat, limit: nat): Option<string> {
    if offset >= |data| || limit < offset || limit > |data| || ZeroFrom(data, offset, limit) == limit then None
    else u.decode(data[offset..ZeroFrom(data, offset, limit)])
  }

  method ReadCString(u: Unicode, data: Bytes, offset: nat, limit: nat) returns (r: Option<string>)
    ensures r == CString(u, data, offset, limit)
  {
    if offset >= |data| || limit < offset || limit > |data| {
      return None;
    }
    var end := FindZero(data, offset, limit);
    if end < 0 {
      return None;
    }
    r := u.decode(data[offset..end]);
  }

  /** A string that is read is the decoding of the bytes up to the first zero inside the limit. */
  lemma CStringIsTerminated(u: Unicode, data: Bytes, offset: nat, limit: nat, text: Bytes)
    requires IsTerminated(data, offset, limit, text)
    ensures CString(u, data, offset, limit) == u.decode(text)
  {
    assert ZeroFrom(data, offset, limit) == offset + |text|;
  }

  // ---- Headers and segments ----------------------------------------------------------------------

  predicate HeaderOk(data: Bytes, platform: Platform) {
    && |data| >= 64 && data[..6] == [0x7F] + Ascii("ELF") + [2, 1]
    && (U16(data, 16) == 2 || U16(data, 16) == 3) && U16(data, 18) == Machine(platform)
    && U16(data, 54) >= 56 && 1 <= U16(data, 56) <= 512
    && U64(data, 32) + U16(data, 54) * U16(data, 56) <= |data|
  }

  datatype Program = Program(kind: nat, fileOffset: nat, virtual: nat, fileSize: nat)

  function ProgramAt(data: Bytes, at: nat): Program
    requires at + 56 <= |data|
  {
    Program(U32(data, at), U64(data, at + 8), U64(data, at + 16), U64(data, at + 32))
  }

  lemma EntryInside(k: nat, count: nat, size: nat)
    requires k < count && size >= 56
    ensures 0 <= k * size && k * size + 56 <= size * count
  {
    assert (k + 1) * size <= count * size;
  }

  function Programs(data: Bytes, table: nat, size: nat, count: nat): (programs: seq<Program>)
    requires size >= 56 && table + size * count <= |data|
    ensures |programs| == count
  {
    seq(count, k requires 0 <= k < count => EntryInside(k, count, size); ProgramAt(data, table + k * size))
  }

  predicate SegmentOk(u: Unicode, data: Bytes, p: Program) {
    && p.fileOffset + p.fileSize <= |data|
    && (p.kind == PT_INTERP ==> CString(u, data, p.fileOffset, p.fileOffset + p.fileSize).Some?)
  }

  /** The last segment of a kind, if there is one. */
  function Last(programs: seq<Program>, kind: nat): (r: Option<Program>)
    ensures r.Some? ==> r.value in programs && r.value.kind == kind
    ensures r.None? ==> forall p :: p in programs ==> p.kind != kind
  {
    if programs == [] then None
    else if programs[|programs| - 1].kind == kind then Some(programs[|programs| - 1])
    else Last(programs[..|programs| - 1], kind)
  }

  function InterpreterOf(u: Unicode, data: Bytes, p: Option<Program>): Option<string> {
    if p.None? then None else CString(u, data, p.value.fileOffset, p.value.fileOffset + p.value.fileSize)
  }

  predicate SegmentsOk(u: Unicode, data: Bytes, programs: seq<Program>) {
    forall k :: 0 <= k < |programs| ==> SegmentOk(u, data, programs[k])
  }

  lemma LastSnoc(programs: seq<Program>, p: Program, kind: nat)
    ensures Last(programs + [p], kind) == if p.kind == kind then Some(p) else Last(programs, kind)
  {
    assert (programs + [p])[..|programs|] == programs;
  }

  /** One segment: a later interpreter or dynamic segment replaces an earlier one. */
  method ReadSegment(u: Unicode, data: Bytes, p: Program, interpreter: Option<string>, dynamic: Option<Program>)
    returns (ok: bool, newInterpreter: Option<string>, newDynamic: Option<Program>)
    ensures ok <==> SegmentOk(u, data, p)
    ensures ok ==> newDynamic == if p.kind == PT_DYNAMIC then Some(p) else dynamic
    ensures ok ==> newInterpreter == if p.kind == PT_INTERP then InterpreterOf(u, data, Some(p)) else interpreter
  {
    newInterpreter, newDynamic := interpreter, dynamic;
    if p.fileOffset + p.fileSize > |data| {
      return false, newInterpreter, newDynamic;
    }
    if p.kind == PT_INTERP {
      newInterpreter := ReadCString(u, data, p.fileOffset, p.fileOffset + p.fileSize);
      if newInterpreter.None? {
        return false, newInterpreter, newDynamic;
      }
    } else if p.kind == PT_DYNAMIC {
      newDynamic := Some(p);
    }
    ok := true;
  }

  lemma SegmentsSnoc(u: Unicode, data: Bytes, all: seq<Program>, k: nat)
    requires k < |all|
    ensures SegmentsOk(u, data, all[..k]) && SegmentOk(u, data, all[k]) ==> SegmentsOk(u, data, all[..k + 1])
    ensures all[..k + 1] == all[..k] + [all[k]]
    ensures !SegmentOk(u, data, all[k]) ==> !SegmentsOk(u, data, all)
  {
  }

  /** One row of the program table, and where it lies. */
  lemma ProgramRow(data: Bytes, table: nat, size: nat, count: nat, k: nat)
    requires size >= 56 && table + size * count <= |data| && k < count
    ensures 0 <= table + k * size && table + k * size + 56 <= |data|
    ensures Programs(data, table, size, count)[k] == ProgramAt(data, table + k * size)
  {
    EntryInside(k, count, size);
  }

  method ReadSegments(u: Unicode, data: Bytes, table: nat, size: nat, count: nat)
    returns (ok: bool, programs: seq<Program>, interpreter: Option<string>, dynamic: Option<Program>)
    requires size >= 56 && table + size * count <= |data|
    ensures ok <==> SegmentsOk(u, data, Programs(data, table, size, count))
    ensures ok ==> programs == Programs(data, table, size, count) && dynamic == Last(programs, PT_DYNAMIC)
    ensures ok ==> interpreter == InterpreterOf(u, data, Last(programs, PT_INTERP))
  {
    ghost var all := Programs(data, table, size, count);
    programs, interpreter, dynamic := [], None, None;
    for k := 0 to count
      invariant programs == all[..k] && SegmentsOk(u, data, programs)
      invariant dynamic == Last(programs, PT_DYNAMIC)
      invariant interpreter == InterpreterOf(u, data, Last(programs, PT_INTERP))
    {
      ProgramRow(data, table, size, count, k);
      SegmentsSnoc(u, data, all, k);
      var p := ProgramAt(data, table + k * size);
      ok, interpreter, dynamic := ReadSegment(u, data, p, interpreter, dynamic);
      if !ok {
        return;
      }
      LastSnoc(programs, p, PT_DYNAMIC);
      LastSnoc(programs, p, PT_INTERP);
      programs := programs + [p];
    }
    assert all[..count] == all;
    ok := true;
  }

  // ---- The dynamic table -------------------------------------------------------------------------

  datatype Dynamic = Dynamic(strings: Option<nat>, size: Option<nat>, paths: seq<nat>, needed: seq<nat>)

  const DT_NEEDED: nat := 1
  const DT_STRTAB: nat := 5
  const DT_STRSZ: nat := 10
  const DT_RPATH: nat := 15
  const DT_RUNPATH: nat := 29

  function WithTag(d: Dynamic, tag: nat, value: nat): Dynamic {
    if tag == DT_STRTAB then d.(strings := Some(value))
    else if tag == DT_STRSZ then d.(size := Some(value))
    else if tag == DT_RPATH || tag == DT_RUNPATH then d.(paths := d.paths + [value])
    else if tag == DT_NEEDED then d.(needed := d.needed + [value])
    else d
  }

  function Tag(data: Bytes, table: nat, k: nat): nat
    requires table + 16 * (k + 1) <= |data|
  {
    U64(data, table + 16 * k)
  }

  function Value(data: Bytes, table: nat, k: nat): nat
    requires table + 16 * (k + 1) <= |data|
  {
    U64(data, table + 16 * k + 8)
  }

  /** The number of entries before the null tag or the end of the table. */
  function Entries(data: Bytes, table: nat, from: nat, count: nat): (n: nat)
    requires from <= count && table + 16 * count <= |data|
    ensures from <= n <= count && (n < count ==> Tag(data, table, n) == 0)
    ensures forall k :: from <= k < n ==> Tag(data, table, k) != 0
    decreases count - from
  {
    if from == count || Tag(data, table, from) == 0 then from else Entries(data, table, from + 1, count)
  }

  function Collected(data: Bytes, table: nat, n: nat): Dynamic
    requires table + 16 * n <= |data|
  {
    if n == 0 then Dynamic(None, None, [], [])
    else WithTag(Collected(data, table, n - 1), Tag(data, table, n - 1), Value(data, table, n - 1))
  }

  method ReadDynamic(data: Bytes, table: nat, size: nat) returns (d: Dynamic)
    requires size % 16 == 0 && table + size <= |data|
    ensures d == Collected(data, table, Entries(data, table, 0, size / 16))
  {
    d := Dynamic(None, None, [], []);
    var k := 0;
    while k < size / 16
      invariant k <= size / 16 && d == Collected(data, table, k)
      invariant forall i :: 0 <= i < k ==> Tag(data, table, i) != 0
    {
      if Tag(data, table, k) == 0 {
        return;
      }
      d := WithTag(d, Tag(data, table, k), Value(data, table, k));
      k := k + 1;
    }
  }

  /** Every library entry is collected, and so is every search path. */
  lemma {:induction false} CollectedAll(data: Bytes, table: nat, n: nat, k: nat)
    requires table + 16 * n <= |data| && k < n
    ensures Tag(data, table, k) == DT_NEEDED ==> Value(data, table, k) in Collected(data, table, n).needed
    ensures Tag(data, table, k) == DT_RPATH || Tag(data, table, k) == DT_RUNPATH ==>
      Value(data, table, k) in Collected(data, table, n).paths
  {
    if k < n - 1 {
      CollectedAll(data, table, n - 1, k);
    }
  }

  // ---- The string table --------------------------------------------------------------------------

  predicate Loads(p: Program, address: nat) {
    p.kind == PT_LOAD && p.virtual <= address < p.virtual + p.fileSize
  }

  /** The file offset of an address in the first loaded segment around it. */
  function FileOffset(programs: seq<Program>, address: nat): Option<nat> {
    if programs == [] then None
    else if Loads(programs[0], address) then Some(programs[0].fileOffset + (address - programs[0].virtual))
    else FileOffset(programs[1..], address)
  }

  /** The offset lies in the first loaded segment around the address, as far from its start as the address. */
  lemma OffsetInside(programs: seq<Program>, address: nat, k: nat)
    requires k < |programs| && programs[k].kind == 1
    requires programs[k].virtual <= address < programs[k].virtual + programs[k].fileSize
    requires forall j :: 0 <= j < k ==>
      programs[j].kind != 1 || address < programs[j].virtual || programs[j].virtual + programs[j].fileSize <= address
    ensures FileOffset(programs, address) == Some(programs[k].fileOffset + (address - programs[k].virtual))
  {
    if k > 0 {
      assert !Loads(programs[0], address);
      OffsetInside(programs[1..], address, k - 1);
    }
  }

  method FindStrings(programs: seq<Program>, address: nat) returns (r: Option<nat>)
    ensures r == FileOffset(programs, address)
  {
    r := None;
    for k := 0 to |programs|
      invariant r == None && FileOffset(programs, address) == FileOffset(programs[k..], address)
    {
      var p := programs[k];
      if p.kind == PT_LOAD && p.virtual <= address < p.virtual + p.fileSize {
        return Some(p.fileOffset + (address - p.virtual));
      }
      assert programs[k..][1..] == programs[k + 1..];
    }
  }

  // ---- Search paths and libraries ----------------------------------------------------------------

  predicate PlainPart(part: string) {
    part != "" && part != "." && part != ".."
  }

  predicate PlainParts(s: string) {
    forall i :: 0 <= i < |Split(s, '/')| ==> PlainPart(Split(s, '/')[i])
  }

  /** $ORIGIN alone, or $ORIGIN/ and plain names below it. */
  predicate Relocatable(component: string) {
    if component == "$ORIGIN" || component == "${ORIGIN}" then true
    else if "$ORIGIN/" <= component then PlainParts(component[8..])
    else if "${ORIGIN}/" <= component then PlainParts(component[10..])
    else false
  }

  predicate PathOk(value: string) {
    forall i :: 0 <= i < |Split(value, ':')| ==> Relocatable(Split(value, ':')[i])
  }

  predicate LibraryOk(u: Unicode, library: string) {
    !("libsodium.so" <= u.fold(library))
  }

  predicate PathsOk(u: Unicode, data: Bytes, strings: nat, limit: nat, paths: seq<nat>) {
    forall i :: 0 <= i < |paths| ==>
      var s := CString(u, data, strings + paths[i], limit); s.Some? && PathOk(s.value)
  }

  predicate NeededOk(u: Unicode, data: Bytes, strings: nat, limit: nat, needed: seq<nat>) {
    forall i :: 0 <= i < |needed| ==>
      var s := CString(u, data, strings + needed[i], limit); s.Some? && LibraryOk(u, s.value)
  }

  method CheckPaths(u: Unicode, data: Bytes, strings: nat, limit: nat, paths: seq<nat>) returns (ok: bool)
    ensures ok <==> PathsOk(u, data, strings, limit, paths)
  {
    for k := 0 to |paths|
      invariant PathsOk(u, data, strings, limit, paths[..k])
    {
      var value := ReadCString(u, data, strings + paths[k], limit);
      if value.None? {
        return false;
      }
      var components := Split(value.value, ':');
      for i := 0 to |components|
        invariant forall j :: 0 <= j < i ==> Relocatable(components[j])
      {
        if !Relocatable(components[i]) {
          return false;
        }
      }
    }
    assert paths[..|paths|] == paths;
    return true;
  }

  method CheckNeeded(u: Unicode, data: Bytes, strings: nat, limit: nat, needed: seq<nat>) returns (ok: bool)
    ensures ok <==> NeededOk(u, data, strings, limit, needed)
  {
    for k := 0 to |needed|
      invariant NeededOk(u, data, strings, limit, needed[..k])
    {
      var library := ReadCString(u, data, strings + needed[k], limit);
      if library.None? || !LibraryOk(u, library.value) {
        return false;
      }
    }
    assert needed[..|needed|] == needed;
    return true;
  }

  // ---- The whole check ---------------------------------------------------------------------------

  predicate StringsOk(u: Unicode, data: Bytes, programs: seq<Program>, d: Dynamic) {
    && d.strings.Some? && d.size.Some?
    && FileOffset(programs, d.strings.value).Some?
    && var strings := FileOffset(programs, d.strings.value).value;
      strings + d.size.value <= |data|
      && PathsOk(u, data, strings, strings + d.size.value, d.paths)
      && NeededOk(u, data, strings, strings + d.size.value, d.needed)
  }

  function DynamicOf(data: Bytes, p: Program): Dynamic
    requires p.fileOffset + p.fileSize <= |data|
  {
    Collected(data, p.fileOffset, Entries(data, p.fileOffset, 0, p.fileSize / 16))
  }

  predicate DynamicOk(u: Unicode, data: Bytes, programs: seq<Program>, p: Program)
    requires p.fileOffset + p.fileSize <= |data|
  {
    && p.fileSize % 16 == 0
    && var d := DynamicOf(data, p);
      (d.paths == [] && d.needed == []) || StringsOk(u, data, programs, d)
  }

  function AllPrograms(data: Bytes): seq<Program>
    requires |data| >= 64 && U16(data, 54) >= 56 && U64(data, 32) + U16(data, 54) * U16(data, 56) <= |data|
  {
    Programs(data, U64(data, 32), U16(data, 54), U16(data, 56))
  }

  predicate ElfAccepted(u: Unicode, data: Bytes, platform: Platform) {
    && HeaderOk(data, platform) && SegmentsOk(u, data, AllPrograms(data))
    && InterpreterOf(u, data, Last(AllPrograms(data), PT_INTERP)) == Some(Interpreter(platform))
    && var dynamic := Last(AllPrograms(data), PT_DYNAMIC);
      dynamic.None? || DynamicOk(u, data, AllPrograms(data), dynamic.value)
  }

  method CheckStrings(u: Unicode, data: Bytes, programs: seq<Program>, d: Dynamic) returns (ok: bool)
    ensures ok <==> StringsOk(u, data, programs, d)
  {
    if d.strings.None? || d.size.None? {
      return false;
    }
    var strings := FindStrings(programs, d.strings.value);
    if strings.None? || strings.value + d.size.value > |data| {
      return false;
    }
    ok := CheckPaths(u, data, strings.value, strings.value + d.size.value, d.paths);
    if ok {
      ok := CheckNeeded(u, data, strings.value, strings.value + d.size.value, d.needed);
    }
  }

  method CheckDynamic(u: Unicode, data: Bytes, programs: seq<Program>, p: Program) returns (ok: bool)
    requires p.fileOffset + p.fileSize <= |data|
    ensures ok <==> DynamicOk(u, data, programs, p)
  {
    if p.fileSize % 16 != 0 {
      return false;
    }
    var d := ReadDynamic(data, p.fileOffset, p.fileSize);
    if d.paths == [] && d.needed == [] {
      return true;
    }
    ok := CheckStrings(u, data, programs, d);
  }

  /** Accepts or refuses every byte string; it never reads outside it. */
  method ValidateLinuxElf(u: Unicode, data: Bytes, platform: Platform) returns (ok: bool)
    ensures ok <==> ElfAccepted(u, data, platform)
  {
    if !HeaderOk(data, platform) {
      return false;
    }
    var read, programs, interpreter, dynamic :=
      ReadSegments(u, data, U64(data, 32), U16(data, 54), U16(data, 56));
    if !read || interpreter != Some(Interpreter(platform)) {
      return false;
    }
    if dynamic.None? {
      return true;
    }
    var k :| 0 <= k < |programs| && programs[k] == dynamic.value;
    ok := CheckDynamic(u, data, programs, dynamic.value);
  }

  // ---- What acceptance means ---------------------------------------------------------------------

  /** What the first bytes of an accepted file say: ELF, 64 bits, little-endian, executable, this machine. */
  lemma AcceptedHeaderBytes(u: Unicode, data: Bytes, platform: Platform)
    requires ElfAccepted(u, data, platform)
    ensures data[0] == 0x7F && data[1] == 0x45 && data[2] == 0x4C && data[3] == 0x46 && data[4] == 2 && data[5] == 1
    ensures data[16] in {2, 3} && data[17] == 0
    ensures data[18] == (if platform == LinuxX64 then 0x3E else 0xB7) && data[19] == 0
    ensures |AllPrograms(data)| == data[56] as int + 256 * data[57] as int && 1 <= |AllPrograms(data)| <= 512
    ensures Last(AllPrograms(data), PT_INTERP).Some?
  {
    var magic := [0x7F] + Ascii("ELF") + [2, 1];
    assert data[..6] == magic;
    assert forall i :: 0 <= i < 6 ==> data[i] == data[..6][i];
    assert magic[1] == 0x45 && magic[2] == 0x4C && magic[3] == 0x46;
  }

  /** Entry `k` of the dynamic segment that counts, before its null tag. */
  predicate ActiveEntry(data: Bytes, p: Program, k: nat)
    requires p.fileOffset + p.fileSize <= |data|
  {
    16 * (k + 1) <= p.fileSize && forall j :: 0 <= j <= k ==> Tag(data, p.fileOffset, j) != 0
  }

  /** So it is one of the entries that are read. */
  lemma ActiveIsRead(data: Bytes, p: Program, k: nat)
    requires p.fileOffset + p.fileSize <= |data|
    ensures ActiveEntry(data, p, k) <==> k < Entries(data, p.fileOffset, 0, p.fileSize / 16)
  {
    var n := Entries(data, p.fileOffset, 0, p.fileSize / 16);
    assert n < p.fileSize / 16 ==> Tag(data, p.fileOffset, n) == 0;
  }

  predicate IsPathTag(tag: nat) {
    tag == DT_RPATH || tag == DT_RUNPATH
  }

  /** A segment with an active library or search path has its strings checked. */
  lemma ActiveIsChecked(u: Unicode, data: Bytes, programs: seq<Program>, p: Program, k: nat)
    requires p.fileOffset + p.fileSize <= |data| && DynamicOk(u, data, programs, p) && ActiveEntry(data, p, k)
    requires Tag(data, p.fileOffset, k) == DT_NEEDED || IsPathTag(Tag(data, p.fileOffset, k))
    ensures StringsOk(u, data, programs, DynamicOf(data, p))
    ensures Tag(data, p.fileOffset, k) == DT_NEEDED ==> Value(data, p.fileOffset, k) in DynamicOf(data, p).needed
    ensures IsPathTag(Tag(data, p.fileOffset, k)) ==> Value(data, p.fileOffset, k) in DynamicOf(data, p).paths
  {
    ActiveIsRead(data, p, k);
    CollectedAll(data, p.fileOffset, Entries(data, p.fileOffset, 0, p.fileSize / 16), k);
  }

  /** Where the strings start in the file. */
  function StringTable(programs: seq<Program>, d: Dynamic): nat {
    if d.strings.Some? && FileOffset(programs, d.strings.value).Some? then FileOffset(programs, d.strings.value).value
    else 0
  }

  lemma NeededIsClean(u: Unicode, data: Bytes, programs: seq<Program>, d: Dynamic, value: nat, text: Bytes)
    requires StringsOk(u, data, programs, d) && value in d.needed
    requires IsTerminated(data, StringTable(programs, d) + value, StringTable(programs, d) + d.size.value, text)
    ensures u.decode(text).Some? && LibraryOk(u, u.decode(text).value)
  {
    var i :| 0 <= i < |d.needed| && d.needed[i] == value;
    var strings := StringTable(programs, d);
    CStringIsTerminated(u, data, strings + value, strings + d.size.value, text);
    assert CString(u, data, strings + d.needed[i], strings + d.size.value).Some?;
  }

  lemma PathIsRelocatable(u: Unicode, data: Bytes, programs: seq<Program>, d: Dynamic, value: nat)
    requires StringsOk(u, data, programs, d) && value in d.paths
    ensures
      var s := CString(u, data, StringTable(programs, d) + value, StringTable(programs, d) + d.size.value);
      s.Some? && PathOk(s.value)
  {
    var i :| 0 <= i < |d.paths| && d.paths[i] == value;
    assert CString(u, data, StringTable(programs, d) + d.paths[i], StringTable(programs, d) + d.size.value).Some?;
  }

  /** No active library entry of a sound table is libsodium.so, in any case and with any suffix. */
  lemma ActiveWithoutLibsodium(u: Unicode, data: Bytes, programs: seq<Program>, p: Program, k: nat, text: Bytes)
    requires p.fileOffset + p.fileSize <= |data| && DynamicOk(u, data, programs, p) && ActiveEntry(data, p, k)
    requires Tag(data, p.fileOffset, k) == DT_NEEDED
    ensures StringsOk(u, data, programs, DynamicOf(data, p))
    ensures
      var strings := StringTable(programs, DynamicOf(data, p));
      IsTerminated(data, strings + Value(data, p.fileOffset, k), strings + DynamicOf(data, p).size.value, text) ==>
        u.decode(text).Some? && !("libsodium.so" <= u.fold(u.decode(text).value))
  {
    var d, value := DynamicOf(data, p), Value(data, p.fileOffset, k);
    ActiveIsChecked(u, data, programs, p, k);
    if IsTerminated(data, StringTable(programs, d) + value, StringTable(programs, d) + d.size.value, text) {
      NeededIsClean(u, data, programs, d, value, text);
    }
  }

  /** Every active search path of a sound table stays below the executable's own directory. */
  lemma ActivePathsRelocatable(u: Unicode, data: Bytes, programs: seq<Program>, p: Program, k: nat)
    requires p.fileOffset + p.fileSize <= |data| && DynamicOk(u, data, programs, p) && ActiveEntry(data, p, k)
    requires IsPathTag(Tag(data, p.fileOffset, k))
    ensures StringsOk(u, data, programs, DynamicOf(data, p))
    ensures
      var strings := StringTable(programs, DynamicOf(data, p));
      var s := CString(u, data, strings + Value(data, p.fileOffset, k), strings + DynamicOf(data, p).size.value);
      s.Some? && PathOk(s.value)
  {
    ActiveIsChecked(u, data, programs, p, k);
    PathIsRelocatable(u, data, programs, DynamicOf(data, p), Value(data, p.fileOffset, k));
  }

  /** The string at `value` reads, and is not libsodium.so in any case and with any suffix. */
  predicate CleanLibrary(u: Unicode, data: Bytes, programs: seq<Program>, d: Dynamic, value: nat) {
    && d.size.Some?
    && var s := CString(u, data, StringTable(programs, d) + value, StringTable(programs, d) + d.size.value);
      s.Some? && !("libsodium.so" <= u.fold(s.value))
  }

  /** The string at `value` reads, and every component of it stays below the executable's directory. */
  predicate CleanPath(u: Unicode, data: Bytes, programs: seq<Program>, d: Dynamic, value: nat) {
    && d.size.Some?
    && var s := CString(u, data, StringTable(programs, d) + value, StringTable(programs, d) + d.size.value);
      s.Some? && forall i :: 0 <= i < |Split(s.value, ':')| ==> Relocatable(Split(s.value, ':')[i])
  }

  /** What entry `k` of the table says: a library that is not libsodium.so, or a relocatable search path. */
  ghost predicate CleanEntry(u: Unicode, data: Bytes, programs: seq<Program>, p: Program, k: nat)
    requires p.fileOffset + p.fileSize <= |data| && ActiveEntry(data, p, k)
  {
    var tag, d, value := Tag(data, p.fileOffset, k), DynamicOf(data, p), Value(data, p.fileOffset, k);
    && (tag == DT_NEEDED ==> CleanLibrary(u, data, programs, d, value))
    && (IsPathTag(tag) ==> CleanPath(u, data, programs, d, value))
  }

  ghost predicate CleanDynamic(u: Unicode, data: Bytes, programs: seq<Program>, p: Program) {
    && p.fileOffset + p.fileSize <= |data| && p.fileSize % 16 == 0
    && forall k: nat :: ActiveEntry(data, p, k) ==> CleanEntry(u, data, programs, p, k)
  }

  lemma EntryIsClean(u: Unicode, data: Bytes, programs: seq<Program>, p: Program, k: nat)
    requires p.fileOffset + p.fileSize <= |data| && DynamicOk(u, data, programs, p) && ActiveEntry(data, p, k)
    ensures CleanEntry(u, data, programs, p, k)
  {
    var tag, d, value := Tag(data, p.fileOffset, k), DynamicOf(data, p), Value(data, p.fileOffset, k);
    if tag == DT_NEEDED || IsPathTag(tag) {
      ActiveIsChecked(u, data, programs, p, k);
      if tag == DT_NEEDED {
        NeededReads(u, data, programs, d, value);
      } else {
        PathReads(u, data, programs, d, value);
      }
    }
  }

  lemma NeededReads(u: Unicode, data: Bytes, programs: seq<Program>, d: Dynamic, value: nat)
    requires StringsOk(u, data, programs, d) && value in d.needed
    ensures CleanLibrary(u, data, programs, d, value)
  {
    var i :| 0 <= i < |d.needed| && d.needed[i] == value;
    assert CString(u, data, StringTable(programs, d) + d.needed[i], StringTable(programs, d) + d.size.value).Some?;
  }

  lemma PathReads(u: Unicode, data: Bytes, programs: seq<Program>, d: Dynamic, value: nat)
    requires StringsOk(u, data, programs, d) && value in d.paths
    ensures CleanPath(u, data, programs, d, value)
  {
    PathIsRelocatable(u, data, programs, d, value);
  }

  lemma SoundIsClean(u: Unicode, data: Bytes, programs: seq<Program>, p: Program)
    requires p.fileOffset + p.fileSize <= |data| && DynamicOk(u, data, programs, p)
    ensures CleanDynamic(u, data, programs, p)
  {
    forall k: nat | ActiveEntry(data, p, k)
      ensures CleanEntry(u, data, programs, p, k)
    {
      EntryIsClean(u, data, programs, p, k);
    }
  }

  /** In an accepted file no active entry of the last dynamic table names libsodium.so or a path elsewhere. */
  lemma AcceptedIsClean(u: Unicode, data: Bytes, platform: Platform)
    requires ElfAccepted(u, data, platform)
    ensures var dynamic := Last(AllPrograms(data), PT_DYNAMIC);
      dynamic.Some? ==> CleanDynamic(u, data, AllPrograms(data), dynamic.value)
  {
    var dynamic := Last(AllPrograms(data), PT_DYNAMIC);
    if dynamic.Some? {
      SoundIsClean(u, data, AllPrograms(data), dynamic.value);
    }
  }

  /** A relocatable component never climbs out: below $ORIGIN it has no empty, "." or ".." part. */
  lemma RelocatableStaysBelow(component: string, i: nat)
    requires Relocatable(component) && component != "$ORIGIN" && component != "${ORIGIN}"
    requires i < |Split(component, '/')|
    ensures "$ORIGIN/" <= component || "${ORIGIN}/" <= component
    ensures var part := Split(component, '/')[i]; part != "" && part != "." && part != ".."
  {
    var head := if "$ORIGIN/" <= component then "$ORIGIN" else "${ORIGIN}";
    var rest := component[|head| + 1..];
    assert component == head + ['/'] + rest;
    SplitAtFirst(head, rest, '/');
    if i > 0 {
      assert Split(component, '/')[i] == Split(rest, '/')[i - 1];
    }
  }
}
