/**
 * The KDF calibration report: the text that the Rust command prints and the Python drill parses back. Each side
 * is written as its program writes it, and the two are proved inverse to each other on valid observations.
 */
module KdfReport {
  import opened Strings
  import Decimal

  const PROCESS_OUTPUT_LIMIT_BYTES: nat := 2 * 1024 * 1024

  const PROCESS_TIMEOUT_SECONDS: nat := 120

  const MAX_UINT: nat := 0xFFFF_FFFF_FFFF_FFFF

  datatype Option<T> = None | Some(value: T)

  // ---- Fields ----------------------------------------------------------------------------------

  datatype Kind = TextKind | NumberKind | FlagKind

  datatype Line = Line(title: string, kind: Kind)

  /** The report lines the parser expects, in order. */
  const LINES: seq<Line> := [
    Line("kdf-calibration-info-schema", TextKind), Line("product", TextKind), Line("version", TextKind),
    Line("rust-target", TextKind), Line("rust-debug-assertions", FlagKind), Line("algorithm", TextKind),
    Line("measurement-input", TextKind), Line("cache-scope", TextKind), Line("sample-mode", TextKind),
    Line("min-ops-limit", NumberKind), Line("max-ops-limit", NumberKind), Line("selected-ops-limit", NumberKind),
    Line("mem-limit-bytes", NumberKind), Line("parallelism", NumberKind), Line("target-min-ns", NumberKind),
    Line("target-max-ns", NumberKind), Line("selected-observed-ns", NumberKind),
    Line("measurement-count", NumberKind), Line("outcome", TextKind), Line("end-to-end-sla", FlagKind)
  ]

  const VERSION := 2
  const SELECTED_OPS := 11
  const SELECTED_OBSERVED := 16
  const MEASUREMENT_COUNT := 17
  const OUTCOME := 18

  datatype FieldValue = Str(text: string) | Num(n: nat) | Flag(b: bool)

  /** One value per line; the drill keeps them in a dictionary under JSON names. */
  type Observation = o: seq<FieldValue> | |o| == 20 witness seq(20, _ => Num(0))

  predicate OfKind(v: FieldValue, kind: Kind) {
    match kind
    case TextKind => v.Str?
    case NumberKind => v.Num?
    case FlagKind => v.Flag?
  }

  // ---- Spelling one value ----------------------------------------------------------------------

  function DigitChar(d: Decimal.Digit): (c: char)
    ensures '0' <= c <= '9'
  {
    '0' + d as char
  }

  function DecimalText(n: nat): string {
    var d := Decimal.Digits(n);
    seq(|d|, i requires 0 <= i < |d| => DigitChar(d[i]))
  }

  function Spell(v: FieldValue): string {
    match v
    case Str(text) => text
    case Num(n) => DecimalText(n)
    case Flag(b) => if b then "true" else "false"
  }

  predicate AllDigits(s: string) {
    forall i :: 0 <= i < |s| ==> '0' <= s[i] <= '9'
  }

  function DigitValues(s: string): (d: seq<Decimal.Digit>)
    requires AllDigits(s)
    ensures |d| == |s|
  {
    seq(|s|, i requires 0 <= i < |s| => s[i] as int - '0' as int)
  }

  /** The pattern "0, or digits without a leading zero", and the 64-bit ceiling. */
  function CanonicalUint(s: string): Option<nat> {
    if s == "" || !AllDigits(s) || (|s| > 1 && s[0] == '0') then None
    else
      var n := Decimal.Value(DigitValues(s));
      if n > MAX_UINT then None else Some(n)
  }

  function ReadField(kind: Kind, raw: string): Option<FieldValue> {
    match kind
    case TextKind => Some(Str(raw))
    case NumberKind =>
      var n := CanonicalUint(raw);
      if n.None? then None else Some(Num(n.value))
    case FlagKind =>
      if raw == "true" then Some(Flag(true)) else if raw == "false" then Some(Flag(false)) else None
  }

  lemma DigitTextValues(n: nat)
    ensures AllDigits(DecimalText(n)) && DigitValues(DecimalText(n)) == Decimal.Digits(n)
  {
  }

  lemma ReadAfterSpell(v: FieldValue, kind: Kind)
    requires OfKind(v, kind) && (v.Num? ==> v.n <= MAX_UINT)
    ensures ReadField(kind, Spell(v)) == Some(v)
  {
    if v.Num? {
      DigitTextValues(v.n);
      Decimal.ValueOfDigits(v.n);
      var d := Decimal.Digits(v.n);
      assert |d| > 1 ==> DigitChar(d[0]) != '0';
    }
  }

  lemma SpellAfterRead(kind: Kind, raw: string)
    requires ReadField(kind, raw).Some?
    ensures OfKind(ReadField(kind, raw).value, kind) && Spell(ReadField(kind, raw).value) == raw
  {
    if kind == NumberKind {
      var d := DigitValues(raw);
      assert Decimal.Canonical(d);
      Decimal.DigitsOfValue(d);
      assert DecimalText(Decimal.Value(d)) == raw;
    }
  }

  // ---- The text as lines -------------------------------------------------------------------------

  /** A value that can stand after a label: some ASCII text on one line. */
  predicate LineSafe(s: string) {
    s != "" && forall i :: 0 <= i < |s| ==> s[i] != '\n' && s[i] != '\r' && s[i] as int < 128
  }

  function LineText(i: nat, value: string): string
    requires i < 20
  {
    LINES[i].title + ": " + value
  }

  function LineTexts(values: seq<string>): (texts: seq<string>)
    requires |values| == 20
    ensures |texts| == 20
  {
    seq(20, i requires 0 <= i < 20 => LineText(i, values[i]))
  }

  /** Labelled lines, each ended by a line feed. */
  function Report(values: seq<string>): string
    requires |values| == 20
  {
    Join(LineTexts(values), '\n') + "\n"
  }

  predicate ExactText(data: string) {
    && data != "" && |data| <= PROCESS_OUTPUT_LIMIT_BYTES
    && data[|data| - 1] == '\n' && !(|data| >= 2 && data[|data| - 2] == '\n')
    && forall i :: 0 <= i < |data| ==> data[i] != '\r' && data[i] as int < 128
  }

  predicate LineFits(i: nat, line: string)
    requires i < 20
  {
    LINES[i].title + ": " <= line && |line| > |LINES[i].title| + 2
  }

  /** The twenty raw values, when the text has exactly the twenty labelled lines. */
  function RawValues(data: string): (r: Option<seq<string>>)
    ensures r.Some? ==> |r.value| == 20
  {
    if !ExactText(data) then None
    else
      var lines := Split(data[..|data| - 1], '\n');
      if |lines| != 20 || exists i :: 0 <= i < 20 && !LineFits(i, lines[i]) then None
      else Some(seq(20, i requires 0 <= i < 20 => lines[i][|LINES[i].title| + 2..]))
  }

  // Every title is plain ASCII on one line; a few literals at a time.

  predicate PlainTitle(s: string) {
    forall i :: 0 <= i < |s| ==> s[i] == '-' || 'a' <= s[i] <= 'z'
  }

  lemma TitlesA(s: string)
    requires s == "kdf-calibration-info-schema" || s == "product" || s == "version" || s == "rust-target"
    ensures PlainTitle(s)
  {
  }

  lemma TitlesB(s: string)
    requires s == "rust-debug-assertions" || s == "algorithm" || s == "measurement-input" || s == "cache-scope"
    ensures PlainTitle(s)
  {
  }

  lemma TitlesC(s: string)
    requires s == "sample-mode" || s == "min-ops-limit" || s == "max-ops-limit" || s == "selected-ops-limit"
    ensures PlainTitle(s)
  {
  }

  lemma TitlesD(s: string)
    requires s == "mem-limit-bytes" || s == "parallelism" || s == "target-min-ns" || s == "target-max-ns"
    ensures PlainTitle(s)
  {
  }

  lemma TitlesE(s: string)
    requires s == "selected-observed-ns" || s == "measurement-count" || s == "outcome" || s == "end-to-end-sla"
    ensures PlainTitle(s)
  {
  }

  lemma TitlePlain(i: nat)
    requires i < 20
    ensures PlainTitle(LINES[i].title)
  {
    var s := LINES[i].title;
    if i < 4 {
      TitlesA(s);
    } else if i < 8 {
      TitlesB(s);
    } else if i < 12 {
      TitlesC(s);
    } else if i < 16 {
      TitlesD(s);
    } else {
      TitlesE(s);
    }
  }

  lemma LineTextSafe(i: nat, value: string)
    requires i < 20
    ensures LineSafe(LineText(i, value)) <==> value == "" || LineSafe(value)
  {
    TitlePlain(i);
    var head := LINES[i].title + ": ";
    assert forall k :: 0 <= k < |head| ==> head[k] != '\n' && head[k] != '\r' && head[k] as int < 128;
    var line := LineText(i, value);
    assert line == head + value;
    assert forall k :: 0 <= k < |value| ==> value[k] == line[|head| + k];
  }

  // ---- Text and values determine each other ------------------------------------------------------

  predicate AllLineSafe(parts: seq<string>) {
    forall i :: 0 <= i < |parts| ==> LineSafe(parts[i])
  }

  predicate PlainChars(s: string) {
    forall i :: 0 <= i < |s| ==> s[i] != '\r' && s[i] as int < 128
  }

  lemma {:induction false} JoinPlain(parts: seq<string>)
    requires |parts| >= 1
    ensures PlainChars(Join(parts, '\n')) <==> forall i :: 0 <= i < |parts| ==> PlainChars(parts[i])
  {
    if |parts| > 1 {
      JoinPlain(parts[1..]);
      var rest := Join(parts[1..], '\n');
      var all := Join(parts, '\n');
      PlainConcat(parts[0] + ['\n'], rest);
      PlainConcat(parts[0], ['\n']);
      assert (forall i :: 0 <= i < |parts| ==> PlainChars(parts[i])) <==>
        PlainChars(parts[0]) && forall i :: 0 <= i < |parts[1..]| ==> PlainChars(parts[1..][i]) by {
        assert forall i :: 1 <= i < |parts| ==> parts[i] == parts[1..][i - 1];
      }
    }
  }

  lemma PlainConcat(a: string, b: string)
    ensures PlainChars(a + b) <==> PlainChars(a) && PlainChars(b)
  {
    assert forall i :: 0 <= i < |a| ==> (a + b)[i] == a[i];
    assert forall i :: 0 <= i < |b| ==> b[i] == (a + b)[|a| + i];
  }

  lemma {:induction false} JoinEnds(parts: seq<string>)
    requires |parts| >= 1 && parts[|parts| - 1] != ""
    ensures var all, last := Join(parts, '\n'), parts[|parts| - 1];
      all != "" && all[|all| - 1] == last[|last| - 1]
  {
    if |parts| > 1 {
      JoinEnds(parts[1..]);
    }
  }

  /** Printing and then reading gives the values back exactly when each is safe and the whole is short enough. */
  lemma RawAfterReport(values: seq<string>)
    requires |values| == 20
    ensures RawValues(Report(values)) == Some(values)
      <==> AllLineSafe(values) && |Report(values)| <= PROCESS_OUTPUT_LIMIT_BYTES
  {
    var lines, data := LineTexts(values), Report(values);
    var text := Join(lines, '\n');
    assert data[..|data| - 1] == text;
    if AllLineSafe(values) && |data| <= PROCESS_OUTPUT_LIMIT_BYTES {
      SafeReportReads(values);
    }
    if RawValues(data) == Some(values) {
      ReadReportSafe(values);
    }
  }

  lemma SafeReportReads(values: seq<string>)
    requires |values| == 20 && AllLineSafe(values) && |Report(values)| <= PROCESS_OUTPUT_LIMIT_BYTES
    ensures RawValues(Report(values)) == Some(values)
  {
    var lines, data := LineTexts(values), Report(values);
    var text := Join(lines, '\n');
    forall i | 0 <= i < 20
      ensures LineSafe(lines[i]) && '\n' !in lines[i] && PlainChars(lines[i])
      ensures LineFits(i, lines[i]) && lines[i][|LINES[i].title| + 2..] == values[i]
    {
      LineTextSafe(i, values[i]);
    }
    JoinPlain(lines);
    JoinEnds(lines);
    PlainConcat(text, "\n");
    SplitJoin(lines, '\n');
    assert data[..|data| - 1] == text;
    assert lines[19][|lines[19]| - 1] != '\n';
    assert ExactText(data);
    var raw := RawValues(data);
    assert raw.Some?;
    forall i | 0 <= i < 20
      ensures raw.value[i] == values[i]
    {
      assert raw.value[i] == lines[i][|LINES[i].title| + 2..];
    }
    assert raw.value == values;
  }

  lemma ReadReportSafe(values: seq<string>)
    requires |values| == 20 && RawValues(Report(values)) == Some(values)
    ensures AllLineSafe(values) && |Report(values)| <= PROCESS_OUTPUT_LIMIT_BYTES
  {
    var data := Report(values);
    assert ExactText(data);
    var text := data[..|data| - 1];
    var lines := Split(text, '\n');
    SplitParts(text, '\n');
    JoinSplit(text, '\n');
    JoinPlain(lines);
    PlainConcat(text, "\n");
    assert data == text + "\n";
    forall i | 0 <= i < 20
      ensures LineSafe(values[i])
    {
      assert LineFits(i, lines[i]) && values[i] == lines[i][|LINES[i].title| + 2..];
      assert PlainChars(lines[i]) && '\n' !in lines[i];
    }
  }

  /** Reading and then printing gives the same text back. */
  lemma ReportAfterRaw(data: string)
    requires RawValues(data).Some?
    ensures Report(RawValues(data).value) == data
  {
    var values := RawValues(data).value;
    var text := data[..|data| - 1];
    var lines := Split(text, '\n');
    JoinSplit(text, '\n');
    forall i | 0 <= i < 20
      ensures LineText(i, values[i]) == lines[i]
    {
      assert LineFits(i, lines[i]);
      assert lines[i] == lines[i][..|LINES[i].title| + 2] + lines[i][|LINES[i].title| + 2..];
      assert lines[i][..|LINES[i].title| + 2] == LINES[i].title + ": ";
    }
    assert LineTexts(values) == lines;
    assert data == text + "\n";
  }

  // ---- Observations ------------------------------------------------------------------------------

  datatype Platform = LinuxX64 | LinuxArm64 | WindowsX64 | WindowsArm64

  function RustTarget(platform: Platform): string {
    match platform
    case LinuxX64 => "x86_64-unknown-linux-gnu"
    case LinuxArm64 => "aarch64-unknown-linux-gnu"
    case WindowsX64 => "x86_64-pc-windows-msvc"
    case WindowsArm64 => "aarch64-pc-windows-msvc"
  }

  /** The runtime identity that every accepted report carries; the measured fields are left out as None. */
  function ExpectedIdentity(version: string, platform: Platform): (e: seq<Option<FieldValue>>)
    ensures |e| == 20
  {
    [ Some(Str("inex-kdf-calibration-v1")), Some(Str("inex")), Some(Str(version)), Some(Str(RustTarget(platform))),
      Some(Flag(false)), Some(Str("argon2id13")), Some(Str("inex-public-dummy-v1")), Some(Str("process")),
      Some(Str("single-per-candidate")), Some(Num(3)), Some(Num(20)), None,
      Some(Num(64 * 1024 * 1024)), Some(Num(1)), Some(Num(250_000_000)),
      Some(Num(750_000_000)), None,
      None, None, Some(Flag(false))
    ]
  }

  predicate MatchesIdentity(o: Observation, version: string, platform: Platform) {
    var e := ExpectedIdentity(version, platform);
    forall i :: 0 <= i < 20 ==> e[i].None? || o[i] == e[i].value
  }

  const OUTCOMES: set<string> := {
    "target-window", "minimum-above-window", "interior-above-window", "maximum-above-window", "maximum-below-window"
  }

  /** The selected evidence must be in range, and its outcome must not contradict it. */
  predicate EvidenceValid(selected: nat, observed: nat, count: nat, outcome: string) {
    && 3 <= selected <= 20 && 1 <= count <= 6
    && 0 < observed <= PROCESS_TIMEOUT_SECONDS * 1_000_000_000
    && outcome in OUTCOMES
    && if outcome == "target-window" then 250_000_000 <= observed <= 750_000_000
       else if outcome == "minimum-above-window" then selected == 3 && observed > 750_000_000 && count == 1
       else if outcome == "interior-above-window" then 3 < selected < 20 && observed > 750_000_000 && count >= 2
       else if outcome == "maximum-above-window" then selected == 20 && observed > 750_000_000 && count == 6
       else selected == 20 && observed < 250_000_000 && count == 6
  }

  predicate ValidObservation(o: Observation, version: string, platform: Platform) {
    && MatchesIdentity(o, version, platform)
    && o[SELECTED_OPS].Num? && o[SELECTED_OBSERVED].Num? && o[MEASUREMENT_COUNT].Num? && o[OUTCOME].Str?
    && EvidenceValid(o[SELECTED_OPS].n, o[SELECTED_OBSERVED].n, o[MEASUREMENT_COUNT].n, o[OUTCOME].text)
  }

  /** The point and its time leave one outcome at most: the report cannot tell two stories. */
  lemma OutcomeDetermined(selected: nat, observed: nat, c: nat, d: nat, a: string, b: string)
    requires EvidenceValid(selected, observed, c, a) && EvidenceValid(selected, observed, d, b)
    ensures a == b
  {
  }

  /** Some outcome fits exactly if the point is in range, and a time below the window is the maximum's. */
  lemma OutcomeExists(selected: nat, observed: nat)
    ensures (exists count, outcome :: EvidenceValid(selected, observed, count, outcome)) <==>
      && 3 <= selected <= 20 && 0 < observed <= 120_000_000_000 && (observed < 250_000_000 ==> selected == 20)
  {
    if 3 <= selected <= 20 && 0 < observed <= 120_000_000_000 && (observed < 250_000_000 ==> selected == 20) {
      if observed < 250_000_000 {
        assert EvidenceValid(selected, observed, 6, "maximum-below-window");
      } else if observed <= 750_000_000 {
        assert EvidenceValid(selected, observed, 1, "target-window");
      } else if selected == 3 {
        assert EvidenceValid(selected, observed, 1, "minimum-above-window");
      } else if selected < 20 {
        assert EvidenceValid(selected, observed, 2, "interior-above-window");
      } else {
        assert EvidenceValid(selected, observed, 6, "maximum-above-window");
      }
    }
  }

  function Spellings(o: Observation): (values: seq<string>)
    ensures |values| == 20
  {
    seq(20, i requires 0 <= i < 20 => Spell(o[i]))
  }

  /** An observation written in the report's format. */
  function PrintObservation(o: Observation): string {
    Report(Spellings(o))
  }

  /** `data` is the report of `o`, a valid observation of this version on this platform, and can be read. */
  ghost predicate Reports(o: Observation, data: string, version: string, platform: Platform) {
    && ValidObservation(o, version, platform) && PrintObservation(o) == data
    && LineSafe(version) && |data| <= PROCESS_OUTPUT_LIMIT_BYTES
  }

  /** The parser: it returns the valid observation whose report the text is, and refuses every other text. */
  method ParseCalibrationReport(data: string, version: string, platform: Platform) returns (r: Option<Observation>)
    ensures forall o: Observation :: r == Some(o) <==> Reports(o, data, version, platform)
  {
    forall o: Observation
      ensures ParseOf(data, version, platform) == Some(o) <==> Reports(o, data, version, platform)
    {
      ParseMeans(data, version, platform, o);
    }
    var raw := RawValues(data);
    if raw.None? {
      return None;
    }
    var fields := ReadFields(raw.value);
    if fields.None? || !ValidObservation(fields.value, version, platform) {
      return None;
    }
    return fields;
  }

  method ReadFields(raw: seq<string>) returns (r: Option<Observation>)
    requires |raw| == 20
    ensures r == if AllReadable(raw) then Some(FieldsOf(raw)) else None
  {
    var fields: seq<FieldValue> := [];
    for i := 0 to 20
      invariant |fields| == i
      invariant forall k :: 0 <= k < i ==> ReadField(LINES[k].kind, raw[k]) == Some(fields[k])
    {
      var field := ReadField(LINES[i].kind, raw[i]);
      if field.None? {
        return None;
      }
      fields := fields + [field.value];
    }
    assert fields == FieldsOf(raw);
    return Some(fields);
  }

  predicate AllReadable(raw: seq<string>)
    requires |raw| == 20
  {
    forall i :: 0 <= i < 20 ==> ReadField(LINES[i].kind, raw[i]).Some?
  }

  function FieldsOf(raw: seq<string>): Observation
    requires |raw| == 20 && AllReadable(raw)
  {
    seq(20, i requires 0 <= i < 20 => ReadField(LINES[i].kind, raw[i]).value)
  }

  function ParseOf(data: string, version: string, platform: Platform): Option<Observation> {
    var raw := RawValues(data);
    if raw.None? || !AllReadable(raw.value) || !ValidObservation(FieldsOf(raw.value), version, platform) then None
    else Some(FieldsOf(raw.value))
  }

  // ---- The two sides agree -----------------------------------------------------------------------

  lemma ValidKinds(o: Observation, version: string, platform: Platform, i: nat)
    requires i < 20 && ValidObservation(o, version, platform)
    ensures OfKind(o[i], LINES[i].kind) && (o[i].Num? ==> o[i].n <= MAX_UINT)
  {
    if i == SELECTED_OPS || i == SELECTED_OBSERVED || i == MEASUREMENT_COUNT || i == OUTCOME {
    } else {
      IdentityKinds(version, platform, i);
      assert o[i] == ExpectedIdentity(version, platform)[i].value;
    }
  }

  lemma IdentityKinds(version: string, platform: Platform, i: nat)
    requires i < 20 && i != SELECTED_OPS && i != SELECTED_OBSERVED && i != MEASUREMENT_COUNT && i != OUTCOME
    ensures var e := ExpectedIdentity(version, platform)[i];
      e.Some? && OfKind(e.value, LINES[i].kind) && (e.value.Num? ==> e.value.n <= MAX_UINT)
  {
  }

  /** Every printed value of a valid observation but the version is a fixed or numeric text. */
  lemma ValidSpellings(o: Observation, version: string, platform: Platform)
    requires ValidObservation(o, version, platform)
    ensures AllLineSafe(Spellings(o)) <==> LineSafe(version)
  {
    assert Spellings(o)[VERSION] == version by {
      assert ExpectedIdentity(version, platform)[VERSION].Some?;
    }
    forall i | 0 <= i < 20 && i != VERSION
      ensures LineSafe(Spellings(o)[i])
    {
      ValidSpelling(o, version, platform, i);
    }
  }

  lemma ValidSpelling(o: Observation, version: string, platform: Platform, i: nat)
    requires i < 20 && i != VERSION && ValidObservation(o, version, platform)
    ensures LineSafe(Spell(o[i]))
  {
    ValidKinds(o, version, platform, i);
    var e := ExpectedIdentity(version, platform)[i];
    if o[i].Num? {
      NumeralSafe(o[i].n);
    } else if o[i].Flag? {
      FlagSafe(o[i].b);
    } else if e.Some? {
      assert o[i] == e.value;
      ConstantSafe(o[i].text, platform);
    } else {
      OutcomeSafe(o[i].text);
    }
  }

  lemma NumeralSafe(n: nat)
    ensures LineSafe(DecimalText(n))
  {
  }

  lemma FlagSafe(b: bool)
    ensures LineSafe(Spell(Flag(b)))
  {
  }

  predicate IsConstant(s: string) {
    s in {"inex-kdf-calibration-v1", "inex", "argon2id13", "inex-public-dummy-v1", "process", "single-per-candidate"}
  }

  lemma ConstantSafe(s: string, platform: Platform)
    requires s == RustTarget(platform) || IsConstant(s)
    ensures LineSafe(s)
  {
    if IsConstant(s) {
      FixedTextSafe(s);
    } else {
      TargetSafe(platform);
    }
  }

  lemma FixedTextSafe(s: string)
    requires IsConstant(s)
    ensures LineSafe(s)
  {
    if s == "inex-kdf-calibration-v1" || s == "inex" || s == "argon2id13" {
    } else {
      OtherTextSafe(s);
    }
  }

  lemma OtherTextSafe(s: string)
    requires s == "inex-public-dummy-v1" || s == "process" || s == "single-per-candidate"
    ensures LineSafe(s)
  {
  }

  lemma TargetSafe(platform: Platform)
    ensures LineSafe(RustTarget(platform))
  {
    match platform {
      case LinuxX64 => assert LineSafe("x86_64-unknown-linux-gnu");
      case LinuxArm64 => assert LineSafe("aarch64-unknown-linux-gnu");
      case WindowsX64 => assert LineSafe("x86_64-pc-windows-msvc");
      case WindowsArm64 => assert LineSafe("aarch64-pc-windows-msvc");
    }
  }

  lemma OutcomeSafe(s: string)
    requires s in OUTCOMES
    ensures LineSafe(s)
  {
  }

  /**
   * Printing any valid observation and parsing it gives the observation back exactly when the version is
   * one line of ASCII text and the report stays under the output ceiling.
   */
  lemma ParseAfterPrint(o: Observation, version: string, platform: Platform)
    requires ValidObservation(o, version, platform)
    ensures ParseOf(PrintObservation(o), version, platform) == Some(o)
      <==> LineSafe(version) && |PrintObservation(o)| <= PROCESS_OUTPUT_LIMIT_BYTES
  {
    var values := Spellings(o);
    RawAfterReport(values);
    ValidSpellings(o, version, platform);
    if RawValues(PrintObservation(o)) == Some(values) {
      ReadSpellings(o, version, platform);
    }
    if ParseOf(PrintObservation(o), version, platform) == Some(o) {
      var raw := RawValues(PrintObservation(o)).value;
      RawOfFields(raw, o);
    }
  }

  lemma ReadSpellings(o: Observation, version: string, platform: Platform)
    requires ValidObservation(o, version, platform)
    ensures AllReadable(Spellings(o)) && FieldsOf(Spellings(o)) == o
  {
    forall i | 0 <= i < 20
      ensures ReadField(LINES[i].kind, Spellings(o)[i]) == Some(o[i])
    {
      ValidKinds(o, version, platform, i);
      ReadAfterSpell(o[i], LINES[i].kind);
    }
  }

  lemma RawOfFields(raw: seq<string>, o: Observation)
    requires |raw| == 20 && AllReadable(raw) && FieldsOf(raw) == o
    ensures Spellings(o) == raw
  {
    forall i | 0 <= i < 20
      ensures Spell(o[i]) == raw[i]
    {
      SpellAfterRead(LINES[i].kind, raw[i]);
    }
  }

  /** Re-printing whatever the parser accepts gives back the same bytes. */
  lemma PrintAfterParse(data: string, version: string, platform: Platform)
    requires ParseOf(data, version, platform).Some?
    ensures PrintObservation(ParseOf(data, version, platform).value) == data
  {
    var raw := RawValues(data).value;
    RawOfFields(raw, FieldsOf(raw));
    ReportAfterRaw(data);
  }

  /** Parsing inverts printing: it gives `o` exactly for the report of `o`. */
  lemma ParseMeans(data: string, version: string, platform: Platform, o: Observation)
    ensures ParseOf(data, version, platform) == Some(o) <==> Reports(o, data, version, platform)
  {
    if ParseOf(data, version, platform) == Some(o) {
      PrintAfterParse(data, version, platform);
    }
    if ValidObservation(o, version, platform) && PrintObservation(o) == data {
      ParseAfterPrint(o, version, platform);
    }
  }
}
