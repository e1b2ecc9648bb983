/**
 * The bounded calibration search and the report that the Rust command prints from its evidence. The search is a
 * bisection over a permitted range; the report is tied to the line table that the Python drill reads it with.
 */
module KdfCalibration {
  import opened Strings
  import opened KdfReport

  const MIN_OPS_LIMIT: nat := 3

  const MAX_OPS_LIMIT: nat := 20

  const TARGET_MIN_NS: nat := 250_000_000

  const TARGET_MAX_NS: nat := 750_000_000

  datatype Outcome =
    | TargetWindow | MinimumAboveWindow | InteriorAboveWindow | MaximumAboveWindow | MaximumBelowWindow

  function ReportName(outcome: Outcome): string {
    match outcome
    case TargetWindow => "target-window"
    case MinimumAboveWindow => "minimum-above-window"
    case InteriorAboveWindow => "interior-above-window"
    case MaximumAboveWindow => "maximum-above-window"
    case MaximumBelowWindow => "maximum-below-window"
  }

  datatype Evidence = Evidence(opsLimit: nat, elapsedNs: nat, measurementCount: nat, outcome: Outcome)

  predicate PermittedRange(minOps: nat, maxOps: nat) {
    MIN_OPS_LIMIT <= minOps <= maxOps <= MAX_OPS_LIMIT
  }

  /** How often `h` candidates can be halved. */
  function Rounds(h: nat): nat {
    if h == 0 then 0 else 1 + Rounds(h / 2)
  }

  predicate TooFast(measure: nat -> Option<nat>, opsLimit: nat) {
    measure(opsLimit).Some? && measure(opsLimit).value < TARGET_MIN_NS
  }

  predicate InWindow(measure: nat -> Option<nat>, opsLimit: nat) {
    measure(opsLimit).Some? && TARGET_MIN_NS <= measure(opsLimit).value <= TARGET_MAX_NS
  }

  predicate TooSlow(measure: nat -> Option<nat>, opsLimit: nat) {
    measure(opsLimit).Some? && measure(opsLimit).value > TARGET_MAX_NS
  }

  /** The evidence names a measured candidate, how many were measured, and where the search ended. */
  predicate Sound(e: Evidence, measure: nat -> Option<nat>, minOps: nat, maxOps: nat) {
    && minOps <= e.opsLimit <= maxOps && measure(e.opsLimit) == Some(e.elapsedNs)
    && 1 <= e.measurementCount <= 1 + RoundsLeft(minOps + 1, maxOps)
    && match e.outcome
       case TargetWindow => InWindow(measure, e.opsLimit)
       case MinimumAboveWindow => e.opsLimit == minOps && TooSlow(measure, e.opsLimit) && e.measurementCount == 1
       case InteriorAboveWindow =>
         && minOps < e.opsLimit < maxOps && TooSlow(measure, e.opsLimit) && TooFast(measure, e.opsLimit - 1)
         && e.measurementCount >= 2
       case MaximumAboveWindow =>
         && minOps < e.opsLimit == maxOps && TooSlow(measure, e.opsLimit) && TooFast(measure, e.opsLimit - 1)
         && e.measurementCount == 1 + RoundsLeft(minOps + 1, maxOps)
       case MaximumBelowWindow =>
         && e.opsLimit == maxOps && TooFast(measure, e.opsLimit)
         && e.measurementCount == 1 + RoundsLeft(minOps + 1, maxOps)
  }

  datatype Calibration = Calibrated(evidence: Evidence) | RangeRefused | MeasureFailed(opsLimit: nat)

  lemma {:induction false} RoundsMonotone(a: nat, b: nat)
    requires a <= b
    ensures Rounds(a) <= Rounds(b)
  {
    if a > 0 {
      RoundsMonotone(a / 2, b / 2);
    }
  }

  /** How many rounds the candidates from `low` to `high` can still take. */
  function RoundsLeft(low: nat, high: nat): nat
    requires low <= high + 1
  {
    Rounds(high + 1 - low)
  }

  function Middle(low: nat, high: nat): (middle: nat)
    requires low <= high
    ensures low <= middle <= high
  {
    low + (high - low) / 2
  }

  /** Going on above the middle takes exactly one round less, going on below it at least one less. */
  lemma MiddleHalves(low: nat, high: nat, middle: nat)
    requires low <= high && middle == Middle(low, high)
    ensures RoundsLeft(middle + 1, high) + 1 == RoundsLeft(low, high)
    ensures middle > 0 ==> RoundsLeft(low, middle - 1) + 1 <= RoundsLeft(low, high)
  {
    var h := high + 1 - low;
    RoundsMonotone((h - 1) / 2, h / 2);
    assert high + 1 - (middle + 1) == h / 2 && middle - low == (h - 1) / 2;
  }

  /**
   * The bisection over a permitted range. `measure` gives the elapsed time of one candidate, or None when
   * the derivation fails; no candidate is measured twice.
   */
  method Calibrate(minOps: nat, maxOps: nat, measure: nat -> Option<nat>) returns (r: Calibration)
    ensures r == RangeRefused <==> !(3 <= minOps <= maxOps <= 20)
    ensures r.Calibrated? ==> Sound(r.evidence, measure, minOps, maxOps)
    ensures r.MeasureFailed? ==> minOps <= r.opsLimit <= maxOps && measure(r.opsLimit).None?
  {
    if !PermittedRange(minOps, maxOps) {
      return RangeRefused;
    }
    var first := measure(minOps);
    if first.None? {
      return MeasureFailed(minOps);
    }
    var measurementCount := 1;
    if first.value >= TARGET_MIN_NS {
      var outcome := if first.value <= TARGET_MAX_NS then TargetWindow else MinimumAboveWindow;
      return Calibrated(Evidence(minOps, first.value, measurementCount, outcome));
    }
    ghost var most := 1 + RoundsLeft(minOps + 1, maxOps);
    var low, high := minOps + 1, maxOps;
    var above: Option<(nat, nat)> := None;
    var below := (minOps, first.value);
    while low <= high
      invariant minOps < low <= high + 1 <= maxOps + 1
      invariant 1 <= measurementCount && measurementCount + RoundsLeft(low, high) <= most
      invariant below.0 == low - 1 && measure(below.0) == Some(below.1) && TooFast(measure, below.0)
      invariant above.None? ==> high == maxOps && measurementCount + RoundsLeft(low, high) == most
      invariant above.Some? ==> high < maxOps && above.value.0 == high + 1 && measurementCount >= 2
      invariant above.Some? ==> measure(above.value.0) == Some(above.value.1) && TooSlow(measure, above.value.0)
      invariant above.Some? && high == maxOps - 1 ==> low == maxOps && measurementCount == most
      decreases high - low
    {
      var opsLimit := Middle(low, high);
      MiddleHalves(low, high, opsLimit);
      var elapsed := measure(opsLimit);
      if elapsed.None? {
        return MeasureFailed(opsLimit);
      }
      measurementCount := measurementCount + 1;
      if elapsed.value < TARGET_MIN_NS {
        below := (opsLimit, elapsed.value);
        low := opsLimit + 1;
      } else if elapsed.value <= TARGET_MAX_NS {
        return Calibrated(Evidence(opsLimit, elapsed.value, measurementCount, TargetWindow));
      } else {
        above := Some((opsLimit, elapsed.value));
        high := opsLimit - 1;
      }
    }
    if above.None? {
      return Calibrated(Evidence(below.0, below.1, measurementCount, MaximumBelowWindow));
    }
    var outcome := if above.value.0 == maxOps then MaximumAboveWindow else InteriorAboveWindow;
    return Calibrated(Evidence(above.value.0, above.value.1, measurementCount, outcome));
  }

  /** More operations never take less time. */
  ghost predicate Monotonic(measure: nat -> Option<nat>, minOps: nat, maxOps: nat) {
    forall a, b :: minOps <= a <= b <= maxOps && measure(a).Some? && measure(b).Some? ==>
      measure(a).value <= measure(b).value
  }

  /** When time grows with the operations, the search ends in the window whenever some candidate lies in it. */
  lemma WindowFound(e: Evidence, measure: nat -> Option<nat>, minOps: nat, maxOps: nat)
    requires Sound(e, measure, minOps, maxOps) && Monotonic(measure, minOps, maxOps)
    ensures e.outcome == TargetWindow <==> exists ops :: minOps <= ops <= maxOps && InWindow(measure, ops)
  {
    if e.outcome != TargetWindow {
      forall ops | minOps <= ops <= maxOps
        ensures !InWindow(measure, ops)
      {
        OutsideWindow(e, measure, minOps, maxOps, ops);
      }
    }
  }

  lemma OutsideWindow(e: Evidence, measure: nat -> Option<nat>, minOps: nat, maxOps: nat, ops: nat)
    requires Sound(e, measure, minOps, maxOps) && Monotonic(measure, minOps, maxOps)
    requires e.outcome != TargetWindow && minOps <= ops <= maxOps
    ensures !InWindow(measure, ops)
  {
    if e.opsLimit <= ops {
      assert measure(ops).Some? ==> measure(e.opsLimit).value <= measure(ops).value;
    } else {
      assert measure(ops).Some? ==> measure(ops).value <= measure(e.opsLimit).value;
      if e.outcome == InteriorAboveWindow || e.outcome == MaximumAboveWindow {
        assert measure(ops).Some? ==> measure(ops).value <= measure(e.opsLimit - 1).value;
      }
    }
  }

  // ---- The printed report ------------------------------------------------------------------------

  function TrueOrFalse(b: bool): string {
    if b then "true" else "false"
  }

  /** The report's template, one part per line. */
  function ReportParts(version: string, rustTarget: string, debugAssertions: bool, e: Evidence): (parts: seq<string>)
    ensures |parts| == 20
  {
    [ "kdf-calibration-info-schema" + ": " + "inex-kdf-calibration-v1",
      "product" + ": " + "inex",
      "version" + ": " + version,
      "rust-target" + ": " + rustTarget,
      "rust-debug-assertions" + ": " + TrueOrFalse(debugAssertions),
      "algorithm" + ": " + "argon2id13",
      "measurement-input" + ": " + "inex-public-dummy-v1",
      "cache-scope" + ": " + "process",
      "sample-mode" + ": " + "single-per-candidate",
      "min-ops-limit" + ": " + DecimalText(MIN_OPS_LIMIT),
      "max-ops-limit" + ": " + DecimalText(MAX_OPS_LIMIT),
      "selected-ops-limit" + ": " + DecimalText(e.opsLimit),
      "mem-limit-bytes" + ": " + DecimalText(64 * 1024 * 1024),
      "parallelism" + ": " + DecimalText(1),
      "target-min-ns" + ": " + DecimalText(TARGET_MIN_NS),
      "target-max-ns" + ": " + DecimalText(TARGET_MAX_NS),
      "selected-observed-ns" + ": " + DecimalText(e.elapsedNs),
      "measurement-count" + ": " + DecimalText(e.measurementCount),
      "outcome" + ": " + ReportName(e.outcome),
      "end-to-end-sla" + ": " + "false"
    ]
  }

  /** The parts, each followed by a line feed. */
  function Lines(parts: seq<string>): string {
    if parts == [] then "" else parts[0] + "\n" + Lines(parts[1..])
  }

  function RustReport(version: string, rustTarget: string, debugAssertions: bool, e: Evidence): string {
    Lines(ReportParts(version, rustTarget, debugAssertions, e))
  }

  /** The observation that a release build's evidence amounts to. */
  function ObservedValues(version: string, platform: Platform, e: Evidence): (o: seq<FieldValue>)
    ensures |o| == 20
  {
    [ Str("inex-kdf-calibration-v1"), Str("inex"), Str(version), Str(RustTarget(platform)),
      Flag(false), Str("argon2id13"), Str("inex-public-dummy-v1"), Str("process"),
      Str("single-per-candidate"), Num(3), Num(20), Num(e.opsLimit),
      Num(64 * 1024 * 1024), Num(1), Num(250_000_000),
      Num(750_000_000), Num(e.elapsedNs),
      Num(e.measurementCount), Str(ReportName(e.outcome)), Flag(false)
    ]
  }

  function ObservationOf(version: string, platform: Platform, e: Evidence): Observation {
    ObservedValues(version, platform, e)
  }

  lemma {:induction false} LinesAreJoined(parts: seq<string>)
    requires |parts| >= 1
    ensures Lines(parts) == Join(parts, '\n') + "\n"
  {
    if |parts| > 1 {
      LinesAreJoined(parts[1..]);
      assert parts[0] + "\n" + (Join(parts[1..], '\n') + "\n") == parts[0] + ['\n'] + Join(parts[1..], '\n') + "\n";
    } else {
      assert Lines(parts[1..]) == "";
    }
  }

  lemma PartMatchesIdentity(version: string, platform: Platform, e: Evidence, i: nat)
    requires 0 <= i < 6
    ensures ReportParts(version, RustTarget(platform), false, e)[i]
      == LineText(i, Spell(ObservationOf(version, platform, e)[i]))
  {
  }

  lemma PartMatchesScope(version: string, platform: Platform, e: Evidence, i: nat)
    requires 6 <= i < 11
    ensures ReportParts(version, RustTarget(platform), false, e)[i]
      == LineText(i, Spell(ObservationOf(version, platform, e)[i]))
  {
  }

  lemma PartMatchesLimits(version: string, platform: Platform, e: Evidence, i: nat)
    requires 11 <= i < 16
    ensures ReportParts(version, RustTarget(platform), false, e)[i]
      == LineText(i, Spell(ObservationOf(version, platform, e)[i]))
  {
  }

  lemma PartMatchesEvidence(version: string, platform: Platform, e: Evidence, i: nat)
    requires 16 <= i < 20
    ensures ReportParts(version, RustTarget(platform), false, e)[i]
      == LineText(i, Spell(ObservationOf(version, platform, e)[i]))
  {
  }

  lemma PartMatches(version: string, platform: Platform, e: Evidence, i: nat)
    requires i < 20
    ensures ReportParts(version, RustTarget(platform), false, e)[i]
      == LineText(i, Spell(ObservationOf(version, platform, e)[i]))
  {
    if i < 6 {
      PartMatchesIdentity(version, platform, e, i);
    } else if i < 11 {
      PartMatchesScope(version, platform, e, i);
    } else if i < 16 {
      PartMatchesLimits(version, platform, e, i);
    } else {
      PartMatchesEvidence(version, platform, e, i);
    }
  }

  /** The Rust template and the Python line table describe the same text. */
  lemma RustReportIsPrinted(version: string, platform: Platform, e: Evidence)
    ensures RustReport(version, RustTarget(platform), false, e)
      == PrintObservation(ObservationOf(version, platform, e))
  {
    var parts := ReportParts(version, RustTarget(platform), false, e);
    var o := ObservationOf(version, platform, e);
    forall i | 0 <= i < 20
      ensures parts[i] == LineTexts(Spellings(o))[i]
    {
      PartMatches(version, platform, e, i);
    }
    assert parts == LineTexts(Spellings(o));
    LinesAreJoined(parts);
  }

  /** The validator takes no more measurements than a search of the whole range can make. */
  lemma CountIsPossible(selected: nat, observed: nat, count: nat, outcome: string)
    requires EvidenceValid(selected, observed, count, outcome)
    ensures 1 <= count <= 1 + RoundsLeft(MIN_OPS_LIMIT + 1, MAX_OPS_LIMIT)
  {
    assert Rounds(17) == 5 by {
      assert Rounds(4) == 1 + Rounds(2) && Rounds(2) == 1 + Rounds(1);
    }
  }

  /** Sound evidence with an elapsed time the drill can have waited for is a valid observation. */
  lemma SoundEvidenceIsValid(version: string, platform: Platform, e: Evidence, measure: nat -> Option<nat>)
    requires Sound(e, measure, MIN_OPS_LIMIT, MAX_OPS_LIMIT)
    requires 0 < e.elapsedNs <= PROCESS_TIMEOUT_SECONDS * 1_000_000_000
    ensures ValidObservation(ObservationOf(version, platform, e), version, platform)
  {
    OutcomeAccepted(e, measure);
    IdentityHolds(version, platform, e);
  }

  lemma OutcomeAccepted(e: Evidence, measure: nat -> Option<nat>)
    requires Sound(e, measure, MIN_OPS_LIMIT, MAX_OPS_LIMIT)
    requires 0 < e.elapsedNs <= PROCESS_TIMEOUT_SECONDS * 1_000_000_000
    ensures EvidenceValid(e.opsLimit, e.elapsedNs, e.measurementCount, ReportName(e.outcome))
  {
    assert Rounds(17) == 5 by {
      assert Rounds(4) == 1 + Rounds(2) && Rounds(2) == 1 + Rounds(1);
    }
  }

  lemma IdentityHolds(version: string, platform: Platform, e: Evidence)
    ensures MatchesIdentity(ObservationOf(version, platform, e), version, platform)
  {
  }

  /**
   * Whatever the search measures, a release build's report parses back to the evidence it was printed
   * from, provided its version is one line of ASCII text.
   */
  lemma ReportedEvidenceParses(version: string, platform: Platform, e: Evidence, measure: nat -> Option<nat>)
    requires Sound(e, measure, MIN_OPS_LIMIT, MAX_OPS_LIMIT)
    requires 0 < e.elapsedNs <= PROCESS_TIMEOUT_SECONDS * 1_000_000_000
    requires LineSafe(version)
    requires |RustReport(version, RustTarget(platform), false, e)| <= PROCESS_OUTPUT_LIMIT_BYTES
    ensures ParseOf(RustReport(version, RustTarget(platform), false, e), version, platform)
      == Some(ObservationOf(version, platform, e))
  {
    RustReportIsPrinted(version, platform, e);
    SoundEvidenceIsValid(version, platform, e, measure);
    ParseAfterPrint(ObservationOf(version, platform, e), version, platform);
  }
}
