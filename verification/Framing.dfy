/** The RPC client's Content-Length framing: header grammar, incremental decoder and request framing. */
module Framing {
  import opened Bytes
  import Decimal

  const MAX_FRAME_BYTES: nat := 24 * 1024 * 1024

  const MAX_HEADER_BYTES: nat := 8 * 1024

  const CRLF: Bytes := [13, 10]

  const BOUNDARY: Bytes := [13, 10, 13, 10]

  /** "content-length" */
  const NAME: Bytes := [99, 111, 110, 116, 101, 110, 116, 45, 108, 101, 110, 103, 116, 104]

  /** "Content-Length: " */
  const REQUEST_NAME: Bytes := [67, 111, 110, 116, 101, 110, 116, 45, 76, 101, 110, 103, 116, 104, 58, 32]

  datatype Option<T> = None | Some(value: T)

  datatype FrameError =
    | HeaderLimit | HeaderNotAscii | UnsupportedHeaders | ContentLengthInvalid | FrameLimit
    | BodyInvalid | PartialFrame

  // ---- The header line -----------------------------------------------------------------------

  predicate IsBlank(b: Byte) { b == 32 || b == 9 }

  predicate IsDigit(b: Byte) { 48 <= b <= 57 }

  predicate AllBlank(s: Bytes) { forall i :: 0 <= i < |s| ==> IsBlank(s[i]) }

  predicate AllDigits(s: Bytes) { forall i :: 0 <= i < |s| ==> IsDigit(s[i]) }

  function Lower(s: Bytes): (r: Bytes)
    ensures |r| == |s|
  {
    seq(|s|, i requires 0 <= i < |s| => if 65 <= s[i] <= 90 then s[i] + 32 else s[i])
  }

  function SkipBlanks(s: Bytes): (r: Bytes)
    ensures |r| <= |s|
  {
    if s != [] && IsBlank(s[0]) then SkipBlanks(s[1..]) else s
  }

  /** A text is its leading blanks and what skipping them leaves. */
  lemma {:induction false} BlankSplit(s: Bytes) returns (blanks: Bytes)
    ensures AllBlank(blanks) && s == blanks + SkipBlanks(s)
  {
    if s != [] && IsBlank(s[0]) {
      var more := BlankSplit(s[1..]);
      blanks := [s[0]] + more;
      assert s == [s[0]] + s[1..];
    } else {
      blanks := [];
    }
  }

  function DigitRun(s: Bytes): (n: nat)
    ensures n <= |s|
  {
    if s != [] && IsDigit(s[0]) then 1 + DigitRun(s[1..]) else 0
  }

  lemma {:induction false} DigitRunDigits(s: Bytes)
    ensures AllDigits(s[..DigitRun(s)])
  {
    if s != [] && IsDigit(s[0]) {
      DigitRunDigits(s[1..]);
      assert s[..DigitRun(s)] == [s[0]] + s[1..][..DigitRun(s[1..])];
    }
  }

  // The Content-Length pattern, matched left to right in three stages.

  function AfterName(s: Bytes): Option<Bytes> {
    var named := SkipBlanks(s);
    if |named| < 14 || Lower(named[..14]) != NAME then None else Some(named[14..])
  }

  function AfterColon(s: Bytes): Option<Bytes> {
    var colon := SkipBlanks(s);
    if colon == [] || colon[0] != 58 then None else Some(colon[1..])
  }

  function DigitGroup(s: Bytes): (r: Option<Bytes>)
    ensures r.Some? ==> AllDigits(r.value)
  {
    LeadingDigits(SkipBlanks(s))
  }

  function LeadingDigits(tail: Bytes): (r: Option<Bytes>)
    ensures r.Some? ==> AllDigits(r.value)
  {
    var n := DigitRun(tail);
    DigitRunDigits(tail);
    if n == 0 || SkipBlanks(tail[n..]) != [] then None else Some(tail[..n])
  }

  /** The digits that the pattern captures. */
  function MatchHeader(header: Bytes): (r: Option<Bytes>)
    ensures r.Some? ==> AllDigits(r.value)
  {
    var rest := AfterName(header);
    if rest.None? then None
    else
      var value := AfterColon(rest.value);
      if value.None? then None else DigitGroup(value.value)
  }

  // The same pattern as a denotation: blanks, the name in any case, blanks, a colon, blanks, digits, blanks.

  ghost predicate NameShape(s: Bytes, rest: Bytes) {
    exists a: Bytes, name: Bytes :: AllBlank(a) && Lower(name) == NAME && s == a + (name + rest)
  }

  ghost predicate ColonShape(s: Bytes, rest: Bytes) {
    exists b: Bytes :: AllBlank(b) && s == b + ([58] + rest)
  }

  ghost predicate DigitShape(s: Bytes, digits: Bytes) {
    exists c: Bytes, d: Bytes ::
      AllBlank(c) && AllBlank(d) && digits != [] && AllDigits(digits) && s == c + (digits + d)
  }

  ghost predicate HeaderShape(header: Bytes, digits: Bytes) {
    exists rest, value :: NameShape(header, rest) && ColonShape(rest, value) && DigitShape(value, digits)
  }

  lemma {:induction false} SkipBlanksPast(a: Bytes, rest: Bytes)
    requires AllBlank(a) && (rest == [] || !IsBlank(rest[0]))
    ensures SkipBlanks(a + rest) == rest
  {
    if a == [] {
      assert a + rest == rest;
    } else {
      assert (a + rest)[1..] == a[1..] + rest;
      SkipBlanksPast(a[1..], rest);
    }
  }

  lemma {:induction false} DigitRunPast(digits: Bytes, rest: Bytes)
    requires AllDigits(digits) && (rest == [] || !IsDigit(rest[0]))
    ensures DigitRun(digits + rest) == |digits|
  {
    if digits == [] {
      assert digits + rest == rest;
    } else {
      assert (digits + rest)[1..] == digits[1..] + rest;
      DigitRunPast(digits[1..], rest);
    }
  }

  lemma NameHead(name: Bytes)
    requires Lower(name) == NAME
    ensures |name| == 14 && !IsBlank(name[0])
  {
    assert Lower(name)[0] == 99;
  }

  lemma NameStage(s: Bytes, rest: Bytes)
    ensures AfterName(s) == Some(rest) <==> NameShape(s, rest)
  {
    if AfterName(s) == Some(rest) {
      var a := BlankSplit(s);
      var name := SkipBlanks(s)[..14];
      assert SkipBlanks(s) == name + rest;
    }
    if NameShape(s, rest) {
      var a: Bytes, name: Bytes :| AllBlank(a) && Lower(name) == NAME && s == a + (name + rest);
      NameHead(name);
      SkipBlanksPast(a, name + rest);
      assert (name + rest)[..14] == name && (name + rest)[14..] == rest;
    }
  }

  lemma ColonStage(s: Bytes, rest: Bytes)
    ensures AfterColon(s) == Some(rest) <==> ColonShape(s, rest)
  {
    if AfterColon(s) == Some(rest) {
      var b := BlankSplit(s);
      assert SkipBlanks(s) == [58] + rest;
    }
    if ColonShape(s, rest) {
      var b: Bytes :| AllBlank(b) && s == b + ([58] + rest);
      SkipBlanksPast(b, [58] + rest);
      assert ([58] + rest)[1..] == rest;
    }
  }

  lemma DigitStage(s: Bytes, digits: Bytes)
    ensures DigitGroup(s) == Some(digits) <==> DigitShape(s, digits)
  {
    DigitGroupInto(s, digits);
    if DigitShape(s, digits) {
      var c: Bytes, d: Bytes :|
        AllBlank(c) && AllBlank(d) && digits != [] && AllDigits(digits) && s == c + (digits + d);
      DigitGroupFrom(c, digits, d);
    }
  }

  lemma DigitGroupInto(s: Bytes, digits: Bytes)
    ensures DigitGroup(s) == Some(digits) ==> DigitShape(s, digits)
  {
    if DigitGroup(s) == Some(digits) {
      var tail := SkipBlanks(s);
      var c := BlankSplit(s);
      var d := BlankSplit(tail[|digits|..]);
      TailSplits(tail, digits, d);
    }
  }

  lemma TailSplits(tail: Bytes, digits: Bytes, d: Bytes)
    requires digits <= tail && tail[|digits|..] == d + []
    ensures tail == digits + d
  {
    assert d + [] == d;
  }

  lemma DigitGroupFrom(c: Bytes, digits: Bytes, d: Bytes)
    requires AllBlank(c) && AllBlank(d) && digits != [] && AllDigits(digits)
    ensures DigitGroup(c + (digits + d)) == Some(digits)
  {
    var tail := digits + d;
    SkipBlanksPast(c, tail);
    DigitRunPast(digits, d);
    assert tail[..|digits|] == digits && tail[|digits|..] == d;
    SkipBlanksPast(d, []);
    assert d + [] == d;
  }

  /** Left-to-right matching captures exactly what the pattern denotes, so the capture is unique. */
  lemma MatchHeaderExact(header: Bytes, digits: Bytes)
    ensures MatchHeader(header) == Some(digits) <==> HeaderShape(header, digits)
  {
    if MatchHeader(header) == Some(digits) {
      var rest := AfterName(header).value;
      var value := AfterColon(rest).value;
      NameStage(header, rest);
      ColonStage(rest, value);
      DigitStage(value, digits);
    }
    if HeaderShape(header, digits) {
      var rest, value :| NameShape(header, rest) && ColonShape(rest, value) && DigitShape(value, digits);
      NameStage(header, rest);
      ColonStage(rest, value);
      DigitStage(value, digits);
    }
  }

  function DigitValues(digits: Bytes): (d: seq<Decimal.Digit>)
    requires AllDigits(digits)
    ensures |d| == |digits|
  {
    seq(|digits|, i requires 0 <= i < |digits| => digits[i] - 48)
  }

  datatype Length = Length(value: nat) | BadLength(error: FrameError)

  function ParseContentLength(header: Bytes): Length {
    CheckedLength(header, MatchHeader(header))
  }

  function CheckedLength(header: Bytes, captured: Option<Bytes>): (r: Length)
    requires captured.Some? ==> AllDigits(captured.value)
    ensures r.Length? ==> r.value <= MAX_FRAME_BYTES
  {
    if exists i :: 0 <= i < |header| && header[i] > 0x7F then BadLength(HeaderNotAscii)
    else if Occurs(CRLF, header) then BadLength(UnsupportedHeaders)
    else if captured.None? || |captured.value| > 20 then BadLength(ContentLengthInvalid)
    else
      var value := Decimal.Value(DigitValues(captured.value));
      if value > MAX_FRAME_BYTES then BadLength(FrameLimit) else Length(value)
  }

  predicate Unmarked(s: Bytes) {
    forall i :: 0 <= i < |s| ==> s[i] <= 0x7F && s[i] != 13
  }

  lemma UnmarkedJoin(a: Bytes, b: Bytes)
    requires Unmarked(a) && Unmarked(b)
    ensures Unmarked(a + b)
  {
  }

  lemma UnmarkedName(name: Bytes)
    requires Lower(name) == NAME
    ensures Unmarked(name)
  {
    forall i | 0 <= i < |name|
      ensures name[i] <= 0x7F && name[i] != 13
    {
      assert Lower(name)[i] == NAME[i];
    }
  }

  /** The pattern admits nothing outside ASCII and no line break. */
  lemma ShapeIsUnmarked(header: Bytes, digits: Bytes)
    requires HeaderShape(header, digits)
    ensures Unmarked(header)
  {
    var rest, value :| NameShape(header, rest) && ColonShape(rest, value) && DigitShape(value, digits);
    var c: Bytes, d: Bytes :|
      AllBlank(c) && AllBlank(d) && digits != [] && AllDigits(digits) && value == c + (digits + d);
    UnmarkedJoin(digits, d);
    UnmarkedJoin(c, digits + d);
    var b: Bytes :| AllBlank(b) && rest == b + ([58] + value);
    UnmarkedJoin([58], value);
    UnmarkedJoin(b, [58] + value);
    var a: Bytes, name: Bytes :| AllBlank(a) && Lower(name) == NAME && header == a + (name + rest);
    UnmarkedName(name);
    UnmarkedJoin(name, rest);
    UnmarkedJoin(a, name + rest);
  }

  lemma UnmarkedPasses(header: Bytes)
    requires Unmarked(header)
    ensures !Occurs(CRLF, header) && forall i :: 0 <= i < |header| ==> header[i] <= 0x7F
  {
    forall i | 0 <= i <= |header|
      ensures !OccursAt(CRLF, header, i)
    {
      if i + 2 <= |header| {
        assert header[i..i + 2][0] == header[i];
      }
    }
  }

  /** A digit group of at most twenty digits that spells a length within the limit. */
  predicate Spells(digits: Bytes, n: nat) {
    AllDigits(digits) && |digits| <= 20 && Decimal.Value(DigitValues(digits)) == n && n <= 24 * 1024 * 1024
  }

  /** Exactly the headers of the pattern give a length, and it is the number their digits spell. */
  lemma LengthExact(header: Bytes, n: nat)
    ensures ParseContentLength(header) == Length(n) <==>
      exists digits :: HeaderShape(header, digits) && Spells(digits, n)
  {
    if ParseContentLength(header) == Length(n) {
      var digits := MatchHeader(header).value;
      MatchHeaderExact(header, digits);
      assert HeaderShape(header, digits) && Spells(digits, n);
    }
    if digits :| HeaderShape(header, digits) && Spells(digits, n) {
      MatchHeaderExact(header, digits);
      ShapeIsUnmarked(header, digits);
      UnmarkedPasses(header);
      PlainHeaderLength(header, digits);
    }
  }

  // ---- The stream as a whole -----------------------------------------------------------------

  /** What a byte stream amounts to: bodies with a harmless rest, or bodies and then a violation. */
  datatype Drained =
    | Settled(bodies: seq<Bytes>, pending: Bytes, expected: Option<nat>)
    | Broken(bodies: seq<Bytes>, error: FrameError, left: Bytes)

  /** The two checks the framing loop relies on: the header line and the JSON-RPC envelope of one body. */
  datatype Checks = Checks(lengthOf: Bytes -> Length, parses: Bytes -> bool)

  function Prepend(bodies: seq<Bytes>, d: Drained): Drained {
    d.(bodies := bodies + d.bodies)
  }

  /** What the bytes at a frame border amount to. */
  datatype HeaderStep = NeedMore | Reject(error: FrameError) | Take(length: nat, rest: Bytes)

  function ReadHeader(checks: Checks, pending: Bytes): (step: HeaderStep)
    ensures step.Take? ==> |step.rest| < |pending|
  {
    var boundary := Find(BOUNDARY, pending);
    if boundary < 0 then
      if |pending| > MAX_HEADER_BYTES then Reject(HeaderLimit) else NeedMore
    else if boundary + 4 > MAX_HEADER_BYTES then Reject(HeaderLimit)
    else
      match checks.lengthOf(pending[..boundary])
      case BadLength(error) => Reject(error)
      case Length(n) => Take(n, pending[boundary + 4..])
  }

  /** The stream read frame by frame. */
  function Drain(checks: Checks, pending: Bytes, expected: Option<nat>): Drained
    decreases |pending|, if expected.Some? then 1 else 0
  {
    match expected
    case None => (
      match ReadHeader(checks, pending)
      case NeedMore => Settled([], pending, None)
      case Reject(error) => Broken([], error, [])
      case Take(n, rest) => Drain(checks, rest, Some(n)))
    case Some(n) =>
      if |pending| < n then Settled([], pending, expected)
      else if !checks.parses(pending[..n]) then Broken([], BodyInvalid, pending[n..])
      else Prepend([pending[..n]], Drain(checks, pending[n..], None))
  }

  /** The header line up to the first boundary, and what follows it. */
  predicate FirstBoundary(pending: Bytes, header: Bytes, rest: Bytes) {
    && pending == header + BOUNDARY + rest
    && forall i :: 0 <= i < |header| ==> !OccursAt(BOUNDARY, pending, i)
  }

  /** The bytes are a header line that announces `n` bytes, its boundary within the limit, and `rest`. */
  predicate Announces(checks: Checks, pending: Bytes, header: Bytes, n: nat, rest: Bytes) {
    FirstBoundary(pending, header, rest) && |header| + 4 <= 8192 && checks.lengthOf(header) == Length(n)
  }

  lemma TakenAnnounces(checks: Checks, pending: Bytes) returns (header: Bytes)
    requires ReadHeader(checks, pending).Take?
    ensures var step := ReadHeader(checks, pending); Announces(checks, pending, header, step.length, step.rest)
  {
    var boundary := Find(BOUNDARY, pending);
    FindSpec(BOUNDARY, pending);
    header := pending[..boundary];
    assert pending[boundary..boundary + 4] == BOUNDARY;
    assert pending == header + BOUNDARY + pending[boundary + 4..];
  }

  lemma AnnouncedIsTaken(checks: Checks, pending: Bytes, header: Bytes, n: nat, rest: Bytes)
    requires Announces(checks, pending, header, n, rest)
    ensures ReadHeader(checks, pending) == Take(n, rest)
  {
    assert pending[|header|..|header| + 4] == BOUNDARY;
    assert FirstAt(BOUNDARY, pending, 0, |header|);
    FindIs(BOUNDARY, pending, |header|);
    assert pending[..|header|] == header && pending[|header| + 4..] == rest;
  }

  /** More bytes are awaited only within 8192; a frame starts with a header that ends within them. */
  lemma HeaderStepMeans(checks: Checks, pending: Bytes, n: nat, rest: Bytes)
    ensures ReadHeader(checks, pending).NeedMore? <==> !Occurs(BOUNDARY, pending) && |pending| <= 8192
    ensures ReadHeader(checks, pending) == Take(n, rest) <==>
      exists header :: Announces(checks, pending, header, n, rest)
  {
    FindSpec(BOUNDARY, pending);
    if ReadHeader(checks, pending) == Take(n, rest) {
      var header := TakenAnnounces(checks, pending);
    }
    if header :| Announces(checks, pending, header, n, rest) {
      AnnouncedIsTaken(checks, pending, header, n, rest);
    }
  }

  /** What the bytes start with: frame after frame, each with a header that announces its body. */
  ghost predicate StartsWith(checks: Checks, data: Bytes, bodies: seq<Bytes>)
    decreases |bodies|
  {
    bodies == [] || exists header, rest ::
      && Announces(checks, data, header, |bodies[0]|, bodies[0] + rest) && checks.parses(bodies[0])
      && StartsWith(checks, rest, bodies[1..])
  }

  /** Whatever is delivered stands framed in the stream, from its first byte on and without a gap. */
  lemma {:induction false} DrainedAreFrames(checks: Checks, data: Bytes)
    ensures StartsWith(checks, data, Drain(checks, data, None).bodies)
    decreases |data|
  {
    var step := ReadHeader(checks, data);
    if step.Take? {
      var n, rest := step.length, step.rest;
      var header := TakenAnnounces(checks, data);
      if n <= |rest| && checks.parses(rest[..n]) {
        DrainedAreFrames(checks, rest[n..]);
        var others := Drain(checks, rest[n..], None).bodies;
        assert Drain(checks, data, None).bodies == [rest[..n]] + others;
        var bodies := [rest[..n]] + others;
        assert bodies[1..] == others && rest == rest[..n] + rest[n..];
        assert Announces(checks, data, header, |bodies[0]|, bodies[0] + rest[n..]);
      }
    }
  }

  /** What waits for more is short: less than a header's limit, or less than the announced body. */
  lemma {:induction false} PendingIsBounded(checks: Checks, data: Bytes, expected: Option<nat>)
    requires Drain(checks, data, expected).Settled?
    ensures var d := Drain(checks, data, expected);
      if d.expected.None? then |d.pending| <= 8192 else |d.pending| < d.expected.value
    decreases |data|, if expected.Some? then 1 else 0
  {
    match expected
    case None =>
      if ReadHeader(checks, data).Take? {
        PendingIsBounded(checks, ReadHeader(checks, data).rest, Some(ReadHeader(checks, data).length));
      }
    case Some(n) =>
      if n <= |data| {
        PendingIsBounded(checks, data[n..], None);
      }
  }

  /** A header that is decided stays decided the same way when more bytes follow it. */
  lemma ReadHeaderExtends(checks: Checks, pending: Bytes, more: Bytes)
    ensures var step, next := ReadHeader(checks, pending), ReadHeader(checks, pending + more);
      match step
      case NeedMore => true
      case Reject(error) => next == step
      case Take(n, rest) => next == Take(n, rest + more)
  {
    var boundary := Find(BOUNDARY, pending);
    FindExtends(BOUNDARY, pending, more);
    if 0 <= boundary {
      assert (pending + more)[..boundary] == pending[..boundary];
      assert (pending + more)[boundary + 4..] == pending[boundary + 4..] + more;
    }
  }

  lemma PrependNothing(d: Drained)
    ensures Prepend([], d) == d
  {
    assert [] + d.bodies == d.bodies;
  }

  lemma PrependTwice(a: seq<Bytes>, b: seq<Bytes>, d: Drained)
    ensures Prepend(a, Prepend(b, d)) == Prepend(a + b, d)
  {
    assert a + (b + d.bodies) == a + b + d.bodies;
  }

  /** A violation looks the same when more bytes follow it, and a settled stream just goes on. */
  lemma {:induction false} DrainExtends(checks: Checks, pending: Bytes, expected: Option<nat>, more: Bytes)
    ensures Continues(Drain(checks, pending, expected), Drain(checks, pending + more, expected), checks, more)
    decreases |pending|, if expected.Some? then 1 else 0
  {
    match expected
    case None =>
      ReadHeaderExtends(checks, pending, more);
      match ReadHeader(checks, pending) {
        case NeedMore => PrependNothing(Drain(checks, pending + more, None));
        case Reject(_) =>
        case Take(n, rest) => DrainExtends(checks, rest, Some(n), more);
      }
    case Some(n) =>
      if |pending| < n {
        PrependNothing(Drain(checks, pending + more, expected));
      } else {
        BodyThenRest(checks, pending, n, more);
        DrainExtends(checks, pending[n..], None, more);
        PrependContinues(
          [pending[..n]], Drain(checks, pending[n..], None), Drain(checks, pending[n..] + more, None), checks, more);
      }
  }

  lemma BodyThenRest(checks: Checks, pending: Bytes, n: nat, more: Bytes)
    requires n <= |pending|
    ensures Drain(checks, pending + more, Some(n)) ==
      if !checks.parses(pending[..n]) then Broken([], BodyInvalid, pending[n..] + more)
      else Prepend([pending[..n]], Drain(checks, pending[n..] + more, None))
  {
    assert (pending + more)[..n] == pending[..n];
    assert (pending + more)[n..] == pending[n..] + more;
  }

  lemma PrependContinues(bodies: seq<Bytes>, d: Drained, all: Drained, checks: Checks, more: Bytes)
    requires Continues(d, all, checks, more)
    ensures Continues(Prepend(bodies, d), Prepend(bodies, all), checks, more)
  {
    if d.Settled? {
      PrependTwice(bodies, d.bodies, Drain(checks, d.pending + more, d.expected));
    }
  }

  ghost predicate Continues(d: Drained, all: Drained, checks: Checks, more: Bytes) {
    match d
    case Settled(bodies, rest, waiting) => all == Prepend(bodies, Drain(checks, rest + more, waiting))
    case Broken(bodies, error, left) => all.Broken? && all.bodies == bodies && all.error == error
  }

  // ---- The incremental decoder ---------------------------------------------------------------

  datatype Fed = Responses(bodies: seq<Bytes>) | Failed(error: FrameError)

  class FrameDecoder {
    const checks: Checks
    var pending: Bytes
    var expected: Option<nat>

    constructor (checks: Checks)
      ensures this.checks == checks && pending == [] && expected == None
    {
      this.checks := checks;
      pending, expected := [], None;
    }

    /** One chunk: the frames it completes, or the first violation and nothing else. */
    method Feed(chunk: Bytes) returns (r: Fed)
      modifies this
      ensures chunk == [] ==> r == Responses([]) && pending == old(pending) && expected == old(expected)
      ensures chunk != [] ==>
        match Drain(checks, old(pending) + chunk, old(expected))
        case Settled(bodies, rest, waiting) => r == Responses(bodies) && pending == rest && expected == waiting
        case Broken(_, error, left) => r == Failed(error) && pending == left && expected == None
    {
      if chunk == [] {
        return Responses([]);
      }
      ghost var whole := Drain(checks, pending + chunk, expected);
      pending := pending + chunk;
      var responses: seq<Bytes> := [];
      PrependNothing(whole);
      while true
        invariant whole == Prepend(responses, Drain(checks, pending, expected))
        decreases |pending|, if expected.Some? then 1 else 0
      {
        if expected.None? {
          var step := ReadHeader(checks, pending);
          match step
          case NeedMore => break;
          case Reject(error) =>
            Clear();
            return Failed(error);
          case Take(n, rest) =>
            expected, pending := Some(n), rest;
        }
        if |pending| < expected.value {
          break;
        }
        var body, rest := pending[..expected.value], pending[expected.value..];
        ghost var next := Drain(checks, rest, None);
        expected, pending := None, rest;
        if !checks.parses(body) {
          return Failed(BodyInvalid);
        }
        PrependTwice(responses, [body], next);
        responses := responses + [body];
      }
      assert responses + [] == responses;
      return Responses(responses);
    }

    /** End of stream: legal exactly between frames. */
    method Finish() returns (error: Option<FrameError>)
      modifies this
      ensures error.None? <==> old(pending) == [] && old(expected) == None
      ensures error == None || error == Some(PartialFrame)
      ensures pending == [] && expected == None
    {
      if pending != [] || expected.Some? {
        Clear();
        return Some(PartialFrame);
      }
      return None;
    }

    method Clear()
      modifies this
      ensures pending == [] && expected == None
    {
      pending, expected := [], None;
    }
  }

  // ---- Reading a whole stream in chunks --------------------------------------------------------

  datatype StreamEnd = Clean | Stopped(error: FrameError)

  /** Chunk `k` is the first with a violation; the bodies before it are those delivered. */
  ghost predicate StopsAt(checks: Checks, chunks: seq<Bytes>, k: nat, delivered: seq<Bytes>) {
    && k < |chunks|
    && (var before := Drain(checks, Flatten(chunks[..k]), None); before.Settled? && before.bodies == delivered)
    && Drain(checks, Flatten(chunks[..k + 1]), None).Broken?
  }

  /** What the reading loop makes of a stream: the split matters only for what a violation takes along. */
  ghost predicate StreamMeans(checks: Checks, chunks: seq<Bytes>, delivered: seq<Bytes>, end: StreamEnd) {
    match Drain(checks, Flatten(chunks), None)
    case Settled(bodies, rest, waiting) =>
      delivered == bodies && end == (if rest == [] && waiting == None then Clean else Stopped(PartialFrame))
    case Broken(_, error, _) => end == Stopped(error) && exists k :: StopsAt(checks, chunks, k, delivered)
  }

  /**
   * The client's stdout loop over successive non-empty reads: everything each `feed` returns is
   * delivered, and the first violation ends the stream with what its own chunk completed.
   */
  method ReadStdout(checks: Checks, chunks: seq<Bytes>) returns (delivered: seq<Bytes>, end: StreamEnd)
    requires [] !in chunks
    ensures StreamMeans(checks, chunks, delivered, end)
  {
    var decoder := new FrameDecoder(checks);
    delivered := [];
    for i := 0 to |chunks|
      invariant decoder.checks == checks && fresh(decoder)
      invariant Drain(checks, Flatten(chunks[..i]), None) == Settled(delivered, decoder.pending, decoder.expected)
    {
      ghost var done := Flatten(chunks[..i]);
      assert chunks[i] in chunks;
      FlattenStep(chunks, i);
      DrainExtends(checks, done, None, chunks[i]);
      var fed := decoder.Feed(chunks[i]);
      match fed
      case Responses(bodies) =>
        delivered := delivered + bodies;
      case Failed(error) =>
        assert StopsAt(checks, chunks, i, delivered);
        StoppedStays(checks, chunks, i + 1, |chunks|);
        return delivered, Stopped(error);
    }
    assert chunks[..|chunks|] == chunks;
    var last := decoder.Finish();
    end := if last.None? then Clean else Stopped(last.value);
  }

  /** Once a stream is broken, more chunks change neither its bodies nor its error. */
  lemma StoppedStays(checks: Checks, chunks: seq<Bytes>, k: nat, n: nat)
    requires k <= n <= |chunks| && Drain(checks, Flatten(chunks[..k]), None).Broken?
    ensures var broken, whole := Drain(checks, Flatten(chunks[..k]), None), Drain(checks, Flatten(chunks[..n]), None);
      whole.Broken? && whole.bodies == broken.bodies && whole.error == broken.error
    ensures chunks[..|chunks|] == chunks
  {
    FlattenSplit(chunks[..n], k);
    assert chunks[..n][..k] == chunks[..k];
    DrainExtends(checks, Flatten(chunks[..k]), None, Flatten(chunks[..n][k..]));
  }

  /** The chunk with the violation, and so what is delivered, is determined by the split. */
  lemma StopUnique(checks: Checks, chunks: seq<Bytes>, j: nat, k: nat, a: seq<Bytes>, b: seq<Bytes>)
    requires StopsAt(checks, chunks, j, a) && StopsAt(checks, chunks, k, b)
    ensures j == k && a == b
  {
    if j < k {
      StoppedStays(checks, chunks, j + 1, k);
    } else if k < j {
      StoppedStays(checks, chunks, k + 1, j);
    }
  }

  /** What the decoder makes of chunk `k`, with what the chunks before it left over. */
  ghost function ChunkAlone(checks: Checks, chunks: seq<Bytes>, k: nat): Drained
    requires k < |chunks| && Drain(checks, Flatten(chunks[..k]), None).Settled?
  {
    var before := Drain(checks, Flatten(chunks[..k]), None);
    Drain(checks, before.pending + chunks[k], before.expected)
  }

  /**
   * What a violation takes along: the valid bodies of the stream are those delivered and then those the
   * failing chunk completes, so nothing is lost exactly when that chunk completes none.
   */
  lemma LostWithTheChunk(checks: Checks, chunks: seq<Bytes>, k: nat, delivered: seq<Bytes>)
    requires StopsAt(checks, chunks, k, delivered)
    ensures var whole := Drain(checks, Flatten(chunks), None);
      && whole.Broken? && whole.bodies == delivered + ChunkAlone(checks, chunks, k).bodies
      && (delivered == whole.bodies <==> ChunkAlone(checks, chunks, k).bodies == [])
  {
    FlattenStep(chunks, k);
    DrainExtends(checks, Flatten(chunks[..k]), None, chunks[k]);
    StoppedStays(checks, chunks, k + 1, |chunks|);
    var lost := ChunkAlone(checks, chunks, k).bodies;
    assert |delivered + lost| == |delivered| + |lost|;
    assert lost == [] ==> delivered + lost == delivered;
  }

  // ---- Request framing -----------------------------------------------------------------------

  function DigitByte(d: Decimal.Digit): (b: Byte)
    ensures IsDigit(b)
  {
    var code: int := d;
    code + 48
  }

  function DecimalBytes(n: nat): Bytes {
    var d := Decimal.Digits(n);
    seq(|d|, i requires 0 <= i < |d| => DigitByte(d[i]))
  }

  /** The frame that `encode_request` builds around one serialized body. */
  function Frame(body: Bytes): Bytes {
    RequestHeader(|body|) + BOUNDARY + body
  }

  function Frames(bodies: seq<Bytes>): Bytes {
    if bodies == [] then [] else Frame(bodies[0]) + Frames(bodies[1..])
  }

  lemma DecimalBytesValue(n: nat)
    requires n <= MAX_FRAME_BYTES
    ensures var digits := DecimalBytes(n);
      1 <= |digits| <= 8 && AllDigits(digits) && Decimal.Value(DigitValues(digits)) == n
  {
    Decimal.ValueOfDigits(n);
    assert Decimal.Pow10(8) == 100000000;
    Decimal.DigitCount(n, 8);
    assert DigitValues(DecimalBytes(n)) == Decimal.Digits(n);
  }

  lemma RequestHeaderMatches(digits: Bytes)
    requires digits != [] && AllDigits(digits)
    ensures MatchHeader(REQUEST_NAME + digits) == Some(digits)
  {
    var value := [32] + digits;
    assert REQUEST_NAME + digits == REQUEST_NAME[..14] + ([58] + value);
    RequestNameStage([58] + value);
    assert AfterColon([58] + value) == Some(value) by {
      assert ([58] + value)[1..] == value;
    }
    var space: Bytes, none: Bytes := [32], [];
    assert digits + none == digits;
    DigitGroupFrom(space, digits, none);
  }

  lemma RequestNameStage(rest: Bytes)
    ensures AfterName(REQUEST_NAME[..14] + rest) == Some(rest)
  {
    var name, none: Bytes := REQUEST_NAME[..14], [];
    assert Lower(name) == NAME;
    assert name + rest == none + (name + rest);
    NameStage(name + rest, rest);
  }

  /** "Content-Length: <digits>" holds no carriage return, no byte outside ASCII, and fits the limit. */
  lemma RequestHeaderPlain(digits: Bytes)
    requires AllDigits(digits)
    ensures var header := REQUEST_NAME + digits;
      13 !in header && !Occurs(CRLF, header) && forall i :: 0 <= i < |header| ==> header[i] <= 0x7F
  {
    var header := REQUEST_NAME + digits;
    forall i | 0 <= i < |header|
      ensures header[i] != 13 && header[i] <= 0x7F
    {
      if i < |REQUEST_NAME| {
        assert header[i] == REQUEST_NAME[i];
      }
    }
    forall i | 0 <= i <= |header|
      ensures !OccursAt(CRLF, header, i)
    {
      if i + 2 <= |header| {
        assert header[i..i + 2][0] == header[i];
      }
    }
  }

  lemma PlainHeaderLength(header: Bytes, digits: Bytes)
    requires AllDigits(digits) && |digits| <= 20 && Decimal.Value(DigitValues(digits)) <= MAX_FRAME_BYTES
    requires !Occurs(CRLF, header) && forall i :: 0 <= i < |header| ==> header[i] <= 0x7F
    ensures CheckedLength(header, Some(digits)) == Length(Decimal.Value(DigitValues(digits)))
  {
  }

  function RequestHeader(n: nat): Bytes {
    REQUEST_NAME + DecimalBytes(n)
  }

  lemma RequestHeaderParses(n: nat)
    requires n <= MAX_FRAME_BYTES
    ensures ParseContentLength(RequestHeader(n)) == Length(n)
  {
    var digits := DecimalBytes(n);
    DecimalBytesValue(n);
    RequestHeaderMatches(digits);
    RequestHeaderPlain(digits);
    PlainHeaderLength(RequestHeader(n), digits);
  }

  /** A header without carriage returns ends exactly where the framing says. */
  lemma BoundaryAfter(header: Bytes, rest: Bytes)
    requires 13 !in header
    ensures Find(BOUNDARY, header + BOUNDARY + rest) == |header|
  {
    var all := header + BOUNDARY + rest;
    assert all[|header|..|header| + 4] == BOUNDARY;
    assert OccursAt(BOUNDARY, all, |header|);
    forall i | 0 <= i < |header|
      ensures !OccursAt(BOUNDARY, all, i)
    {
      assert all[i..i + 4][0] == all[i] == header[i];
    }
    FindIs(BOUNDARY, all, |header|);
  }

  /** The checks the client runs with: its header grammar and some envelope check. */
  function ClientChecks(parses: Bytes -> bool): Checks {
    Checks(header => ParseContentLength(header), parses)
  }

  lemma {:induction false} FrameDrains(checks: Checks, header: Bytes, body: Bytes, rest: Bytes)
    requires 13 !in header && |header| + 4 <= MAX_HEADER_BYTES
    requires checks.lengthOf(header) == Length(|body|) && checks.parses(body)
    ensures Drain(checks, header + BOUNDARY + body + rest, None) == Prepend([body], Drain(checks, rest, None))
  {
    BoundaryAfter(header, body + rest);
    var all := header + BOUNDARY + (body + rest);
    assert header + BOUNDARY + body + rest == all;
    assert all[..|header|] == header && all[|header| + 4..] == body + rest;
    assert (body + rest)[..|body|] == body && (body + rest)[|body|..] == rest;
  }

  ghost predicate ReadsRequestHeaders(checks: Checks) {
    forall n: nat :: n <= MAX_FRAME_BYTES ==> checks.lengthOf(RequestHeader(n)) == Length(n)
  }

  lemma ClientReadsRequestHeaders(parses: Bytes -> bool)
    ensures ReadsRequestHeaders(ClientChecks(parses))
  {
    forall n: nat | n <= MAX_FRAME_BYTES
      ensures ClientChecks(parses).lengthOf(RequestHeader(n)) == Length(n)
    {
      RequestHeaderParses(n);
    }
  }

  predicate CanSend(checks: Checks, bodies: seq<Bytes>) {
    forall i :: 0 <= i < |bodies| ==> |bodies[i]| <= MAX_FRAME_BYTES && checks.parses(bodies[i])
  }

  /** Framed bodies decode back to themselves and leave nothing over, whatever bytes they hold. */
  lemma {:induction false} FramesRoundTrip(checks: Checks, bodies: seq<Bytes>)
    requires ReadsRequestHeaders(checks) && CanSend(checks, bodies)
    ensures Drain(checks, Frames(bodies), None) == Settled(bodies, [], None)
  {
    if bodies == [] {
      NothingDrains(checks);
    } else {
      FramesRoundTrip(checks, bodies[1..]);
      FirstFrameDrains(checks, bodies[0], bodies[1..], Frames(bodies[1..]));
      assert bodies == [bodies[0]] + bodies[1..];
    }
  }

  lemma NothingDrains(checks: Checks)
    ensures Drain(checks, [], None) == Settled([], [], None)
  {
    assert Find(BOUNDARY, []) < 0;
  }

  lemma FirstFrameDrains(checks: Checks, body: Bytes, others: seq<Bytes>, rest: Bytes)
    requires ReadsRequestHeaders(checks) && |body| <= MAX_FRAME_BYTES && checks.parses(body)
    requires Drain(checks, rest, None) == Settled(others, [], None)
    ensures Drain(checks, Frame(body) + rest, None) == Settled([body] + others, [], None)
  {
    DecimalBytesValue(|body|);
    RequestHeaderPlain(DecimalBytes(|body|));
    FrameDrains(checks, RequestHeader(|body|), body, rest);
  }

  /** Read in any split, a stream of framed bodies delivers exactly those bodies and ends cleanly. */
  lemma FramedStreamDelivers(parses: Bytes -> bool, bodies: seq<Bytes>, chunks: seq<Bytes>, delivered: seq<Bytes>,
                             end: StreamEnd)
    requires CanSend(ClientChecks(parses), bodies) && Flatten(chunks) == Frames(bodies)
    requires StreamMeans(ClientChecks(parses), chunks, delivered, end)
    ensures delivered == bodies && end == Clean
  {
    ClientReadsRequestHeaders(parses);
    FramesRoundTrip(ClientChecks(parses), bodies);
  }

  lemma EmptyHeaderBreaks(parses: Bytes -> bool)
    ensures Drain(ClientChecks(parses), BOUNDARY, None) == Broken([], ContentLengthInvalid, [])
  {
    var none: Bytes := [];
    BoundaryAfter(none, none);
    assert none + BOUNDARY + none == BOUNDARY;
    assert BOUNDARY[..0] == none;
    assert !OccursAt(CRLF, none, 0);
  }

  lemma FramesThenEmptyHeader(parses: Bytes -> bool, bodies: seq<Bytes>)
    requires CanSend(ClientChecks(parses), bodies)
    ensures Drain(ClientChecks(parses), Frames(bodies), None) == Settled(bodies, [], None)
    ensures var whole := Drain(ClientChecks(parses), Frames(bodies) + BOUNDARY, None);
      whole.Broken? && whole.bodies == bodies && whole.error == ContentLengthInvalid
  {
    var none: Bytes := [];
    ClientReadsRequestHeaders(parses);
    FramesRoundTrip(ClientChecks(parses), bodies);
    DrainExtends(ClientChecks(parses), Frames(bodies), None, BOUNDARY);
    assert none + BOUNDARY == BOUNDARY;
    EmptyHeaderBreaks(parses);
    assert bodies + [] == bodies;
  }

  /** The same bytes deliver every body in two reads, and none of them when one read holds the violation too. */
  lemma BodiesLost(parses: Bytes -> bool, bodies: seq<Bytes>, delivered: seq<Bytes>, end: StreamEnd)
    requires CanSend(ClientChecks(parses), bodies)
    ensures var together, apart := [Frames(bodies) + BOUNDARY], [Frames(bodies), BOUNDARY];
      && Flatten(together) == Flatten(apart)
      && (StreamMeans(ClientChecks(parses), together, delivered, end)
          <==> delivered == [] && end == Stopped(ContentLengthInvalid))
      && (StreamMeans(ClientChecks(parses), apart, delivered, end)
          <==> delivered == bodies && end == Stopped(ContentLengthInvalid))
  {
    var checks := ClientChecks(parses);
    var together, apart := [Frames(bodies) + BOUNDARY], [Frames(bodies), BOUNDARY];
    FramesThenEmptyHeader(parses, bodies);
    NothingDrains(checks);
    FlattenOne(Frames(bodies) + BOUNDARY);
    FlattenOne(Frames(bodies));
    FlattenTwo(Frames(bodies), BOUNDARY);
    assert together[..0] == [] && together[..1] == together;
    assert apart[..1] == [Frames(bodies)] && apart[..2] == apart;
    assert StopsAt(checks, together, 0, []);
    assert StopsAt(checks, apart, 1, bodies);
    if k :| StopsAt(checks, together, k, delivered) {
      StopUnique(checks, together, k, 0, delivered, []);
    }
    if k :| StopsAt(checks, apart, k, delivered) {
      StopUnique(checks, apart, k, 1, delivered, bodies);
    }
  }

  lemma FlattenOne(a: Bytes)
    ensures Flatten([a]) == a
  {
    assert Flatten([a]) == a + Flatten([a][1..]);
  }

  lemma FlattenTwo(a: Bytes, b: Bytes)
    ensures Flatten([a, b]) == a + b
  {
    assert [a, b][1..] == [b];
    FlattenOne(b);
  }
}
