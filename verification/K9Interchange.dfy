/**
 The KIKO experiment record: a hand-written splitter and validator for one-line,
 tab-separated records.  The module shows that the accepted language holds exactly one
 encoding per observation.
 */
module K9Interchange {
  import opened Common

  datatype ExperimentKind = ProductionGate | K3AuthorizationDisabled

  datatype Outcome = Blocked | Passed

  datatype AdapterError =
    | MalformedRecord
    | UnsupportedSchema
    | UnsupportedExperiment
    | InvalidOutcome
    | InvalidCorrelation
    | ContextMismatch

  datatype Observation = Observation(kind: ExperimentKind, outcome: Outcome, correlation: string)

  datatype ValidationResult = Accepted(observation: Observation) | Rejected(error: AdapterError)

  // The kind the caller expects is an enumeration that may hold a value outside its enumerators.
  datatype ExpectedKind = Known(kind: ExperimentKind) | OutOfRange(code: int)

  const MARKER: string := "KIKO-EXPERIMENT"
  const SCHEMA_V1: string := "1"
  const TAB: string := "\t"
  const LF: string := "\n"

  function KindToken(kind: ExperimentKind): string {
    match kind
    case ProductionGate => "production_gate"
    case K3AuthorizationDisabled => "k3_authorization_disabled"
  }

  function ParseExperimentKind(token: string): Option<ExperimentKind> {
    if token == "production_gate" then Some(ProductionGate)
    else if token == "k3_authorization_disabled" then Some(K3AuthorizationDisabled)
    else None
  }

  function OutcomeToken(outcome: Outcome): string {
    match outcome
    case Blocked => "blocked"
    case Passed => "passed"
  }

  function ParseOutcome(token: string): Option<Outcome> {
    if token == "blocked" then Some(Blocked)
    else if token == "passed" then Some(Passed)
    else None
  }

  predicate IsCorrelationCharacter(c: char) {
    || 'A' <= c <= 'Z'
    || 'a' <= c <= 'z'
    || '0' <= c <= '9'
    || c == '.'
    || c == '_'
    || c == ':'
    || c == '-'
  }

  predicate IsCorrelation(s: string) {
    1 <= |s| <= 128 && forall i :: 0 <= i < |s| ==> IsCorrelationCharacter(s[i])
  }

  predicate Free(s: string, c: char) {
    forall i :: 0 <= i < |s| ==> s[i] != c
  }

  // ---------------------------------------------------------------- fields

  /** The tab-separated fields of s: always at least one. */
  function Split(s: string): (fields: seq<string>)
    ensures |fields| >= 1
  {
    if s == "" then [""]
    else if s[0] == '\t' then [""] + Split(s[1..])
    else
      var rest := Split(s[1..]);
      [[s[0]] + rest[0]] + rest[1..]
  }

  function Join(fields: seq<string>): string {
    if |fields| == 0 then ""
    else if |fields| == 1 then fields[0]
    else fields[0] + TAB + Join(fields[1..])
  }

  function CountTabs(s: string): nat {
    if s == "" then 0 else (if s[0] == '\t' then 1 else 0) + CountTabs(s[1..])
  }

  predicate TabFree(fields: seq<string>) {
    forall i :: 0 <= i < |fields| ==> Free(fields[i], '\t')
  }

  lemma {:induction false} SplitJoins(s: string)
    ensures TabFree(Split(s)) && Join(Split(s)) == s
    ensures |Split(s)| == CountTabs(s) + 1
  {
    if s != "" {
      SplitJoins(s[1..]);
      var rest := Split(s[1..]);
      assert s == [s[0]] + s[1..];
      if s[0] == '\t' {
        assert Split(s)[1..] == rest;
      } else {
        assert Split(s)[1..] == rest[1..];
        assert Free(rest[0], '\t');
        if |rest| > 1 {
          assert Join(rest) == rest[0] + TAB + Join(rest[1..]);
          assert Join(Split(s)) == [s[0]] + rest[0] + TAB + Join(rest[1..]);
        }
      }
    }
  }

  lemma {:induction false} SplitSingle(a: string)
    requires Free(a, '\t')
    ensures Split(a) == [a]
  {
    if a != "" {
      SplitSingle(a[1..]);
      assert [a[0]] + a[1..] == a;
    }
  }

  lemma {:induction false} SplitAtTab(a: string, b: string)
    requires Free(a, '\t')
    ensures Split(a + TAB + b) == [a] + Split(b)
  {
    var whole := a + TAB + b;
    if a == "" {
      assert whole[1..] == b;
    } else {
      SplitAtTab(a[1..], b);
      assert whole[1..] == a[1..] + TAB + b;
      assert [a[0]] + a[1..] == a;
    }
  }

  /** Splitting undoes joining, for any non-empty list of tab-free fields. */
  lemma {:induction false} JoinSplits(fields: seq<string>)
    requires |fields| >= 1 && TabFree(fields)
    ensures Split(Join(fields)) == fields
  {
    if |fields| == 1 {
      SplitSingle(fields[0]);
    } else {
      assert Free(fields[0], '\t');
      assert TabFree(fields[1..]) by {
        forall i | 0 <= i < |fields[1..]| ensures Free(fields[1..][i], '\t') {
          assert fields[1..][i] == fields[i + 1];
        }
      }
      JoinSplits(fields[1..]);
      SplitAtTab(fields[0], Join(fields[1..]));
      assert fields == [fields[0]] + fields[1..];
    }
  }

  lemma {:induction false} SplitStep(all: seq<string>, filled: seq<string>, body: string, start: nat, i: nat)
    requires start <= i < |body| && body[i] == '\t'
    requires forall j :: start <= j < i ==> body[j] != '\t'
    requires all == filled + Split(body[start..])
    ensures all == filled + [body[start..i]] + Split(body[i + 1..])
  {
    assert TAB == [body[i]];
    assert body[start..] == body[start..i] + TAB + body[i + 1..];
    SplitAtTab(body[start..i], body[i + 1..]);
  }

  /** The array of five fields, filled in one pass; there is no result unless the body has
      exactly four tabs, and then joining the fields gives the body back. */
  method SplitFields(body: string) returns (fields: Option<seq<string>>)
    ensures fields == if |Split(body)| == 5 then Some(Split(body)) else None
    ensures fields.Some? <==> CountTabs(body) == 4
    ensures fields.Some? ==> Join(fields.value) == body
  {
    SplitJoins(body);
    ghost var all := Split(body);
    var filled: seq<string> := [];
    var fieldStart := 0;
    var i := 0;
    assert body[0..] == body;
    while i < |body|
      invariant 0 <= fieldStart <= i <= |body|
      invariant |filled| <= 4
      invariant all == filled + Split(body[fieldStart..])
      invariant forall j :: fieldStart <= j < i ==> body[j] != '\t'
    {
      if body[i] == '\t' {
        SplitStep(all, filled, body, fieldStart, i);
        if |filled| >= 4 {
          assert |all| >= 6;
          return None;
        }
        filled := filled + [body[fieldStart..i]];
        fieldStart := i + 1;
      }
      i := i + 1;
    }
    SplitSingle(body[fieldStart..]);
    assert all == filled + [body[fieldStart..]];
    if |filled| != 4 {
      return None;
    }
    return Some(filled + [body[fieldStart..]]);
  }

  method ValidCorrelation(correlation: string) returns (valid: bool)
    ensures valid <==> IsCorrelation(correlation)
  {
    if correlation == "" || |correlation| > 128 {
      return false;
    }
    for i := 0 to |correlation|
      invariant forall j :: 0 <= j < i ==> IsCorrelationCharacter(correlation[j])
    {
      if !IsCorrelationCharacter(correlation[i]) {
        return false;
      }
    }
    return true;
  }

  // ---------------------------------------------------------------- records

  /** One line: a terminal LF and no other CR or LF. */
  predicate OneLine(record: string) {
    && |record| > 0
    && record[|record| - 1] == '\n'
    && Free(record[..|record| - 1], '\n')
    && Free(record[..|record| - 1], '\r')
  }

  /** The verdict on the five fields of a framed record, in the fixed order of precedence. */
  function JudgeFields(fields: seq<string>, expected: ExpectedKind): ValidationResult
    requires |fields| == 5
  {
    if fields[0] != MARKER then Rejected(MalformedRecord)
    else if fields[1] != SCHEMA_V1 then Rejected(UnsupportedSchema)
    else if ParseExperimentKind(fields[2]).None? then Rejected(UnsupportedExperiment)
    else if ParseOutcome(fields[3]).None? then Rejected(InvalidOutcome)
    else if !IsCorrelation(fields[4]) then Rejected(InvalidCorrelation)
    else if expected != Known(ParseExperimentKind(fields[2]).value) then Rejected(ContextMismatch)
    else Accepted(Observation(ParseExperimentKind(fields[2]).value,
                              ParseOutcome(fields[3]).value,
                              fields[4]))
  }

  /** What a record means to a caller who expects a given kind. */
  function Judge(record: string, expected: ExpectedKind): ValidationResult {
    if !OneLine(record) || |Split(record[..|record| - 1])| != 5 then Rejected(MalformedRecord)
    else JudgeFields(Split(record[..|record| - 1]), expected)
  }

  method Validate(record: string, expected: ExpectedKind) returns (result: ValidationResult)
    ensures result == Judge(record, expected)
  {
    if record == "" || record[|record| - 1] != '\n' {
      return Rejected(MalformedRecord);
    }
    var body := record[..|record| - 1];
    var i := 0;
    while i + 1 < |record|
      invariant 0 <= i <= |body|
      invariant forall j :: 0 <= j < i ==> body[j] != '\n' && body[j] != '\r'
    {
      if record[i] == '\n' || record[i] == '\r' {
        assert body[i] == record[i];
        return Rejected(MalformedRecord);
      }
      i := i + 1;
    }
    SplitJoins(body);
    var fields := SplitFields(body);
    if fields.None? || fields.value[0] != MARKER {
      return Rejected(MalformedRecord);
    }
    if fields.value[1] != SCHEMA_V1 {
      return Rejected(UnsupportedSchema);
    }
    var kind := ParseExperimentKind(fields.value[2]);
    if kind.None? {
      return Rejected(UnsupportedExperiment);
    }
    var outcome := ParseOutcome(fields.value[3]);
    if outcome.None? {
      return Rejected(InvalidOutcome);
    }
    var valid := ValidCorrelation(fields.value[4]);
    if !valid {
      return Rejected(InvalidCorrelation);
    }
    if !expected.Known? || kind.value != expected.kind {
      return Rejected(ContextMismatch);
    }
    return Accepted(Observation(kind.value, outcome.value, fields.value[4]));
  }

  // ---------------------------------------------------------------- round trip

  function Fields(o: Observation): seq<string> {
    [MARKER, SCHEMA_V1, KindToken(o.kind), OutcomeToken(o.outcome), o.correlation]
  }

  /** The canonical encoding of an observation. */
  function Encode(o: Observation): string {
    Join(Fields(o)) + LF
  }

  predicate Clean(s: string) {
    Free(s, '\n') && Free(s, '\r') && Free(s, '\t')
  }

  lemma {:induction false} CorrelationIsClean(s: string)
    requires IsCorrelation(s)
    ensures Clean(s)
  {
    forall i | 0 <= i < |s| ensures s[i] != '\n' && s[i] != '\r' && s[i] != '\t' {
      assert IsCorrelationCharacter(s[i]);
    }
  }

  lemma {:induction false} JoinIsOneLine(fields: seq<string>)
    requires forall i :: 0 <= i < |fields| ==> Clean(fields[i])
    ensures Free(Join(fields), '\n') && Free(Join(fields), '\r')
  {
    if |fields| > 1 {
      assert forall i :: 0 <= i < |fields[1..]| ==> fields[1..][i] == fields[i + 1];
      JoinIsOneLine(fields[1..]);
      var a, b := fields[0], Join(fields[1..]);
      assert Clean(a);
      forall i | 0 <= i < |a + TAB + b| ensures (a + TAB + b)[i] != '\n' && (a + TAB + b)[i] != '\r' {
      }
    } else if |fields| == 1 {
      assert Clean(fields[0]);
    }
  }

  lemma {:induction false} TokensParse(o: Observation)
    ensures ParseExperimentKind(KindToken(o.kind)) == Some(o.kind)
    ensures ParseOutcome(OutcomeToken(o.outcome)) == Some(o.outcome)
    ensures Clean(MARKER) && Clean(SCHEMA_V1) && Clean(KindToken(o.kind)) && Clean(OutcomeToken(o.outcome))
  {
    assert |OutcomeToken(Blocked)| == 7 && |OutcomeToken(Passed)| == 6;
    assert |KindToken(ProductionGate)| == 15 && |KindToken(K3AuthorizationDisabled)| == 25;
  }

  /** Printing an observation and validating the print gives the observation back. */
  lemma {:induction false} EncodeAccepted(o: Observation)
    requires IsCorrelation(o.correlation)
    ensures Judge(Encode(o), Known(o.kind)) == Accepted(o)
  {
    TokensParse(o);
    CorrelationIsClean(o.correlation);
    var fields := Fields(o);
    JoinIsOneLine(fields);
    JoinSplits(fields);
    assert Encode(o)[..|Encode(o)| - 1] == Join(fields);
  }

  /** A record is accepted with observation o exactly when it is the canonical encoding of o
      and o's kind is the expected one. */
  lemma {:induction false} AcceptedIffCanonical(record: string, expected: ExpectedKind, o: Observation)
    ensures Judge(record, expected) == Accepted(o)
       <==> IsCorrelation(o.correlation) && record == Encode(o) && expected == Known(o.kind)
  {
    if Judge(record, expected) == Accepted(o) {
      var body := record[..|record| - 1];
      var fields := Split(body);
      SplitJoins(body);
      assert fields[2] == KindToken(o.kind) && fields[3] == OutcomeToken(o.outcome);
      assert fields == Fields(o);
      assert record == body + LF;
    } else if IsCorrelation(o.correlation) && record == Encode(o) && expected == Known(o.kind) {
      EncodeAccepted(o);
    }
  }

  /** No two observations share an encoding. */
  lemma {:induction false} EncodeInjective(o: Observation, p: Observation)
    requires IsCorrelation(o.correlation) && IsCorrelation(p.correlation)
    requires Encode(o) == Encode(p)
    ensures o == p
  {
    TokensParse(o);
    TokensParse(p);
    CorrelationIsClean(o.correlation);
    CorrelationIsClean(p.correlation);
    JoinSplits(Fields(o));
    JoinSplits(Fields(p));
    assert Join(Fields(o)) == Encode(o)[..|Encode(o)| - 1] == Join(Fields(p));
    assert Fields(o)[2..] == Fields(p)[2..];
    assert KindToken(o.kind) == Fields(o)[2] == KindToken(p.kind);
    assert OutcomeToken(o.outcome) == Fields(o)[3] == OutcomeToken(p.outcome);
    assert o.correlation == Fields(o)[4] == p.correlation;
  }

  ghost predicate Framed(record: string, fields: seq<string>) {
    |fields| == 5 && (forall i :: 0 <= i < 5 ==> Clean(fields[i])) && record == Join(fields) + LF
  }

  /** Framing is decided before anything else: a line of five clean fields is judged by its
      fields alone, and every other record is malformed. */
  lemma {:induction false} FramingDecides(record: string, expected: ExpectedKind, fields: seq<string>)
    requires Framed(record, fields)
    ensures Judge(record, expected) == JudgeFields(fields, expected)
  {
    assert TabFree(fields) by {
      forall i | 0 <= i < 5 ensures Free(fields[i], '\t') {
        assert Clean(fields[i]);
      }
    }
    JoinIsOneLine(fields);
    JoinSplits(fields);
    assert record[..|record| - 1] == Join(fields);
  }

  lemma {:induction false} SplitIsFree(s: string, c: char)
    requires Free(s, c)
    ensures forall i :: 0 <= i < |Split(s)| ==> Free(Split(s)[i], c)
  {
    if s != "" {
      SplitIsFree(s[1..], c);
      var rest := Split(s[1..]);
      assert Free(rest[0], c);
    }
  }

  lemma {:induction false} FieldsOfLine(record: string)
    requires OneLine(record) && |Split(record[..|record| - 1])| == 5
    ensures Framed(record, Split(record[..|record| - 1]))
  {
    var body := record[..|record| - 1];
    SplitJoins(body);
    SplitIsFree(body, '\n');
    SplitIsFree(body, '\r');
    forall i | 0 <= i < 5 ensures Clean(Split(body)[i]) {
    }
    assert record == body + LF;
  }

  lemma {:induction false} UnframedIsMalformed(record: string, expected: ExpectedKind)
    requires !exists fields :: Framed(record, fields)
    ensures Judge(record, expected) == Rejected(MalformedRecord)
  {
    if OneLine(record) && |Split(record[..|record| - 1])| == 5 {
      FieldsOfLine(record);
    }
  }

  // ---------------------------------------------------------------- in plain text

  /** Letters, digits, hyphen, full stop, colon and underscore, by their code points. */
  predicate Coded(c: char) {
    var x := c as int;
    65 <= x <= 90 || 97 <= x <= 122 || 48 <= x <= 57 || x == 45 || x == 46 || x == 58 || x == 95
  }

  /** Each reason for which a line of five clean fields is rejected, exactly when it is given: the
      first field that is not as it must be decides, and last the kind expected. */
  lemma {:induction false} RejectionIs(fields: seq<string>, record: string, expected: ExpectedKind)
    requires |fields| == 5 && forall i :: 0 <= i < 5 ==> Clean(fields[i])
    requires record == fields[0] + "\t" + fields[1] + "\t" + fields[2] + "\t" + fields[3] + "\t" + fields[4] + "\n"
    ensures var answer := Judge(record, expected);
            var marked := fields[0] == "KIKO-EXPERIMENT";
            var versioned := marked && fields[1] == "1";
            var known := versioned && fields[2] in {"production_gate", "k3_authorization_disabled"};
            var settled := known && fields[3] in {"blocked", "passed"};
            var correlated := settled && 1 <= |fields[4]| <= 128 && forall c <- fields[4] :: Coded(c);
            var gate := fields[2] == "production_gate";
            var meant := correlated && expected == Known(if gate then ProductionGate else K3AuthorizationDisabled);
            && (answer == Rejected(MalformedRecord) <==> !marked)
            && (answer == Rejected(UnsupportedSchema) <==> marked && !versioned)
            && (answer == Rejected(UnsupportedExperiment) <==> versioned && !known)
            && (answer == Rejected(InvalidOutcome) <==> known && !settled)
            && (answer == Rejected(InvalidCorrelation) <==> settled && !correlated)
            && (answer == Rejected(ContextMismatch) <==> correlated && !meant)
            && (meant ==> answer == Accepted(Observation(
                                      if gate then ProductionGate else K3AuthorizationDisabled,
                                      if fields[3] == "blocked" then Blocked else Passed,
                                      fields[4])))
  {
    JoinedFive(fields);
    hide Join, Clean, IsCorrelationCharacter, Coded;
    FramingDecides(record, expected, fields);
    CorrelationIs(fields[4]);
    hide Judge, IsCorrelation;
  }

  lemma {:induction false} CorrelationIs(s: string)
    ensures IsCorrelation(s) <==> 1 <= |s| <= 128 && forall c <- s :: Coded(c)
  {
    forall c: char ensures IsCorrelationCharacter(c) <==> Coded(c) {
    }
    hide IsCorrelationCharacter, Coded;
  }

  lemma {:induction false} JoinedFive(fields: seq<string>)
    requires |fields| == 5
    ensures Join(fields) + LF
         == fields[0] + "\t" + fields[1] + "\t" + fields[2] + "\t" + fields[3] + "\t" + fields[4] + "\n"
  {
    assert Join(fields[4..]) == fields[4];
    assert fields[3..][1..] == fields[4..] && fields[2..][1..] == fields[3..] && fields[1..][1..] == fields[2..];
    assert Join(fields[3..]) == fields[3] + TAB + Join(fields[4..]);
    assert Join(fields[2..]) == fields[2] + TAB + Join(fields[3..]);
    assert Join(fields[1..]) == fields[1] + TAB + Join(fields[2..]);
    assert Join(fields) == fields[0] + TAB + Join(fields[1..]);
  }

  /** The canonical text of an observation. */
  lemma {:induction false} EncodingIs(o: Observation)
    ensures Encode(o) == "KIKO-EXPERIMENT\t1\t"
      + (if o.kind == ProductionGate then "production_gate" else "k3_authorization_disabled")
      + "\t" + (if o.outcome == Blocked then "blocked" else "passed") + "\t" + o.correlation + "\n"
  {
    JoinedFive(Fields(o));
    hide Join;
    assert MARKER + "\t" + SCHEMA_V1 + "\t" == "KIKO-EXPERIMENT\t1\t";
  }
}
