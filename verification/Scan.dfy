/** The whole-car clear and its reset pass (client/scan.rs), as the requests they send. */
module Scan {
  import opened Wrappers
  import opened Words

  const ZGW_ADDRESS: byte := 0x10

  datatype Dtc = Dtc(code: nat, status: byte)

  datatype Service = ReadDtcs | ExtendedSession | ClearAll | HardReset

  /** One request to an ECU, and whether it succeeded. */
  datatype Act = Act(target: byte, service: Service, ok: bool)

  type Trace = seq<Act>

  /** Any car: how it answers a request after all those before it; only reads carry DTCs. */
  type Car = (Trace, byte, Service) -> Result<seq<Dtc>, string>

  datatype Failure = PreRead(e: string) | Clear(e: string) | PostRead(e: string)

  datatype ClearReport = ClearReport(
    address: byte,
    before: seq<Dtc>,
    afterRelevant: seq<Dtc>,
    verifiedClean: bool,
    resetPerformed: Option<bool>,
    resetError: Option<string>,
    error: Option<Failure>)

  /** A call's result and the trace it leaves. */
  datatype Asked<+T> = Asked(value: T, trace: Trace)

  function Ask(car: Car, trace: Trace, target: byte, service: Service): Asked<Result<seq<Dtc>, string>> {
    var r := car(trace, target, service);
    Asked(r, trace + [Act(target, service, r.Ok?)])
  }

  /** `clear_all_dtcs` and `ecu_reset`: the extended session first, then the service. */
  function AskInSession(car: Car, trace: Trace, target: byte, service: Service): Asked<Result<seq<Dtc>, string>> {
    var entered := Ask(car, trace, target, ExtendedSession);
    if entered.value.Err? then entered else Ask(car, entered.trace, target, service)
  }

  function Blank(target: byte): ClearReport {
    ClearReport(target, [], [], false, None, None, None)
  }

  /** The relevant ones, in order. */
  function Relevant(dtcs: seq<Dtc>, relevant: Dtc -> bool): seq<Dtc> {
    if dtcs == [] then []
    else Relevant(dtcs[..|dtcs| - 1], relevant) +
         if relevant(dtcs[|dtcs| - 1]) then [dtcs[|dtcs| - 1]] else []
  }

  /** Pre-read, clear, post-read; the first failure ends it. */
  function ClearVerified(car: Car, relevant: Dtc -> bool, trace: Trace, target: byte): Asked<ClearReport> {
    var before := Ask(car, trace, target, ReadDtcs);
    match before.value
    case Err(e) => Asked(Blank(target).(error := Some(PreRead(e))), before.trace)
    case Ok(stored) =>
      var report := Blank(target).(before := stored);
      var cleared := AskInSession(car, before.trace, target, ClearAll);
      match cleared.value
      case Err(e) => Asked(report.(error := Some(Clear(e))), cleared.trace)
      case Ok(_) =>
        var after := Ask(car, cleared.trace, target, ReadDtcs);
        match after.value
        case Err(e) => Asked(report.(error := Some(PostRead(e))), after.trace)
        case Ok(dtcs) =>
          var left := Relevant(dtcs, relevant);
          Asked(report.(afterRelevant := left, verifiedClean := left == []), after.trace)
  }

  /** Every address, one after the other. */
  function ClearEach(car: Car, relevant: Dtc -> bool, trace: Trace, addrs: seq<byte>): Asked<seq<ClearReport>> {
    if addrs == [] then Asked([], trace)
    else
      var done := ClearEach(car, relevant, trace, addrs[..|addrs| - 1]);
      var one := ClearVerified(car, relevant, done.trace, addrs[|addrs| - 1]);
      Asked(done.value + [one.value], one.trace)
  }

  predicate IsResetTarget(address: byte) {
    address != ZGW_ADDRESS
  }

  function ResetTargets(addrs: seq<byte>): seq<byte> {
    if addrs == [] then []
    else
      var done := ResetTargets(addrs[..|addrs| - 1]);
      var address := addrs[|addrs| - 1];
      if IsResetTarget(address) && address !in done then done + [address] else done
  }

  /** The addresses of the reports without an error. */
  function Cleared(reports: seq<ClearReport>): seq<byte> {
    if reports == [] then []
    else Cleared(reports[..|reports| - 1]) +
         if reports[|reports| - 1].error.None? then [reports[|reports| - 1].address] else []
  }

  /** A report with a reset's outcome recorded, its own clear result untouched. */
  function WithReset(report: ClearReport, outcome: Result<seq<Dtc>, string>): ClearReport {
    report.(resetPerformed := Some(outcome.Ok?),
            resetError := if outcome.Err? then Some(outcome.error) else report.resetError)
  }

  /** Every report for `address` gets the outcome. */
  function RecordReset(reports: seq<ClearReport>, address: byte, outcome: Result<seq<Dtc>, string>)
      : (r: seq<ClearReport>)
    ensures |r| == |reports|
  {
    seq(|reports|, i requires 0 <= i < |reports| =>
      if reports[i].address == address then WithReset(reports[i], outcome) else reports[i])
  }

  function ResetEach(car: Car, trace: Trace, reports: seq<ClearReport>, targets: seq<byte>): Asked<seq<ClearReport>> {
    if targets == [] then Asked(reports, trace)
    else
      var done := ResetEach(car, trace, reports, targets[..|targets| - 1]);
      var address := targets[|targets| - 1];
      var outcome := AskInSession(car, done.trace, address, HardReset);
      Asked(RecordReset(done.value, address, outcome.value), outcome.trace)
  }

  /** `clear_faults_all_with_reset`. */
  function Sweep(car: Car, relevant: Dtc -> bool, trace: Trace, addrs: seq<byte>, reset: bool)
      : Asked<seq<ClearReport>>
  {
    var cleared := ClearEach(car, relevant, trace, addrs);
    if !reset then cleared
    else ResetEach(car, cleared.trace, cleared.value, ResetTargets(Cleared(cleared.value)))
  }

  // ---- the same sweep as the source runs it ----

  /** The client, by the requests it has sent so far. */
  class DiagnosticClient {
    const car: Car
    const relevant: Dtc -> bool
    var trace: Trace

    constructor (car: Car, relevant: Dtc -> bool)
      ensures this.car == car && this.relevant == relevant && trace == []
    {
      this.car := car;
      this.relevant := relevant;
      trace := [];
    }

    method Request(target: byte, service: Service) returns (r: Result<seq<Dtc>, string>)
      modifies this
      ensures Asked(r, trace) == Ask(car, old(trace), target, service)
    {
      r := car(trace, target, service);
      trace := trace + [Act(target, service, r.Ok?)];
    }

    method RequestInSession(target: byte, service: Service) returns (r: Result<seq<Dtc>, string>)
      modifies this
      ensures Asked(r, trace) == AskInSession(car, old(trace), target, service)
    {
      r := Request(target, ExtendedSession);
      if r.Err? {
        return;
      }
      r := Request(target, service);
    }

    method FilterRelevant(dtcs: seq<Dtc>) returns (left: seq<Dtc>)
      ensures left == Relevant(dtcs, relevant)
    {
      left := [];
      for i := 0 to |dtcs|
        invariant left == Relevant(dtcs[..i], relevant)
      {
        assert dtcs[..i + 1][..i] == dtcs[..i];
        if relevant(dtcs[i]) {
          left := left + [dtcs[i]];
        }
      }
      assert dtcs[..|dtcs|] == dtcs;
    }

    method ClearFaultsVerified(target: byte) returns (report: ClearReport)
      modifies this
      ensures Asked(report, trace) == ClearVerified(car, relevant, old(trace), target)
    {
      report := Blank(target);
      var before := Request(target, ReadDtcs);
      match before {
        case Ok(dtcs) => report := report.(before := dtcs);
        case Err(e) => return report.(error := Some(PreRead(e)));
      }
      var cleared := RequestInSession(target, ClearAll);
      if cleared.Err? {
        return report.(error := Some(Clear(cleared.error)));
      }
      var after := Request(target, ReadDtcs);
      match after {
        case Ok(dtcs) =>
          var left := FilterRelevant(dtcs);
          report := report.(afterRelevant := left);
          report := report.(verifiedClean := left == []);
        case Err(e) => report := report.(error := Some(PostRead(e)));
      }
    }

    method ClearedAddresses(reports: seq<ClearReport>) returns (out: seq<byte>)
      ensures out == Cleared(reports)
    {
      out := [];
      for i := 0 to |reports|
        invariant out == Cleared(reports[..i])
      {
        assert reports[..i + 1][..i] == reports[..i];
        if reports[i].error.None? {
          out := out + [reports[i].address];
        }
      }
      assert reports[..|reports|] == reports;
    }

    method ComputeResetTargets(addrs: seq<byte>) returns (out: seq<byte>)
      ensures out == ResetTargets(addrs)
    {
      out := [];
      for i := 0 to |addrs|
        invariant out == ResetTargets(addrs[..i])
      {
        assert addrs[..i + 1][..i] == addrs[..i];
        if IsResetTarget(addrs[i]) && addrs[i] !in out {
          out := out + [addrs[i]];
        }
      }
      assert addrs[..|addrs|] == addrs;
    }

    method ClearFaultsAllWithReset(addrs: seq<byte>, reset: bool) returns (reports: seq<ClearReport>)
      modifies this
      ensures Asked(reports, trace) == Sweep(car, relevant, old(trace), addrs, reset)
    {
      reports := [];
      for i := 0 to |addrs|
        invariant Asked(reports, trace) == ClearEach(car, relevant, old(trace), addrs[..i])
      {
        assert addrs[..i + 1][..i] == addrs[..i];
        var report := ClearFaultsVerified(addrs[i]);
        reports := reports + [report];
      }
      assert addrs[..|addrs|] == addrs;
      if !reset {
        return;
      }
      var cleared := ClearedAddresses(reports);
      var targets := ComputeResetTargets(cleared);
      ghost var after := ClearEach(car, relevant, old(trace), addrs);
      for i := 0 to |targets|
        invariant Asked(reports, trace) == ResetEach(car, after.trace, after.value, targets[..i])
      {
        assert targets[..i + 1][..i] == targets[..i];
        var outcome := RequestInSession(targets[i], HardReset);
        ghost var unrecorded := reports;
        for k := 0 to |reports|
          invariant |reports| == |unrecorded|
          invariant forall m :: 0 <= m < k ==> reports[m] == RecordReset(unrecorded, targets[i], outcome)[m]
          invariant forall m :: k <= m < |reports| ==> reports[m] == unrecorded[m]
        {
          if reports[k].address == targets[i] {
            var report := reports[k].(resetPerformed := Some(outcome.Ok?));
            if outcome.Err? {
              report := report.(resetError := Some(outcome.error));
            }
            reports := reports[k := report];
          }
        }
        assert reports == RecordReset(unrecorded, targets[i], outcome);
      }
      assert targets[..|targets|] == targets;
    }
  }
}
