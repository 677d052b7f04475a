/** What every whole-car clear does and never does, for any car and any address list. */
module ScanLaws {
  import opened Wrappers
  import opened Words
  import opened Scan

  // ---- traces ----

  predicate NoService(trace: Trace, service: Service) {
    forall i :: 0 <= i < |trace| ==> trace[i].service != service
  }

  /** Each clear comes right after a successful read and session entry on its own ECU. */
  predicate ClearsAreGuarded(trace: Trace) {
    forall i :: 0 <= i < |trace| && trace[i].service == ClearAll ==>
      i >= 2 && trace[i - 2] == Act(trace[i].target, ReadDtcs, true) &&
      trace[i - 1] == Act(trace[i].target, ExtendedSession, true)
  }

  /** `trace` is `start` and then requests none of which is a reset, its clears guarded. */
  predicate ClearsAfter(start: Trace, trace: Trace) {
    start <= trace && NoService(trace[|start|..], HardReset) && (ClearsAreGuarded(start) ==> ClearsAreGuarded(trace))
  }

  predicate AcknowledgedClear(trace: Trace, target: byte) {
    Act(target, ClearAll, true) in trace
  }

  /** What one clear sends: it goes on only after a success. */
  predicate ClearSegment(seg: Trace, t: byte) {
    && 1 <= |seg| <= 4
    && seg[0] == Act(t, ReadDtcs, |seg| > 1)
    && (|seg| > 1 ==> seg[1] == Act(t, ExtendedSession, |seg| > 2))
    && (|seg| > 2 ==> seg[2] == Act(t, ClearAll, |seg| > 3))
    && (|seg| > 3 ==> seg[3] == Act(t, ReadDtcs, seg[3].ok))
  }

  lemma SegmentIsGuarded(trace: Trace, seg: Trace, t: byte)
    requires ClearSegment(seg, t)
    ensures ClearsAfter(trace, trace + seg)
  {
    var all := trace + seg;
    assert all[|trace|..] == seg;
    forall i | 0 <= i < |all| && all[i].service == ClearAll
      ensures i < |trace| || i == |trace| + 2
    {
    }
  }

  /** The filter keeps exactly the relevant ones, as often as they are there. */
  lemma {:induction false} RelevantAre(dtcs: seq<Dtc>, relevant: Dtc -> bool, d: Dtc)
    ensures multiset(Relevant(dtcs, relevant))[d] == if relevant(d) then multiset(dtcs)[d] else 0
  {
    if dtcs != [] {
      var n := |dtcs| - 1;
      RelevantAre(dtcs[..n], relevant, d);
      assert dtcs == dtcs[..n] + [dtcs[n]];
    }
  }

  /** And in their order: what is kept of two stretches is what is kept of each. */
  lemma {:induction false} RelevantInOrder(a: seq<Dtc>, b: seq<Dtc>, relevant: Dtc -> bool)
    ensures Relevant(a + b, relevant) == Relevant(a, relevant) + Relevant(b, relevant)
  {
    if b == [] {
      assert a + b == a;
    } else {
      var n := |b| - 1;
      assert (a + b)[..|a + b| - 1] == a + b[..n];
      RelevantInOrder(a, b[..n], relevant);
    }
  }

  lemma OneClear(car: Car, relevant: Dtc -> bool, trace: Trace, target: byte)
    ensures var out := ClearVerified(car, relevant, trace, target);
            && ClearsAfter(trace, out.trace)
            && out.value.address == target && out.value.resetPerformed == None && out.value.resetError == None
            && (out.value.error.None? ==> AcknowledgedClear(out.trace, target))
            && (out.value.verifiedClean <==> out.value.error.None? && out.value.afterRelevant == [])
            && (out.value.error.None? ==>
                  var read := car(out.trace[..|out.trace| - 1], target, ReadDtcs);
                  read.Ok? && out.value.afterRelevant == Relevant(read.value, relevant))
            && (car(trace, target, ReadDtcs).Ok? ==> out.value.before == car(trace, target, ReadDtcs).value)
            && (car(trace, target, ReadDtcs).Err? ==> |out.trace| == |trace| + 1 && out.value.before == [])
  {
    hide ClearsAfter;
    var out := ClearVerified(car, relevant, trace, target);
    var seg := out.trace[|trace|..];
    assert out.trace == trace + seg;
    SegmentIsGuarded(trace, seg, target);
    if out.value.error.None? {
      assert out.trace[|trace| + 2] == Act(target, ClearAll, true);
    }
  }

  lemma ClearsChain(a: Trace, b: Trace, c: Trace)
    requires ClearsAfter(a, b) && ClearsAfter(b, c)
    ensures ClearsAfter(a, c)
  {
  }

  /** A report before any reset, of the i-th address. */
  predicate Unreset(report: ClearReport, address: byte) {
    report.address == address && report.resetPerformed == None && report.resetError == None
  }

  lemma NothingCleared(trace: Trace)
    ensures ClearsAfter(trace, trace)
  {
  }

  lemma {:induction false} ClearPhase(car: Car, relevant: Dtc -> bool, trace: Trace, addrs: seq<byte>)
    ensures var out := ClearEach(car, relevant, trace, addrs);
            && ClearsAfter(trace, out.trace)
            && |out.value| == |addrs|
            && (forall k :: 0 <= k < |addrs| ==> Unreset(out.value[k], addrs[k]))
            && (forall k :: 0 <= k < |addrs| && out.value[k].error.None? ==> AcknowledgedClear(out.trace, addrs[k]))
  {
    hide ClearVerified, ClearsAreGuarded, NoService;
    if addrs == [] {
      assert ClearsAfter(trace, trace) by {
        NothingCleared(trace);
      }
    } else {
      var n := |addrs| - 1;
      ClearPhase(car, relevant, trace, addrs[..n]);
      var done := ClearEach(car, relevant, trace, addrs[..n]);
      OneClear(car, relevant, done.trace, addrs[n]);
      ClearsChain(trace, done.trace, ClearVerified(car, relevant, done.trace, addrs[n]).trace);
    }
  }

  // ---- which ECUs are reset ----

  predicate Distinct(addrs: seq<byte>) {
    forall i, j :: 0 <= i < j < |addrs| ==> addrs[i] != addrs[j]
  }

  lemma {:induction false} ResetTargetsAre(addrs: seq<byte>)
    ensures var targets := ResetTargets(addrs);
            && (forall a :: a in targets <==> a in addrs && a != 0x10)
            && Distinct(targets)
  {
    if addrs != [] {
      var n := |addrs| - 1;
      ResetTargetsAre(addrs[..n]);
      assert addrs == addrs[..n] + [addrs[n]];
    }
  }

  /** Some report for this address is free of errors. */
  predicate ClearedOnce(reports: seq<ClearReport>, address: byte) {
    exists k :: 0 <= k < |reports| && reports[k].address == address && reports[k].error.None?
  }

  lemma {:induction false} ClearedAre(reports: seq<ClearReport>, address: byte)
    ensures address in Cleared(reports) <==> ClearedOnce(reports, address)
  {
    if reports != [] {
      var n := |reports| - 1;
      ClearedAre(reports[..n], address);
      if ClearedOnce(reports, address) && !(reports[n].address == address && reports[n].error.None?) {
        var k :| 0 <= k < |reports| && reports[k].address == address && reports[k].error.None?;
        assert reports[..n][k] == reports[k];
      }
      if ClearedOnce(reports[..n], address) {
        var k :| 0 <= k < n && reports[..n][k].address == address && reports[..n][k].error.None?;
        assert reports[k] == reports[..n][k];
      }
      if reports[n].address == address && reports[n].error.None? {
        assert ClearedOnce(reports, address);
      }
    }
  }

  // ---- the reset pass ----

  /**
   The pass's requests: only session entries and resets, the resets on listed targets, and
   no target's reset sent twice.
  */
  predicate ResetsOnly(pass: Trace, targets: seq<byte>) {
    && (forall i :: 0 <= i < |pass| ==> pass[i].service in {ExtendedSession, HardReset} && pass[i].target in targets)
    && (forall i, j :: 0 <= i < j < |pass| && pass[i].service == HardReset && pass[j].service == HardReset ==>
          pass[i].target != pass[j].target)
  }

  /** A report before and after the pass: only its reset fields may differ. */
  predicate SameClear(before: ClearReport, after: ClearReport) {
    after == before.(resetPerformed := after.resetPerformed, resetError := after.resetError)
  }

  /** What the pass records: an outcome exactly on the targets' reports, true for an acknowledged reset. */
  predicate Recorded(before: ClearReport, after: ClearReport, pass: Trace, targets: seq<byte>) {
    && SameClear(before, after)
    && (after.resetPerformed.Some? <==> after.address in targets)
    && (after.resetPerformed == Some(true) <==> Act(after.address, HardReset, true) in pass)
    && (after.resetError.Some? <==> after.resetPerformed == Some(false))
  }

  lemma OneReset(car: Car, trace: Trace, target: byte)
    ensures var out := AskInSession(car, trace, target, HardReset);
            && |trace| < |out.trace| && out.trace[..|trace|] == trace
            && var seg := out.trace[|trace|..];
               && (seg == [Act(target, ExtendedSession, false)] ||
                   seg == [Act(target, ExtendedSession, true), Act(target, HardReset, out.value.Ok?)])
               && (out.value.Ok? ==> |seg| == 2)
  {
  }

  lemma NothingReset(reports: seq<ClearReport>)
    requires forall k :: 0 <= k < |reports| ==> reports[k].resetPerformed == None && reports[k].resetError == None
    ensures ResetsOnly([], [])
    ensures forall k :: 0 <= k < |reports| ==> Recorded(reports[k], reports[k], [], [])
  {
  }

  /** One target's share of the pass. */
  predicate Segment(seg: Trace, target: byte, ok: bool) {
    || (seg == [Act(target, ExtendedSession, false)] && !ok)
    || seg == [Act(target, ExtendedSession, true), Act(target, HardReset, ok)]
  }

  lemma PassExtends(pass: Trace, rest: seq<byte>, target: byte, seg: Trace, ok: bool)
    requires ResetsOnly(pass, rest) && target !in rest && Segment(seg, target, ok)
    ensures ResetsOnly(pass + seg, rest + [target])
  {
  }

  lemma RecordExtends(before: ClearReport, mid: ClearReport, pass: Trace, rest: seq<byte>, target: byte, seg: Trace,
                      outcome: Result<seq<Dtc>, string>)
    requires ResetsOnly(pass, rest) && target !in rest && Segment(seg, target, outcome.Ok?)
    requires Recorded(before, mid, pass, rest)
    ensures var after := if mid.address == target then WithReset(mid, outcome) else mid;
            Recorded(before, after, pass + seg, rest + [target])
  {
  }

  lemma {:induction false} ResetPass(car: Car, trace: Trace, reports: seq<ClearReport>, targets: seq<byte>)
    requires forall k :: 0 <= k < |reports| ==> reports[k].resetPerformed == None && reports[k].resetError == None
    requires Distinct(targets)
    ensures var out := ResetEach(car, trace, reports, targets);
            && trace <= out.trace && |out.value| == |reports|
            && ResetsOnly(out.trace[|trace|..], targets)
            && forall k :: 0 <= k < |reports| ==> Recorded(reports[k], out.value[k], out.trace[|trace|..], targets)
    decreases targets
  {
    hide AskInSession, Recorded, ResetsOnly, WithReset;
    if targets == [] {
      assert trace[|trace|..] == [];
      NothingReset(reports);
    } else {
      var n := |targets| - 1;
      var rest, target := targets[..n], targets[n];
      ResetPass(car, trace, reports, rest);
      var done := ResetEach(car, trace, reports, rest);
      var outcome := AskInSession(car, done.trace, target, HardReset);
      OneReset(car, done.trace, target);
      var pass := done.trace[|trace|..];
      var seg := outcome.trace[|done.trace|..];
      assert targets == rest + [target];
      assert target !in rest && Distinct(rest);
      assert outcome.trace[|trace|..] == pass + seg;
      PassExtends(pass, rest, target, seg, outcome.value.Ok?);
      forall k | 0 <= k < |reports|
        ensures Recorded(reports[k], ResetEach(car, trace, reports, targets).value[k], pass + seg, targets)
      {
        RecordExtends(reports[k], done.value[k], pass, rest, target, seg, outcome.value);
      }
    }
  }

  // ---- every sweep ----

  predicate ClearsBeforeResets(trace: Trace) {
    forall i, j | 0 <= i < |trace| && 0 <= j < |trace| ::
      trace[i].service == ClearAll && trace[j].service == HardReset ==> i < j
  }

  /** A reset at `i` is not of the gateway and follows an acknowledged clear of the same ECU. */
  predicate ResetIsEarned(trace: Trace, i: nat)
    requires i < |trace|
  {
    trace[i].target != 0x10 && AcknowledgedClear(trace[..i], trace[i].target)
  }

  predicate ResetsAreEarned(trace: Trace) {
    forall i :: 0 <= i < |trace| && trace[i].service == HardReset ==> ResetIsEarned(trace, i)
  }

  predicate ResetsAreDistinct(trace: Trace) {
    forall i, j :: 0 <= i < j < |trace| && trace[i].service == HardReset && trace[j].service == HardReset ==>
      trace[i].target != trace[j].target
  }

  lemma JoinedTraces(clears: Trace, pass: Trace, targets: seq<byte>)
    requires NoService(clears, HardReset) && ClearsAreGuarded(clears) && ResetsOnly(pass, targets)
    requires forall a <- targets :: a != 0x10 && AcknowledgedClear(clears, a)
    ensures ClearsBeforeResets(clears + pass) && ClearsAreGuarded(clears + pass)
    ensures ResetsAreEarned(clears + pass) && ResetsAreDistinct(clears + pass)
  {
    var all := clears + pass;
    forall i | 0 <= i < |all|
      ensures i < |clears| ==> all[i] == clears[i] && all[i].service != HardReset
      ensures i >= |clears| ==> all[i] == pass[i - |clears|] && all[i].service != ClearAll
      ensures all[i].service == HardReset ==> ResetIsEarned(all, i)
    {
      if i >= |clears| {
        assert all[..i] == clears + all[|clears|..i];
      }
    }
  }

  /**
   The trace of every sweep: all its clears come before all its resets; no clear without a
   successful pre-read and session entry on the same ECU right before it; the gateway is
   never reset, no ECU is reset twice, none without an acknowledged clear, and none at all
   unless it was asked for.
  */
  lemma SweepTrace(car: Car, relevant: Dtc -> bool, addrs: seq<byte>, reset: bool)
    ensures var trace := Sweep(car, relevant, [], addrs, reset).trace;
            && ClearsBeforeResets(trace) && ClearsAreGuarded(trace)
            && ResetsAreEarned(trace) && ResetsAreDistinct(trace)
            && (!reset ==> NoService(trace, HardReset))
  {
    hide ClearVerified, ResetEach, Cleared, ResetTargets, ClearEach, AcknowledgedClear;
    hide ClearsBeforeResets, ResetsAreEarned, ResetsAreDistinct, ResetsOnly, Recorded;
    var phase := ClearEach(car, relevant, [], addrs);
    ClearPhase(car, relevant, [], addrs);
    assert phase.trace[0..] == phase.trace;
    assert phase.trace + [] == phase.trace;
    if reset {
      var cleared := Cleared(phase.value);
      var targets := ResetTargets(cleared);
      ResetTargetsAre(cleared);
      ResetPass(car, phase.trace, phase.value, targets);
      forall a <- targets
        ensures a != 0x10 && AcknowledgedClear(phase.trace, a)
      {
        ClearedAre(phase.value, a);
      }
      var trace := Sweep(car, relevant, [], addrs, reset).trace;
      assert trace == phase.trace + trace[|phase.trace|..];
      JoinedTraces(phase.trace, trace[|phase.trace|..], targets);
    } else {
      NothingReset([]);
      JoinedTraces(phase.trace, [], []);
    }
  }

  lemma SameErrors(before: seq<ClearReport>, after: seq<ClearReport>, address: byte)
    requires |before| == |after| && forall k :: 0 <= k < |before| ==> SameClear(before[k], after[k])
    ensures ClearedOnce(before, address) <==> ClearedOnce(after, address)
  {
  }

  /**
   The reports of every sweep: one per address in order; a reset outcome exactly when reset
   was asked, the address is not the gateway and some report for it is free of errors, so a
   failed report of a repeated address can carry one; true exactly when the ECU was sent a
   reset it acknowledged; and the clear's own result is never overwritten.
  */
  lemma SweepReports(car: Car, relevant: Dtc -> bool, addrs: seq<byte>, reset: bool, k: nat)
    requires k < |addrs|
    ensures var out := Sweep(car, relevant, [], addrs, reset);
            var clears := ClearEach(car, relevant, [], addrs).value;
            && |out.value| == |addrs| && |clears| == |addrs|
            && out.value[k].address == addrs[k]
            && SameClear(clears[k], out.value[k])
            && (out.value[k].resetPerformed.Some? <==>
                  reset && addrs[k] != 0x10 && ClearedOnce(out.value, addrs[k]))
            && (out.value[k].resetPerformed == Some(true) <==> Act(addrs[k], HardReset, true) in out.trace)
            && (out.value[k].resetError.Some? <==> out.value[k].resetPerformed == Some(false))
  {
    hide ClearVerified, ResetEach, Cleared, ResetTargets, AcknowledgedClear, ClearsAreGuarded;
    var phase := ClearEach(car, relevant, [], addrs);
    ClearPhase(car, relevant, [], addrs);
    var out := Sweep(car, relevant, [], addrs, reset);
    assert phase.trace[0..] == phase.trace;
    assert Act(addrs[k], HardReset, true) !in phase.trace;
    if reset {
      var targets := ResetTargets(Cleared(phase.value));
      ResetTargetsAre(Cleared(phase.value));
      ResetPass(car, phase.trace, phase.value, targets);
      assert out.trace == phase.trace + out.trace[|phase.trace|..];
      assert Recorded(phase.value[k], out.value[k], out.trace[|phase.trace|..], targets);
      ClearedAre(phase.value, addrs[k]);
      SameErrors(phase.value, out.value, addrs[k]);
    }
  }

  // ---- when a reset outcome means this report's clear succeeded ----

  /** Some address that may be reset is listed twice. */
  predicate Repeats(addrs: seq<byte>) {
    exists i, j :: 0 <= i < j < |addrs| && addrs[i] == addrs[j] && addrs[i] != 0x10
  }

  /** Report `k` carries a reset outcome only if its own clear was free of errors. */
  predicate Honest(car: Car, relevant: Dtc -> bool, addrs: seq<byte>, k: nat) {
    var reports := Sweep(car, relevant, [], addrs, true).value;
    k < |reports| && reports[k].resetPerformed.Some? ==> reports[k].error.None?
  }

  lemma DistinctIsHonest(car: Car, relevant: Dtc -> bool, addrs: seq<byte>, k: nat)
    requires !Repeats(addrs) && k < |addrs|
    ensures Honest(car, relevant, addrs, k)
  {
    hide Sweep, ClearEach;
    var reports := Sweep(car, relevant, [], addrs, true).value;
    SweepReports(car, relevant, addrs, true, k);
    if reports[k].resetPerformed.Some? {
      var n :| 0 <= n < |reports| && reports[n].address == addrs[k] && reports[n].error.None?;
      SweepReports(car, relevant, addrs, true, n);
      assert n == k;
    }
  }

  predicate Touched(trace: Trace, a: byte) {
    exists i :: 0 <= i < |trace| && trace[i].target == a
  }

  /** A car whose ECU `a` misses the first request and answers everything after. */
  function Sleepy(a: byte): Car {
    (trace: Trace, target: byte, service: Service) =>
      if target == a && !Touched(trace, a) then Err("timeout") else Ok([])
  }

  lemma TouchedOneMore(trace: Trace, act: Act, a: byte)
    ensures Touched(trace + [act], a) <==> act.target == a || Touched(trace, a)
  {
    var more := trace + [act];
    if act.target == a {
      assert more[|trace|].target == a;
    }
    if Touched(trace, a) {
      var i :| 0 <= i < |trace| && trace[i].target == a;
      assert more[i].target == a;
    }
  }

  lemma SleepyClear(a: byte, relevant: Dtc -> bool, trace: Trace, target: byte)
    ensures var out := ClearVerified(Sleepy(a), relevant, trace, target);
            && (out.value.error.Some? <==> target == a && !Touched(trace, a))
            && (Touched(out.trace, a) <==> target == a || Touched(trace, a))
  {
    hide Relevant, Touched;
    var read := trace + [Act(target, ReadDtcs, !(target == a && !Touched(trace, a)))];
    TouchedOneMore(trace, read[|trace|], a);
    var entered := read + [Act(target, ExtendedSession, true)];
    TouchedOneMore(read, entered[|read|], a);
    var cleared := entered + [Act(target, ClearAll, true)];
    TouchedOneMore(entered, cleared[|entered|], a);
    TouchedOneMore(cleared, Act(target, ReadDtcs, true), a);
  }

  lemma NothingTouched(a: byte)
    ensures !Touched([], a)
  {
  }

  /** Of a sleepy ECU's reports exactly the first one fails. */
  lemma {:induction false} SleepyPhase(a: byte, relevant: Dtc -> bool, addrs: seq<byte>)
    ensures var out := ClearEach(Sleepy(a), relevant, [], addrs);
            && |out.value| == |addrs| && (Touched(out.trace, a) <==> a in addrs)
            && forall k :: 0 <= k < |addrs| ==> (out.value[k].error.Some? <==> addrs[k] == a && a !in addrs[..k])
  {
    hide ClearVerified, Touched;
    if addrs == [] {
      assert !Touched([], a) by {
        NothingTouched(a);
      }
    } else {
      var n := |addrs| - 1;
      SleepyPhase(a, relevant, addrs[..n]);
      SleepyClear(a, relevant, ClearEach(Sleepy(a), relevant, [], addrs[..n]).trace, addrs[n]);
      assert addrs == addrs[..n] + [addrs[n]];
      forall k | 0 <= k < n
        ensures addrs[..n][..k] == addrs[..k]
      {
      }
    }
  }

  lemma {:induction false} FirstOf(addrs: seq<byte>, a: byte) returns (i: nat)
    requires a in addrs
    ensures i < |addrs| && addrs[i] == a && a !in addrs[..i]
  {
    if addrs[0] == a {
      i := 0;
    } else {
      var rest := FirstOf(addrs[1..], a);
      i := rest + 1;
      assert addrs[..i] == [addrs[0]] + addrs[1..][..rest];
    }
  }

  /** A repeated address misleads: its sleepy ECU's failed first report gets the reset its later one earned. */
  lemma RepeatMisleads(addrs: seq<byte>, relevant: Dtc -> bool, i: nat, j: nat) returns (k: nat)
    requires i < j < |addrs| && addrs[i] == addrs[j] && addrs[i] != 0x10
    ensures k < |addrs| && !Honest(Sleepy(addrs[i]), relevant, addrs, k)
  {
    hide ClearEach, ResetEach, Cleared, ResetTargets;
    var a := addrs[i];
    k := FirstOf(addrs, a);
    SleepyPhase(a, relevant, addrs);
    SweepReports(Sleepy(a), relevant, addrs, true, k);
    SweepReports(Sleepy(a), relevant, addrs, true, j);
    assert a in addrs[..j] by {
      assert addrs[..j][i] == a;
    }
    var out := Sweep(Sleepy(a), relevant, [], addrs, true);
    assert out.value[j].address == a && out.value[j].error.None?;
    assert ClearedOnce(out.value, a);
  }

  /**
   A reset outcome means that this report's own clear succeeded, whatever the car does, if and
   only if no address but the gateway is listed twice.
  */
  lemma OutcomesAreHonest(addrs: seq<byte>)
    ensures (forall car: Car, relevant: Dtc -> bool, k: nat :: k < |addrs| ==> Honest(car, relevant, addrs, k))
            <==> !Repeats(addrs)
  {
    hide Honest;
    if !Repeats(addrs) {
      forall car: Car, relevant: Dtc -> bool, k: nat | k < |addrs|
        ensures Honest(car, relevant, addrs, k)
      {
        DistinctIsHonest(car, relevant, addrs, k);
      }
    } else {
      var i, j :| 0 <= i < j < |addrs| && addrs[i] == addrs[j] && addrs[i] != 0x10;
      var k := RepeatMisleads(addrs, (d: Dtc) => true, i, j);
    }
  }
}
