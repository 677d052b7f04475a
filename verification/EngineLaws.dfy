/** What holds of every run of every job, whatever its bytecode, arguments and transport. */
module EngineLaws {
  import opened Wrappers
  import opened Words
  import opened Bytecode
  import opened MachineState
  import opened Text
  import opened Alu
  import opened ResultSets
  import opened ExecBase
  import opened ExecContext
  import opened ExecLaws
  import opened Executor
  import opened Engine
  import Gate
  import Telegram
  import Assemble

  const TABGET: byte := 0x7D

  // ---- the path through the code ----

  /** `pc` is where `op` hands control on: its successor, or its branch target. */
  predicate Follows(op: Op, pc: nat) {
    pc == op.offset + op.len || (IsBranch(op.byte) && op.arg0.Imm? && pc == BranchTarget(op))
  }

  /**
   `trail` is a path of decoded instructions from offset 0 to `pc`: each was fetched at the
   exact offset the one before it handed control to, and none of them is an eoj.
  */
  predicate Path(ops: seq<Op>, trail: seq<nat>, pc: nat) {
    if trail == [] then pc == 0
    else
      var i := trail[|trail| - 1];
      i < |ops| && ops[i].byte != EOJ && Follows(ops[i], pc) && Path(ops, trail[..|trail| - 1], ops[i].offset)
  }

  /** A path whose last instruction may have stopped the run: a fault, or eoj. */
  predicate PathInto(ops: seq<Op>, trail: seq<nat>) {
    && trail != [] && trail[|trail| - 1] < |ops|
    && Path(ops, trail[..|trail| - 1], ops[trail[|trail| - 1]].offset)
  }

  /** How many erg instructions a trail executes. */
  function Ergs(ops: seq<Op>, trail: seq<nat>): nat {
    if trail == [] then 0
    else
      var i := trail[|trail| - 1];
      Ergs(ops, trail[..|trail| - 1]) + if i < |ops| && IsErg(ops[i].byte) then 1 else 0
  }

  predicate AllAnswered(calls: seq<Call>) {
    forall k :: 0 <= k < |calls| ==> calls[k].reply.Ok? || calls[k].masked
  }

  /** The context's invariants: the results are what the instructions run so far pushed, in order. */
  predicate Kept(job: Job, run: Run) {
    && CursorOk(job.env, run.ctx.cursor)
    && CommittedNonEmpty(run.ctx.sets)
    && Flatten(run.ctx.sets) == run.emitted
  }

  /** And every erg on the trail has pushed its one. */
  predicate InOrder(job: Job, run: Run) {
    Kept(job, run) && |run.emitted| == Ergs(job.ops, run.trail)
  }

  /** What holds between any two turns. */
  predicate Lawful(job: Job, run: Run) {
    && Path(job.ops, run.trail, run.st.pc)
    && InOrder(job, run)
    && AllAnswered(run.calls)
  }

  /** The selected row is shorter than its table's header. */
  predicate Ragged(env: Env, cursor: Cursor) {
    && cursor.row.Some? && cursor.table.Some? && cursor.table.value < |env.tables|
    && var table := env.tables[cursor.table.value];
       cursor.row.value < |table.rows| && |table.rows[cursor.row.value]| < |table.columns|
  }

  /** A bad row reported by tabget is a ragged one. */
  predicate RowFaultOk(env: Env, op: Op, cursor: Cursor, e: ExecError) {
    e == TableRow && op.byte == TABGET && CursorOk(env, cursor) ==> Ragged(env, cursor)
  }

  /** The last exchange failed with `e` while bit 19 was unmasked; all before it were dealt with. */
  predicate LeftUnanswered(calls: seq<Call>, e: Exchange.ExchangeError) {
    && calls != []
    && AllAnswered(calls[..|calls| - 1])
    && calls[|calls| - 1].reply == Err(e) && !calls[|calls| - 1].masked
  }

  /** What holds when a run has ended with `result`. */
  predicate Concluded(job: Job, run: Run, result: Result<Sets, RunError>) {
    match result
    case Ok(sets) =>
      && PathInto(job.ops, run.trail) && job.ops[run.trail[|run.trail| - 1]].byte == EOJ
      && sets == run.ctx.sets && InOrder(job, run) && AllAnswered(run.calls)
    case Err(Exec(e)) =>
      && PathInto(job.ops, run.trail) && Kept(job, run) && AllAnswered(run.calls)
      && RowFaultOk(job.env, job.ops[run.trail[|run.trail| - 1]], run.ctx.cursor, e)
    case Err(Exchange(e)) => PathInto(job.ops, run.trail) && InOrder(job, run) && LeftUnanswered(run.calls, e)
    case Err(BadPc(pc)) =>
      && Path(job.ops, run.trail, pc) && InOrder(job, run) && AllAnswered(run.calls)
      && forall i :: 0 <= i < |job.ops| ==> job.ops[i].offset != pc
    case Err(LoopBound(_)) => Lawful(job, run)
    case Err(_) => false
  }

  lemma PathExtends(ops: seq<Op>, trail: seq<nat>, i: nat, pc: nat)
    requires i < |ops| && Path(ops, trail, ops[i].offset)
    ensures PathInto(ops, trail + [i])
    ensures ops[i].byte != EOJ && Follows(ops[i], pc) ==> Path(ops, trail + [i], pc)
    ensures Ergs(ops, trail + [i]) == Ergs(ops, trail) + if IsErg(ops[i].byte) then 1 else 0
  {
  }

  /** The state after a performed exchange differs only in trap, operand and history. */
  lemma PerformKeeps(job: Job, run: Run, request: seq<byte>, dest: Operand)
    requires AllAnswered(run.calls)
    ensures var turn := Perform(job, run, request, dest);
            && turn.run.trail == run.trail && turn.run.ctx == run.ctx && turn.run.st.pc == run.st.pc
            && turn.run.emitted == run.emitted
            && (turn.Goes? ==> AllAnswered(turn.run.calls))
            && (turn.Ends? ==>
                  || (turn.result.Err? && turn.result.error.Exec? && turn.result.error.exec.Machine? &&
                      AllAnswered(turn.run.calls))
                  || (turn.result.Err? && turn.result.error.Exchange? &&
                      LeftUnanswered(turn.run.calls, turn.result.error.exchange)))
  {
    hide Masked, Write;
    var turn := Perform(job, run, request, dest);
    assert turn.run.calls[..|turn.run.calls| - 1] == run.calls;
  }

  /** An instruction's outcome as far as the run loop depends on it. */
  predicate Behaves(env: Env, op: Op, ctx: Ctx, out: Out<(Flow, Ctx)>, emitted: seq<Entry>) {
    match out
    case Failed(e) => RowFaultOk(env, op, ctx.cursor, e)
    case Done(_, (flow, ctx')) =>
      && (if flow.Jumped? then Follows(op, out.st.pc) else out.st.pc == op.offset + op.len)
      && (flow.EndOfJob? <==> op.byte == EOJ)
      && (CursorOk(env, ctx.cursor) ==> CursorOk(env, ctx'.cursor))
      && (CommittedNonEmpty(ctx.sets) ==> CommittedNonEmpty(ctx'.sets))
      && Flatten(ctx'.sets) == Flatten(ctx.sets) + emitted
      && |emitted| == if IsErg(op.byte) then 1 else 0
  }

  ghost predicate Obeys(job: Job) {
    forall st: State, op: Op, ctx: Ctx :: Behaves(job.env, op, ctx, job.step(st, op, ctx), job.emits(st, op))
  }

  lemma TabgetFaults(st: State, op: Op, env: Env, ctx: Ctx)
    requires op.byte == TABGET && CursorOk(env, ctx.cursor) && Step(st, op, env, ctx) == Failed(TableRow)
    ensures Ragged(env, ctx.cursor)
  {
    hide Tabget, ResolveIndex;
    var st0 := st.(pc := op.offset + op.len);
    RowFaultIsRagged(st0, FoldOp(st0, op).value, env, ctx.cursor);
  }

  /** The BEST/2 semantics is one the run loop's laws hold for. */
  lemma StepBehaves(ops: seq<Op>, env: Env, target: byte, exchange: Exchange.UdsExchange)
    ensures Obeys(LoadedJob(ops, env, target, exchange))
  {
    hide Step, Emits, CursorOk, CommittedNonEmpty, Flatten, Ragged;
    forall st: State, op: Op, ctx: Ctx
      ensures Behaves(env, op, ctx, Step(st, op, env, ctx), Emits(st, op))
    {
      if op.byte == TABGET && CursorOk(env, ctx.cursor) && Step(st, op, env, ctx) == Failed(TableRow) {
        TabgetFaults(st, op, env, ctx);
      }
      if Step(st, op, env, ctx).Done? {
        StepControl(st, op, env, ctx);
        StepContext(st, op, env, ctx);
      }
    }
  }

  lemma LastOf(trail: seq<nat>, i: nat)
    ensures (trail + [i])[|trail + [i]| - 1] == i
  {
  }

  lemma ExecuteIsLawful(job: Job, run: Run, i: nat)
    requires Obeys(job) && Lawful(job, run) && i < |job.ops| && job.ops[i].offset == run.st.pc
    ensures match Execute(job, run, i)
            case Goes(run') => Lawful(job, run') && run'.trail == run.trail + [i]
            case Ends(run', result) => Concluded(job, run', result) && run'.trail == run.trail + [i] &&
                                       (result.Err? ==> !result.error.LoopBound?)
  {
    hide Perform, Path, PathInto, CursorOk, CommittedNonEmpty, Flatten, Ergs, AllAnswered, LeftUnanswered, Ragged;
    var op := job.ops[i];
    var out := job.step(run.st, op, run.ctx);
    assert Behaves(job.env, op, run.ctx, out, job.emits(run.st, op));
    PathExtends(job.ops, run.trail, i, if out.Done? then out.st.pc else 0);
    if out.Done? {
      LastOf(run.trail, i);
      var flow := out.value.0;
      if flow.Exchange? {
        var run1 := run.(st := out.st, ctx := out.value.1, trail := run.trail + [i],
                         emitted := run.emitted + job.emits(run.st, op));
        PerformKeeps(job, run1, flow.request, flow.dest);
      }
    }
  }

  lemma LawfulStops(job: Job, run: Run, bound: nat)
    requires Lawful(job, run)
    ensures Concluded(job, run, Err(LoopBound(bound)))
    ensures run.st.pc !in IndexMap(job.ops) ==> Concluded(job, run, Err(BadPc(run.st.pc)))
  {
  }

  lemma {:induction false} RunIsLawful(job: Job, run: Run, fuel: nat, bound: nat)
    requires Obeys(job) && Lawful(job, run)
    ensures var end := RunFrom(job, run, fuel, bound);
            && Concluded(job, end.run, end.result)
            && |end.run.trail| <= |run.trail| + fuel
            && (end.result.Err? && end.result.error.LoopBound? ==>
                  end.result.error.bound == bound && |end.run.trail| == |run.trail| + fuel)
    decreases fuel
  {
    hide Lawful, Concluded, Execute, Obeys;
    if fuel == 0 {
      assert Concluded(job, run, Err(LoopBound(bound))) by {
        LawfulStops(job, run, bound);
      }
    } else if run.st.pc in IndexMap(job.ops) {
      var i := IndexMap(job.ops)[run.st.pc];
      ExecuteIsLawful(job, run, i);
      var turn := Execute(job, run, i);
      if turn.Goes? {
        RunIsLawful(job, turn.run, fuel - 1, bound);
      }
    } else {
      LawfulStops(job, run, bound);
    }
  }

  // ---- every run ----

  lemma StartIsLawful(job: Job)
    ensures Lawful(job, START)
  {
  }

  /**
   Every run of a decoded job, whatever the bytecode, arguments, tables and exchange: it
   executes at most the bound's instructions, each a decoded one reached at its own offset;
   it meets the bound exactly when it reports it; it ends Ok at its first eoj with the
   results its erg instructions pushed, committed sets non-empty and the cursor in order.
  */
  lemma EveryRunConcludes(ecu: Ecu, name: Text, target: byte, args: seq<byte>, fpu: FloatUnit,
                          exchange: Exchange.UdsExchange)
    requires name in ecu.jobs && Decode.DecodeJob(ecu.jobs[name]).Ok?
    ensures var job := LoadedJob(Decode.DecodeJob(ecu.jobs[name]).value, Env(args, ecu.tables, fpu), target, exchange);
            var end := RunJob(ecu, name, target, args, fpu, exchange);
            && Concluded(job, end.run, end.result)
            && |end.run.trail| <= 2_000_000
            && (end.result.Err? && end.result.error.LoopBound? ==>
                  end.result.error.bound == 2_000_000 && |end.run.trail| == 2_000_000)
  {
    hide RunFrom, Concluded, Lawful, Obeys, Step, Decode.DecodeJob;
    var job := LoadedJob(Decode.DecodeJob(ecu.jobs[name]).value, Env(args, ecu.tables, fpu), target, exchange);
    StepBehaves(job.ops, job.env, target, exchange);
    StartIsLawful(job);
    RunIsLawful(job, START, MAX_INSTRUCTIONS, MAX_INSTRUCTIONS);
  }

  lemma ConcludedFault(job: Job, run: Run, result: Result<Sets, RunError>, e: Exchange.ExchangeError)
    requires Concluded(job, run, result)
    ensures result == Err(RunError.Exchange(e)) <==> LeftUnanswered(run.calls, e)
  {
    hide Path, PathInto, InOrder, Kept;
  }

  /**
   A masked failure leaves trap bit 19 recorded and the destination written with no bytes,
   or faults on that store; either way nothing else about the machine changes.
  */
  lemma MaskedFaultDelivers(job: Job, run: Run, request: seq<byte>, dest: Operand)
    requires job.exchange(run.log, job.target, request).reply.Err?
    requires BitAt(run.st.trapMask, 19)
    ensures var turn := Perform(job, run, request, dest);
            var trapped := run.st.(trapBit := Some(19));
            match Write(trapped, dest, BytesValue([]))
            case Ok(st) => turn.Goes? && turn.run.st == st && Keeps(trapped, st)
            case Err(e) => turn.Ends? && turn.result == Err(Exec(Machine(e)))
  {
  }

  /**
   A successful exchange goes on with exactly the response stored at the destination and the
   trap untouched, or ends on that store's error.
  */
  lemma AnswerDelivers(job: Job, run: Run, request: seq<byte>, dest: Operand, response: seq<byte>)
    requires job.exchange(run.log, job.target, request).reply == Ok(response)
    ensures var turn := Perform(job, run, request, dest);
            && turn.run.log == job.exchange(run.log, job.target, request).log
            && match Write(run.st, dest, BytesValue(response))
               case Ok(st) => turn.Goes? && turn.run.st == st && Keeps(run.st, st)
               case Err(e) => turn.Ends? && turn.result == Err(Exec(Machine(e)))
  {
  }

  /** An xsend of one string register into another, and the telegram it sends. */
  predicate Sends(op: Op, dest: RegId, source: RegId) {
    && op.byte == 0x2A && op.arg0 == Reg(dest) && op.arg1 == Reg(source)
    && dest.bank.S? && Exists(dest) && source.bank.S? && Exists(source)
  }

  lemma SendsTelegram(st: State, op: Op, env: Env, ctx: Ctx, dest: RegId, source: RegId)
    requires Sends(op, dest, source)
    ensures Step(st, op, env, ctx) ==
            Done(st.(pc := op.offset + op.len), (Flow.Exchange(st.s[source.idx], Reg(dest)), ctx))
  {
    ImmediateFolds(st.(pc := op.offset + op.len), Mode0(op), op.arg0);
    ImmediateFolds(st.(pc := op.offset + op.len), Mode1(op), op.arg1);
  }

  /** A turn that fetches an xsend performs its exchange on the machine just past it. */
  lemma TurnPerforms(job: Job, run: Run, st: State, request: seq<byte>, dest: Operand)
    requires run.st.pc in IndexMap(job.ops)
    requires var op := job.ops[IndexMap(job.ops)[run.st.pc]];
             job.step(run.st, op, run.ctx) == Done(st, (Flow.Exchange(request, dest), run.ctx))
    ensures exists run1: Run ::
              run1.st == st && run1.log == run.log && TakeTurn(job, run) == Perform(job, run1, request, dest)
  {
    hide Perform, IndexMap;
    var i := IndexMap(job.ops)[run.st.pc];
    var run1 := run.(st := st, trail := run.trail + [i], emitted := run.emitted + job.emits(run.st, job.ops[i]));
    assert TakeTurn(job, run) == Perform(job, run1, request, dest);
  }

  /**
   A job receives what its ECU answers: behind the gate, after an xsend of an allowed telegram
   the destination register holds a telegram that parses to exactly the transport's own
   response, from the ECU to tester 0xF1; nothing else of the machine changes but the counter.
  */
  lemma JobReceivesResponse(ops: seq<Op>, env: Env, target: byte, policy: Gate.Policy,
                            transport: Exchange.BareTransport, run: Run, dest: RegId, source: RegId,
                            uds: seq<byte>, response: seq<byte>)
    requires run.st.pc in IndexMap(ops) && Sends(ops[IndexMap(ops)[run.st.pc]], dest, source)
    requires var request := Telegram.DecodeRequest(run.st.s[source.idx]);
             request.Ok? && request.value.target == target && request.value.uds == uds && uds != []
    requires if policy == Gate.ReadOnly then uds[0] in {0x10, 0x19, 0x22, 0x2C, 0x3E}
             else uds[0] !in {0x34, 0x35, 0x36, 0x37}
    requires transport(run.log + [Exchange.Sent(target, uds)]) == Ok(response) && 1 <= |response| <= 0xFFFF
    ensures var turn := TakeTurn(LoadedJob(ops, env, target, Gate.LiveStack(policy, transport)), run);
            && turn.Goes? && turn.run.log == run.log + [Exchange.Sent(target, uds)]
            && var st := turn.run.st;
               && Telegram.Decode(st.s[dest.idx]) == Ok(Telegram.Telegram(0xF1, target, response))
               && st == run.st.(pc := st.pc, s := run.st.s[dest.idx := st.s[dest.idx]])
               && st.pc == ops[IndexMap(ops)[run.st.pc]].offset + ops[IndexMap(ops)[run.st.pc]].len
  {
    hide Step, TakeTurn, Perform, Gate.LiveStack, Telegram.Decode, Telegram.DecodeRequest, Telegram.Encode, IndexMap;
    var op, frame := ops[IndexMap(ops)[run.st.pc]], run.st.s[source.idx];
    var job := LoadedJob(ops, env, target, Gate.LiveStack(policy, transport));
    var st := run.st.(pc := op.offset + op.len);
    SendsTelegram(run.st, op, env, run.ctx, dest, source);
    TurnPerforms(job, run, st, frame, Reg(dest));
    var run1: Run :| run1.st == st && run1.log == run.log && TakeTurn(job, run) == Perform(job, run1, frame, Reg(dest));
    Gate.VetoIsExact(policy, transport, run.log, target, frame, uds);
    Telegram.DecodeOfEncode(0xF1, target, response);
    AnswerDelivers(job, run1, frame, Reg(dest), Telegram.Encode(0xF1, target, response));
  }

  lemma PathHead(ops: seq<Op>, trail: seq<nat>, pc: nat)
    requires Path(ops, trail, pc)
    ensures trail == [] ==> pc == 0
    ensures trail != [] ==> trail[|trail| - 1] < |ops| && Follows(ops[trail[|trail| - 1]], pc)
  {
  }

  /**
   Where a bad program counter comes from: a job without instructions, a taken branch, or
   running off the end of the last decoded instruction. The sequential successor of any
   other instruction is always a decoded boundary.
  */
  lemma BadPcOrigin(code: seq<byte>, ops: seq<Op>, trail: seq<nat>, pc: nat)
    requires Decode.DecodeJob(code) == Ok(ops) && Path(ops, trail, pc)
    requires forall i :: 0 <= i < |ops| ==> ops[i].offset != pc
    ensures if trail == [] then code == []
            else
              var i := trail[|trail| - 1];
              || (IsBranch(ops[i].byte) && ops[i].arg0.Imm? && pc == BranchTarget(ops[i]))
              || (i == |ops| - 1 && pc == Assemble.End(ops, 0))
  {
    hide Path;
    Assemble.DecodeJobSucceeds(code, ops);
    if trail == [] {
      assert pc == 0 by { PathHead(ops, trail, pc); }
    } else {
      PathHead(ops, trail, pc);
      Assemble.TiledSuccessor(ops, 0, trail[|trail| - 1]);
    }
  }

  // ---- what reaches the car ----

  /** The hand-overs a list of requests makes: its admissible ones, in order, each once. */
  function Transmitted(policy: Gate.Policy, target: byte, calls: seq<Call>): Exchange.Log {
    if calls == [] then []
    else
      var frame := calls[|calls| - 1].request;
      Transmitted(policy, target, calls[..|calls| - 1]) +
      if Gate.Admissible(policy, target, frame)
      then [Exchange.Sent(target, Telegram.DecodeRequest(frame).value.uds)]
      else []
  }

  /** A request kept from the car was answered with an error carrying its own telegram. */
  predicate Rejected(call: Call) {
    && call.reply.Err?
    && match call.reply.error
       case Unexpected(bytes) => bytes == call.request
       case Refused(sid, frame) => frame == call.request && Gate.Classify(sid) != Gate.Pass
       case Transport(_) => false
  }

  predicate Sealed(policy: Gate.Policy, target: byte, run: Run) {
    && run.log == Transmitted(policy, target, run.calls)
    && (forall k :: 0 <= k < |run.log| ==> Gate.Admitted(policy, target, run.log[k]))
    && (forall k :: 0 <= k < |run.calls| ==>
          Gate.Admissible(policy, target, run.calls[k].request) || Rejected(run.calls[k]))
  }

  ghost predicate Live(job: Job, policy: Gate.Policy, transport: Exchange.BareTransport) {
    job.exchange == Gate.LiveStack(policy, transport)
  }

  lemma LastCall(calls: seq<Call>, call: Call)
    ensures (calls + [call])[|calls + [call]| - 1] == call
  {
  }

  lemma PerformIsSealed(job: Job, run: Run, request: seq<byte>, dest: Operand,
                        policy: Gate.Policy, transport: Exchange.BareTransport)
    requires Live(job, policy, transport) && Sealed(policy, job.target, run)
    ensures Sealed(policy, job.target, Perform(job, run, request, dest).run)
  {
    hide Gate.Admitted, Gate.Admissible, Write, Masked, Gate.LiveStack, Gate.Classify, Telegram.DecodeRequest;
    Gate.StackTransmits(policy, transport, run.log, job.target, request);
    var run' := Perform(job, run, request, dest).run;
    assert run'.calls[..|run'.calls| - 1] == run.calls;
    LastCall(run.calls, run'.calls[|run'.calls| - 1]);
  }

  /**
   The seal holds for any job under any instruction semantics whatever: nothing the
   interpreter computes can get an unadmitted request past the gate.
  */
  lemma {:induction false} RunIsSealed(job: Job, run: Run, fuel: nat, bound: nat,
                                       policy: Gate.Policy, transport: Exchange.BareTransport)
    requires Live(job, policy, transport) && Sealed(policy, job.target, run)
    ensures Sealed(policy, job.target, RunFrom(job, run, fuel, bound).run)
    decreases fuel
  {
    hide Perform, Live, Gate.Admitted, Gate.Admissible, Rejected, Transmitted;
    if fuel > 0 && run.st.pc in IndexMap(job.ops) {
      var i := IndexMap(job.ops)[run.st.pc];
      var out := job.step(run.st, job.ops[i], run.ctx);
      if out.Done? && out.value.0.Exchange? {
        var run1 := run.(st := out.st, ctx := out.value.1, trail := run.trail + [i],
                         emitted := run.emitted + job.emits(run.st, job.ops[i]));
        PerformIsSealed(job, run1, out.value.0.request, out.value.0.dest, policy, transport);
      }
      var turn := TakeTurn(job, run);
      if turn.Goes? {
        RunIsSealed(job, turn.run, fuel - 1, bound, policy, transport);
      }
    }
  }

  /**
   For every job, bytecode, argument buffer, table set and transport, under either policy:
   what reached the bare transport is exactly the run's admissible requests, in order; each
   is addressed to the run's target; no payload starts with 0x34..0x37, and under the
   read-only policy every non-empty one starts with a session or read service; each request
   kept back was answered with an error carrying its own telegram.
  */
  lemma CarIsOnlyAskedWhatPolicyAdmits(ecu: Ecu, name: Text, target: byte, args: seq<byte>, fpu: FloatUnit,
                                       policy: Gate.Policy, transport: Exchange.BareTransport)
    ensures Sealed(policy, target, RunJob(ecu, name, target, args, fpu, Gate.LiveStack(policy, transport)).run)
  {
    hide RunFrom, Step, Decode.DecodeJob, Gate.LiveStack;
    if name in ecu.jobs && Decode.DecodeJob(ecu.jobs[name]).Ok? {
      var job := LoadedJob(Decode.DecodeJob(ecu.jobs[name]).value, Env(args, ecu.tables, fpu), target,
                           Gate.LiveStack(policy, transport));
      RunIsSealed(job, START, MAX_INSTRUCTIONS, MAX_INSTRUCTIONS, policy, transport);
    }
  }

  /**
   Behind the gate, a run ends with an exchange's error exactly when its last exchange failed
   with that very error while trap bit 19 was unmasked, every earlier failed one having found
   it masked; and a last request that was not admissible was rejected with itself.
  */
  lemma UnmaskedFaultEndsRun(ecu: Ecu, name: Text, target: byte, args: seq<byte>, fpu: FloatUnit,
                             policy: Gate.Policy, transport: Exchange.BareTransport, e: Exchange.ExchangeError)
    ensures var end := RunJob(ecu, name, target, args, fpu, Gate.LiveStack(policy, transport));
            var calls := end.run.calls;
            && (end.result == Err(RunError.Exchange(e)) <==> LeftUnanswered(calls, e))
            && (LeftUnanswered(calls, e) ==>
                  Gate.Admissible(policy, target, calls[|calls| - 1].request) || Rejected(calls[|calls| - 1]))
  {
    hide RunFrom, Concluded, Step, Decode.DecodeJob, Gate.LiveStack, Gate.Admissible, Rejected;
    var exchange := Gate.LiveStack(policy, transport);
    var end := RunJob(ecu, name, target, args, fpu, exchange);
    CarIsOnlyAskedWhatPolicyAdmits(ecu, name, target, args, fpu, policy, transport);
    if name in ecu.jobs && Decode.DecodeJob(ecu.jobs[name]).Ok? {
      EveryRunConcludes(ecu, name, target, args, fpu, exchange);
      var job := LoadedJob(Decode.DecodeJob(ecu.jobs[name]).value, Env(args, ecu.tables, fpu), target, exchange);
      ConcludedFault(job, end.run, end.result, e);
    }
  }
}
