/** `run_job` (engine.rs) as it runs: one machine, one context, a bounded loop. */
module EngineMachine {
  import opened Wrappers
  import opened Words
  import opened Bytecode
  import opened MachineState
  import opened Machine
  import opened Text
  import opened ResultSets
  import opened ExecBase
  import opened Interpreter
  import opened Engine

  /** The offset to index map, filled instruction by instruction. */
  method BuildIndex(ops: seq<Op>) returns (index: map<nat, nat>)
    ensures index == IndexMap(ops)
  {
    index := map[];
    for i := 0 to |ops|
      invariant index == IndexMap(ops[..i])
    {
      assert ops[..i + 1][..i] == ops[..i];
      index := index[ops[i].offset := i];
    }
    assert ops[..|ops|] == ops;
  }

  /** One turn of the specified loop. */
  lemma RunFromStep(job: Job, run: Run, fuel: nat, bound: nat)
    requires fuel > 0
    ensures RunFrom(job, run, fuel, bound) ==
            match TakeTurn(job, run)
            case Goes(run') => RunFrom(job, run', fuel - 1, bound)
            case Ends(run', result) => Ends(run', result)
  {
  }

  /** The machine, the context and the log are those of `run`. */
  ghost predicate Mirrors(m: Machine, ctx: ExecCtx, log: Exchange.Log, run: Run)
    requires m.Valid()
    reads m.Repr(), ctx, ctx.results
  {
    m.Model() == run.st && ctx.Model() == run.ctx && log == run.log
  }

  /** The response, or nothing on a masked fault, stored where the xsend wants it. */
  method Perform(m: Machine, target: byte, exchange: Exchange.UdsExchange, log: Exchange.Log, request: seq<byte>,
                 dest: Operand, ghost job: Job, ghost run: Run)
    returns (fault: Option<RunError>, log': Exchange.Log)
    requires m.Valid() && m.Model() == run.st && log == run.log
    requires job.target == target && job.exchange(log, target, request) == exchange(log, target, request)
    modifies m.Repr()
    ensures match Engine.Perform(job, run, request, dest)
            case Goes(run') => fault == None && m.Model() == run'.st && log' == run'.log
            case Ends(run', result) => fault.Some? && result == Err(fault.value) && log' == run'.log
  {
    hide Write;
    var done := exchange(log, target, request);
    log' := done.log;
    var response := [];
    match done.reply {
      case Ok(bytes) => response := bytes;
      case Err(e) =>
        var trapped := ExecMachine.RecordError(m, TRAP_BIT_NO_RESPONSE);
        if trapped.Err? {
          return Some(RunError.Exchange(e)), log';
        }
    }
    var stored := m.Write(dest, BytesValue(response));
    match stored {
      case Ok(_) => fault := None;
      case Err(e) => fault := Some(Exec(ExecError.Machine(e)));
    }
  }

  lemma PerformKeepsContext(job: Job, run: Run, request: seq<byte>, dest: Operand)
    ensures Engine.Perform(job, run, request, dest).run.ctx == run.ctx
  {
  }

  /** The instruction at index `i`: the specified turn came about, and the run goes on or has a result. */
  method Execute(m: Machine, ctx: ExecCtx, op: Op, target: byte, exchange: Exchange.UdsExchange, log: Exchange.Log,
                 ghost job: Job, ghost run: Run, ghost i: nat)
    returns (result: Option<Result<Sets, RunError>>, log': Exchange.Log)
    requires m.Valid() && Mirrors(m, ctx, log, run) && ctx.env == job.env
    requires i < |job.ops| && job.ops[i] == op
    requires forall st, c :: job.step(st, op, c) == Executor.Step(st, op, job.env, c)
    requires job.target == target && forall l, f :: job.exchange(l, target, f) == exchange(l, target, f)
    modifies m.Repr(), ctx, ctx.results
    ensures match Engine.Execute(job, run, i)
            case Goes(run') => result == None && Mirrors(m, ctx, log', run')
            case Ends(run', end) => result == Some(end) && log' == run'.log
  {
    hide Executor.Step, Engine.Perform;
    log' := log;
    var flow := Step(m, op, ctx);
    match flow {
      case Err(e) => return Some(Err(Exec(e))), log';
      case Ok(Next) => return None, log';
      case Ok(Jumped) => return None, log';
      case Ok(Wait(_)) => return None, log';
      case Ok(EndOfJob) => return Some(Ok(ctx.results.sets)), log';
      case Ok(Exchange(request, dest)) =>
        ghost var stepped := run.(st := m.Model(), ctx := ctx.Model(), trail := run.trail + [i],
                                  emitted := run.emitted + job.emits(run.st, op));
        PerformKeepsContext(job, stepped, request, dest);
        var fault: Option<RunError>;
        fault, log' := Perform(m, target, exchange, log, request, dest, job, stepped);
        result := if fault.Some? then Some(Err(fault.value)) else None;
    }
  }

  lemma RunFromEnd(job: Job, run: Run)
    ensures RunFrom(job, run, 0, MAX_INSTRUCTIONS) == Ends(run, Err(LoopBound(MAX_INSTRUCTIONS)))
  {
  }

  /** A whole job, and `log`, everything it had the car asked. */
  method RunJob(ecu: Ecu, name: Text, target: byte, args: seq<byte>, fpu: FloatUnit, exchange: Exchange.UdsExchange)
    returns (result: Result<Sets, RunError>, log: Exchange.Log)
    ensures result == Engine.RunJob(ecu, name, target, args, fpu, exchange).result
    ensures log == Engine.RunJob(ecu, name, target, args, fpu, exchange).run.log
  {
    hide RunFrom, Executor.Step, Engine.Execute, Decode.DecodeJob;
    log := [];
    ghost var history := START;
    if name !in ecu.jobs {
      return Err(JobNotFound(name)), log;
    }
    var decoded := Decode.RunDecoder(ecu.jobs[name]);
    if decoded.Err? {
      return Err(RunError.Decode(decoded.error)), log;
    }
    var ops := decoded.value;
    var index := BuildIndex(ops);
    var m := new Machine();
    var ctx := new ExecCtx(Env(args, ecu.tables, fpu));
    ghost var job := LoadedJob(ops, ctx.env, target, exchange);
    for i := 0 to MAX_INSTRUCTIONS
      invariant m.Valid() && fresh(m.Repr()) && fresh(ctx) && fresh(ctx.results) && ctx.env == job.env
      invariant Mirrors(m, ctx, log, history)
      invariant Engine.RunJob(ecu, name, target, args, fpu, exchange)
             == RunFrom(job, history, MAX_INSTRUCTIONS - i, MAX_INSTRUCTIONS)
    {
      RunFromStep(job, history, MAX_INSTRUCTIONS - i, MAX_INSTRUCTIONS);
      if m.pc !in index {
        return Err(BadPc(m.pc)), log;
      }
      var at := index[m.pc];
      ghost var turn := Engine.Execute(job, history, at);
      var end, log' := Execute(m, ctx, ops[at], target, exchange, log, job, history, at);
      log := log';
      history := turn.run;
      if end.Some? {
        return end.value, log;
      }
    }
    RunFromEnd(job, history);
    return Err(LoopBound(MAX_INSTRUCTIONS)), log;
  }
}
