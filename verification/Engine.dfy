/** The job engine (engine.rs): fetch, step, exchange, until eoj, a fault or the bound. */
module Engine {
  import opened Wrappers
  import opened Words
  import opened Bytecode
  import opened MachineState
  import opened Text
  import opened ResultSets
  import opened ExecBase
  import Exchange
  import Decode
  import Executor

  datatype RunError =
    | JobNotFound(name: Text)
    | Decode(decode: DecodeError)
    | Exec(exec: ExecError)
    | Exchange(exchange: Exchange.ExchangeError)
    | BadPc(pc: nat)
    | LoopBound(bound: nat)

  const MAX_INSTRUCTIONS: nat := 2_000_000

  /** A loaded SGBD: its jobs' bytecode and its tables. */
  datatype Ecu = Ecu(jobs: map<Text, seq<byte>>, tables: seq<Table>)

  /** What one instruction does to the machine and the context, and the results it pushes. */
  type Semantics = (State, Op, Ctx) -> Out<(Flow, Ctx)>

  /** One decoded job with all a run of it needs. */
  datatype Job = Job(ops: seq<Op>, env: Env, target: byte, exchange: Exchange.UdsExchange,
                     step: Semantics, emits: (State, Op) -> seq<Entry>)

  /** A job under the BEST/2 semantics. */
  function LoadedJob(ops: seq<Op>, env: Env, target: byte, exchange: Exchange.UdsExchange): Job {
    Job(ops, env, target, exchange, (st: State, op: Op, ctx: Ctx) => Executor.Step(st, op, env, ctx), Executor.Emits)
  }

  /** One exchange as the run loop saw it: the telegram, its answer, and whether bit 19 was masked. */
  datatype Call = Call(request: seq<byte>, reply: Result<seq<byte>, Exchange.ExchangeError>, masked: bool)

  /** A run so far: the machine, the context, what the car was sent, and its history. */
  datatype Run = Run(
    st: State,
    ctx: Ctx,
    log: Exchange.Log,
    trail: seq<nat>,
    calls: seq<Call>,
    emitted: seq<Entry>)

  datatype Turn = Goes(run: Run) | Ends(run: Run, result: Result<Sets, RunError>)

  const START: Run := Run(Init(), Ctx([[]], Cursor(None, None)), [], [], [], [])

  /** The offset to index map. */
  function IndexMap(ops: seq<Op>): (index: map<nat, nat>)
    ensures forall pc <- index :: index[pc] < |ops| && ops[index[pc]].offset == pc
    ensures forall i :: 0 <= i < |ops| ==> ops[i].offset in index
  {
    if ops == [] then map[] else IndexMap(ops[..|ops| - 1])[ops[|ops| - 1].offset := |ops| - 1]
  }

  /** The response, or nothing, goes to the destination the xsend named. */
  function Deliver(run: Run, dest: Operand, response: seq<byte>): Turn {
    match Write(run.st, dest, BytesValue(response))
    case Ok(st) => Goes(run.(st := st))
    case Err(e) => Ends(run, Err(Exec(Machine(e))))
  }

  function Perform(job: Job, run: Run, request: seq<byte>, dest: Operand): Turn {
    var done := job.exchange(run.log, job.target, request);
    var masked := Masked(run.st.trapMask, TRAP_BIT_NO_RESPONSE);
    var run := run.(log := done.log, calls := run.calls + [Call(request, done.reply, masked)]);
    match done.reply
    case Ok(response) => Deliver(run, dest, response)
    case Err(e) =>
      match SetError(run.st, TRAP_BIT_NO_RESPONSE)
      case Failed(_) => Ends(run, Err(RunError.Exchange(e)))
      case Done(st, _) => Deliver(run.(st := st), dest, [])
  }

  /** The instruction at index `i`, executed. */
  function Execute(job: Job, run: Run, i: nat): Turn
    requires i < |job.ops|
  {
    var trail := run.trail + [i];
    match job.step(run.st, job.ops[i], run.ctx)
    case Failed(e) => Ends(run.(trail := trail), Err(Exec(e)))
    case Done(st, (flow, ctx)) =>
      var run := run.(st := st, ctx := ctx, trail := trail, emitted := run.emitted + job.emits(run.st, job.ops[i]));
      match flow
      case Next | Jumped | Wait(_) => Goes(run)
      case EndOfJob => Ends(run, Ok(ctx.sets))
      case Exchange(request, dest) => Perform(job, run, request, dest)
  }

  function TakeTurn(job: Job, run: Run): Turn {
    var index := IndexMap(job.ops);
    if run.st.pc in index then Execute(job, run, index[run.st.pc]) else Ends(run, Err(BadPc(run.st.pc)))
  }

  /** At most `fuel` further turns of a loop bounded by `bound`. */
  function RunFrom(job: Job, run: Run, fuel: nat, bound: nat): (end: Turn)
    ensures end.Ends?
    decreases fuel
  {
    if fuel == 0 then Ends(run, Err(LoopBound(bound)))
    else
      match TakeTurn(job, run)
      case Goes(run') => RunFrom(job, run', fuel - 1, bound)
      case Ends(run', result) => Ends(run', result)
  }

  /** `run_job` against `target`, through `exchange`. */
  function RunJob(ecu: Ecu, name: Text, target: byte, args: seq<byte>, fpu: FloatUnit,
                  exchange: Exchange.UdsExchange): (end: Turn)
    ensures end.Ends?
  {
    if name !in ecu.jobs then Ends(START, Err(JobNotFound(name)))
    else
      match Decode.DecodeJob(ecu.jobs[name])
      case Err(e) => Ends(START, Err(RunError.Decode(e)))
      case Ok(ops) =>
        RunFrom(LoadedJob(ops, Env(args, ecu.tables, fpu), target, exchange), START, MAX_INSTRUCTIONS, MAX_INSTRUCTIONS)
  }
}
