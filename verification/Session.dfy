/**
 The demultiplexed UDS session (client/session.rs) as atomic steps: each lock-held section
 of a requester, of its cleanup guard or of the reader is one step over the shared
 pending table, and any interleaving of them is a run.
*/
module Session {
  import opened Wrappers
  import opened Words
  import opened Hsfz

  const NEGATIVE_RESPONSE: byte := 0x7F
  const NRC_RESPONSE_PENDING: byte := 0x78
  const MAX_PENDING_TICKS: nat := 10

  datatype ClientError =
    | RequestInFlight(target: byte)
    | Negative(sid: byte, nrc: byte)
    | ConnectionClosed
    | ReadTimeout

  datatype Delivery = Final(result: Result<seq<byte>, ClientError>) | Pending

  /** One outstanding request in the table; its channel is named by its generation. */
  datatype Slot = Slot(sid: byte, gen: nat)

  /** The pending table, and everything ever sent into each request's channel. */
  datatype Table = Table(slots: map<byte, Slot>, sent: map<nat, seq<Delivery>>)

  function PositiveSid(sid: byte): byte {
    (sid + 0x40) % 0x100
  }

  function FirstByte(payload: seq<byte>): byte {
    if payload == [] then 0 else payload[0]
  }

  function Send(table: Table, gen: nat, delivery: Delivery): Table
    requires gen in table.sent
  {
    table.(sent := table.sent[gen := table.sent[gen] + [delivery]])
  }

  function Remove(table: Table, target: byte): Table {
    table.(slots := table.slots - {target})
  }

  /** What a frame from its ECU means to the request waiting for it. */
  datatype Verdict = Skip | Rearm | Finish(result: Result<seq<byte>, ClientError>)

  function Judge(sid: byte, payload: seq<byte>): Verdict {
    if payload == [] then Skip
    else if payload[0] == PositiveSid(sid) then Finish(Ok(payload))
    else if payload[0] != NEGATIVE_RESPONSE then Skip
    else if |payload| < 2 || payload[1] != sid then Skip
    else
      var nrc := if |payload| > 2 then payload[2] else 0;
      if nrc == NRC_RESPONSE_PENDING then Rearm else Finish(Err(Negative(sid, nrc)))
  }

  /** Every slot's channel exists. */
  predicate Connected(table: Table) {
    forall t <- table.slots :: table.slots[t].gen in table.sent
  }

  function Route(table: Table, frame: Frame): Table
    requires Connected(table)
  {
    if frame.control != DIAGNOSTIC || frame.addr.None? || frame.addr.value.0 !in table.slots then table
    else
      var src := frame.addr.value.0;
      var slot := table.slots[src];
      match Judge(slot.sid, frame.payload)
      case Skip => table
      case Rearm => Send(table, slot.gen, Pending)
      case Finish(result) => Remove(Send(table, slot.gen, Final(result)), src)
  }

  /** The guard's cleanup: evicts the slot only while it is still this request's. */
  function Evict(table: Table, target: byte, gen: nat): Table {
    if target in table.slots && table.slots[target].gen == gen then Remove(table, target) else table
  }

  predicate Owns(table: Table, target: byte, gen: nat) {
    target in table.slots && table.slots[target].gen == gen
  }

  /** The generations that hold a slot. */
  function Holders(slots: map<byte, Slot>): set<nat> {
    set t <- slots :: slots[t].gen
  }

  const CLOSED: Delivery := Final(Err(ConnectionClosed))

  /** The reader's last act: every waiter fails, and the table is left empty. */
  function DrainAll(table: Table): Table {
    Table(map[], map gen | gen in table.sent :: table.sent[gen] + if gen in Holders(table.slots) then [CLOSED] else [])
  }

  // ---- requests ----

  datatype Outcome = Answered(result: Result<seq<byte>, ClientError>) | Refused | Unsent | TimedOut | Cancelled

  /**
   A request's own progress. Leaving: its outcome is decided but its guard has not run.
   Ended: nothing of it is left.
  */
  datatype Phase = Minted | Sending | Waiting | Leaving(outcome: Outcome) | Ended(outcome: Outcome)

  /** `taken` deliveries were received; `late` requests registered after the reader had ended. */
  datatype Request = Request(target: byte, sid: byte, phase: Phase, taken: nat, late: bool)

  /** The whole session. Requests are named by their generation. */
  datatype System = System(table: Table, nextGen: nat, requests: map<nat, Request>, open: bool)

  datatype Event =
    | Mint(target: byte, uds: seq<byte>)
    | Register(gen: nat)
    | SendOk(gen: nat)
    | SendFail(gen: nat)
    | Receive(gen: nat)
    | TimeOut(gen: nat)
    | Cancel(gen: nat)
    | DropGuard(gen: nat)
    | RouteFrame(frame: Frame)
    | Close

  const IDLE: System := System(Table(map[], map[]), 0, map[], true)

  predicate InPhase(s: System, gen: nat, phase: Phase) {
    gen in s.requests && s.requests[gen].phase == phase
  }

  predicate Live(s: System, gen: nat) {
    gen in s.requests && (s.requests[gen].phase.Sending? || s.requests[gen].phase.Waiting?)
  }

  function Move(s: System, gen: nat, phase: Phase): System
    requires gen in s.requests
  {
    s.(requests := s.requests[gen := s.requests[gen].(phase := phase)])
  }

  /** Some delivery is waiting in the channel. */
  predicate HasNext(s: System, gen: nat) {
    gen in s.requests && gen in s.table.sent && s.requests[gen].taken < |s.table.sent[gen]|
  }

  predicate Enabled(s: System, e: Event) {
    match e
    case Mint(_, _) => true
    case Register(gen) => InPhase(s, gen, Minted)
    case SendOk(gen) => InPhase(s, gen, Sending)
    case SendFail(gen) => InPhase(s, gen, Sending)
    case Receive(gen) => InPhase(s, gen, Waiting) && HasNext(s, gen)
    case TimeOut(gen) => InPhase(s, gen, Waiting)
    case Cancel(gen) => Live(s, gen)
    case DropGuard(gen) => gen in s.requests && s.requests[gen].phase.Leaving?
    case RouteFrame(_) => s.open && Connected(s.table)
    case Close => s.open
  }

  function DoMint(s: System, target: byte, uds: seq<byte>): System {
    var gen := s.nextGen;
    s.(nextGen := gen + 1, requests := s.requests[gen := Request(target, FirstByte(uds), Minted, 0, false)],
       table := s.table.(sent := s.table.sent[gen := []]))
  }

  function DoRegister(s: System, gen: nat): System
    requires gen in s.requests
  {
    var r := s.requests[gen];
    if r.target in s.table.slots then Move(s, gen, Ended(Refused))
    else
      s.(table := s.table.(slots := s.table.slots[r.target := Slot(r.sid, gen)]),
         requests := s.requests[gen := r.(phase := Sending, late := !s.open)])
  }

  function DoReceive(s: System, gen: nat): System
    requires HasNext(s, gen)
  {
    var r := s.requests[gen];
    var phase := match s.table.sent[gen][r.taken]
                 case Final(result) => Leaving(Answered(result))
                 case Pending => if r.taken + 1 > MAX_PENDING_TICKS then Leaving(TimedOut) else Waiting;
    s.(requests := s.requests[gen := r.(phase := phase, taken := r.taken + 1)])
  }

  function Apply(s: System, e: Event): System
    requires Enabled(s, e)
  {
    match e
    case Mint(target, uds) => DoMint(s, target, uds)
    case Register(gen) => DoRegister(s, gen)
    case SendOk(gen) => Move(s, gen, Waiting)
    case SendFail(gen) => Move(s, gen, Leaving(Unsent))
    case Receive(gen) => DoReceive(s, gen)
    case TimeOut(gen) => Move(s, gen, Leaving(TimedOut))
    case Cancel(gen) => Move(s, gen, Leaving(Cancelled))
    case DropGuard(gen) =>
      var r := s.requests[gen];
      Move(s, gen, Ended(r.phase.outcome)).(table := Evict(s.table, r.target, gen))
    case RouteFrame(frame) => s.(table := Route(s.table, frame))
    case Close => s.(table := DrainAll(s.table), open := false)
  }

  /** The system after a run of events, if each was enabled when it happened. */
  function After(events: seq<Event>): Option<System> {
    if events == [] then Some(IDLE)
    else
      match After(events[..|events| - 1])
      case Some(s) =>
        var e := events[|events| - 1];
        if Enabled(s, e) then Some(Apply(s, e)) else None
      case None => None
  }

  // ---- waiting, as one requester sees it ----

  /** A delivery and how long after the last receive it comes. */
  datatype Arrival = Arrival(delay: nat, delivery: Delivery)

  /**
   What a request returns whose channel brings `arrivals`, with `ticks` pending ticks behind
   it: the first final outcome, unless a delivery keeps it waiting a whole timeout or the
   ticks run out first.
  */
  function Awaited(arrivals: seq<Arrival>, timeout: nat, ticks: nat): Result<seq<byte>, ClientError> {
    if arrivals == [] || arrivals[0].delay >= timeout then Err(ClientError.ReadTimeout)
    else
      match arrivals[0].delivery
      case Final(result) => result
      case Pending =>
        if ticks + 1 > MAX_PENDING_TICKS then Err(ClientError.ReadTimeout)
        else Awaited(arrivals[1..], timeout, ticks + 1)
  }

  // ---- the shared table as the source keeps it ----

  /** A table emptied with every holder told so is the drained one. */
  lemma DrainedTable(table: Table, sent: map<nat, seq<Delivery>>)
    requires sent.Keys == table.sent.Keys
    requires forall gen <- sent :: sent[gen] == table.sent[gen] + if gen in Holders(table.slots) then [CLOSED] else []
    ensures Table(map[], sent) == DrainAll(table)
  {
  }

  lemma WithoutHolder(slots: map<byte, Slot>, target: byte)
    requires target in slots
    requires forall t, u :: t in slots && u in slots && slots[t].gen == slots[u].gen ==> t == u
    ensures slots[target].gen in Holders(slots)
    ensures Holders(slots - {target}) == Holders(slots) - {slots[target].gen}
  {
    var rest := slots - {target};
    forall gen | gen in Holders(slots) && gen != slots[target].gen
      ensures gen in Holders(rest)
    {
      var t :| t in slots && slots[t].gen == gen;
      assert t in rest;
    }
  }

  lemma NoHolders()
    ensures Holders(map[]) == {}
  {
  }

  /** The session's mutable half: each method is one critical section of the source. */
  class Session {
    var pending: map<byte, Slot>
    var channels: map<nat, seq<Delivery>>
    var nextGeneration: nat

    /** Slots carry distinct generations that were handed out, and their channels exist. */
    ghost predicate Valid()
      reads this
    {
      && (forall t <- pending :: pending[t].gen in channels && pending[t].gen < nextGeneration)
      && (forall t, u :: t in pending && u in pending && pending[t].gen == pending[u].gen ==> t == u)
    }

    ghost function Contents(): Table
      reads this
    {
      Table(pending, channels)
    }

    constructor ()
      ensures Valid() && Contents() == Table(map[], map[]) && nextGeneration == 0
    {
      pending, channels, nextGeneration := map[], map[], 0;
    }

    method NextGeneration() returns (gen: nat)
      requires Valid()
      modifies this
      ensures Valid() && gen == old(nextGeneration) && nextGeneration == gen + 1
      ensures pending == old(pending) && channels == old(channels)[gen := []]
    {
      gen := nextGeneration;
      nextGeneration := nextGeneration + 1;
      channels := channels[gen := []];
    }

    method Register(target: byte, sid: byte, gen: nat) returns (r: Result<(), ClientError>)
      requires Valid() && gen in channels && gen < nextGeneration
      requires forall t <- pending :: pending[t].gen != gen
      modifies this
      ensures Valid() && channels == old(channels) && nextGeneration == old(nextGeneration)
      ensures if target in old(pending) then r == Err(RequestInFlight(target)) && pending == old(pending)
              else r == Ok(()) && pending == old(pending)[target := Slot(sid, gen)]
    {
      if target in pending {
        return Err(RequestInFlight(target));
      }
      pending := pending[target := Slot(sid, gen)];
      return Ok(());
    }

    method DropGuard(target: byte, gen: nat)
      requires Valid()
      modifies this
      ensures Valid() && nextGeneration == old(nextGeneration)
      ensures Contents() == Evict(old(Contents()), target, gen)
    {
      if target in pending && pending[target].gen == gen {
        pending := pending - {target};
      }
    }

    method Send(gen: nat, delivery: Delivery)
      requires gen in channels
      modifies this`channels
      ensures channels == old(channels)[gen := old(channels)[gen] + [delivery]]
    {
      channels := channels[gen := channels[gen] + [delivery]];
    }

    method RouteReceived(frame: Frame)
      requires Valid()
      modifies this
      ensures Valid() && nextGeneration == old(nextGeneration)
      ensures Connected(old(Contents())) && Contents() == Route(old(Contents()), frame)
    {
      if frame.control != DIAGNOSTIC || frame.addr.None? {
        return;
      }
      var src := frame.addr.value.0;
      if src !in pending {
        return;
      }
      var slot := pending[src];
      var payload := frame.payload;
      if payload == [] {
        return;
      }
      if payload[0] == PositiveSid(slot.sid) {
        pending := pending - {src};
        Send(slot.gen, Final(Ok(payload)));
      } else if payload[0] == NEGATIVE_RESPONSE {
        if |payload| < 2 || payload[1] != slot.sid {
          return;
        }
        var nrc := 0;
        if |payload| > 2 {
          nrc := payload[2];
        }
        if nrc == NRC_RESPONSE_PENDING {
          Send(slot.gen, Pending);
        } else {
          pending := pending - {src};
          Send(slot.gen, Final(Err(Negative(slot.sid, nrc))));
        }
      }
    }

    method FailWaiter(target: byte)
      requires Valid() && target in pending
      modifies this
      ensures Valid() && nextGeneration == old(nextGeneration)
      ensures pending == old(pending) - {target}
      ensures var gen := old(pending)[target].gen;
              && gen in old(channels) && channels == old(channels)[gen := old(channels)[gen] + [CLOSED]]
              && gen in Holders(old(pending)) && Holders(pending) == Holders(old(pending)) - {gen}
    {
      hide Holders;
      WithoutHolder(pending, target);
      var slot := pending[target];
      pending := pending - {target};
      Send(slot.gen, CLOSED);
    }

    /** The reader's drain, one slot after the other in no particular order. */
    method Drain()
      requires Valid()
      modifies this
      ensures Valid() && nextGeneration == old(nextGeneration)
      ensures Contents() == DrainAll(old(Contents()))
    {
      hide Holders, DrainAll, Valid;
      ghost var before := Contents();
      ghost var served: set<nat> := {};
      while pending != map[]
        invariant Valid() && nextGeneration == old(nextGeneration)
        invariant Holders(before.slots) == served + Holders(pending) && served !! Holders(pending)
        invariant channels.Keys == before.sent.Keys
        invariant forall gen <- channels :: channels[gen] == before.sent[gen] + if gen in served then [CLOSED] else []
        decreases pending.Keys
      {
        var target :| target in pending;
        served := served + {pending[target].gen};
        FailWaiter(target);
      }
      NoHolders();
      DrainedTable(before, channels);
    }
  }

  lemma MoreTicks(ticks: nat, timeout: nat)
    requires 1 <= ticks <= MAX_PENDING_TICKS + 1
    ensures ticks * timeout == (ticks - 1) * timeout + timeout
    ensures ticks * timeout <= (MAX_PENDING_TICKS + 1) * timeout
  {
  }

  /** The requester's receive loop: its result, and how long it waited, at most eleven timeouts. */
  method Await(arrivals: seq<Arrival>, timeout: nat) returns (r: Result<seq<byte>, ClientError>, waited: nat)
    ensures r == Awaited(arrivals, timeout, 0)
    ensures waited <= 11 * timeout
  {
    var ticks := 0;
    waited := 0;
    while true
      invariant ticks <= |arrivals| && ticks <= MAX_PENDING_TICKS
      invariant waited <= ticks * timeout
      invariant Awaited(arrivals, timeout, 0) == Awaited(arrivals[ticks..], timeout, ticks)
      decreases |arrivals| - ticks
    {
      if ticks == |arrivals| || arrivals[ticks].delay >= timeout {
        waited := waited + timeout;
        MoreTicks(ticks + 1, timeout);
        return Err(ClientError.ReadTimeout), waited;
      }
      waited := waited + arrivals[ticks].delay;
      MoreTicks(ticks + 1, timeout);
      match arrivals[ticks].delivery {
        case Final(result) => return result, waited;
        case Pending =>
          ticks := ticks + 1;
          if ticks > MAX_PENDING_TICKS {
            return Err(ClientError.ReadTimeout), waited;
          }
      }
    }
  }
}
