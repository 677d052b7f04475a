/** What holds of the session over every interleaving of its steps. */
module SessionLaws {
  import opened Wrappers
  import opened Words
  import opened Hsfz
  import opened Session

  predicate AllPending(h: seq<Delivery>) {
    forall k :: 0 <= k < |h| ==> h[k].Pending?
  }

  /** Exactly one outcome was sent, and nothing after it. */
  predicate OneFinal(h: seq<Delivery>) {
    h != [] && h[|h| - 1].Final? && AllPending(h[..|h| - 1])
  }

  /** An answered request received everything it was sent, its one final outcome last. */
  predicate OutcomeFits(outcome: Outcome, taken: nat, h: seq<Delivery>, owns: bool) {
    && outcome != Refused
    && (outcome.Answered? ==> !owns && OneFinal(h) && taken == |h| && h[|h| - 1] == Final(outcome.result))
  }

  /**
   A request against its channel's history and its hold on the slot: registered, it either
   still owns its target's slot or has been sent exactly one final outcome, last.
  */
  predicate Fits(r: Request, h: seq<Delivery>, owns: bool, open: bool) {
    && r.taken <= |h|
    && r.taken <= MAX_PENDING_TICKS + 1
    && (owns ==> AllPending(h) && !r.phase.Minted? && !r.phase.Ended?)
    && (owns && !open ==> r.late)
    && (r.late ==> !open && h == [] && !r.phase.Minted?)
    && (r.late && (r.phase.Sending? || r.phase.Waiting?) ==> owns)
    && match r.phase
       case Minted => h == [] && !owns
       case Sending => (owns || OneFinal(h)) && r.taken == 0
       case Waiting => (owns || OneFinal(h)) && AllPending(h[..r.taken]) && r.taken <= MAX_PENDING_TICKS
       case Leaving(outcome) => (owns || OneFinal(h)) && OutcomeFits(outcome, r.taken, h, owns)
       case Ended(Refused) => h == []
       case Ended(outcome) => (AllPending(h) || OneFinal(h)) && OutcomeFits(outcome, r.taken, h, owns)
  }

  predicate RequestOk(s: System, gen: nat)
    requires gen in s.requests
  {
    && gen < s.nextGen && gen in s.table.sent
    && Fits(s.requests[gen], s.table.sent[gen], Owns(s.table, s.requests[gen].target, gen), s.open)
  }

  /** A slot belongs to the registered request its generation names. */
  predicate SlotOk(s: System, t: byte)
    requires t in s.table.slots
  {
    var slot := s.table.slots[t];
    && slot.gen in s.requests && slot.gen in s.table.sent
    && s.requests[slot.gen].target == t && s.requests[slot.gen].sid == slot.sid
  }

  predicate Sound(s: System) {
    && (forall gen <- s.requests :: RequestOk(s, gen))
    && (forall t <- s.table.slots :: SlotOk(s, t))
  }

  /** The reader always finds every slot's channel, so routing is never held up. */
  lemma SoundConnects(s: System)
    requires Sound(s)
    ensures Connected(s.table)
  {
  }

  // ---- each step keeps the system sound ----

  lemma MintedFits(r: Request)
    requires r.phase == Minted && r.taken == 0 && !r.late
    ensures Fits(r, [], false, true) && Fits(r, [], false, false)
  {
  }

  /** No slot carries a generation that was never handed out, or that another target got. */
  lemma NotOwned(s: System, target: byte, gen: nat)
    requires Sound(s) && (gen >= s.nextGen || (gen in s.requests && s.requests[gen].target != target))
    ensures !Owns(s.table, target, gen)
  {
  }

  lemma MintIsSound(s: System, target: byte, uds: seq<byte>)
    requires Sound(s)
    ensures Sound(DoMint(s, target, uds))
  {
    hide Fits;
    var s' := DoMint(s, target, uds);
    forall gen <- s'.requests
      ensures RequestOk(s', gen)
    {
      if gen == s.nextGen {
        NotOwned(s, target, gen);
        MintedFits(s'.requests[gen]);
      } else {
        assert RequestOk(s, gen);
      }
    }
    forall t <- s'.table.slots
      ensures SlotOk(s', t)
    {
      assert SlotOk(s, t) && RequestOk(s, s.table.slots[t].gen);
    }
  }

  /** Moving one request on, its channel and slot untouched, keeps everything else as it was. */
  lemma MoveIsSound(s: System, gen: nat, r: Request)
    requires Sound(s) && gen in s.requests && r.target == s.requests[gen].target && r.sid == s.requests[gen].sid
    requires RequestOk(s, gen) ==> Fits(r, s.table.sent[gen], Owns(s.table, r.target, gen), s.open)
    ensures Sound(s.(requests := s.requests[gen := r]))
  {
  }

  lemma RefusedFits(r: Request, h: seq<Delivery>, owns: bool, open: bool)
    requires r.phase == Minted && Fits(r, h, owns, open)
    ensures Fits(r.(phase := Ended(Refused)), h, owns, open)
  {
  }

  lemma RegisteredFits(r: Request, h: seq<Delivery>, open: bool)
    requires r.phase == Minted && Fits(r, h, false, open)
    ensures Fits(r.(phase := Sending, late := !open), h, true, open)
  {
  }

  lemma RegisterIsSound(s: System, gen: nat)
    requires Sound(s) && InPhase(s, gen, Minted)
    ensures Sound(DoRegister(s, gen))
  {
    hide Fits;
    var r := s.requests[gen];
    var s' := DoRegister(s, gen);
    assert RequestOk(s, gen);
    if r.target in s.table.slots {
      assert Fits(r.(phase := Ended(Refused)), s.table.sent[gen], Owns(s.table, r.target, gen), s.open) by {
        RefusedFits(r, s.table.sent[gen], Owns(s.table, r.target, gen), s.open);
      }
      MoveIsSound(s, gen, r.(phase := Ended(Refused)));
    } else {
      RegisteredFits(r, s.table.sent[gen], s.open);
      forall g <- s'.requests
        ensures RequestOk(s', g)
      {
        assert RequestOk(s, g);
      }
      forall t <- s'.table.slots
        ensures SlotOk(s', t)
      {
        assert t != r.target ==> SlotOk(s, t);
      }
    }
  }

  lemma RequesterFits(s: System, e: Event)
    requires Enabled(s, e) && (e.SendOk? || e.SendFail? || e.Receive? || e.TimeOut? || e.Cancel?)
    requires RequestOk(s, e.gen)
    ensures var r := Apply(s, e).requests[e.gen];
            Fits(r, s.table.sent[e.gen], Owns(s.table, r.target, e.gen), s.open)
  {
    var r, h := s.requests[e.gen], s.table.sent[e.gen];
    if e.Receive? {
      assert h[..r.taken + 1] == h[..r.taken] + [h[r.taken]];
    }
  }

  /** The steps of one requester that leave the table alone. */
  lemma RequesterIsSound(s: System, e: Event)
    requires Sound(s) && Enabled(s, e)
    requires e.SendOk? || e.SendFail? || e.Receive? || e.TimeOut? || e.Cancel?
    ensures Sound(Apply(s, e))
  {
    var gen := e.gen;
    assert RequestOk(s, gen);
    MoveIsSound(s, gen, Apply(s, e).requests[gen]) by {
      RequesterFits(s, e);
    }
  }

  lemma EndedFits(r: Request, h: seq<Delivery>, owns: bool, open: bool)
    requires r.phase.Leaving? && Fits(r, h, owns, open)
    ensures Fits(r.(phase := Ended(r.phase.outcome)), h, false, open)
  {
  }

  lemma DropIsSound(s: System, gen: nat)
    requires Sound(s) && Enabled(s, DropGuard(gen))
    ensures Sound(Apply(s, DropGuard(gen)))
  {
    hide Fits;
    var s' := Apply(s, DropGuard(gen));
    var r := s.requests[gen];
    assert RequestOk(s, gen);
    EndedFits(r, s.table.sent[gen], Owns(s.table, r.target, gen), s.open);
    forall g <- s'.requests
      ensures RequestOk(s', g)
    {
      assert RequestOk(s, g);
    }
    forall t <- s'.table.slots
      ensures SlotOk(s', t)
    {
      assert SlotOk(s, t);
    }
  }

  /** While it owns its slot, a request may be sent another tick, or its outcome and lose the slot. */
  lemma DeliveredFits(r: Request, h: seq<Delivery>)
    requires Fits(r, h, true, true)
    ensures Fits(r, h + [Pending], true, true)
    ensures forall result :: Fits(r, h + [Final(result)], false, true)
  {
  }

  lemma RouteIsSound(s: System, frame: Frame)
    requires Sound(s) && s.open && Connected(s.table)
    ensures Sound(s.(table := Route(s.table, frame)))
  {
    hide Fits, Judge;
    var s' := s.(table := Route(s.table, frame));
    if s' != s {
      var src := frame.addr.value.0;
      var slot := s.table.slots[src];
      assert SlotOk(s, src) && RequestOk(s, slot.gen);
      var r, h := s.requests[slot.gen], s.table.sent[slot.gen];
      DeliveredFits(r, h);
      forall g <- s'.requests
        ensures RequestOk(s', g)
      {
        assert RequestOk(s, g);
      }
      forall t <- s'.table.slots
        ensures SlotOk(s', t)
      {
        assert SlotOk(s, t);
      }
    }
  }

  lemma HoldersAreOwners(s: System, gen: nat)
    requires Sound(s) && gen in s.requests
    ensures gen in Holders(s.table.slots) <==> Owns(s.table, s.requests[gen].target, gen)
  {
  }

  lemma ClosedFits(r: Request, h: seq<Delivery>, owns: bool)
    requires Fits(r, h, owns, true)
    ensures Fits(r, h + if owns then [CLOSED] else [], false, false)
  {
  }

  lemma CloseIsSound(s: System)
    requires Sound(s) && s.open
    ensures Sound(Apply(s, Close))
  {
    hide Fits;
    var s' := Apply(s, Close);
    forall gen <- s'.requests
      ensures RequestOk(s', gen)
    {
      assert RequestOk(s, gen);
      var r, h := s.requests[gen], s.table.sent[gen];
      HoldersAreOwners(s, gen);
      ClosedFits(r, h, Owns(s.table, r.target, gen));
    }
  }

  /** Every step keeps the system sound. */
  lemma StepIsSound(s: System, e: Event)
    requires Sound(s) && Enabled(s, e)
    ensures Sound(Apply(s, e))
  {
    hide Sound, Route, DrainAll, Evict, DoMint, DoRegister, DoReceive, Move;
    match e
    case Mint(target, uds) => MintIsSound(s, target, uds);
    case Register(gen) => RegisterIsSound(s, gen);
    case DropGuard(gen) => DropIsSound(s, gen);
    case RouteFrame(frame) => RouteIsSound(s, frame);
    case Close => CloseIsSound(s);
    case _ => RequesterIsSound(s, e);
  }

  lemma IdleIsSound()
    ensures Sound(IDLE)
  {
  }

  /** The system is sound after every run, whatever the interleaving. */
  lemma {:induction false} RunIsSound(events: seq<Event>)
    ensures After(events).Some? ==> Sound(After(events).value)
  {
    hide Sound, Apply, Enabled;
    if events == [] {
      IdleIsSound();
    } else if After(events).Some? {
      RunIsSound(events[..|events| - 1]);
      StepIsSound(After(events[..|events| - 1]).value, events[|events| - 1]);
    }
  }

  /** What each phase allows: the order in which one requester's critical sections can come. */
  lemma PhasesAllow(s: System, gen: nat)
    requires gen in s.requests
    ensures var p := s.requests[gen].phase;
            && (Enabled(s, Register(gen)) <==> p.Minted?)
            && (Enabled(s, SendOk(gen)) <==> p.Sending?) && (Enabled(s, SendFail(gen)) <==> p.Sending?)
            && (Enabled(s, TimeOut(gen)) <==> p.Waiting?)
            && (Enabled(s, Receive(gen)) <==>
                p.Waiting? && gen in s.table.sent && s.requests[gen].taken < |s.table.sent[gen]|)
            && (Enabled(s, Cancel(gen)) <==> p.Sending? || p.Waiting?)
            && (Enabled(s, DropGuard(gen)) <==> p.Leaving?)
  {
  }

  /** Where each step of a requester leaves it; only registering and the guard's cleanup touch the table. */
  lemma StepsMove(s: System, gen: nat)
    requires gen in s.requests
    ensures var r := s.requests[gen];
            && (Enabled(s, SendOk(gen)) ==> Apply(s, SendOk(gen)) == Move(s, gen, Waiting))
            && (Enabled(s, SendFail(gen)) ==> Apply(s, SendFail(gen)) == Move(s, gen, Leaving(Unsent)))
            && (Enabled(s, TimeOut(gen)) ==> Apply(s, TimeOut(gen)) == Move(s, gen, Leaving(TimedOut)))
            && (Enabled(s, Cancel(gen)) ==> Apply(s, Cancel(gen)) == Move(s, gen, Leaving(Cancelled)))
            && (Enabled(s, DropGuard(gen)) ==>
                  Apply(s, DropGuard(gen)).requests == Move(s, gen, Ended(r.phase.outcome)).requests)
            && (Enabled(s, Register(gen)) && r.target in s.table.slots ==>
                  Apply(s, Register(gen)) == Move(s, gen, Ended(Refused)))
            && (Enabled(s, Register(gen)) && r.target !in s.table.slots ==>
                  var s' := Apply(s, Register(gen));
                  && s'.requests == s.requests[gen := r.(phase := Sending, late := !s.open)]
                  && s'.table.sent == s.table.sent && s'.table.slots == s.table.slots[r.target := Slot(r.sid, gen)])
  {
  }

  /** A minted request asks for the first byte of what it sends, and starts with an empty channel of its own. */
  lemma MintedAsks(events: seq<Event>, s: System, target: byte, uds: seq<byte>)
    requires After(events) == Some(s)
    ensures var s' := Apply(s, Mint(target, uds));
            && s.nextGen !in s.requests && s.nextGen in s'.requests && s'.nextGen == s.nextGen + 1
            && s'.requests[s.nextGen] == Request(target, if uds == [] then 0 else uds[0], Minted, 0, false)
            && s'.table.slots == s.table.slots && s'.table.sent == s.table.sent[s.nextGen := []]
  {
    hide Fits;
    RunIsSound(events);
    forall g <- s.requests
      ensures g < s.nextGen
    {
      assert RequestOk(s, g);
    }
  }

  // ---- what that means for a run ----

  /**
   Over every interleaving, a request that registered and whose guard has not yet run either
   still owns its target's slot, with no outcome sent, or has been sent exactly one, as the
   last thing in its channel; while it waits with nothing to receive it owns its slot, so
   its channel is never found closed.
  */
  lemma ExactlyOneOutcome(events: seq<Event>, s: System, gen: nat)
    requires After(events) == Some(s) && gen in s.requests
    requires var p := s.requests[gen].phase; p.Sending? || p.Waiting? || p.Leaving?
    ensures gen in s.table.sent
    ensures var owns := Owns(s.table, s.requests[gen].target, gen);
            && (owns <==> AllPending(s.table.sent[gen]))
            && (!owns <==> OneFinal(s.table.sent[gen]))
    ensures InPhase(s, gen, Waiting) && !HasNext(s, gen) ==> Owns(s.table, s.requests[gen].target, gen)
  {
    RunIsSound(events);
    assert RequestOk(s, gen);
    var h, taken := s.table.sent[gen], s.requests[gen].taken;
    if InPhase(s, gen, Waiting) && taken == |h| {
      assert h[..taken] == h;
    }
  }

  /**
   An answered request returned the one outcome it was sent and had received all it was
   sent; a request that has ended owns nothing.
  */
  lemma OutcomeIsTheOneSent(events: seq<Event>, s: System, gen: nat)
    requires After(events) == Some(s) && gen in s.requests
    ensures s.requests[gen].phase.Ended? ==> !Owns(s.table, s.requests[gen].target, gen)
    ensures forall result :: s.requests[gen].phase in {Leaving(Answered(result)), Ended(Answered(result))} ==>
              && gen in s.table.sent && OneFinal(s.table.sent[gen])
              && s.requests[gen].taken == |s.table.sent[gen]|
              && s.table.sent[gen][|s.table.sent[gen]| - 1] == Final(result)
  {
    RunIsSound(events);
    assert RequestOk(s, gen);
  }

  /** Live generations are below the counter and no two slots share one. */
  lemma GenerationsAreUnique(events: seq<Event>, s: System, t: byte, u: byte)
    requires After(events) == Some(s) && t in s.table.slots && u in s.table.slots
    ensures s.table.slots[t].gen < s.nextGen
    ensures s.table.slots[t].gen == s.table.slots[u].gen ==> t == u
  {
    hide Fits;
    RunIsSound(events);
    assert SlotOk(s, t) && SlotOk(s, u) && RequestOk(s, s.table.slots[t].gen);
  }

  /**
   Cleanup is exact: a dropped guard removes its own slot if that is still there and
   touches no other, in particular not a newer request's on the same target.
  */
  lemma DropEvictsOnlyItsOwn(events: seq<Event>, s: System, gen: nat, t: byte)
    requires After(events) == Some(s) && Enabled(s, DropGuard(gen))
    ensures var slots' := Apply(s, DropGuard(gen)).table.slots;
            && (t in slots' <==> t in s.table.slots && s.table.slots[t].gen != gen)
            && (t in slots' ==> slots'[t] == s.table.slots[t])
  {
    hide Fits;
    RunIsSound(events);
    if t in s.table.slots {
      assert SlotOk(s, t);
    }
  }

  /**
   A request registered after the reader ended is never told so: it keeps its slot with
   nothing sent to it, and can only end unsent, cancelled or timed out.
  */
  lemma LateRequestsAreNeverAnswered(events: seq<Event>, s: System, gen: nat)
    requires After(events) == Some(s) && gen in s.requests && s.requests[gen].late
    ensures gen in s.table.sent && s.table.sent[gen] == []
    ensures match s.requests[gen].phase
            case Sending | Waiting => Owns(s.table, s.requests[gen].target, gen)
            case Leaving(outcome) => outcome in {Unsent, TimedOut, Cancelled}
            case Ended(outcome) => outcome in {Unsent, TimedOut, Cancelled, Refused}
            case Minted => false
  {
    RunIsSound(events);
    assert RequestOk(s, gen);
  }

  /** So once the reader has ended, exactly the requests registered before that have an outcome sent. */
  lemma ClosedMeansToldUnlessLate(events: seq<Event>, s: System, gen: nat)
    requires After(events) == Some(s) && !s.open && gen in s.requests
    requires var p := s.requests[gen].phase; p.Sending? || p.Waiting? || p.Leaving?
    ensures gen in s.table.sent && (OneFinal(s.table.sent[gen]) <==> !s.requests[gen].late)
  {
    RunIsSound(events);
    assert RequestOk(s, gen);
  }

  /** The reader's end tells every request that still waits for its outcome, and no other. */
  lemma CloseTellsEveryWaiter(events: seq<Event>, s: System, gen: nat)
    requires After(events) == Some(s) && s.open && gen in s.requests
    ensures gen in s.table.sent && gen in Apply(s, Close).table.sent
    ensures Apply(s, Close).table.slots == map[]
    ensures Apply(s, Close).table.sent[gen] ==
            s.table.sent[gen] + if Owns(s.table, s.requests[gen].target, gen) then [CLOSED] else []
  {
    hide Fits, Holders;
    RunIsSound(events);
    assert RequestOk(s, gen);
    HoldersAreOwners(s, gen);
  }

  const LATE_RUN: seq<Event> := [Close, Mint(0x12, [0x22]), Register(0)]

  /** There are late requests: after this run one owns its slot, and nothing will tell it. */
  lemma LateRequestExists()
    ensures After(LATE_RUN).Some?
    ensures var s := After(LATE_RUN).value;
            0 in s.requests && s.requests[0].late && Owns(s.table, 0x12, 0) && !s.open
  {
    assert LATE_RUN[..2] == [Close, Mint(0x12, [0x22])] && LATE_RUN[..2][..1] == [Close] && [Close][..0] == [];
    assert After([Close]) == Some(Apply(IDLE, Close));
    assert DrainAll(IDLE.table).sent == map[];
    var s1 := Apply(Apply(IDLE, Close), Mint(0x12, [0x22]));
    assert After(LATE_RUN[..2]) == Some(s1);
    assert InPhase(s1, 0, Minted);
  }

  // ---- routing ----

  /** Routing a frame from one ECU changes no other ECU's slot, channel or request. */
  lemma RoutingIsIsolated(events: seq<Event>, s: System, frame: Frame, gen: nat)
    requires After(events) == Some(s) && Enabled(s, RouteFrame(frame)) && gen in s.requests
    ensures var s' := Apply(s, RouteFrame(frame));
            && s'.requests == s.requests && s'.nextGen == s.nextGen && gen in s.table.sent && gen in s'.table.sent
            && (frame.addr.None? || s.requests[gen].target != frame.addr.value.0 ==>
                  s'.table.sent[gen] == s.table.sent[gen])
            && (forall t: byte :: frame.addr.None? || t != frame.addr.value.0 ==>
                  (t in s'.table.slots <==> t in s.table.slots) &&
                  (t in s.table.slots ==> s'.table.slots[t] == s.table.slots[t]))
  {
    hide Fits, Judge;
    RunIsSound(events);
    assert RequestOk(s, gen);
    if frame.addr.Some? && frame.addr.value.0 in s.table.slots {
      assert SlotOk(s, frame.addr.value.0);
    }
  }

  /** A diagnostic frame sent by `target`. */
  predicate IsFrom(frame: Frame, target: byte) {
    frame.control == DIAGNOSTIC && frame.addr.Some? && frame.addr.value.0 == target
  }

  /** The payload is a negative response to `sid` with code `nrc` (0 when the byte is missing). */
  predicate Rejects(payload: seq<byte>, sid: byte, nrc: byte) {
    && |payload| >= 2 && payload[0] == NEGATIVE_RESPONSE && payload[1] == sid
    && nrc == if |payload| > 2 then payload[2] else 0
  }

  /** `e` is a reason to send delivery `d` to a request for `sid` to `target`. */
  predicate Explains(e: Event, target: byte, sid: byte, d: Delivery) {
    match d
    case Pending => e.RouteFrame? && IsFrom(e.frame, target) && Rejects(e.frame.payload, sid, NRC_RESPONSE_PENDING)
    case Final(Ok(payload)) =>
      && e.RouteFrame? && IsFrom(e.frame, target) && payload == e.frame.payload
      && payload != [] && payload[0] == PositiveSid(sid)
    case Final(Err(Negative(echoed, nrc))) =>
      && e.RouteFrame? && IsFrom(e.frame, target) && Rejects(e.frame.payload, sid, nrc)
      && echoed == sid && nrc != NRC_RESPONSE_PENDING
    case Final(Err(ConnectionClosed)) => e.Close?
    case _ => false
  }

  /** What a diagnostic frame with `payload` means to a request for `sid`: the delivery, and whether it is the last. */
  function Meaning(sid: byte, payload: seq<byte>): Option<Delivery> {
    if payload == [] then None
    else if payload[0] as int == (sid as int + 0x40) % 0x100 then Some(Final(Ok(payload)))
    else if payload[0] == 0x7F && |payload| == 2 && payload[1] == sid then Some(Final(Err(Negative(sid, 0))))
    else if payload[0] == 0x7F && |payload| > 2 && payload[1] == sid then
      Some(if payload[2] == 0x78 then Pending else Final(Err(Negative(sid, payload[2]))))
    else None
  }

  /**
   Routing is complete: while the reader runs, a diagnostic frame from the target of a request
   that owns its slot is never lost. A positive response or a negative one to its service is
   sent to it at once and frees the slot, a pending negative one is sent as a tick and keeps
   it; every other frame, also one from nowhere or of another kind, changes nothing.
  */
  lemma FramesAreDelivered(events: seq<Event>, s: System, gen: nat, frame: Frame)
    requires After(events) == Some(s) && s.open && gen in s.requests && Owns(s.table, s.requests[gen].target, gen)
    ensures gen in s.table.sent && Enabled(s, RouteFrame(frame))
    ensures var (r, s') := (s.requests[gen], Apply(s, RouteFrame(frame)));
            gen in s'.table.sent &&
            if frame.control == 0x0001 && frame.addr.Some? && frame.addr.value.0 == r.target then
              match Meaning(r.sid, frame.payload)
              case Some(Pending) =>
                s'.table.sent[gen] == s.table.sent[gen] + [Pending] && s'.table.slots == s.table.slots
              case Some(d) =>
                s'.table.sent[gen] == s.table.sent[gen] + [d] && s'.table.slots == s.table.slots - {r.target}
              case None => s' == s
            else s'.table.sent[gen] == s.table.sent[gen] && Owns(s'.table, r.target, gen)
    ensures frame.control != 0x0001 || frame.addr.None? || frame.addr.value.0 !in s.table.slots ==>
              Apply(s, RouteFrame(frame)) == s
  {
    hide Fits;
    RunIsSound(events);
    assert RequestOk(s, gen);
    if frame.addr.Some? && frame.addr.value.0 in s.table.slots {
      assert SlotOk(s, frame.addr.value.0);
    }
  }

  /** A step sends a request at most one delivery, one the step explains, and only while it owns its slot. */
  lemma StepDelivers(s: System, e: Event, gen: nat)
    requires Sound(s) && Enabled(s, e) && gen in s.requests
    ensures var s' := Apply(s, e);
            && gen in s.table.sent && gen in s'.table.sent && gen in s'.requests
            && s'.requests[gen].target == s.requests[gen].target && s'.requests[gen].sid == s.requests[gen].sid
            && var (h, h') := (s.table.sent[gen], s'.table.sent[gen]);
               || h' == h
               || (&& |h'| == |h| + 1 && h'[..|h|] == h && Owns(s.table, s.requests[gen].target, gen)
                   && Explains(e, s.requests[gen].target, s.requests[gen].sid, h'[|h|]))
  {
    hide Fits;
    assert RequestOk(s, gen);
    match e
    case RouteFrame(frame) =>
      if frame.addr.Some? && frame.addr.value.0 in s.table.slots {
        assert SlotOk(s, frame.addr.value.0);
      }
    case Close =>
      HoldersAreOwners(s, gen);
    case _ =>
  }

  /** How many deliveries a run has sent to `gen`. */
  function SentTo(events: seq<Event>, gen: nat): nat {
    match After(events)
    case Some(s) => if gen in s.table.sent then |s.table.sent[gen]| else 0
    case None => 0
  }

  /** The events of a run at which request `gen` was sent something, oldest first. */
  function Deliverers(events: seq<Event>, gen: nat): seq<nat> {
    if events == [] then []
    else
      var before := events[..|events| - 1];
      Deliverers(before, gen) +
      if SentTo(events, gen) > SentTo(before, gen) then [|events| - 1] else []
  }

  /**
   Event `j` of the run delivered `d`: it explains it, and the request owned its target's slot
   just before it, and so had registered.
  */
  predicate Delivers(events: seq<Event>, j: nat, gen: nat, target: byte, sid: byte, d: Delivery) {
    && j < |events| && Explains(events[j], target, sid, d)
    && After(events[..j]).Some? && Owns(After(events[..j]).value.table, target, gen)
  }

  lemma DeliversLater(events: seq<Event>, j: nat, gen: nat, target: byte, sid: byte, d: Delivery)
    requires events != [] && Delivers(events[..|events| - 1], j, gen, target, sid, d)
    ensures Delivers(events, j, gen, target, sid, d)
  {
    assert events[..|events| - 1][..j] == events[..j];
  }

  lemma RequestsStay(s: System, e: Event, gen: nat)
    requires Enabled(s, e) && gen in s.requests
    ensures gen in Apply(s, e).requests
  {
  }

  predicate SentNothing(s: System, gen: nat) {
    gen in s.table.sent ==> s.table.sent[gen] == []
  }

  lemma UnmintedStep(s: System, e: Event, gen: nat)
    requires Sound(s) && Enabled(s, e) && gen !in Apply(s, e).requests && SentNothing(s, gen)
    ensures SentNothing(Apply(s, e), gen)
  {
    hide Fits;
    forall t <- s.table.slots
      ensures s.table.slots[t].gen != gen
    {
      assert SlotOk(s, t);
    }
  }

  /** Before it is minted a request is sent nothing. */
  lemma {:induction false} UnmintedGetsNothing(events: seq<Event>, gen: nat)
    requires After(events).Some? && gen !in After(events).value.requests
    ensures SentNothing(After(events).value, gen) && Deliverers(events, gen) == []
  {
    hide Apply, Enabled, Sound;
    if events != [] {
      var before := events[..|events| - 1];
      var s0, e := After(before).value, events[|events| - 1];
      if gen in s0.requests {
        RequestsStay(s0, e, gen);
      }
      UnmintedGetsNothing(before, gen);
      RunIsSound(before);
      UnmintedStep(s0, e, gen);
    }
  }

  lemma FreshIsEmpty(s: System, e: Event, gen: nat)
    requires Enabled(s, e) && gen !in s.requests && gen in Apply(s, e).requests
    ensures gen in Apply(s, e).table.sent && Apply(s, e).table.sent[gen] == []
  {
  }

  /** Deliveries `h` were made in order by the distinct events at `at`, each of which explains its own. */
  predicate DeliveredBy(events: seq<Event>, at: seq<nat>, gen: nat, r: Request, h: seq<Delivery>) {
    && |at| == |h|
    && (forall i, j :: 0 <= i < j < |at| ==> at[i] < at[j])
    && forall k :: 0 <= k < |at| ==> Delivers(events, at[k], gen, r.target, r.sid, h[k])
  }

  /** What was delivered before one more event stays delivered as it was. */
  lemma DeliveredLater(events: seq<Event>, at: seq<nat>, gen: nat, r: Request, h: seq<Delivery>)
    requires events != [] && DeliveredBy(events[..|events| - 1], at, gen, r, h)
    ensures DeliveredBy(events, at, gen, r, h)
    ensures forall k :: 0 <= k < |at| ==> at[k] < |events| - 1
  {
    hide Explains, Owns;
    forall k | 0 <= k < |at|
      ensures at[k] < |events| - 1 && Delivers(events, at[k], gen, r.target, r.sid, h[k])
    {
      DeliversLater(events, at[k], gen, r.target, r.sid, h[k]);
    }
  }

  lemma DeliveredNow(events: seq<Event>, at: seq<nat>, gen: nat, r: Request, h: seq<Delivery>, d: Delivery)
    requires events != [] && DeliveredBy(events, at, gen, r, h)
    requires forall k :: 0 <= k < |at| ==> at[k] < |events| - 1
    requires Delivers(events, |events| - 1, gen, r.target, r.sid, d)
    ensures DeliveredBy(events, at + [|events| - 1], gen, r, h + [d])
  {
    hide Delivers;
  }

  lemma SameRequest(events: seq<Event>, at: seq<nat>, gen: nat, r: Request, r': Request, h: seq<Delivery>)
    requires DeliveredBy(events, at, gen, r, h) && r.target == r'.target && r.sid == r'.sid
    ensures DeliveredBy(events, at, gen, r', h)
  {
    hide Delivers;
  }

  lemma LastDelivers(events: seq<Event>, s0: System, gen: nat, r: Request, d: Delivery)
    requires events != [] && After(events[..|events| - 1]) == Some(s0) && Owns(s0.table, r.target, gen)
    requires Explains(events[|events| - 1], r.target, r.sid, d)
    ensures Delivers(events, |events| - 1, gen, r.target, r.sid, d)
  {
    hide Explains;
  }

  lemma NothingDelivered(events: seq<Event>, gen: nat, r: Request)
    ensures DeliveredBy(events, [], gen, r, [])
  {
  }

  /**
   Provenance: what a request was sent in a run came, delivery by delivery and in order, from
   distinct events of that run at which it owned its slot, so after it registered: a payload
   from a positive response of its own target, a negative outcome from one echoing its service
   with a code other than 0x78, a tick from a 0x78, or the closing from the reader's end.
  */
  lemma {:induction false} DeliveriesAreExplained(events: seq<Event>, s: System, gen: nat)
    requires After(events) == Some(s) && gen in s.requests
    ensures gen in s.table.sent
    ensures DeliveredBy(events, Deliverers(events, gen), gen, s.requests[gen], s.table.sent[gen])
  {
    hide Explains, Apply, Enabled, Sound, Delivers, Owns, DeliveredBy;
    if events != [] {
      var before := events[..|events| - 1];
      var s0, e := After(before).value, events[|events| - 1];
      RunIsSound(before);
      if gen in s0.requests {
        DeliveriesAreExplained(before, s0, gen);
        StepDelivers(s0, e, gen);
        var at, r, h, h' := Deliverers(before, gen), s.requests[gen], s0.table.sent[gen], s.table.sent[gen];
        SameRequest(before, at, gen, s0.requests[gen], r, h);
        DeliveredLater(events, at, gen, r, h);
        if |h'| > |h| {
          LastDelivers(events, s0, gen, r, h'[|h|]);
          DeliveredNow(events, at, gen, r, h, h'[|h|]);
          assert h' == h + [h'[|h|]];
          assert Deliverers(events, gen) == at + [|events| - 1];
        } else {
          assert h' == h;
          assert Deliverers(events, gen) == at + [] == at;
        }
      } else {
        UnmintedGetsNothing(before, gen);
        FreshIsEmpty(s0, e, gen);
        NothingDelivered(events, gen, s.requests[gen]);
      }
    }
  }

  // ---- bounded waiting ----

  /** How often a run's request `gen` waited on its channel: each receive and each timeout. */
  function Waits(events: seq<Event>, gen: nat): nat {
    if events == [] then 0
    else
      var e := events[|events| - 1];
      Waits(events[..|events| - 1], gen) + if e == Receive(gen) || e == TimeOut(gen) then 1 else 0
  }

  predicate WaitsFit(s: System, gen: nat, waits: nat) {
    if gen !in s.requests then waits == 0
    else
      var r := s.requests[gen];
      waits <= MAX_PENDING_TICKS + 1 && (r.phase.Minted? || r.phase.Sending? || r.phase.Waiting? ==> waits == r.taken)
  }

  lemma StepWaits(s: System, e: Event, gen: nat, waits: nat)
    requires Sound(s) && Enabled(s, e) && WaitsFit(s, gen, waits)
    ensures WaitsFit(Apply(s, e), gen, waits + if e == Receive(gen) || e == TimeOut(gen) then 1 else 0)
  {
    if gen in s.requests {
      assert RequestOk(s, gen);
    }
  }

  /**
   No interleaving makes a request wait more than eleven times, so its time after sending is
   at most eleven timeouts.
  */
  lemma {:induction false} WaitsAreBounded(events: seq<Event>, s: System, gen: nat)
    requires After(events) == Some(s)
    ensures WaitsFit(s, gen, Waits(events, gen))
    ensures Waits(events, gen) <= 11
  {
    hide Sound, Apply, Enabled;
    if events != [] {
      var before := events[..|events| - 1];
      WaitsAreBounded(before, After(before).value, gen);
      RunIsSound(before);
      StepWaits(After(before).value, events[|events| - 1], gen, Waits(before, gen));
    }
  }

  /**
   How patient a request is: ten pending responses in time are waited out and the outcome after
   them is returned; with an eleventh it gives up.
  */
  lemma {:induction false} TenTicksAreWaitedOut(arrivals: seq<Arrival>, timeout: nat, n: nat, ticks: nat,
                                                result: Result<seq<byte>, ClientError>)
    requires n < |arrivals| && ticks <= 10
    requires forall i :: 0 <= i < n ==> arrivals[i].delivery == Pending
    requires forall i :: 0 <= i <= n ==> arrivals[i].delay < timeout
    requires arrivals[n].delivery == Final(result)
    ensures Awaited(arrivals, timeout, ticks) == if ticks + n <= 10 then result else Err(ClientError.ReadTimeout)
  {
    if n > 0 && ticks < 10 {
      TenTicksAreWaitedOut(arrivals[1..], timeout, n - 1, ticks + 1, result);
    }
  }

  /** A channel that stays silent for a whole timeout ends the wait, whatever came in time before and comes after. */
  lemma {:induction false} SilenceTimesOut(arrivals: seq<Arrival>, timeout: nat, n: nat, ticks: nat)
    requires n <= |arrivals| && (n < |arrivals| ==> arrivals[n].delay >= timeout)
    requires forall i :: 0 <= i < n ==> arrivals[i].delivery == Pending
    ensures Awaited(arrivals, timeout, ticks) == Err(ClientError.ReadTimeout)
  {
    if n > 0 {
      SilenceTimesOut(arrivals[1..], timeout, n - 1, ticks + 1);
    }
  }

  /** The same as a step of the system: what a receive makes of the next delivery. */
  lemma ReceiveByTurn(events: seq<Event>, s: System, gen: nat)
    requires After(events) == Some(s) && Enabled(s, Receive(gen))
    ensures var (r, r') := (s.requests[gen], Apply(s, Receive(gen)).requests[gen]);
            && r'.taken == r.taken + 1 && r'.target == r.target && r'.sid == r.sid
            && r'.phase == match s.table.sent[gen][r.taken]
                           case Final(result) => Leaving(Answered(result))
                           case Pending => if r.taken < 10 then Waiting else Leaving(TimedOut)
  {
  }
}
