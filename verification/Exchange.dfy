/**
 The transmit seam (exchange.rs, bridge.rs, gate.rs). A request function may have one
 effect, handing a bare UDS request to the transport; `Log` records those hand-overs.
*/
module Exchange {
  import opened Wrappers
  import opened Words

  datatype ExchangeError =
    | Unexpected(bytes: seq<byte>)
    | Refused(sid: byte, frame: seq<byte>)
    | Transport(message: string)

  /** One bare request that reached the transport, and so the car. */
  datatype Sent = Sent(target: byte, uds: seq<byte>)

  type Log = seq<Sent>

  /** An arbitrary transport: it answers the last request of the log so far. */
  type BareTransport = Log -> Result<seq<byte>, ExchangeError>

  datatype Exchanged = Exchanged(reply: Result<seq<byte>, ExchangeError>, log: Log)

  /** A framed exchange, as the run loop calls it: log so far, target, telegram. */
  type UdsExchange = (Log, byte, seq<byte>) -> Exchanged
}

/** bridge.rs: telegrams onto bare UDS. */
module Bridge {
  import opened Wrappers
  import opened Words
  import opened Exchange
  import Telegram

  const TESTER: byte := 0xF1

  function Request(transport: BareTransport, log: Log, target: byte, frame: seq<byte>): Exchanged {
    match Telegram.DecodeRequest(frame)
    case Err(_) => Exchanged(Err(Unexpected(frame)), log)
    case Ok(telegram) =>
      if telegram.target != target then Exchanged(Err(Unexpected(frame)), log)
      else
        var log' := log + [Sent(target, telegram.uds)];
        match transport(log')
        case Err(e) => Exchanged(Err(e), log')
        case Ok(response) => Exchanged(Ok(Telegram.Encode(TESTER, target, response)), log')
  }

  /**
   What a job parses out of a bridged reply: exactly the ECU's response, addressed from
   the ECU to the tester, for every response a telegram can carry.
  */
  lemma ReplyCarriesResponse(transport: BareTransport, log: Log, target: byte, frame: seq<byte>, response: seq<byte>)
    requires Telegram.DecodeRequest(frame).Ok? && Telegram.DecodeRequest(frame).value.target == target
    requires transport(log + [Sent(target, Telegram.DecodeRequest(frame).value.uds)]) == Ok(response)
    ensures var reply := Request(transport, log, target, frame).reply;
            && reply.Ok?
            && (Telegram.Decode(reply.value) == Ok(Telegram.Telegram(0xF1, target, response))
                <==> 1 <= |response| <= 0xFFFF)
  {
    Telegram.DecodeOfEncode(TESTER, target, response);
  }
}

/** gate.rs: the policy veto in front of the bridge. */
module Gate {
  import opened Wrappers
  import opened Words
  import opened Exchange
  import Bridge
  import Telegram

  datatype Policy = ReadOnly | ConfirmedWrite

  datatype SidClass = Pass | Gated | RefuseAlways

  function Classify(sid: byte): SidClass {
    if sid == 0x10 || sid == 0x3E || sid == 0x22 || sid == 0x2C || sid == 0x19 then Pass
    else if 0x34 <= sid <= 0x37 then RefuseAlways
    else Gated
  }

  function Request(policy: Policy, inner: UdsExchange, log: Log, target: byte, frame: seq<byte>): Exchanged {
    match Telegram.PeekSid(frame)
    case None => Exchanged(Err(Unexpected(frame)), log)
    case Some(sid) =>
      match (policy, Classify(sid))
      case (_, RefuseAlways) => Exchanged(Err(Refused(sid, frame)), log)
      case (_, Pass) => inner(log, target, frame)
      case (ConfirmedWrite, Gated) => inner(log, target, frame)
      case (ReadOnly, Gated) => Exchanged(Err(Refused(sid, frame)), log)
  }

  /** The live stack: the gate around the telegram bridge around `transport`. */
  function LiveStack(policy: Policy, transport: BareTransport): UdsExchange {
    var bridge: UdsExchange :=
      (log: Log, target: byte, frame: seq<byte>) => Bridge.Request(transport, log, target, frame);
    (log: Log, target: byte, frame: seq<byte>) => Request(policy, bridge, log, target, frame)
  }

  /**
   What the car may be asked under `policy` by a run against `target`: never a flashing
   service, and under the read-only policy only session plumbing and reads.
  */
  predicate Admitted(policy: Policy, target: byte, sent: Sent) {
    && sent.target == target
    && (sent.uds != [] ==>
          && sent.uds[0] !in {0x34, 0x35, 0x36, 0x37}
          && (policy == ReadOnly ==> sent.uds[0] in {0x10, 0x3E, 0x22, 0x2C, 0x19}))
  }

  /** The telegrams the stack lets through: their service passes and they reach `target`. */
  predicate Admissible(policy: Policy, target: byte, frame: seq<byte>) {
    && Telegram.PeekSid(frame).Some?
    && Classify(Telegram.PeekSid(frame).value) != RefuseAlways
    && (policy == ReadOnly ==> Classify(Telegram.PeekSid(frame).value) == Pass)
    && Telegram.DecodeRequest(frame).Ok?
    && Telegram.DecodeRequest(frame).value.target == target
  }

  /**
   One request through the stack, completely: an admissible telegram hands exactly its
   own payload to the transport and nothing else reaches it; what is handed over is
   admitted by the policy although the gate only peeked; and a telegram that never
   reached the transport was answered with an error carrying that telegram.
  */
  lemma StackTransmits(policy: Policy, transport: BareTransport, log: Log, target: byte, frame: seq<byte>)
    ensures var out := LiveStack(policy, transport)(log, target, frame);
            if Admissible(policy, target, frame) then
              var sent := Sent(target, Telegram.DecodeRequest(frame).value.uds);
              && out.log == log + [sent]
              && Admitted(policy, target, sent)
              && (out.reply.Err? <==> transport(out.log).Err?)
              && (out.reply.Err? ==> out.reply.error == transport(out.log).error)
            else
              && out.log == log
              && (out.reply == Err(Unexpected(frame)) ||
                  exists sid :: out.reply == Err(Refused(sid, frame)) && Classify(sid) != Pass)
  {
  }

  /** The services each class holds, by their numbers. */
  lemma ClassesAre(sid: byte)
    ensures Classify(sid) == Pass <==> sid in {0x10, 0x19, 0x22, 0x2C, 0x3E}
    ensures Classify(sid) == RefuseAlways <==> sid in {0x34, 0x35, 0x36, 0x37}
  {
  }

  /**
   The veto in numbers: a telegram for the run's ECU with a payload reaches the transport, once
   and as it is, exactly when its first byte is a session or read service, or, with writes
   confirmed, any service but flashing; otherwise it is refused by that byte.
  */
  lemma VetoIsExact(policy: Policy, transport: BareTransport, log: Log, target: byte, frame: seq<byte>, uds: seq<byte>)
    requires Telegram.DecodeRequest(frame).Ok? && uds != []
    requires Telegram.DecodeRequest(frame).value.target == target && Telegram.DecodeRequest(frame).value.uds == uds
    ensures var out := LiveStack(policy, transport)(log, target, frame);
            var allowed := if policy == ReadOnly then uds[0] in {0x10, 0x19, 0x22, 0x2C, 0x3E}
                           else uds[0] !in {0x34, 0x35, 0x36, 0x37};
            && (Admissible(policy, target, frame) <==> allowed)
            && out.log == (if allowed then log + [Sent(target, uds)] else log)
            && (!allowed ==> out.reply == Err(Refused(uds[0], frame)))
            && (allowed && transport(out.log).Ok? ==>
                  out.reply == Ok(Telegram.Encode(0xF1, target, transport(out.log).value)))
            && (allowed && transport(out.log).Err? ==> out.reply == Err(transport(out.log).error))
  {
    hide Telegram.DecodeRequest, Telegram.Encode;
    Telegram.PeekAgreesWithDecode(frame);
    ClassesAre(uds[0]);
  }
}
