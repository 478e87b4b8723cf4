/** A call from end to end: marshalled by the proxy, framed, sent, decoded, dispatched by number,
    served by the stub, and the reply all the way back. */
module Remote {
  import opened Bytes
  import opened CodecSpec
  import opened StubSpec
  import opened StubLaws
  import opened MethodIds
  import opened Framing

  /** What each method of an object does. */
  type Object = nat -> seq<Val> -> Answer

  function RequestPacket(id: u32, m: Message): Packet
  {
    Packet(id, VERSION, 0, m.words, m.payload, m.handles)
  }

  lemma StoreBounded(instr: Instr, v: Val, reply: Message)
    requires |reply.words| <= MAX_WORDS
    ensures var r := Store(instr, v, reply); r.Ok? ==> |r.value.words| <= MAX_WORDS
  {
    hide Enc, HasWord, FromLittleEndian;
  }

  lemma {:induction false} StoresBounded(code: seq<Instr>, locals: seq<Val>, reply: Message)
    requires |reply.words| <= MAX_WORDS
    ensures var r := RunStores(code, locals, reply); r.Ok? ==> |r.value.words| <= MAX_WORDS
    decreases |code|
  {
    hide Store;
    if code != [] && IsStore(code[0]) && code[0].local < |locals| {
      StoreBounded(code[0], locals[code[0].local], reply);
      var r := Store(code[0], locals[code[0].local], reply);
      if r.Ok? { StoresBounded(code[1..], locals, r.value); }
    }
  }

  /** The stub of method k on a request. */
  function Stubbed(def: Definition, methods: seq<Method>, k: nat, p: Packet, does: Object): (r: Result<Message>)
    requires k < |methods|
    ensures r.Ok? ==> |r.value.words| <= MAX_WORDS
  {
    var params := methods[k].params;
    EmitParts(def, params);
    var r := Serve(Emit(def, params), |params|, Message(p.words, p.caps, p.payload), does(k));
    ServeBounded(def, params, Message(p.words, p.caps, p.payload), does(k));
    r
  }

  lemma ServeBounded(def: Definition, params: seq<Param>, m: Message, impl: seq<Val> -> Answer)
    requires |Emit(def, params)| >= |params| + 2 && Emit(def, params)[0].CheckWords?
    ensures var r := Serve(Emit(def, params), |params|, m, impl); r.Ok? ==> |r.value.words| <= MAX_WORDS
  {
    hide Emit, RunLoads, RunStores;
    var code, n := Emit(def, params), |params|;
    var loaded := RunLoads(code[1..n + 1], m, 0);
    if loaded.Ok? {
      var answer := impl(loaded.value);
      StoresBounded(code[n + 2..], answer.locals, Message([answer.result % U64_LIMIT], [], []));
    }
  }

  /** One turn of facet_sel4_service_run, with common_dispatch. What a stub that fails leaves in
      the reply is not modelled. */
  function Answered(def: Definition, methods: seq<Method>, f: Frame, does: Object): Result<Frame>
  {
    match DecodeRequest(f)
    case Err(_) => Ok(ReplyFrame(Outgoing(Reply(0, [], [], []), PROTOCOL_ERROR)))
    case Ok(p) =>
      var k := Dispatched(methods, p.methodId);
      if k == |methods| then Ok(ReplyFrame(Outgoing(Reply(0, [], [], []), NO_SUCH_METHOD)))
      else
        match Stubbed(def, methods, k, p, does)
        case Err(e) => Err(e)
        case Ok(m) => Ok(ReplyFrame(Outgoing(Reply(0, m.words, m.payload, m.handles), 0)))
  }

  /** A proxy's call of method i over the wire. */
  function WireCall(def: Definition, methods: seq<Method>, i: nat, args: seq<Val>, does: Object): Result<Returned>
    requires i < |methods| && methods[i].id < U32_LIMIT && |args| == |methods[i].params|
  {
    var params := methods[i].params;
    match Marshal(def, params, args, 0, Empty)
    case Err(e) => Err(e)
    case Ok(request) =>
      var p := RequestPacket(methods[i].id, request);
      if !Sendable(p) then Err(NotSupported)
      else
        match Answered(def, methods, RequestFrame(p), does)
        case Err(e) => Err(e)
        case Ok(f) =>
          match DecodeReply(f)
          case Err(e) => Err(e)
          case Ok(reply) => Finish(def, params, Message(reply.words, reply.caps, reply.payload))
  }

  /** What the caller sees of a local call of method i. */
  function LocalCall(def: Definition, params: seq<Param>, answer: Answer): Returned
    requires |answer.locals| == |params|
  {
    Returned(answer.result, if answer.result == 0 then Received(def, params, answer.locals, 0) else [])
  }

  /** A reply of nothing but a negative code is returned as that code. */
  lemma FinishCode(def: Definition, params: seq<Param>, code: int)
    requires code in {PROTOCOL_ERROR, BUFFER_TOO_SMALL, NO_SUCH_METHOD}
    ensures Finish(def, params, Message([code % U64_LIMIT], [], [])) == Ok(Returned(code, []))
  {
    hide CastWord, Collect;
    PowTable();
    CastBack(I32, Num(code));
  }

  /** How a request fares on its way to the stub. */
  lemma RequestArrives(
    def: Definition, methods: seq<Method>, g: nat, i: nat, p: Packet, does: Object)
    requires Acceptable(methods, g) && g <= |methods| && i < |methods|
    requires p.methodId == methods[i].id && p.version == VERSION && Sendable(p)
    ensures Answered(def, methods, RequestFrame(p), does) ==
            if |p.caps| > 1 then Ok(ReplyFrame(Outgoing(Reply(0, [], [], []), PROTOCOL_ERROR)))
            else match Stubbed(def, methods, i, p, does)
                 case Err(e) => Err(e)
                 case Ok(m) => Ok(ReplyFrame(Outgoing(Reply(0, m.words, m.payload, m.handles), 0)))
  {
    hide Stubbed, DecodeRequest, RequestFrame, Acceptable, Sendable, Dispatched, Outgoing, ReplyFrame;
    RequestBack(p);
    DispatchReaches(methods, g, i);
  }

  /** A request for a method the object does not have: whoever sent it sees "no such method". */
  lemma UnknownMethod(def: Definition, methods: seq<Method>, params: seq<Param>, p: Packet, does: Object)
    requires p.version == VERSION && Sendable(p) && |p.caps| <= 1
    requires forall k | 0 <= k < |methods| :: methods[k].id != p.methodId
    ensures var f := Answered(def, methods, RequestFrame(p), does);
            && f.Ok? && DecodeReply(f.value) == Ok(Reply(0, [-4 % U64_LIMIT], [], []))
            && Finish(def, params, Message([-4 % U64_LIMIT], [], [])) == Ok(Returned(-4, []))
  {
    hide Stubbed, DecodeRequest, DecodeReply, RequestFrame, Dispatched, ReplyFrame, Sendable;
    RequestBack(p);
    ReplyBack(Reply(0, [], [], []), NO_SUCH_METHOD);
    FinishCode(def, params, NO_SUCH_METHOD);
  }

  /** The reply of a stub as the client decodes it: itself, or the fallback if it does not fit. */
  lemma ReplyArrives(def: Definition, params: seq<Param>, m: Message)
    requires 0 < |m.words| <= MAX_WORDS
    ensures var d := DecodeReply(ReplyFrame(Outgoing(Reply(0, m.words, m.payload, m.handles), 0)));
            d == Ok(if Fits(m.words, m.payload, m.handles) then Reply(0, m.words, m.payload, m.handles)
                    else Reply(0, [BUFFER_TOO_SMALL % U64_LIMIT], [], []))
  {
    hide DecodeReply, ReplyFrame;
    ReplyBack(Reply(0, m.words, m.payload, m.handles), 0);
  }

  /** A call over the wire, in full: refused by the client if the request is too large or has too
      many handles for a message; answered with a protocol error if it has more than one; answered
      with "buffer too small" if the reply does not fit; and otherwise the local call. */
  lemma WireCallOutcome(
    def: Definition, methods: seq<Method>, g: nat, i: nat, args: seq<Val>, does: Object,
    request: Message, reply: Message)
    requires Acceptable(methods, g) && g <= |methods| <= MAX_METHODS && i < |methods|
    requires |args| == |methods[i].params| && Marshal(def, methods[i].params, args, 0, Empty) == Ok(request)
    requires var answer := does(i)(Locals(def, methods[i].params, args, 0));
             && |answer.locals| == |args| && InRange(true, 4, answer.result)
             && ReplyTo(def, methods[i].params, answer) == Ok(reply)
    ensures methods[i].id < U32_LIMIT
    ensures var answer := does(i)(Locals(def, methods[i].params, args, 0));
            WireCall(def, methods, i, args, does) ==
            if !Sendable(RequestPacket(methods[i].id, request)) then Err(NotSupported)
            else if |request.handles| > 1 then Ok(Returned(PROTOCOL_ERROR, []))
            else if !Fits(reply.words, reply.payload, reply.handles) then Ok(Returned(BUFFER_TOO_SMALL, []))
            else Ok(LocalCall(def, methods[i].params, answer))
  {
    var params := methods[i].params;
    var answer := does(i)(Locals(def, params, args, 0));
    assert methods[i].id == IdOf(i, g);
    var p := RequestPacket(methods[i].id, request);
    if Sendable(p) {
      RequestArrives(def, methods, g, i, p, does);
      if |request.handles| > 1 {
        RefusalArrives(def, params);
      } else {
        ServedAsPassed(def, params, args, request, does(i));
        StubbedIs(def, methods, i, request, does);
        ReplyKeepsCode(def, params, answer, reply);
        StoresBounded(Stores(def, params, 0), answer.locals, Message([answer.result % U64_LIMIT], [], []));
        ReplyArrives(def, params, reply);
        hide Sendable, Acceptable, Answered, DecodeReply, ReplyFrame, Outgoing, Marshal, ReplyTo, Locals, Received;
        if Fits(reply.words, reply.payload, reply.handles) {
          CollectedAsPassed(def, params, answer, reply);
        } else {
          FinishCode(def, params, BUFFER_TOO_SMALL);
        }
      }
    }
  }

  /** So for a method that succeeds: the call over the wire is the local call if and only if the
      request and the reply fit inline messages and carry at most one handle each, not null. */
  lemma WireCallIff(
    def: Definition, methods: seq<Method>, g: nat, i: nat, args: seq<Val>, does: Object,
    request: Message, reply: Message)
    requires Acceptable(methods, g) && g <= |methods| <= MAX_METHODS && i < |methods|
    requires |args| == |methods[i].params| && Marshal(def, methods[i].params, args, 0, Empty) == Ok(request)
    requires var answer := does(i)(Locals(def, methods[i].params, args, 0));
             |answer.locals| == |args| && answer.result == 0 && ReplyTo(def, methods[i].params, answer) == Ok(reply)
    ensures methods[i].id < U32_LIMIT
    ensures WireCall(def, methods, i, args, does) == RemoteCall(def, methods[i].params, args, does(i)) <==>
            && |request.payload| <= INLINE_MAX && |request.words| + WireWords(|request.payload|) <= MESSAGE_MAX - 4
            && |request.handles| <= 1 && 0 !in request.handles
            && Fits(reply.words, reply.payload, reply.handles)
  {
    hide RemoteCall, WireCall, Marshal, ReplyTo, Locals, Received, Acceptable, RunLoads;
    PowTable();
    WireCallOutcome(def, methods, g, i, args, does, request, reply);
    RemoteCallPasses(def, methods[i].params, args, does(i));
    MarshalBounded(def, methods[i].params, args, 0, Empty, request);
  }

  lemma {:induction false} MarshalBounded(
    def: Definition, params: seq<Param>, args: seq<Val>, i: nat, m: Message, final: Message)
    requires |args| == |params| && i <= |params| && |m.words| <= MAX_WORDS
    requires Marshal(def, params, args, i, m) == Ok(final)
    ensures |final.words| <= MAX_WORDS
    decreases |params| - i
  {
    hide AppendParam;
    if i < |params| {
      var m' := AppendParam(def, m, params[i], args[i]).value;
      AppendBounded(def, m, params[i], args[i]);
      MarshalBounded(def, params, args, i + 1, m', final);
    }
  }

  lemma AppendBounded(def: Definition, m: Message, p: Param, v: Val)
    requires |m.words| <= MAX_WORDS
    ensures var r := AppendParam(def, m, p, v); r.Ok? ==> |r.value.words| <= MAX_WORDS
  {
    hide Enc, HasWord, FromLittleEndian, MetaTypeFor, TypeMeta;
  }

  lemma RefusalArrives(def: Definition, params: seq<Param>)
    ensures var d := DecodeReply(ReplyFrame(Outgoing(Reply(0, [], [], []), PROTOCOL_ERROR)));
            && d == Ok(Reply(0, [PROTOCOL_ERROR % U64_LIMIT], [], []))
            && Finish(def, params, Message([PROTOCOL_ERROR % U64_LIMIT], [], [])) == Ok(Returned(PROTOCOL_ERROR, []))
  {
    ReplyBack(Reply(0, [], [], []), PROTOCOL_ERROR);
    FinishCode(def, params, PROTOCOL_ERROR);
  }

  lemma StubbedIs(def: Definition, methods: seq<Method>, i: nat, request: Message, does: Object)
    requires i < |methods|
    ensures var params := methods[i].params;
            && |Emit(def, params)| >= |params| + 2 && Emit(def, params)[0].CheckWords?
            && Stubbed(def, methods, i, RequestPacket(0, request), does)
               == Serve(Emit(def, params), |params|, request, does(i))
  {
    hide Emit, Serve;
    EmitParts(def, methods[i].params);
  }

  lemma ReplyKeepsCode(def: Definition, params: seq<Param>, answer: Answer, reply: Message)
    requires |answer.locals| == |params| && ReplyTo(def, params, answer) == Ok(reply)
    ensures |reply.words| > 0
  {
    hide Stores, RunStores;
    StoresExtend(def, params, 0, answer.locals, Message([answer.result % U64_LIMIT], [], []), reply);
  }
}
