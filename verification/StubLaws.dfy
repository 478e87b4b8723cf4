/** The stub recovers exactly what the proxy marshalled, and the proxy exactly what the stub
    replied. */
module StubLaws {
  import opened Bytes
  import opened CodecSpec
  import opened StubSpec
  import CodecLaws

  /** A payload type whose values the codec carries exactly; other types travel as words. */
  ghost predicate Carried(def: Definition, ty: TypeName)
  {
    MetaTypeFor(def, ty) in {Str, Array, Struct} ==> !Inexact(MetaTypeFor(def, ty), TypeMeta(def, ty))
  }

  predicate Extends(m: Message, n: Message)
  {
    m.words <= n.words && m.handles <= n.handles && m.payload <= n.payload
  }

  // ---------- what arrives ----------

  /** A value of a parameter's type on the other side: payloads as coded, words as they are. */
  function Passed(def: Definition, ty: TypeName, v: Val): Val
  {
    var kind := MetaTypeFor(def, ty);
    if kind in {Str, Array, Struct} then Reading(kind, TypeMeta(def, ty), v, true) else v
  }

  /** A value of a parameter's type as it is meant. */
  function Meant(def: Definition, ty: TypeName, v: Val): Val
  {
    var kind := MetaTypeFor(def, ty);
    if kind in {Str, Array, Struct} then Reading(kind, TypeMeta(def, ty), v, false) else v
  }

  /** An argument that can be encoded arrives as it is meant if and only if it is intact. */
  lemma PassedIff(def: Definition, ty: TypeName, v: Val)
    requires var kind := MetaTypeFor(def, ty); kind in {Str, Array, Struct} && Enc(kind, TypeMeta(def, ty), v).Ok?
    ensures Passed(def, ty, v) == Meant(def, ty, v) <==> Intact(MetaTypeFor(def, ty), TypeMeta(def, ty), v)
  {
    CodecLaws.CarriedIff(MetaTypeFor(def, ty), TypeMeta(def, ty), v);
  }

  lemma PassedExact(def: Definition, ty: TypeName, v: Val)
    requires Carried(def, ty)
    ensures Passed(def, ty, v) == Meant(def, ty, v) == v
  {
    hide Reading, Inexact, MetaTypeFor, TypeMeta;
    if MetaTypeFor(def, ty) in {Str, Array, Struct} {
      CodecLaws.ExactReading(MetaTypeFor(def, ty), TypeMeta(def, ty), v, true);
      CodecLaws.ExactReading(MetaTypeFor(def, ty), TypeMeta(def, ty), v, false);
    }
  }

  /** What the server's method is called with. */
  function Locals(def: Definition, params: seq<Param>, args: seq<Val>, i: nat): (locals: seq<Val>)
    requires |args| == |params| && i <= |params|
    ensures |locals| == |params| - i
    ensures forall j | i <= j < |params| ::
              locals[j - i] == if params[j].direction == Out then Zero(MetaTypeFor(def, params[j].ty))
                               else Passed(def, params[j].ty, args[j])
    decreases |params| - i
  {
    if i == |params| then []
    else
      [if params[i].direction == Out then Zero(MetaTypeFor(def, params[i].ty)) else Passed(def, params[i].ty, args[i])]
      + Locals(def, params, args, i + 1)
  }

  /** What the caller gets for the out and inout parameters i and up. */
  function Received(def: Definition, params: seq<Param>, values: seq<Val>, i: nat): seq<Val>
    requires |values| == |params| && i <= |params|
    decreases |params| - i
  {
    if i == |params| then []
    else
      (if params[i].direction == In then [] else [Passed(def, params[i].ty, values[i])])
      + Received(def, params, values, i + 1)
  }

  // ---------- words ----------

  lemma CastBack(kind: Kind, v: Val)
    ensures HasWord(kind, v) ==> v.Num? && CastWord(kind, v.n % U64_LIMIT) == v.n
    ensures HasWord(kind, v) && kind in {U8, U16, U32, Bool, Enum} ==> CastWord(kind, v.n % U32_LIMIT) == v.n
  {
    hide LittleEndian, DecInt, EncInt, Pow256;
    if HasWord(kind, v) {
      PowTable();
      ModSigned(v.n, U64_LIMIT);
      if kind != Bool && kind != LocalPtr {
        var w, signed := if kind == Enum then 4 else Width(kind), kind == Enum || Signed(kind);
        LowBytes(signed, w, v.n);
        IntRoundTrip(signed, w, v.n);
      }
    }
  }

  // ---------- requests ----------

  lemma AppendExtends(def: Definition, m: Message, p: Param, v: Val, m': Message)
    requires AppendParam(def, m, p, v) == Ok(m')
    ensures Extends(m, m')
    ensures |m'.words| == |m.words| + WordsOf(def, p) && |m'.handles| == |m.handles| + HandlesOf(p)
  {
  }

  lemma {:induction false} MarshalExtends(
    def: Definition, params: seq<Param>, args: seq<Val>, i: nat, m: Message, final: Message)
    requires |args| == |params| && i <= |params| && Marshal(def, params, args, i, m) == Ok(final)
    ensures Extends(m, final)
    decreases |params| - i
  {
    if i < |params| {
      var m' := AppendParam(def, m, params[i], args[i]).value;
      AppendExtends(def, m, params[i], args[i], m');
      MarshalExtends(def, params, args, i + 1, m', final);
    }
  }

  lemma UuidBack(uuid: seq<byte>)
    requires |uuid| == 16
    ensures LittleEndian(FromLittleEndian(uuid[..8]), 8) + LittleEndian(FromLittleEndian(uuid[8..]), 8) == uuid
  {
    FromLittleEndianRoundTrip(uuid[..8]);
    FromLittleEndianRoundTrip(uuid[8..]);
  }

  /** The instruction emitted for one in or inout parameter loads the value appended for it,
      whatever is appended later. */
  lemma LoadBack(def: Definition, p: Param, v: Val, m: Message, m': Message, final: Message)
    requires p.direction != Out && AppendParam(def, m, p, v) == Ok(m') && Extends(m, m') && Extends(m', final)
    ensures Load(LoadOf(def, p, |m.words|, |m.handles|), final, |m.payload|)
            == Ok(Loaded(Passed(def, p.ty, v), |m'.payload|))
  {
    hide Enc, Dec, Reading, HasWord, CastWord, LittleEndian, FromLittleEndian, TypeMeta;
    var kind, meta := MetaTypeFor(def, p.ty), TypeMeta(def, p.ty);
    if kind in {Str, Array, Struct} {
      PayloadBack(kind, meta, v, m, m', final);
    } else if kind == Uuid {
      UuidBack(v.uuid);
    } else {
      CastBack(kind, v);
    }
  }

  lemma PayloadBack(kind: Kind, meta: Meta, v: Val, m: Message, m': Message, final: Message)
    requires AddPayload(m, kind, meta, v) == Ok(m') && Extends(m', final)
    ensures Dec(kind, meta, final.payload[|m.payload|..])
            == Ok(Decoded(Reading(kind, meta, v, true), |m'.payload| - |m.payload|))
  {
    hide Enc, Dec, Reading;
    var bs := Enc(kind, meta, v).value;
    var suffix := final.payload[|m'.payload|..];
    assert final.payload[|m.payload|..] == bs + suffix;
    CodecLaws.RoundTrip(kind, meta, v, bs, suffix);
  }

  /** Every in and inout argument arrives as it is passed on, every out parameter starts as zero,
      and the request has exactly the words the stub checks for. */
  lemma {:induction false} LoadsBack(
    def: Definition, params: seq<Param>, args: seq<Val>, i: nat, m: Message, final: Message)
    requires |args| == |params| && i <= |params| && Marshal(def, params, args, i, m) == Ok(final)
    ensures Extends(m, final)
    ensures RunLoads(Loads(def, params, i, |m.words|, |m.handles|), final, |m.payload|)
            == Ok(Locals(def, params, args, i))
    decreases |params| - i
  {
    hide Load, LoadOf, AppendParam, WordsOf, HandlesOf, Passed;
    MarshalExtends(def, params, args, i, m, final);
    if i < |params| {
      var p := params[i];
      var m' := AppendParam(def, m, p, args[i]).value;
      AppendExtends(def, m, p, args[i], m');
      LoadsBack(def, params, args, i + 1, m', final);
      var code := Loads(def, params, i, |m.words|, |m.handles|);
      assert code[1..] == Loads(def, params, i + 1, |m'.words|, |m'.handles|);
      if p.direction == Out {
        OutLoads(def, p, m, args[i], final);
      } else {
        LoadBack(def, p, args[i], m, m', final);
      }
    }
  }

  lemma OutLoads(def: Definition, p: Param, m: Message, v: Val, final: Message)
    requires p.direction == Out && |m.payload| <= |final.payload|
    ensures AppendParam(def, m, p, v) == Ok(m)
    ensures Load(LoadOf(def, p, |m.words|, |m.handles|), final, |m.payload|)
            == Ok(Loaded(Zero(MetaTypeFor(def, p.ty)), |m.payload|))
  {
  }

  // ---------- replies ----------

  lemma StoreExtends(def: Definition, p: Param, i: nat, v: Val, m: Message, m': Message)
    requires p.direction != In && Store(StoreOf(def, p.ty, i), v, m) == Ok(m')
    ensures Extends(m, m') && |m'.words| <= |m.words| + 2
  {
  }

  lemma StoresStep(def: Definition, params: seq<Param>, i: nat, values: seq<Val>, m: Message)
    requires |values| == |params| && i < |params|
    ensures params[i].direction == In ==>
              RunStores(Stores(def, params, i), values, m) == RunStores(Stores(def, params, i + 1), values, m)
    ensures params[i].direction != In ==>
              RunStores(Stores(def, params, i), values, m) ==
              match Store(StoreOf(def, params[i].ty, i), values[i], m)
              case Ok(m') => RunStores(Stores(def, params, i + 1), values, m')
              case Err(e) => Err(e)
  {
    hide Store;
    var rest := Stores(def, params, i + 1);
    if params[i].direction != In {
      var store := StoreOf(def, params[i].ty, i);
      assert Stores(def, params, i) == [store] + rest && ([store] + rest)[1..] == rest;
    }
  }

  lemma {:induction false} StoresExtend(
    def: Definition, params: seq<Param>, i: nat, values: seq<Val>, m: Message, final: Message)
    requires |values| == |params| && i <= |params|
    requires RunStores(Stores(def, params, i), values, m) == Ok(final)
    ensures Extends(m, final)
    decreases |params| - i
  {
    hide Store, StoreOf, Stores, RunStores;
    if i < |params| {
      StoresStep(def, params, i, values, m);
      if params[i].direction == In {
        StoresExtend(def, params, i + 1, values, m, final);
      } else {
        var m' := Store(StoreOf(def, params[i].ty, i), values[i], m).value;
        StoreExtends(def, params[i], i, values[i], m, m');
        StoresExtend(def, params, i + 1, values, m', final);
      }
    } else {
      assert RunStores([], values, m) == Ok(m) && Stores(def, params, i) == [] by {
        NoStores(def, params, values, m);
      }
    }
  }

  lemma NoStores(def: Definition, params: seq<Param>, values: seq<Val>, m: Message)
    ensures Stores(def, params, |params|) == [] && RunStores([], values, m) == Ok(m)
  {
  }

  function CursorAt(m: Message): Cursor
  {
    Cursor(|m.words|, |m.handles|, |m.payload|)
  }

  lemma BytesRefused(v: Val)
    ensures Enc(Bytes, NoMeta, v) == Err(NotSupported)
  {
  }

  /** The proxy takes back the output one store instruction put into the reply. */
  lemma TakeBack(def: Definition, p: Param, i: nat, v: Val, m: Message, m': Message, final: Message)
    requires p.direction != In
    requires Store(StoreOf(def, p.ty, i), v, m) == Ok(m') && Extends(m, m') && Extends(m', final)
    ensures Take(MetaTypeFor(def, p.ty), TypeMeta(def, p.ty), final, CursorAt(m))
            == Ok(Taken(Passed(def, p.ty, v), CursorAt(m')))
  {
    hide Enc, Dec, Reading, HasWord, CastWord, LittleEndian, FromLittleEndian;
    BytesRefused(v);
    var kind, meta := MetaTypeFor(def, p.ty), TypeMeta(def, p.ty);
    if kind in {Str, Array, Struct} {
      PayloadBack(kind, meta, v, m, m', final);
    } else if kind == Uuid {
      UuidBack(v.uuid);
    } else {
      CastBack(kind, v);
    }
  }

  /** The proxy recovers exactly the out and inout values the stub replied. */
  lemma {:induction false} CollectBack(
    def: Definition, params: seq<Param>, i: nat, values: seq<Val>, m: Message, final: Message)
    requires |values| == |params| && i <= |params|
    requires RunStores(Stores(def, params, i), values, m) == Ok(final)
    ensures Extends(m, final)
    ensures Collect(def, params, i, final, CursorAt(m)) == Ok(Received(def, params, values, i))
    decreases |params| - i
  {
    hide Store, StoreOf, Stores, RunStores, Take, Passed, TypeMeta, MetaTypeFor;
    StoresExtend(def, params, i, values, m, final);
    if i < |params| {
      StoresStep(def, params, i, values, m);
      if params[i].direction == In {
        CollectBack(def, params, i + 1, values, m, final);
        assert [] + Received(def, params, values, i + 1) == Received(def, params, values, i + 1);
      } else {
        var m' := Store(StoreOf(def, params[i].ty, i), values[i], m).value;
        StoreExtends(def, params[i], i, values[i], m, m');
        CollectBack(def, params, i + 1, values, m', final);
        TakeBack(def, params[i], i, values[i], m, m', final);
      }
    }
  }

  // ---------- bounds ----------

  /** The unguarded word stores stay inside the reply: no signature has more than 32
      parameters, and a uuid store is guarded. */
  lemma {:induction false} StoresInBounds(def: Definition, params: seq<Param>, i: nat, values: seq<Val>, m: Message)
    requires |values| == |params| <= MAX_PARAMS && i <= |params|
    requires |m.words| <= 2 * i + 1
    ensures RunStores(Stores(def, params, i), values, m) != Err(Overrun)
    decreases |params| - i
  {
    hide StoreOf, Stores, RunStores;
    if i < |params| {
      StoresStep(def, params, i, values, m);
      if params[i].direction == In {
        StoresInBounds(def, params, i + 1, values, m);
      } else {
        var r := Store(StoreOf(def, params[i].ty, i), values[i], m);
        if r.Ok? {
          StoreExtends(def, params[i], i, values[i], m, r.value);
          StoresInBounds(def, params, i + 1, values, r.value);
        }
      }
    } else {
      NoStores(def, params, values, m);
    }
  }

  lemma {:induction false} InputWordsFrom(def: Definition, params: seq<Param>, i: nat)
    requires i < |params|
    ensures InputWords(def, params[..i + 1]) == InputWords(def, params[..i]) + WordsOf(def, params[i])
  {
    assert params[..i + 1][..i] == params[..i];
  }

  lemma {:induction false} InputWordsMonotone(def: Definition, params: seq<Param>, i: nat, j: nat)
    requires i <= j <= |params|
    ensures InputWords(def, params[..i]) <= InputWords(def, params[..j])
    decreases j - i
  {
    if i < j {
      InputWordsFrom(def, params, i);
      InputWordsMonotone(def, params, i + 1, j);
    }
  }

  lemma LoadInBounds(def: Definition, p: Param, wordIndex: nat, handleIndex: nat, m: Message, offset: nat)
    requires offset <= |m.payload| && wordIndex + WordsOf(def, p) <= |m.words|
    ensures Load(LoadOf(def, p, wordIndex, handleIndex), m, offset) != Err(Overrun)
  {
    hide Dec, CastWord;
  }

  /** On any request with the checked number of words, however malformed, the loads stay inside
      the word array. */
  lemma {:induction false} LoadsInBounds(
    def: Definition, params: seq<Param>, i: nat, handleIndex: nat, m: Message, offset: nat)
    requires i <= |params| && offset <= |m.payload| && |m.words| == InputWords(def, params)
    ensures RunLoads(Loads(def, params, i, InputWords(def, params[..i]), handleIndex), m, offset) != Err(Overrun)
    decreases |params| - i
  {
    hide Dec, InputWords, Load, LoadOf, WordsOf, HandlesOf;
    if i < |params| {
      InputWordsFrom(def, params, i);
      InputWordsMonotone(def, params, i + 1, |params|);
      assert params[..|params|] == params;
      var wordIndex := InputWords(def, params[..i]);
      var code := Loads(def, params, i, wordIndex, handleIndex);
      var load := LoadOf(def, params[i], wordIndex, handleIndex);
      assert code[0] == load;
      var r := Load(load, m, offset);
      LoadInBounds(def, params[i], wordIndex, handleIndex, m, offset);
      if r.Ok? {
        LoadsInBounds(def, params, i + 1, handleIndex + HandlesOf(params[i]), m, r.value.offset);
        assert code[1..] ==
               Loads(def, params, i + 1, wordIndex + WordsOf(def, params[i]), handleIndex + HandlesOf(params[i]));
      }
    }
  }

  lemma {:induction false} MarshalWords(
    def: Definition, params: seq<Param>, args: seq<Val>, i: nat, m: Message, final: Message)
    requires |args| == |params| && i <= |params| && Marshal(def, params, args, i, m) == Ok(final)
    requires |m.words| == InputWords(def, params[..i])
    ensures |final.words| == InputWords(def, params)
    decreases |params| - i
  {
    hide AppendParam, InputWords, WordsOf;
    if i < |params| {
      var m' := AppendParam(def, m, params[i], args[i]).value;
      AppendExtends(def, m, params[i], args[i], m');
      InputWordsFrom(def, params, i);
      MarshalWords(def, params, args, i + 1, m', final);
    } else {
      assert params[..i] == params;
    }
  }

  // ---------- the whole call ----------

  lemma EmitParts(def: Definition, params: seq<Param>)
    ensures var code, n := Emit(def, params), |params|;
            && |code| >= n + 2 && code[0] == CheckWords(InputWords(def, params))
            && code[1..n + 1] == Loads(def, params, 0, 0, 0)
            && code[n + 2..] == Stores(def, params, 0)
  {
  }

  /** The reply the stub of a method makes of its answer. */
  function ReplyTo(def: Definition, params: seq<Param>, answer: Answer): Result<Message>
  {
    RunStores(Stores(def, params, 0), answer.locals, Message([answer.result % U64_LIMIT], [], []))
  }

  /** The stub calls the method with exactly what was passed, and replies with its answer. */
  lemma ServedAsPassed(
    def: Definition, params: seq<Param>, args: seq<Val>, request: Message, impl: seq<Val> -> Answer)
    requires |args| == |params| && Marshal(def, params, args, 0, Empty) == Ok(request)
    ensures |Emit(def, params)| >= |params| + 2 && Emit(def, params)[0].CheckWords?
    ensures Serve(Emit(def, params), |params|, request, impl)
            == ReplyTo(def, params, impl(Locals(def, params, args, 0)))
  {
    hide Loads, Stores, RunLoads, RunStores, Marshal, InputWords;
    LoadsBack(def, params, args, 0, Empty, request);
    NoInputWords(def, params);
    MarshalWords(def, params, args, 0, Empty, request);
    EmitParts(def, params);
  }

  /** The proxy makes of the reply the result code and, if that is FACET_OK, the outputs. */
  lemma CollectedAsPassed(def: Definition, params: seq<Param>, answer: Answer, reply: Message)
    requires |answer.locals| == |params| && InRange(true, 4, answer.result)
    requires ReplyTo(def, params, answer) == Ok(reply)
    ensures Finish(def, params, reply)
            == Ok(Returned(answer.result, if answer.result == 0 then Received(def, params, answer.locals, 0) else []))
  {
    hide Stores, RunStores, Collect, CastWord;
    var start := Message([answer.result % U64_LIMIT], [], []);
    CollectBack(def, params, 0, answer.locals, start, reply);
    CastBack(I32, Num(answer.result));
    assert reply.words[0] == start.words[0];
  }

  /** A remote call is the local call: if the arguments can be marshalled and the reply can be
      encoded, the method sees the arguments as passed on, and the caller gets the method's result
      code and, if it is FACET_OK, its outputs as passed back. */
  lemma RemoteCallPasses(def: Definition, params: seq<Param>, args: seq<Val>, impl: seq<Val> -> Answer)
    requires |args| == |params| && Marshal(def, params, args, 0, Empty).Ok?
    requires var answer := impl(Locals(def, params, args, 0));
             |answer.locals| == |params| && InRange(true, 4, answer.result) && ReplyTo(def, params, answer).Ok?
    ensures var answer := impl(Locals(def, params, args, 0));
            RemoteCall(def, params, args, impl) ==
            Ok(Returned(answer.result, if answer.result == 0 then Received(def, params, answer.locals, 0) else []))
  {
    hide Marshal, Emit, Serve, ReplyTo, Finish, Locals, Received;
    var answer := impl(Locals(def, params, args, 0));
    ServedAsPassed(def, params, args, Marshal(def, params, args, 0, Empty).value, impl);
    CollectedAsPassed(def, params, answer, ReplyTo(def, params, answer).value);
  }

  /** The arguments themselves, with zeros for the out parameters. */
  function Arguments(def: Definition, params: seq<Param>, args: seq<Val>): (locals: seq<Val>)
    requires |args| == |params|
    ensures |locals| == |params|
  {
    seq(|params|, j requires 0 <= j < |params| =>
      if params[j].direction == Out then Zero(MetaTypeFor(def, params[j].ty)) else args[j])
  }

  lemma {:induction false} ReceivedExact(def: Definition, params: seq<Param>, values: seq<Val>, i: nat)
    requires |values| == |params| && i <= |params| && forall j | 0 <= j < |params| :: Carried(def, params[j].ty)
    ensures Received(def, params, values, i) == Outputs(params, values, i)
    decreases |params| - i
  {
    hide Passed, Carried;
    if i < |params| {
      PassedExact(def, params[i].ty, values[i]);
      ReceivedExact(def, params, values, i + 1);
    }
  }

  /** On exact types the method sees exactly the arguments and the caller exactly the outputs. */
  lemma RemoteCallTransparent(def: Definition, params: seq<Param>, args: seq<Val>, impl: seq<Val> -> Answer)
    requires |args| == |params| && Marshal(def, params, args, 0, Empty).Ok?
    requires forall i | 0 <= i < |params| :: Carried(def, params[i].ty)
    requires var answer := impl(Arguments(def, params, args));
             |answer.locals| == |params| && InRange(true, 4, answer.result) && ReplyTo(def, params, answer).Ok?
    ensures var answer := impl(Arguments(def, params, args));
            RemoteCall(def, params, args, impl) ==
            Ok(Returned(answer.result, if answer.result == 0 then Outputs(params, answer.locals, 0) else []))
  {
    hide Marshal, ReplyTo, RemoteCall, Locals, Outputs, Received, Passed, Carried;
    forall j | 0 <= j < |params|
      ensures Locals(def, params, args, 0)[j - 0] == Arguments(def, params, args)[j]
    {
      PassedExact(def, params[j].ty, args[j]);
    }
    assert Locals(def, params, args, 0) == Arguments(def, params, args);
    var answer := impl(Arguments(def, params, args));
    RemoteCallPasses(def, params, args, impl);
    ReceivedExact(def, params, answer.locals, 0);
  }

  lemma NoInputWords(def: Definition, params: seq<Param>)
    ensures InputWords(def, params[..0]) == 0
  {
  }

  // ---------- exactly which signatures lose arguments ----------

  predicate SameCounts(m: Message, n: Message)
  {
    |m.words| == |n.words| && |m.handles| == |n.handles|
  }

  lemma AppendSameCounts(def: Definition, m: Message, n: Message, p: Param, v: Val)
    requires SameCounts(m, n)
    ensures var r, s := AppendParam(def, m, p, v), AppendParam(def, n, p, v);
            (r.Ok? <==> s.Ok?) && (r.Ok? ==> SameCounts(r.value, s.value))
  {
    hide Enc, HasWord, MetaTypeFor, TypeMeta;
  }

  lemma {:induction false} MarshalSameCounts(
    def: Definition, params: seq<Param>, args: seq<Val>, brgs: seq<Val>, i: nat, m: Message, n: Message)
    requires |args| == |brgs| == |params| && i <= |params| && SameCounts(m, n)
    requires forall j | i <= j < |params| :: args[j] == brgs[j]
    ensures Marshal(def, params, args, i, m).Ok? ==> Marshal(def, params, brgs, i, n).Ok?
    decreases |params| - i
  {
    hide AppendParam;
    if i < |params| {
      AppendSameCounts(def, m, n, params[i], args[i]);
      var r, s := AppendParam(def, m, params[i], args[i]), AppendParam(def, n, params[i], args[i]);
      if r.Ok? { MarshalSameCounts(def, params, args, brgs, i + 1, r.value, s.value); }
    }
  }

  predicate PayloadParam(def: Definition, p: Param)
  {
    p.direction != Out && MetaTypeFor(def, p.ty) in {Str, Array, Struct}
  }

  function ParamEnc(def: Definition, p: Param, v: Val): Result<seq<byte>>
  {
    Enc(MetaTypeFor(def, p.ty), TypeMeta(def, p.ty), v)
  }

  /** A payload argument may be replaced by any other that can be encoded, and the request
      depends on it only through its encoding. */
  lemma {:induction false} MarshalReplaced(
    def: Definition, params: seq<Param>, args: seq<Val>, k: nat, v: Val, w: Val, i: nat, m: Message)
    requires |args| == |params| && i <= k < |params| && PayloadParam(def, params[k])
    requires ParamEnc(def, params[k], v).Ok? && ParamEnc(def, params[k], v) == ParamEnc(def, params[k], w)
    requires Marshal(def, params, args, i, m).Ok?
    ensures Marshal(def, params, args[k := v], i, m).Ok?
    ensures Marshal(def, params, args[k := v], i, m) == Marshal(def, params, args[k := w], i, m)
    decreases k - i
  {
    hide AppendParam, PayloadParam, ParamEnc;
    var m' := AppendParam(def, m, params[i], args[i]).value;
    if i < k {
      MarshalReplaced(def, params, args, k, v, w, i + 1, m');
    } else {
      ReplacedAppend(def, params[k], args[k], v, w, m);
      var m'' := AppendParam(def, m, params[i], v).value;
      MarshalSameCounts(def, params, args, args[k := v], i + 1, m', m'');
      MarshalSuffix(def, params, args[k := v], args[k := w], i + 1, m'');
    }
  }

  lemma ReplacedAppend(def: Definition, p: Param, u: Val, v: Val, w: Val, m: Message)
    requires PayloadParam(def, p) && AppendParam(def, m, p, u).Ok?
    requires ParamEnc(def, p, v).Ok? && ParamEnc(def, p, v) == ParamEnc(def, p, w)
    ensures AppendParam(def, m, p, v).Ok? && AppendParam(def, m, p, v) == AppendParam(def, m, p, w)
    ensures SameCounts(AppendParam(def, m, p, u).value, AppendParam(def, m, p, v).value)
  {
    hide Enc, HasWord;
  }

  lemma {:induction false} MarshalSuffix(
    def: Definition, params: seq<Param>, args: seq<Val>, brgs: seq<Val>, i: nat, m: Message)
    requires |args| == |brgs| == |params| && i <= |params|
    requires forall j | i <= j < |params| :: args[j] == brgs[j]
    ensures Marshal(def, params, args, i, m) == Marshal(def, params, brgs, i, m)
    decreases |params| - i
  {
    hide AppendParam;
    if i < |params| {
      var r := AppendParam(def, m, params[i], args[i]);
      if r.Ok? { MarshalSuffix(def, params, args, brgs, i + 1, r.value); }
    }
  }

  /** The in and inout arguments mean the same. */
  ghost predicate SameInputs(def: Definition, params: seq<Param>, args: seq<Val>, brgs: seq<Val>)
    requires |args| == |brgs| == |params|
  {
    forall j | 0 <= j < |params| && params[j].direction != Out ::
      Meant(def, params[j].ty, args[j]) == Meant(def, params[j].ty, brgs[j])
  }

  ghost predicate InputsCarried(def: Definition, params: seq<Param>)
  {
    forall j | 0 <= j < |params| && params[j].direction != Out :: Carried(def, params[j].ty)
  }

  ghost predicate TellsApart(def: Definition, params: seq<Param>)
  {
    forall a: seq<Val>, b: seq<Val> | |a| == |b| == |params| &&
      Marshal(def, params, a, 0, Empty).Ok? && Marshal(def, params, a, 0, Empty) == Marshal(def, params, b, 0, Empty)
      :: SameInputs(def, params, a, b)
  }

  /** A signature that can be called at all, with encodable payload types, tells what its
      arguments mean if and only if no in or inout parameter has a bool or an enum of another interface in
      its payload. */
  lemma RequestsTellApart(def: Definition, params: seq<Param>, args: seq<Val>)
    requires |args| == |params| && Marshal(def, params, args, 0, Empty).Ok?
    requires forall j | 0 <= j < |params| && PayloadParam(def, params[j]) ::
               CodecLaws.Supported(MetaTypeFor(def, params[j].ty), TypeMeta(def, params[j].ty))
    ensures InputsCarried(def, params) <==> TellsApart(def, params)
  {
    hide Marshal, Inexact, Enc, MetaTypeFor, TypeMeta;
    if InputsCarried(def, params) {
      forall a: seq<Val>, b: seq<Val> | |a| == |b| == |params| &&
        Marshal(def, params, a, 0, Empty).Ok? && Marshal(def, params, a, 0, Empty) == Marshal(def, params, b, 0, Empty)
        ensures SameInputs(def, params, a, b)
      {
        InputsDetermined(def, params, a, b);
      }
    } else {
      var k :| 0 <= k < |params| && params[k].direction != Out && !Carried(def, params[k].ty);
      LosesArgument(def, params, args, k);
    }
  }

  lemma InputsDetermined(def: Definition, params: seq<Param>, a: seq<Val>, b: seq<Val>)
    requires |a| == |b| == |params| && InputsCarried(def, params)
    requires Marshal(def, params, a, 0, Empty).Ok?
    requires Marshal(def, params, a, 0, Empty) == Marshal(def, params, b, 0, Empty)
    ensures SameInputs(def, params, a, b)
  {
    hide Marshal, RunLoads, Loads, Carried, Locals, Passed, Meant;
    var m := Marshal(def, params, a, 0, Empty).value;
    LoadsBack(def, params, a, 0, Empty, m);
    LoadsBack(def, params, b, 0, Empty, m);
    var la, lb := Locals(def, params, a, 0), Locals(def, params, b, 0);
    assert la == lb;
    forall j | 0 <= j < |params| && params[j].direction != Out
      ensures Meant(def, params[j].ty, a[j]) == Meant(def, params[j].ty, b[j])
    {
      assert la[j - 0] == Passed(def, params[j].ty, a[j]) && lb[j - 0] == Passed(def, params[j].ty, b[j]);
      PassedExact(def, params[j].ty, a[j]);
      PassedExact(def, params[j].ty, b[j]);
    }
  }

  lemma LosesArgument(def: Definition, params: seq<Param>, args: seq<Val>, k: nat)
    requires |args| == |params| && Marshal(def, params, args, 0, Empty).Ok?
    requires k < |params| && params[k].direction != Out && !Carried(def, params[k].ty)
    requires CodecLaws.Supported(MetaTypeFor(def, params[k].ty), TypeMeta(def, params[k].ty))
    ensures !TellsApart(def, params)
  {
    hide Marshal, Enc, Inexact, Reading;
    var v, w := CodecLaws.Collision(MetaTypeFor(def, params[k].ty), TypeMeta(def, params[k].ty));
    MarshalReplaced(def, params, args, k, v, w, 0, Empty);
    var a, b := args[k := v], args[k := w];
    assert Meant(def, params[k].ty, a[k]) != Meant(def, params[k].ty, b[k]);
    assert !SameInputs(def, params, a, b);
  }

  /** For instance: an in parameter whose enum type comes from a required interface. */
  lemma ImportedEnumLost(n: int)
    requires InRange(true, 4, n)
    ensures var def := Definition([], map["Color" := Meta(Enum, I32, 4, NoMeta, U8, [])]);
            Marshal(def, [Param(Named("Color"), In)], [Num(n)], 0, Empty) == Ok(Empty)
  {
    var def := Definition([], map["Color" := Meta(Enum, I32, 4, NoMeta, U8, [])]);
    var p := Param(Named("Color"), In);
    assert Enc(Struct, TypeMeta(def, p.ty), Num(n)) == Ok([]);
    assert Empty.payload + [] == Empty.payload && MetaTypeFor(def, p.ty) == Struct;
    assert AppendParam(def, Empty, p, Num(n)) == Ok(Empty);
  }
}
