/** Which calls go through: a request can be marshalled exactly if its arguments are C values of
    their parameters' types and its handles fit, a reply exactly if the outputs are and fit, and
    a remote call returns exactly if both are so. */
module StubValues {
  import opened Bytes
  import opened CodecSpec
  import opened CodecValues
  import opened StubSpec
  import opened StubLaws

  /** v is a value of an interface type inside a payload. */
  ghost predicate HasType(def: Definition, ty: TypeName, v: Val)
    decreases ty
  {
    match ty
    case Base(k) => IsValue(k, NoMeta, v)
    case Named(name) => name in def.metas && def.metas[name].Meta? && IsValue(def.metas[name].kind, def.metas[name], v)
    case ArrayOf(e) =>
      && v.ArrVal? && |v.elems| < TWO32 && (v.elems != [] ==> NamedRoom(def, e, |v.elems|))
      && forall i | 0 <= i < |v.elems| :: HasType(def, e, v.elems[i])
  }

  /** Named structs take room, and fit the address space together. */
  predicate NamedRoom(def: Definition, ty: TypeName, count: nat)
  {
    ty.Named? && ty.name in def.metas && def.metas[ty.name].Meta? ==>
      Room(def.metas[ty.name].kind, def.metas[ty.name], count)
  }

  /** v is a value of a parameter's type that can travel, as a word, a handle or a payload. */
  ghost predicate Passable(def: Definition, ty: TypeName, v: Val)
  {
    match ty
    case Base(Handle) => v.HandleVal?
    case Base(LocalPtr) => v.Num? && 0 <= v.n < TWO64
    case Base(Bool) => v == Num(0) || v == Num(1)
    case Base(k) => IsValue(k, NoMeta, v)
    case ArrayOf(_) => HasType(def, ty, v)
    case Named(name) =>
      if Lookup(def.types, name).Some? && Lookup(def.types, name).value.isEnum then Int32(v)
      else name in def.metas && IsValue(Struct, def.metas[name], v)
  }

  /** A pointer is not passed in by value. */
  ghost predicate CanPass(def: Definition, p: Param, v: Val)
  {
    Passable(def, p.ty, v) && (p.direction == In ==> p.ty != Base(LocalPtr))
  }

  /** A uuid takes two words; handles and payloads none. */
  function Words(def: Definition, ty: TypeName): nat
  {
    match ty
    case Base(Uuid) => 2
    case Base(k) => if k in {Handle, Str, Bytes} then 0 else 1
    case ArrayOf(_) => 0
    case Named(name) => if Lookup(def.types, name).Some? && Lookup(def.types, name).value.isEnum then 1 else 0
  }

  function Handles(ty: TypeName): nat
  {
    if ty == Base(Handle) then 1 else 0
  }

  /** Words of the outputs from parameter i on. */
  function OutWords(def: Definition, params: seq<Param>, i: nat): nat
    requires i <= |params|
    decreases |params| - i
  {
    if i == |params| then 0
    else (if params[i].direction == In then 0 else Words(def, params[i].ty)) + OutWords(def, params, i + 1)
  }

  /** Handles that parameters i and up do not leave behind: not sent if `unsent`. */
  function HandlesFrom(params: seq<Param>, unsent: Direction, i: nat): nat
    requires i <= |params|
    decreases |params| - i
  {
    if i == |params| then 0
    else (if params[i].direction == unsent then 0 else Handles(params[i].ty)) + HandlesFrom(params, unsent, i + 1)
  }

  // ---------- types ----------

  /** The metadata the compiler emits for an interface type describes its values. */
  lemma {:induction false} TypeIff(def: Definition, ty: TypeName, v: Val)
    ensures var meta := TypeMeta(def, ty);
            IsValue(if meta.Meta? then meta.kind else MetaTypeFor(def, ty), meta, v) <==> HasType(def, ty, v)
    decreases ty, 0
  {
    if ty.ArrayOf? && v.ArrVal? {
      ArrayIff(def, ty.elem, v.elems);
    }
  }

  lemma {:induction false} ArrayIff(def: Definition, e: TypeName, vs: seq<Val>)
    ensures IsValue(Array, TypeMeta(def, ArrayOf(e)), ArrVal(vs)) <==> HasType(def, ArrayOf(e), ArrVal(vs))
    decreases e, 1
  {
    var meta := TypeMeta(def, e);
    var ek := if meta.Meta? then meta.kind else MetaTypeFor(def, e);
    forall i | 0 <= i < |vs| ensures IsValue(ek, meta, vs[i]) <==> HasType(def, e, vs[i]) {
      TypeIff(def, e, vs[i]);
    }
    ArrayOfIff(def, e, vs);
    RoomIff(def, e, |vs|);
  }

  /** By definition. */
  lemma ArrayOfIff(def: Definition, e: TypeName, vs: seq<Val>)
    ensures var meta := TypeMeta(def, e);
            var ek := if meta.Meta? then meta.kind else MetaTypeFor(def, e);
            IsValue(Array, TypeMeta(def, ArrayOf(e)), ArrVal(vs)) <==>
              && |vs| < TWO32
              && (vs == [] || (Room(ek, meta, |vs|) && forall i | 0 <= i < |vs| :: IsValue(ek, meta, vs[i])))
  {
  }

  lemma RoomIff(def: Definition, e: TypeName, count: nat)
    ensures var meta := TypeMeta(def, e);
            var ek := if meta.Meta? then meta.kind else MetaTypeFor(def, e);
            Room(ek, meta, count) <==> NamedRoom(def, e, count)
  {
  }

  // ---------- one parameter ----------

  /** A payload parameter can be encoded exactly if it is a value of its type. */
  lemma PayloadIff(def: Definition, ty: TypeName, v: Val)
    requires MetaTypeFor(def, ty) in {Str, Array, Struct}
    ensures Enc(MetaTypeFor(def, ty), TypeMeta(def, ty), v).Ok? <==> Passable(def, ty, v)
  {
    hide Enc;
    EncodesIff(MetaTypeFor(def, ty), TypeMeta(def, ty), v);
    if ty.ArrayOf? { TypeIff(def, ty, v); }
  }

  lemma WordIff(def: Definition, ty: TypeName, v: Val)
    requires MetaTypeFor(def, ty) !in {Str, Array, Struct, Handle, Uuid, Bytes}
    ensures HasWord(MetaTypeFor(def, ty), v) <==> Passable(def, ty, v)
  {
    hide InRange, Pow256;
    if v.Num? { Ranges(v.n); }
  }

  lemma AppendIff(def: Definition, m: Message, p: Param, v: Val)
    requires p.direction != Out && |m.words| <= MAX_WORDS && |m.handles| <= MAX_ATTACHMENTS
    ensures AppendParam(def, m, p, v).Ok? <==>
              && CanPass(def, p, v) && |m.words| + Words(def, p.ty) <= MAX_WORDS
              && |m.handles| + Handles(p.ty) <= MAX_ATTACHMENTS
    ensures AppendParam(def, m, p, v).Ok? ==>
              var n := AppendParam(def, m, p, v).value;
              |n.words| == |m.words| + Words(def, p.ty) && |n.handles| == |m.handles| + Handles(p.ty)
  {
    hide Enc, HasWord, TypeMeta, HasType, FromLittleEndian;
    var kind := MetaTypeFor(def, p.ty);
    if kind in {Str, Array, Struct} {
      PayloadIff(def, p.ty, v);
    } else if kind !in {Handle, Uuid, Bytes} {
      WordIff(def, p.ty, v);
    }
  }

  lemma StoreIff(def: Definition, ty: TypeName, i: nat, v: Val, m: Message)
    requires |m.words| <= MAX_WORDS && |m.handles| <= MAX_ATTACHMENTS
    ensures Store(StoreOf(def, ty, i), v, m).Ok? <==>
              && Passable(def, ty, v) && |m.words| + Words(def, ty) <= MAX_WORDS
              && |m.handles| + Handles(ty) <= MAX_ATTACHMENTS
    ensures Store(StoreOf(def, ty, i), v, m).Ok? ==>
              var n := Store(StoreOf(def, ty, i), v, m).value;
              |n.words| == |m.words| + Words(def, ty) && |n.handles| == |m.handles| + Handles(ty)
  {
    hide Enc, HasWord;
    BytesRefused(v);
    var kind := MetaTypeFor(def, ty);
    if kind in {Str, Array, Struct} {
      PayloadIff(def, ty, v);
    } else if kind !in {Handle, Uuid, Bytes} {
      WordIff(def, ty, v);
    }
  }

  // ---------- requests and replies ----------

  /** A request can be marshalled exactly if every in and inout argument is a value of its type, and
      the handles are at most eight; 32 parameters always fit the words. */
  lemma {:induction false} MarshalIff(def: Definition, params: seq<Param>, args: seq<Val>, i: nat, m: Message)
    requires |args| == |params| <= MAX_PARAMS && i <= |params|
    requires |m.words| <= 2 * i && |m.handles| <= MAX_ATTACHMENTS
    ensures Marshal(def, params, args, i, m).Ok? <==>
              && (forall j | i <= j < |params| && params[j].direction != Out :: CanPass(def, params[j], args[j]))
              && |m.handles| + HandlesFrom(params, Out, i) <= MAX_ATTACHMENTS
    decreases |params| - i
  {
    hide AppendParam, CanPass, Words, Handles;
    if i < |params| {
      var p := params[i];
      var r := AppendParam(def, m, p, args[i]);
      TwoWords(def, p.ty);
      if p.direction == Out {
        OutAppends(def, m, p, args[i]);
        MarshalIff(def, params, args, i + 1, m);
      } else {
        AppendIff(def, m, p, args[i]);
        if r.Ok? { MarshalIff(def, params, args, i + 1, r.value); }
      }
    }
  }

  lemma TwoWords(def: Definition, ty: TypeName)
    ensures Words(def, ty) <= 2 && Handles(ty) <= 1
  {
  }

  lemma OutAppends(def: Definition, m: Message, p: Param, v: Val)
    ensures p.direction == Out ==> AppendParam(def, m, p, v) == Ok(m)
  {
  }

  lemma {:induction false} StoresIff(def: Definition, params: seq<Param>, values: seq<Val>, i: nat, m: Message)
    requires |values| == |params| && i <= |params|
    requires |m.words| <= MAX_WORDS && |m.handles| <= MAX_ATTACHMENTS
    ensures RunStores(Stores(def, params, i), values, m).Ok? <==>
              && (forall j | i <= j < |params| && params[j].direction != In :: Passable(def, params[j].ty, values[j]))
              && |m.words| + OutWords(def, params, i) <= MAX_WORDS
              && |m.handles| + HandlesFrom(params, In, i) <= MAX_ATTACHMENTS
    decreases |params| - i
  {
    hide Store, StoreOf, Stores, RunStores, Passable, Words, Handles;
    if i < |params| {
      var p := params[i];
      StoresStep(def, params, i, values, m);
      if p.direction == In {
        StoresIff(def, params, values, i + 1, m);
      } else {
        var r := Store(StoreOf(def, p.ty, i), values[i], m);
        StoreIff(def, p.ty, i, values[i], m);
        if r.Ok? { StoresIff(def, params, values, i + 1, r.value); }
      }
    } else {
      NoStores(def, params, values, m);
    }
  }

  // ---------- the whole call ----------

  /** The arguments can be sent. */
  ghost predicate Callable(def: Definition, params: seq<Param>, args: seq<Val>)
    requires |args| == |params|
  {
    && (forall j | 0 <= j < |params| && params[j].direction != Out :: CanPass(def, params[j], args[j]))
    && HandlesFrom(params, Out, 0) <= MAX_ATTACHMENTS
  }

  /** The outputs can be sent back behind the result code. */
  ghost predicate Returnable(def: Definition, params: seq<Param>, values: seq<Val>)
    requires |values| == |params|
  {
    && (forall j | 0 <= j < |params| && params[j].direction != In :: Passable(def, params[j].ty, values[j]))
    && 1 + OutWords(def, params, 0) <= MAX_WORDS
    && HandlesFrom(params, In, 0) <= MAX_ATTACHMENTS
  }

  /** A remote call returns if and only if the arguments are values of their types with at most
      eight handles, and so are the outputs, with at most 63 words. It then returns the method's
      result and outputs. */
  lemma RemoteCallIff(def: Definition, params: seq<Param>, args: seq<Val>, impl: seq<Val> -> Answer)
    requires |args| == |params| <= MAX_PARAMS
    requires var answer := impl(Locals(def, params, args, 0));
             |answer.locals| == |params| && InRange(true, 4, answer.result)
    ensures var answer := impl(Locals(def, params, args, 0));
            && (RemoteCall(def, params, args, impl).Ok? <==>
                  Callable(def, params, args) && Returnable(def, params, answer.locals))
            && (RemoteCall(def, params, args, impl).Ok? ==>
                  RemoteCall(def, params, args, impl) ==
                  Ok(Returned(answer.result,
                              if answer.result == 0 then Received(def, params, answer.locals, 0) else [])))
  {
    hide Marshal, Emit, Serve, Finish, Locals, Received, CanPass, Passable, Stores, RunStores, InRange;
    var answer := impl(Locals(def, params, args, 0));
    MarshalIff(def, params, args, 0, Empty);
    StoresIff(def, params, answer.locals, 0, Message([answer.result % U64_LIMIT], [], []));
    if Marshal(def, params, args, 0, Empty).Ok? {
      ServedAsPassed(def, params, args, Marshal(def, params, args, 0, Empty).value, impl);
      if ReplyTo(def, params, answer).Ok? { RemoteCallPasses(def, params, args, impl); }
    }
  }

  // ---------- requests from anyone ----------

  lemma {:induction false} LoadsCount(code: seq<Instr>, m: Message, offset: nat)
    requires offset <= |m.payload|
    ensures var r := RunLoads(code, m, offset); r.Ok? ==> |r.value| == |code|
    decreases |code|
  {
    hide Load;
    if code != [] {
      var l := Load(code[0], m, offset);
      if l.Ok? { LoadsCount(code[1..], m, l.value.offset); }
    }
  }

  /** Whatever message arrives, a stub refuses any other number of words than its signature has,
      and neither reads nor writes outside a message. */
  lemma ServeInBounds(def: Definition, params: seq<Param>, m: Message, impl: seq<Val> -> Answer)
    requires |params| <= MAX_PARAMS
    requires forall ls: seq<Val> | |ls| == |params| :: |impl(ls).locals| == |params|
    ensures |Emit(def, params)| >= |params| + 2 && Emit(def, params)[0].CheckWords?
    ensures var r := Serve(Emit(def, params), |params|, m, impl);
            && r != Err(Overrun)
            && (|m.words| != InputWords(def, params) ==> r == Err(ProtocolError))
  {
    hide Loads, Stores, RunLoads, RunStores, InputWords, Emit;
    EmitParts(def, params);
    if |m.words| == InputWords(def, params) {
      NoInputWords(def, params);
      LoadsInBounds(def, params, 0, 0, m, 0);
      var code := Loads(def, params, 0, 0, 0);
      LoadsCount(code, m, 0);
      var r := RunLoads(code, m, 0);
      if r.Ok? {
        var answer := impl(r.value);
        StoresInBounds(def, params, 0, answer.locals, Message([answer.result % U64_LIMIT], [], []));
      }
    }
  }
}
