/** One method call across the wire: the request the metadata-driven proxy marshals, the server
    stub the interface compiler emits from the same signature, and the reply in between. The
    emitted stub is a list of instructions. */
module StubSpec {
  import opened Bytes
  import opened CodecSpec

  const MAX_WORDS := 64
  const MAX_ATTACHMENTS := 8
  const MAX_PARAMS := 32

  type word = w: int | 0 <= w < U64_LIMIT

  // ---------- the interface definition ----------

  /** Kinds with a name of their own in the interface language. */
  type BaseKind = k: Kind | k !in {Enum, Struct, Array} witness U8

  datatype TypeName = Base(kind: BaseKind) | Named(name: string) | ArrayOf(elem: TypeName)

  datatype TypeDecl = TypeDecl(name: string, isEnum: bool)

  /** The types an interface declares itself, and the metadata every type name is linked to,
      here or in the interfaces it requires. */
  datatype Definition = Definition(types: seq<TypeDecl>, metas: map<string, Meta>)

  datatype Direction = In | Out | InOut

  datatype Param = Param(ty: TypeName, direction: Direction)

  predicate WordKind(k: Kind)
  {
    Width(k) > 0 || k == Bool || k == LocalPtr
  }

  function Lookup(types: seq<TypeDecl>, name: string): Option<TypeDecl>
  {
    if types == [] then None else if types[0].name == name then Some(types[0]) else Lookup(types[1..], name)
  }

  /** meta_type_for: a name this interface does not declare counts as a struct. */
  function MetaTypeFor(def: Definition, ty: TypeName): Kind
  {
    match ty
    case Base(k) => k
    case ArrayOf(_) => Array
    case Named(name) =>
      var decl := Lookup(def.types, name);
      if decl.Some? && decl.value.isEnum then Enum else Struct
  }

  /** payload_type_for */
  predicate PayloadTypeFor(def: Definition, ty: TypeName)
  {
    match ty
    case Base(k) => !WordKind(k) && k != Uuid && k != Handle
    case ArrayOf(_) => true
    case Named(name) =>
      var decl := Lookup(def.types, name);
      decl.Some? ==> !decl.value.isEnum
  }

  /** What the emitted symbol for the type's metadata refers to. */
  function TypeMeta(def: Definition, ty: TypeName): Meta
  {
    match ty
    case Base(_) => NoMeta
    case Named(name) => if name in def.metas then def.metas[name] else NoMeta
    case ArrayOf(e) => Meta(Array, U8, 16, TypeMeta(def, e), MetaTypeFor(def, e), [])
  }

  // ---------- messages ----------

  datatype Message = Message(words: seq<word>, handles: seq<nat>, payload: seq<byte>)

  const Empty := Message([], [], [])

  /** The C type of a parameter that travels as one word. */
  predicate HasWord(kind: Kind, v: Val)
  {
    && v.Num?
    && match kind
       case Bool => v.n in {0, 1}
       case Enum => InRange(true, 4, v.n)
       case LocalPtr => 0 <= v.n < U64_LIMIT
       case _ => Width(kind) > 0 && InRange(Signed(kind), Width(kind), v.n)
  }

  function AddWord(m: Message, w: word): Result<Message>
  {
    if |m.words| >= MAX_WORDS then Err(NotSupported) else Ok(m.(words := m.words + [w]))
  }

  function AddUuid(m: Message, uuid: seq<byte>): Result<Message>
    requires |uuid| == 16
  {
    PowTable();
    if |m.words| + 2 > MAX_WORDS then Err(NotSupported)
    else Ok(m.(words := m.words + [FromLittleEndian(uuid[..8]), FromLittleEndian(uuid[8..])]))
  }

  function AddHandle(m: Message, handle: nat): Result<Message>
  {
    if |m.handles| >= MAX_ATTACHMENTS then Err(NotSupported) else Ok(m.(handles := m.handles + [handle]))
  }

  function AddPayload(m: Message, kind: Kind, meta: Meta, v: Val): Result<Message>
  {
    match Enc(kind, meta, v)
    case Ok(bs) => Ok(m.(payload := m.payload + bs))
    case Err(IllTyped) => Err(IllTyped)
    case Err(_) => Err(NotSupported)
  }

  /** The word append_input passes for an in parameter: unsigned, bool and enum arguments
      through unsigned int, signed ones sign-extended. */
  function InWord(kind: Kind, n: int): word
  {
    if kind in {U8, U16, U32, Bool, Enum} then n % U32_LIMIT else n % U64_LIMIT
  }

  /** append_input */
  function AppendInput(m: Message, kind: Kind, meta: Meta, v: Val): Result<Message>
  {
    if kind in {Str, Array, Struct} then AddPayload(m, kind, meta, v)
    else if kind == Handle then if v.HandleVal? then AddHandle(m, v.handle) else Err(IllTyped)
    else if kind == Uuid then if v.UuidVal? && |v.uuid| == 16 then AddUuid(m, v.uuid) else Err(IllTyped)
    else if kind in {LocalPtr, Bytes} then Err(NotSupported)
    else if HasWord(kind, v) then AddWord(m, InWord(kind, v.n)) else Err(IllTyped)
  }

  /** append_input_value, for an inout parameter read through its pointer: an enum is read as
      an int32_t and sign-extended. */
  function AppendInputValue(m: Message, kind: Kind, meta: Meta, v: Val): Result<Message>
  {
    if kind in {Str, Array, Struct} then AddPayload(m, kind, meta, v)
    else if kind == Handle then if v.HandleVal? then AddHandle(m, v.handle) else Err(IllTyped)
    else if kind == Uuid then if v.UuidVal? && |v.uuid| == 16 then AddUuid(m, v.uuid) else Err(IllTyped)
    else if kind == Bytes then Err(NotSupported)
    else if HasWord(kind, v) then AddWord(m, v.n % U64_LIMIT) else Err(IllTyped)
  }

  function AppendParam(def: Definition, m: Message, p: Param, v: Val): Result<Message>
  {
    var kind, meta := MetaTypeFor(def, p.ty), TypeMeta(def, p.ty);
    match p.direction
    case In => AppendInput(m, kind, meta, v)
    case InOut => AppendInputValue(m, kind, meta, v)
    case Out => Ok(m)
  }

  /** The request for parameters i and up, added to m. */
  function Marshal(def: Definition, params: seq<Param>, args: seq<Val>, i: nat, m: Message): Result<Message>
    requires |args| == |params| && i <= |params|
    decreases |params| - i
  {
    if i == |params| then Ok(m)
    else
      match AppendParam(def, m, params[i], args[i])
      case Ok(m') => Marshal(def, params, args, i + 1, m')
      case Err(e) => Err(e)
  }

  // ---------- the emitted stub ----------

  datatype Instr =
    | CheckWords(count: nat)                // word_count must be exactly this
    | LoadHandle(index: nat)
    | LoadUuid(index: nat)
    | LoadPayload(kind: Kind, meta: Meta)
    | LoadWord(kind: Kind, index: nat)      // cast to the parameter's C type
    | Declare(kind: Kind, meta: Meta)       // an out parameter, zero-initialised
    | Call
    | StorePayload(local: nat, kind: Kind, meta: Meta)
    | StoreHandle(local: nat)
    | StoreUuid(local: nat)
    | StoreWord(local: nat, kind: Kind)     // cast to uint64_t

  /** Words a parameter takes in the request. */
  function WordsOf(def: Definition, p: Param): nat
  {
    if p.direction == Out || p.ty == Base(Handle) then 0
    else if p.ty == Base(Uuid) then 2
    else if PayloadTypeFor(def, p.ty) then 0 else 1
  }

  function HandlesOf(p: Param): nat
  {
    if p.direction != Out && p.ty == Base(Handle) then 1 else 0
  }

  function InputWords(def: Definition, params: seq<Param>): nat
  {
    if params == [] then 0
    else InputWords(def, params[..|params| - 1]) + WordsOf(def, params[|params| - 1])
  }

  function LoadOf(def: Definition, p: Param, wordIndex: nat, handleIndex: nat): Instr
  {
    var kind, meta := MetaTypeFor(def, p.ty), TypeMeta(def, p.ty);
    if p.direction == Out then Declare(kind, meta)
    else if p.ty == Base(Handle) then LoadHandle(handleIndex)
    else if p.ty == Base(Uuid) then LoadUuid(wordIndex)
    else if PayloadTypeFor(def, p.ty) then LoadPayload(kind, meta)
    else LoadWord(kind, wordIndex)
  }

  function Loads(def: Definition, params: seq<Param>, i: nat, wordIndex: nat, handleIndex: nat): (code: seq<Instr>)
    requires i <= |params|
    ensures |code| == |params| - i
    decreases |params| - i
  {
    if i == |params| then []
    else
      [LoadOf(def, params[i], wordIndex, handleIndex)]
      + Loads(def, params, i + 1, wordIndex + WordsOf(def, params[i]), handleIndex + HandlesOf(params[i]))
  }

  function StoreOf(def: Definition, ty: TypeName, i: nat): Instr
  {
    var kind, meta := MetaTypeFor(def, ty), TypeMeta(def, ty);
    if PayloadTypeFor(def, ty) then StorePayload(i, kind, meta)
    else if ty == Base(Handle) then StoreHandle(i)
    else if ty == Base(Uuid) then StoreUuid(i)
    else StoreWord(i, kind)
  }

  function Stores(def: Definition, params: seq<Param>, i: nat): seq<Instr>
    requires i <= |params|
    decreases |params| - i
  {
    if i == |params| then []
    else if params[i].direction == In then Stores(def, params, i + 1)
    else [StoreOf(def, params[i].ty, i)] + Stores(def, params, i + 1)
  }

  /** emit_server_method */
  function Emit(def: Definition, params: seq<Param>): seq<Instr>
  {
    [CheckWords(InputWords(def, params))] + Loads(def, params, 0, 0, 0) + [Call] + Stores(def, params, 0)
  }

  // ---------- running a stub ----------

  /** A word cast to the C type of a parameter. */
  function CastWord(kind: Kind, w: word): int
  {
    match kind
    case Bool => if w != 0 then 1 else 0
    case Enum => DecInt(true, LittleEndian(w, 4))
    case LocalPtr => w
    case _ => DecInt(Signed(kind), LittleEndian(w, Width(kind)))
  }

  /** A zero-initialised C object. */
  function Zero(kind: Kind): Val
  {
    match kind
    case Handle => HandleVal(0)
    case Uuid => UuidVal(seq(16, i => 0))
    case Str => StrVal([])
    case Array => ArrVal([])
    case Struct => StructVal([])
    case _ => Num(0)
  }

  /** A loaded local, and the payload offset behind it. */
  datatype Loaded = Loaded(value: Val, offset: nat)

  function Load(instr: Instr, m: Message, offset: nat): (r: Result<Loaded>)
    requires offset <= |m.payload|
    ensures r.Ok? ==> r.value.offset <= |m.payload|
  {
    match instr
    case LoadHandle(k) =>
      if |m.handles| <= k then Err(ProtocolError) else Ok(Loaded(HandleVal(m.handles[k]), offset))
    case LoadUuid(k) =>
      if |m.words| < k + 2 then Err(Overrun)
      else Ok(Loaded(UuidVal(LittleEndian(m.words[k], 8) + LittleEndian(m.words[k + 1], 8)), offset))
    case LoadPayload(kind, meta) =>
      (match Dec(kind, meta, m.payload[offset..])
       case Ok(d) => Ok(Loaded(d.value, offset + d.used))
       case Err(_) => Err(ProtocolError))
    case LoadWord(kind, k) =>
      if |m.words| <= k then Err(Overrun) else Ok(Loaded(Num(CastWord(kind, m.words[k])), offset))
    case Declare(kind, meta) => Ok(Loaded(Zero(kind), offset))
    case _ => Err(NotSupported)
  }

  /** Runs load instructions from a payload offset on, one local each. */
  function RunLoads(code: seq<Instr>, m: Message, offset: nat): Result<seq<Val>>
    requires offset <= |m.payload|
    decreases |code|
  {
    if code == [] then Ok([])
    else
      match Load(code[0], m, offset)
      case Err(e) => Err(e)
      case Ok(l) =>
        match RunLoads(code[1..], m, l.offset)
        case Err(e) => Err(e)
        case Ok(locals) => Ok([l.value] + locals)
  }

  /** The word the stub replies for an output: the value cast to uint64_t; the C enums the
      compiler declares are unsigned. */
  function OutWord(kind: Kind, n: int): word
  {
    if kind == Enum then n % U32_LIMIT else n % U64_LIMIT
  }

  /** One store into the reply. A word store is not guarded by a bound. */
  function Store(instr: Instr, v: Val, reply: Message): Result<Message>
  {
    match instr
    case StorePayload(_, kind, meta) =>
      (match AddPayload(reply, kind, meta, v) case Err(NotSupported) => Err(ProtocolError) case r => r)
    case StoreHandle(_) =>
      if !v.HandleVal? then Err(IllTyped)
      else if |reply.handles| >= MAX_ATTACHMENTS then Err(BufferTooSmall)
      else AddHandle(reply, v.handle)
    case StoreUuid(_) =>
      if !v.UuidVal? || |v.uuid| != 16 then Err(IllTyped)
      else if |reply.words| > MAX_WORDS - 2 then Err(BufferTooSmall)
      else AddUuid(reply, v.uuid)
    case StoreWord(_, kind) =>
      if !HasWord(kind, v) then Err(IllTyped)
      else if |reply.words| >= MAX_WORDS then Err(Overrun)
      else AddWord(reply, OutWord(kind, v.n))
    case _ => Err(NotSupported)
  }

  predicate IsStore(instr: Instr)
  {
    instr.StorePayload? || instr.StoreHandle? || instr.StoreUuid? || instr.StoreWord?
  }

  function RunStores(code: seq<Instr>, locals: seq<Val>, reply: Message): Result<Message>
    decreases |code|
  {
    if code == [] then Ok(reply)
    else if !IsStore(code[0]) || code[0].local >= |locals| then Err(NotSupported)
    else
      match Store(code[0], locals[code[0].local], reply)
      case Ok(r) => RunStores(code[1..], locals, r)
      case Err(e) => Err(e)
  }

  /** What the method's implementation leaves behind: its result code, and the parameters
      after the call. */
  datatype Answer = Answer(result: int, locals: seq<Val>)

  /** Runs an emitted stub with n parameters on a request. */
  function Serve(code: seq<Instr>, n: nat, m: Message, impl: seq<Val> -> Answer): Result<Message>
    requires |code| >= n + 2 && code[0].CheckWords?
  {
    if |m.words| != code[0].count then Err(ProtocolError)
    else
      match RunLoads(code[1..n + 1], m, 0)
      case Err(e) => Err(e)
      case Ok(locals) =>
        var answer := impl(locals);
        RunStores(code[n + 2..], answer.locals, Message([answer.result % U64_LIMIT], [], []))
  }

  // ---------- reading the reply ----------

  /** Cursors into the reply: next word, next handle, payload offset. */
  datatype Cursor = Cursor(wordIndex: nat, handleIndex: nat, offset: nat)

  datatype Taken = Taken(value: Val, next: Cursor)

  /** assign_output */
  function Take(kind: Kind, meta: Meta, reply: Message, c: Cursor): (r: Result<Taken>)
    requires c.offset <= |reply.payload|
    ensures r.Ok? ==> r.value.next.offset <= |reply.payload|
  {
    if kind == Handle then
      if c.handleIndex >= |reply.handles| then Err(ProtocolError)
      else Ok(Taken(HandleVal(reply.handles[c.handleIndex]), c.(handleIndex := c.handleIndex + 1)))
    else if kind in {Str, Array, Struct} then
      match Dec(kind, meta, reply.payload[c.offset..])
      case Ok(d) => Ok(Taken(d.value, c.(offset := c.offset + d.used)))
      case Err(_) => Err(ProtocolError)
    else if kind == Uuid then
      if c.wordIndex + 2 > |reply.words| then Err(ProtocolError)
      else
        var uuid := LittleEndian(reply.words[c.wordIndex], 8) + LittleEndian(reply.words[c.wordIndex + 1], 8);
        Ok(Taken(UuidVal(uuid), c.(wordIndex := c.wordIndex + 2)))
    else if c.wordIndex >= |reply.words| || kind == Bytes then Err(ProtocolError)
    else Ok(Taken(Num(CastWord(kind, reply.words[c.wordIndex])), c.(wordIndex := c.wordIndex + 1)))
  }

  /** The outputs of parameters i and up. */
  function Collect(def: Definition, params: seq<Param>, i: nat, reply: Message, c: Cursor): Result<seq<Val>>
    requires i <= |params| && c.offset <= |reply.payload|
    decreases |params| - i
  {
    if i == |params| then Ok([])
    else if params[i].direction == In then Collect(def, params, i + 1, reply, c)
    else
      match Take(MetaTypeFor(def, params[i].ty), TypeMeta(def, params[i].ty), reply, c)
      case Err(e) => Err(e)
      case Ok(t) =>
        match Collect(def, params, i + 1, reply, t.next)
        case Err(e) => Err(e)
        case Ok(vs) => Ok([t.value] + vs)
  }

  /** The values of the out and inout parameters i and up. */
  function Outputs(params: seq<Param>, values: seq<Val>, i: nat): seq<Val>
    requires |values| == |params| && i <= |params|
    decreases |params| - i
  {
    if i == |params| then []
    else (if params[i].direction == In then [] else [values[i]]) + Outputs(params, values, i + 1)
  }

  /** What a proxy call returns: the method's result code, and its outputs if that is FACET_OK. */
  datatype Returned = Returned(result: int, outputs: seq<Val>)

  /** What libfacet_proxy_client_call makes of a reply. */
  function Finish(def: Definition, params: seq<Param>, reply: Message): Result<Returned>
  {
    if reply.words == [] then Err(ProtocolError)
    else
      var result := CastWord(I32, reply.words[0]);
      if result != 0 then Ok(Returned(result, []))
      else
        match Collect(def, params, 0, reply, Cursor(1, 0, 0))
        case Err(e) => Err(e)
        case Ok(vs) => Ok(Returned(0, vs))
  }

  /** libfacet_proxy_client_call over a transport that delivers messages unchanged. */
  function RemoteCall(def: Definition, params: seq<Param>, args: seq<Val>, impl: seq<Val> -> Answer): Result<Returned>
    requires |args| == |params|
  {
    match Marshal(def, params, args, 0, Empty)
    case Err(e) => Err(e)
    case Ok(request) =>
      match Serve(Emit(def, params), |params|, request, impl)
      case Err(e) => Err(e)
      case Ok(reply) => Finish(def, params, reply)
  }
}
