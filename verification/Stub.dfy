/** The stub compiler and the proxy as they run. */
module Stub {
  import opened Bytes
  import opened CodecSpec
  import opened StubSpec
  import opened StubLaws
  import opened Codec

  // ---------- facet-idlc ----------

  lemma LoadsStep(def: Definition, params: seq<Param>, i: nat, wordIndex: nat, handleIndex: nat, code: seq<Instr>)
    requires i < |params|
    ensures code + Loads(def, params, i, wordIndex, handleIndex)
            == code + [LoadOf(def, params[i], wordIndex, handleIndex)]
               + Loads(def, params, i + 1, wordIndex + WordsOf(def, params[i]), handleIndex + HandlesOf(params[i]))
  {
  }

  lemma StoresAppend(def: Definition, params: seq<Param>, i: nat, code: seq<Instr>)
    requires i < |params|
    ensures code + Stores(def, params, i)
            == (if params[i].direction == In then code else code + [StoreOf(def, params[i].ty, i)])
               + Stores(def, params, i + 1)
  {
  }

  /** Emits the server stub of a method, numbering words and handles as it goes. */
  method EmitServerMethod(def: Definition, params: seq<Param>) returns (code: seq<Instr>)
    ensures code == Emit(def, params)
  {
    hide Emit, Loads, Stores, LoadOf, StoreOf, MetaTypeFor, TypeMeta, InputWords;
    var inputWords := CountInputWords(def, params);
    code := [CheckWords(inputWords)];
    var wordIndex, handleIndex := 0, 0;
    ghost var loads := code + Loads(def, params, 0, 0, 0);
    for i := 0 to |params|
      invariant loads == code + Loads(def, params, i, wordIndex, handleIndex)
    {
      var p := params[i];
      LoadsStep(def, params, i, wordIndex, handleIndex, code);
      var load;
      load, wordIndex, handleIndex := EmitLoad(def, p, wordIndex, handleIndex);
      code := code + [load];
    }
    NothingLeft(def, params);
    assert code + [] == code;
    code := code + [Call];
    ghost var all := code + Stores(def, params, 0);
    for i := 0 to |params|
      invariant all == code + Stores(def, params, i)
    {
      StoresAppend(def, params, i, code);
      if params[i].direction != In {
        var store := EmitStore(def, params[i].ty, i);
        code := code + [store];
      }
    }
    assert code + [] == code;
    EmitIs(def, params);
  }

  method EmitStore(def: Definition, ty: TypeName, i: nat) returns (store: Instr)
    ensures store == StoreOf(def, ty, i)
  {
    if PayloadTypeFor(def, ty) {
      store := StorePayload(i, MetaTypeFor(def, ty), TypeMeta(def, ty));
    } else if ty == Base(Handle) {
      store := StoreHandle(i);
    } else if ty == Base(Uuid) {
      store := StoreUuid(i);
    } else {
      store := StoreWord(i, MetaTypeFor(def, ty));
    }
  }

  lemma NothingLeft(def: Definition, params: seq<Param>)
    ensures forall w, h :: Loads(def, params, |params|, w, h) == []
    ensures Stores(def, params, |params|) == []
  {
  }

  lemma EmitIs(def: Definition, params: seq<Param>)
    ensures Emit(def, params) ==
            [CheckWords(InputWords(def, params))] + Loads(def, params, 0, 0, 0) + [Call] + Stores(def, params, 0)
  {
  }

  method CountInputWords(def: Definition, params: seq<Param>) returns (n: nat)
    ensures n == InputWords(def, params)
  {
    n := 0;
    assert params[..0] == [];
    for i := 0 to |params|
      invariant n == InputWords(def, params[..i])
    {
      InputWordsFrom(def, params, i);
      var p := params[i];
      if p.direction != Out {
        if p.ty != Base(Handle) && p.ty != Base(Uuid) && !PayloadTypeFor(def, p.ty) {
          n := n + 1;
        } else if p.ty == Base(Uuid) {
          n := n + 2;
        }
      }
    }
    assert params[..|params|] == params;
  }

  method EmitLoad(def: Definition, p: Param, wordIndex: nat, handleIndex: nat)
    returns (load: Instr, nextWord: nat, nextHandle: nat)
    ensures load == LoadOf(def, p, wordIndex, handleIndex)
    ensures nextWord == wordIndex + WordsOf(def, p) && nextHandle == handleIndex + HandlesOf(p)
  {
    nextWord, nextHandle := wordIndex, handleIndex;
    var kind, meta := MetaTypeFor(def, p.ty), TypeMeta(def, p.ty);
    if p.direction != Out && p.ty == Base(Handle) {
      load := LoadHandle(nextHandle);
      nextHandle := nextHandle + 1;
    } else if p.direction != Out && p.ty == Base(Uuid) {
      load := LoadUuid(nextWord);
      nextWord := nextWord + 2;
    } else if p.direction != Out && PayloadTypeFor(def, p.ty) {
      load := LoadPayload(kind, meta);
    } else if p.direction != Out {
      load := LoadWord(kind, nextWord);
      nextWord := nextWord + 1;
    } else {
      load := Declare(kind, meta);
    }
  }

  // ---------- the proxy ----------

  /** A request under construction. */
  class Request {
    var words: seq<word>
    var handles: seq<nat>
    const payload: Codec

    ghost predicate Valid()
      reads this, payload
    {
      payload.Valid() && |words| <= MAX_WORDS && |handles| <= MAX_ATTACHMENTS
    }

    ghost function View(): Message
      requires Valid()
      reads this, payload, payload.data
    {
      Message(words, handles, payload.Contents())
    }

    constructor ()
      ensures Valid() && View() == Empty && fresh(payload) && fresh(payload.data)
    {
      words, handles := [], [];
      payload := new Codec(256);
    }

    method AppendWord(w: word) returns (ok: bool)
      requires Valid()
      modifies this
      ensures Valid()
      ensures if ok then AddWord(old(View()), w) == Ok(View())
              else AddWord(old(View()), w).Err? && View() == old(View())
    {
      if |words| >= MAX_WORDS { return false; }
      words := words + [w];
      ok := true;
    }

    method AppendUuid(uuid: seq<byte>) returns (ok: bool)
      requires Valid() && |uuid| == 16
      modifies this
      ensures Valid()
      ensures if ok then AddUuid(old(View()), uuid) == Ok(View()) else AddUuid(old(View()), uuid).Err?
    {
      PowTable();
      hide FromLittleEndian;
      ok := AppendWord(FromLittleEndian(uuid[..8]));
      if ok { ok := AppendWord(FromLittleEndian(uuid[8..])); }
      assert ok ==> words == old(words) + [FromLittleEndian(uuid[..8]), FromLittleEndian(uuid[8..])];
    }

    method AppendHandle(handle: nat) returns (ok: bool)
      requires Valid()
      modifies this
      ensures Valid()
      ensures if ok then AddHandle(old(View()), handle) == Ok(View()) else AddHandle(old(View()), handle).Err?
    {
      if |handles| >= MAX_ATTACHMENTS { return false; }
      handles := handles + [handle];
      ok := true;
    }

    /** Fails if the value cannot be encoded, or for lack of memory; the result says which, though
        the C code reports both alike. */
    method AppendPayload(kind: Kind, meta: Meta, v: Val) returns (r: Status)
      requires Valid() && AddPayload(View(), kind, meta, v) != Err(IllTyped)
      modifies payload, payload.data
      ensures Valid() && (payload.data == old(payload.data) || fresh(payload.data))
      ensures r == Done ==> AddPayload(old(View()), kind, meta, v) == Ok(View())
      ensures r.Failed? ==> Lacking(r) || AddPayload(old(View()), kind, meta, v).Err?
      ensures r.Failed? ==> old(payload.Contents()) <= payload.Contents()
    {
      hide Enc;
      r := payload.EncodeValue(kind, meta, v);
    }

    /** append_input and append_input_value: they differ in how a word is widened and in
        whether a local pointer may be passed. */
    method Append(kind: Kind, meta: Meta, v: Val, inout: bool) returns (r: Status)
      requires Valid() && Appended(inout, View(), kind, meta, v) != Err(IllTyped)
      modifies this, payload, payload.data
      ensures Valid() && (payload.data == old(payload.data) || fresh(payload.data))
      ensures r == Done ==> Appended(inout, old(View()), kind, meta, v) == Ok(View())
      ensures r.Failed? ==>
                (Lacking(r) && kind in {Str, Array, Struct}) || Appended(inout, old(View()), kind, meta, v).Err?
    {
      hide Enc, HasWord;
      if kind in {Str, Array, Struct} {
        r := AppendPayload(kind, meta, v);
        return;
      }
      var ok;
      if kind == Handle {
        ok := AppendHandle(v.handle);
      } else if kind == Uuid {
        ok := AppendUuid(v.uuid);
      } else if kind == Bytes || (kind == LocalPtr && !inout) {
        ok := false;
      } else {
        WordIsNumber(kind, v);
        ok := AppendWord(if inout then v.n % U64_LIMIT else InWord(kind, v.n));
      }
      r := if ok then Done else Failed(NotSupported);
    }

    /** The first loop of libfacet_proxy_client_call. */
    method MarshalCall(def: Definition, params: seq<Param>, args: seq<Val>) returns (r: Status)
      requires Valid() && View() == Empty
      requires |args| == |params| && Marshal(def, params, args, 0, Empty) != Err(IllTyped)
      modifies this, payload, payload.data
      ensures Valid() && (payload.data == old(payload.data) || fresh(payload.data))
      ensures r == Done ==> Marshal(def, params, args, 0, Empty) == Ok(View())
      ensures r.Failed? ==> Lacking(r) || Marshal(def, params, args, 0, Empty).Err?
    {
      hide AppendInput, AppendInputValue, MetaTypeFor, TypeMeta;
      for i := 0 to |params|
        invariant Valid() && (payload.data == old(payload.data) || fresh(payload.data))
        invariant Marshal(def, params, args, 0, Empty) == Marshal(def, params, args, i, View())
      {
        var p := params[i];
        if p.direction != Out {
          r := Append(MetaTypeFor(def, p.ty), TypeMeta(def, p.ty), args[i], p.direction == InOut);
          if r.Failed? { return; }
        }
      }
      r := Done;
    }
  }

  /** Memory or buffer space ran out. */
  predicate Lacking(r: Status)
  {
    r.Failed? && r.code in {OutOfMemory, BufferTooSmall}
  }

  function Appended(inout: bool, m: Message, kind: Kind, meta: Meta, v: Val): Result<Message>
  {
    if inout then AppendInputValue(m, kind, meta, v) else AppendInput(m, kind, meta, v)
  }

  lemma WordIsNumber(kind: Kind, v: Val)
    ensures HasWord(kind, v) ==> v.Num?
  {
  }

  /** assign_output, with the payload codec behind the cursor's offset. */
  method AssignOutput(kind: Kind, meta: Meta, reply: Message, wordIndex: nat, handleIndex: nat, codec: Codec)
    returns (r: Result<Val>, nextWord: nat, nextHandle: nat)
    requires codec.Valid() && codec.Contents() == reply.payload
    modifies codec`offset
    ensures codec.Valid()
    ensures r.Ok? ==> Take(kind, meta, reply, Cursor(wordIndex, handleIndex, old(codec.offset)))
                      == Ok(Taken(r.value, Cursor(nextWord, nextHandle, codec.offset)))
    ensures r.Err? ==>
              || (r.code == OutOfMemory && kind in {Str, Array, Struct})
              || Take(kind, meta, reply, Cursor(wordIndex, handleIndex, old(codec.offset))).Err?
  {
    hide Dec, CastWord, LittleEndian;
    nextWord, nextHandle := wordIndex, handleIndex;
    if kind == Handle {
      if nextHandle >= |reply.handles| { return Err(ProtocolError), nextWord, nextHandle; }
      r := Ok(HandleVal(reply.handles[nextHandle]));
      nextHandle := nextHandle + 1;
    } else if kind in {Str, Array, Struct} {
      assert codec.Rest() == reply.payload[codec.offset..];
      r := codec.DecodeValue(kind, meta);
    } else if kind == Uuid {
      if nextWord > |reply.words| || |reply.words| - nextWord < 2 { return Err(ProtocolError), nextWord, nextHandle; }
      r := Ok(UuidVal(LittleEndian(reply.words[nextWord], 8) + LittleEndian(reply.words[nextWord + 1], 8)));
      nextWord := nextWord + 2;
    } else {
      if nextWord >= |reply.words| || kind == Bytes { return Err(ProtocolError), nextWord, nextHandle; }
      r := Ok(Num(CastWord(kind, reply.words[nextWord])));
      nextWord := nextWord + 1;
    }
  }

  /** What has been collected goes before what is still to come. */
  function Before(vs: seq<Val>, rest: Result<seq<Val>>): Result<seq<Val>>
  {
    match rest case Ok(ws) => Ok(vs + ws) case Err(_) => rest
  }

  lemma CollectStep(def: Definition, params: seq<Param>, i: nat, reply: Message, c: Cursor, vs: seq<Val>)
    requires i < |params| && c.offset <= |reply.payload|
    ensures params[i].direction == In ==>
              Before(vs, Collect(def, params, i, reply, c)) == Before(vs, Collect(def, params, i + 1, reply, c))
    ensures params[i].direction != In ==>
              var t := Take(MetaTypeFor(def, params[i].ty), TypeMeta(def, params[i].ty), reply, c);
              && (t.Ok? ==> Before(vs, Collect(def, params, i, reply, c))
                            == Before(vs + [t.value.value], Collect(def, params, i + 1, reply, t.value.next)))
              && (t.Err? ==> Before(vs, Collect(def, params, i, reply, c)).Err?)
  {
    hide Take, MetaTypeFor, TypeMeta;
    if params[i].direction != In {
      var t := Take(MetaTypeFor(def, params[i].ty), TypeMeta(def, params[i].ty), reply, c);
      if t.Ok? {
        var rest := Collect(def, params, i + 1, reply, t.value.next);
        assert rest.Ok? ==> vs + ([t.value.value] + rest.value) == vs + [t.value.value] + rest.value;
      }
    }
  }

  /** The second loop of libfacet_proxy_client_call. A failure is a protocol error to the caller;
      `starved` says that it was for lack of memory. */
  method CollectOutputs(def: Definition, params: seq<Param>, reply: Message)
    returns (r: Result<seq<Val>>, starved: bool)
    requires |reply.payload| <= SIZE_MAX
    ensures r.Ok? ==> Collect(def, params, 0, reply, Cursor(1, 0, 0)) == r
    ensures r.Err? ==> r.code == ProtocolError && (starved || Collect(def, params, 0, reply, Cursor(1, 0, 0)).Err?)
    ensures starved ==> r.Err? && exists p | p in params :: MetaTypeFor(def, p.ty) in {Str, Array, Struct}
  {
    hide Take, Collect, MetaTypeFor, TypeMeta, Before;
    starved := false;
    var codec := new Codec.Over(reply.payload);
    var wordIndex, handleIndex := 1, 0;
    var vs := [];
    ghost var all := Collect(def, params, 0, reply, Cursor(1, 0, 0));
    BeforeNone(all);
    for i := 0 to |params|
      invariant !starved && fresh(codec) && codec.Valid() && codec.Contents() == reply.payload
      invariant all == Before(vs, Collect(def, params, i, reply, Cursor(wordIndex, handleIndex, codec.offset)))
    {
      var p := params[i];
      CollectStep(def, params, i, reply, Cursor(wordIndex, handleIndex, codec.offset), vs);
      if p.direction != In {
        var v;
        v, wordIndex, handleIndex :=
          AssignOutput(MetaTypeFor(def, p.ty), TypeMeta(def, p.ty), reply, wordIndex, handleIndex, codec);
        if v.Err? {
          assert p in params;
          return Err(ProtocolError), v.code == OutOfMemory && MetaTypeFor(def, p.ty) in {Str, Array, Struct};
        }
        vs := vs + [v.value];
      }
    }
    CollectedAll(def, params, reply, Cursor(wordIndex, handleIndex, codec.offset), vs);
    r := Ok(vs);
  }

  lemma BeforeNone(r: Result<seq<Val>>)
    ensures Before([], r) == r
  {
    assert r.Ok? ==> [] + r.value == r.value;
  }

  lemma CollectedAll(def: Definition, params: seq<Param>, reply: Message, c: Cursor, vs: seq<Val>)
    requires c.offset <= |reply.payload|
    ensures Before(vs, Collect(def, params, |params|, reply, c)) == Ok(vs)
  {
    assert vs + [] == vs;
  }
}
