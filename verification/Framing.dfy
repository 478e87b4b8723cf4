/** Requests and replies in seL4 message registers: client.c packs and unpacks them at one end,
    service.c at the other. */
module Framing {
  import opened Bytes
  import opened CodecSpec
  import opened StubSpec

  const MESSAGE_MAX := 120        // seL4_MsgMaxLength
  const EXTRA_CAPS_MAX := 3       // seL4_MsgMaxExtraCaps
  const INLINE_MAX := 512         // FACET_RPC_MAX_INLINE_PAYLOAD
  const VERSION := 1              // FACET_RPC_PROTOCOL_VERSION
  const SHARED_FLAG := 0x8000_0000

  type u32 = x: int | 0 <= x < U32_LIMIT

  /** The words array of a message. */
  type Words = ws: seq<word> | |ws| <= MAX_WORDS

  /** A capability is the object it stands for; 0 is a null handle. */
  datatype Packet = Packet(
    methodId: u32, version: u32, flags: u32, words: seq<word>, payload: seq<byte>, caps: seq<nat>)

  datatype Reply = Reply(flags: u32, words: Words, payload: seq<byte>, caps: seq<nat>)

  /** What the kernel transfers: the registers in use and the capabilities. */
  datatype Frame = Frame(registers: seq<word>, caps: seq<nat>)

  // ---------- payload bytes in words ----------

  function WireWords(size: nat): nat
  {
    (size + 7) / 8
  }

  /** Word i of a payload; the last one may be partial, its upper bytes are zero. */
  function PayloadWord(payload: seq<byte>, i: nat): word
    requires 8 * i < |payload|
  {
    PowTable();
    var end := if 8 * i + 8 <= |payload| then 8 * i + 8 else |payload|;
    PowMonotone(end - 8 * i, 8);
    FromLittleEndian(payload[8 * i..end])
  }

  lemma {:induction false} PowMonotone(m: nat, n: nat)
    requires m <= n
    ensures Pow256(m) <= Pow256(n)
    decreases n - m
  {
    if m < n { PowMonotone(m, n - 1); }
  }

  function Packed(payload: seq<byte>): (ws: seq<word>)
    ensures |ws| == WireWords(|payload|)
  {
    seq(WireWords(|payload|), i requires 0 <= i < WireWords(|payload|) => PayloadWord(payload, i))
  }

  function Unpacked(ws: seq<word>, size: nat): (bs: seq<byte>)
    requires |ws| == WireWords(size)
    ensures |bs| == size
  {
    seq(size, j requires 0 <= j < size => LittleEndian(ws[j / 8], 8)[j % 8])
  }

  lemma {:induction false} ByteBack(bs: seq<byte>, n: nat, k: nat)
    requires k < |bs| <= n
    ensures LittleEndian(FromLittleEndian(bs), n)[k] == bs[k]
    decreases n
  {
    var u := FromLittleEndian(bs[1..]);
    assert FromLittleEndian(bs) % 256 == bs[0] && FromLittleEndian(bs) / 256 == u;
    if k > 0 { ByteBack(bs[1..], n - 1, k - 1); }
  }

  lemma PayloadBack(payload: seq<byte>)
    ensures Unpacked(Packed(payload), |payload|) == payload
  {
    hide LittleEndian, FromLittleEndian, Pow256;
    forall j | 0 <= j < |payload|
      ensures LittleEndian(Packed(payload)[j / 8], 8)[j % 8] == payload[j]
    {
      WordByteBack(payload, j / 8, j % 8);
    }
  }

  lemma WordByteBack(payload: seq<byte>, i: nat, k: nat)
    requires k < 8 && 8 * i + k < |payload|
    ensures LittleEndian(PayloadWord(payload, i), 8)[k] == payload[8 * i + k]
  {
    hide LittleEndian, FromLittleEndian, Pow256;
    var end := if 8 * i + 8 <= |payload| then 8 * i + 8 else |payload|;
    ByteBack(payload[8 * i..end], 8, k);
  }

  // ---------- requests ----------

  /** The checks before the client sends. */
  predicate Sendable(p: Packet)
  {
    && |p.payload| <= INLINE_MAX && |p.words| <= MAX_WORDS
    && |p.caps| <= MAX_ATTACHMENTS && |p.caps| <= EXTRA_CAPS_MAX && 0 !in p.caps
    && |p.words| <= MESSAGE_MAX - 4 && WireWords(|p.payload|) <= MESSAGE_MAX - 4 - |p.words|
  }

  function RequestFrame(p: Packet): Frame
  {
    Frame([p.methodId, p.version, p.flags, |p.payload| % U64_LIMIT] + p.words + Packed(p.payload), p.caps)
  }

  function Low32(w: word): u32
  {
    w % U32_LIMIT
  }

  function DecodeRequest(f: Frame): Result<Packet>
  {
    var r := f.registers;
    if |r| < 4 then Err(ProtocolError)
    else if Low32(r[1]) != VERSION || r[3] > INLINE_MAX || WireWords(r[3]) > |r| - 4 then Err(ProtocolError)
    else
      var n := |r| - 4 - WireWords(r[3]);
      if n > MAX_WORDS || |f.caps| > 1 then Err(ProtocolError)
      else Ok(Packet(Low32(r[0]), VERSION, Low32(r[2]), r[4..4 + n], Unpacked(r[4 + n..], r[3]), f.caps))
  }

  /** Every request the client sends is decoded by the service to the same request, provided it
      has the current version and at most one capability; otherwise it is refused. */
  lemma RequestBack(p: Packet)
    requires Sendable(p)
    ensures DecodeRequest(RequestFrame(p)) ==
            if p.version == VERSION && |p.caps| <= 1 then Ok(p) else Err(ProtocolError)
  {
    RequestRegisters(p);
    PayloadBack(p.payload);
    hide Packed, Unpacked, RequestFrame;
  }

  lemma RequestRegisters(p: Packet)
    requires |p.payload| <= INLINE_MAX
    ensures var r, n := RequestFrame(p).registers, |p.words|;
            && |r| == 4 + n + WireWords(|p.payload|)
            && r[0] == p.methodId && r[1] == p.version && r[2] == p.flags && r[3] == |p.payload|
            && r[4..4 + n] == p.words && r[4 + n..] == Packed(p.payload)
  {
    hide Packed;
    Sliced([p.methodId, p.version, p.flags, |p.payload|], p.words, Packed(p.payload));
  }

  // ---------- replies ----------

  const NO_SUCH_METHOD := -4
  const PROTOCOL_ERROR := -8
  const BUFFER_TOO_SMALL := -9

  /** The checks before the service sends: what does not fit a message is replaced. */
  predicate Fits(words: seq<word>, payload: seq<byte>, caps: seq<nat>)
  {
    |payload| <= INLINE_MAX && |caps| <= 1 && 3 + |words| + WireWords(|payload|) <= MESSAGE_MAX
  }

  /** The reply that the service sends: the method's, with its dispatch result if it left none,
      or the fallback if that does not fit a message. */
  function Outgoing(r: Reply, dispatchResult: int): Reply
  {
    var r' := if r.words == [] then r.(words := [dispatchResult % U64_LIMIT]) else r;
    if Fits(r'.words, r'.payload, r'.caps) then r' else Reply(r.flags, [BUFFER_TOO_SMALL % U64_LIMIT], [], [])
  }

  function ReplyFrame(r: Reply): Frame
    requires r.words != []
  {
    Frame([r.words[0], VERSION, r.flags, |r.payload| % U64_LIMIT] + r.words[1..] + Packed(r.payload), r.caps)
  }

  function DecodeReply(f: Frame): Result<Reply>
  {
    var r := f.registers;
    if |f.caps| > 1 || |r| < 4 then Err(ProtocolError)
    else if Low32(r[2]) >= SHARED_FLAG || r[3] > INLINE_MAX then Err(NotSupported)
    else if WireWords(r[3]) > |r| - 4 then Err(ProtocolError)
    else
      var n := |r| - 4 - WireWords(r[3]);
      if n + 1 > MAX_WORDS || Low32(r[1]) != VERSION then Err(ProtocolError)
      else Ok(Reply(Low32(r[2]), [r[0]] + r[4..4 + n], Unpacked(r[4 + n..], r[3]), f.caps))
  }

  lemma SentBack(sent: Reply)
    requires sent.words != [] && |sent.payload| <= INLINE_MAX && |sent.caps| <= 1
    ensures DecodeReply(ReplyFrame(sent)) == if sent.flags >= SHARED_FLAG then Err(NotSupported) else Ok(sent)
  {
    var r, n := ReplyFrame(sent).registers, |sent.words| - 1;
    ReplyRegisters(sent);
    PayloadBack(sent.payload);
    hide Packed, Unpacked, ReplyFrame;
    assert [sent.words[0]] + r[4..4 + n] == sent.words;
  }

  lemma ReplyRegisters(sent: Reply)
    requires sent.words != [] && |sent.payload| <= INLINE_MAX
    ensures var r, n := ReplyFrame(sent).registers, |sent.words| - 1;
            && |r| == 4 + n + WireWords(|sent.payload|)
            && r[0] == sent.words[0] && r[1] == VERSION && r[2] == sent.flags && r[3] == |sent.payload|
            && r[4..4 + n] == sent.words[1..] && r[4 + n..] == Packed(sent.payload)
  {
    hide Packed;
    Sliced([sent.words[0], VERSION, sent.flags, |sent.payload|], sent.words[1..], Packed(sent.payload));
  }

  /** Every reply the service sends, the fallback included, is decoded by the client to the same
      reply exactly if the method's reply has the shared-payload flag clear. */
  lemma ReplyBack(r: Reply, dispatchResult: int)
    ensures DecodeReply(ReplyFrame(Outgoing(r, dispatchResult))) ==
            if r.flags >= SHARED_FLAG then Err(NotSupported) else Ok(Outgoing(r, dispatchResult))
  {
    SentBack(Outgoing(r, dispatchResult));
  }

  /** A method's own reply comes through unchanged if and only if it fits a message and its
      shared-payload flag is clear. */
  lemma ReplyDelivered(r: Reply, dispatchResult: int)
    requires r.words != [] && r != Reply(r.flags, [BUFFER_TOO_SMALL % U64_LIMIT], [], [])
    ensures DecodeReply(ReplyFrame(Outgoing(r, dispatchResult))) == Ok(r) <==>
            Fits(r.words, r.payload, r.caps) && r.flags < SHARED_FLAG
  {
    ReplyBack(r, dispatchResult);
  }

  // ---------- messages from anyone ----------

  /** The registers hold these words behind the four of the header, and then the payload, eight bytes
      to a word. */
  predicate Carries(r: seq<word>, words: seq<word>, payload: seq<byte>)
  {
    && |r| == 4 + |words| + WireWords(|payload|) && r[3] == |payload| && r[4..4 + |words|] == words
    && forall j | 0 <= j < |payload| :: LittleEndian(r[4 + |words| + j / 8], 8)[j % 8] == payload[j]
  }

  lemma CarriesIff(r: seq<word>, words: seq<word>, payload: seq<byte>)
    ensures Carries(r, words, payload) <==>
              && |r| >= 4 && WireWords(r[3]) <= |r| - 4
              && var n := |r| - 4 - WireWords(r[3]);
                 words == r[4..4 + n] && payload == Unpacked(r[4 + n..], r[3])
  {
    hide LittleEndian;
    if |r| >= 4 && WireWords(r[3]) <= |r| - 4 {
      var n := |r| - 4 - WireWords(r[3]);
      var ws := r[4 + n..];
      assert forall k | 0 <= k < |ws| :: ws[k] == r[4 + n + k];
      if Carries(r, words, payload) { assert n == |words| && payload == Unpacked(ws, r[3]); }
      if words == r[4..4 + n] && payload == Unpacked(ws, r[3]) {
        forall j | 0 <= j < |payload| ensures LittleEndian(r[4 + n + j / 8], 8)[j % 8] == payload[j] {
          assert Unpacked(ws, r[3])[j] == LittleEndian(ws[j / 8], 8)[j % 8];
        }
      }
    }
  }

  /** Whatever registers and capabilities arrive, the service takes them for a request exactly if
      they carry one of the current version, with at most 512 bytes, 64 words and one capability. */
  lemma RequestIff(f: Frame, p: Packet)
    ensures DecodeRequest(f) == Ok(p) <==>
              && Carries(f.registers, p.words, p.payload)
              && f.registers[0] % U32_LIMIT == p.methodId && f.registers[1] % U32_LIMIT == 1 == p.version
              && f.registers[2] % U32_LIMIT == p.flags
              && |p.payload| <= 512 && |p.words| <= 64 && |p.caps| <= 1 && p.caps == f.caps
  {
    hide Carries, Unpacked;
    CarriesIff(f.registers, p.words, p.payload);
    CarriesSize(f.registers, p.words, p.payload);
  }

  /** And the client takes them for a reply exactly so, with the shared-payload flag clear. */
  lemma ReplyIff(f: Frame, q: Reply)
    ensures DecodeReply(f) == Ok(q) <==>
              && q.words != [] && Carries(f.registers, q.words[1..], q.payload)
              && q.words[0] == f.registers[0] && f.registers[1] % U32_LIMIT == 1
              && f.registers[2] % U32_LIMIT == q.flags < 0x8000_0000
              && |q.payload| <= 512 && |q.words| <= 64 && |q.caps| <= 1 && q.caps == f.caps
  {
    hide Carries, Unpacked;
    if q.words != [] {
      CarriesIff(f.registers, q.words[1..], q.payload);
      CarriesSize(f.registers, q.words[1..], q.payload);
      assert [q.words[0]] + q.words[1..] == q.words;
      if |f.registers| >= 4 && WireWords(f.registers[3]) <= |f.registers| - 4 {
        var n := |f.registers| - 4 - WireWords(f.registers[3]);
        var ws := [f.registers[0]] + f.registers[4..4 + n];
        assert ws[0] == f.registers[0] && ws[1..] == f.registers[4..4 + n];
      }
    }
  }

  lemma CarriesSize(r: seq<word>, words: seq<word>, payload: seq<byte>)
    ensures Carries(r, words, payload) ==> |r| >= 4 && r[3] == |payload| && |r| == 4 + |words| + WireWords(r[3])
  {
  }

  // ---------- the loops over the message registers ----------

  method PutWords(mr: array<word>, base: nat, words: seq<word>)
    requires base + |words| <= mr.Length
    modifies mr
    ensures mr[base..base + |words|] == words
    ensures mr[..base] == old(mr[..base]) && mr[base + |words|..] == old(mr[base + |words|..])
  {
    for i := 0 to |words|
      invariant mr[base..base + i] == words[..i]
      invariant mr[..base] == old(mr[..base]) && mr[base + i..] == old(mr[base + i..])
    {
      mr[base + i] := words[i];
      assert mr[base..base + i + 1] == mr[base..base + i] + [words[i]];
      assert mr[base + i + 1..] == old(mr[base + i..])[1..];
    }
  }

  method PutPayload(mr: array<word>, base: nat, payload: seq<byte>)
    requires base + WireWords(|payload|) <= mr.Length
    modifies mr
    ensures mr[base..base + WireWords(|payload|)] == Packed(payload)
    ensures mr[..base] == old(mr[..base])
  {
    hide FromLittleEndian, Pow256;
    for i := 0 to WireWords(|payload|)
      invariant mr[base..base + i] == Packed(payload)[..i]
      invariant mr[..base] == old(mr[..base])
    {
      var offset := i * 8;
      var copy := |payload| - offset;
      if copy > 8 { copy := 8; }
      PowMonotone(copy, 8);
      PowTable();
      mr[base + i] := FromLittleEndian(payload[offset..offset + copy]);
      assert mr[base + i] == PayloadWord(payload, i);
      assert mr[base..base + i + 1] == mr[base..base + i] + [mr[base + i]];
    }
  }

  method GetPayload(mr: array<word>, base: nat, size: nat) returns (payload: seq<byte>)
    requires base + WireWords(size) <= mr.Length
    ensures payload == Unpacked(mr[base..base + WireWords(size)], size)
  {
    hide LittleEndian;
    var bytes := new byte[size];
    for i := 0 to WireWords(size)
      invariant forall j | 0 <= j < 8 * i && j < size :: bytes[j] == LittleEndian(mr[base + j / 8], 8)[j % 8]
      modifies bytes
    {
      var word := mr[base + i];
      var offset := i * 8;
      var copy := size - offset;
      if copy > 8 { copy := 8; }
      forall k | 0 <= k < copy {
        bytes[offset + k] := LittleEndian(word, 8)[k];
      }
    }
    payload := bytes[..];
  }

  method PutHeader(mr: array<word>, first: word, version: word, flags: word, size: word)
    requires mr.Length >= 4
    modifies mr
    ensures mr[..4] == [first, version, flags, size]
  {
    mr[0], mr[1], mr[2], mr[3] := first, version, flags, size;
  }

  /** The four header registers, the words and the payload, one after the other. */
  method PutMessage(mr: array<word>, first: word, version: word, flags: word, words: seq<word>, payload: seq<byte>)
    requires mr.Length == MESSAGE_MAX && 4 + |words| + WireWords(|payload|) <= MESSAGE_MAX
    modifies mr
    ensures mr[..4 + |words| + WireWords(|payload|)] ==
            [first, version, flags, |payload| % U64_LIMIT] + words + Packed(payload)
  {
    hide Packed;
    ghost var header := [first, version, flags, |payload|];
    PutHeader(mr, first, version, flags, |payload|);
    var base := 4 + |words|;
    PutWords(mr, 4, words);
    assert mr[..base] == header + words by {
      assert mr[..base] == mr[..4] + mr[4..base];
    }
    PutPayload(mr, base, payload);
    var n := base + WireWords(|payload|);
    assert mr[..n] == mr[..base] + mr[base..n];
  }

  /** libfacet_platform_call up to the seL4 call. */
  method SendRequest(p: Packet, mr: array<word>) returns (r: Result<nat>)
    requires mr.Length == MESSAGE_MAX
    modifies mr
    ensures r.Ok? <==> Sendable(p)
    ensures r.Ok? ==> r.value <= MESSAGE_MAX && mr[..r.value] == RequestFrame(p).registers
    ensures r.Err? ==> r.code == NotSupported
  {
    hide Packed;
    var payloadWords := WireWords(|p.payload|);
    if |p.caps| > MAX_ATTACHMENTS || |p.caps| > EXTRA_CAPS_MAX || |p.payload| > INLINE_MAX || |p.words| > MAX_WORDS
       || |p.words| > MESSAGE_MAX - 4 || payloadWords > MESSAGE_MAX - 4 - |p.words|
    { return Err(NotSupported); }
    for i := 0 to |p.caps|
      invariant 0 !in p.caps[..i]
    {
      if p.caps[i] == 0 { return Err(NotSupported); }
    }
    assert p.caps[..|p.caps|] == p.caps;
    PutMessage(mr, p.methodId, p.version, p.flags, p.words, p.payload);
    r := Ok(4 + |p.words| + payloadWords);
  }

  /** decode_request */
  method ReceiveRequest(mr: array<word>, length: nat, caps: seq<nat>) returns (r: Result<Packet>)
    requires length <= mr.Length == MESSAGE_MAX
    ensures r == DecodeRequest(Frame(mr[..length], caps)) || r == Err(OutOfMemory)
    ensures r == Err(OutOfMemory) ==>
              var p := DecodeRequest(Frame(mr[..length], [])); p.Ok? && (p.value.payload != [] || |caps| == 1)
  {
    hide Unpacked;
    if length < 4 { return Err(ProtocolError); }
    var methodId, version, flags, size := Low32(mr[0]), Low32(mr[1]), Low32(mr[2]), mr[3];
    if version != VERSION || size > INLINE_MAX { return Err(ProtocolError); }
    var payloadWords := WireWords(size);
    if payloadWords > length - 4 { return Err(ProtocolError); }
    var wordCount := length - 4 - payloadWords;
    if wordCount > MAX_WORDS { return Err(ProtocolError); }
    var words := GetWords(mr, 4, wordCount);
    var payload := [];
    if size != 0 {
      var granted: bool := *;
      if !granted { return Err(OutOfMemory); }
      payload := GetPayload(mr, 4 + wordCount, size);
    }
    if |caps| > 1 { return Err(ProtocolError); }
    if |caps| == 1 {
      var granted: bool := *;
      if !granted { return Err(OutOfMemory); }
    }
    PrefixSlice(mr[..], length, 4, 4 + wordCount);
    PrefixSlice(mr[..], length, 4 + wordCount, length);
    assert mr[..][..length] == mr[..length];
    r := Ok(Packet(methodId, version, flags, words, payload, caps));
  }

  method GetWords(mr: array<word>, base: nat, count: nat) returns (words: seq<word>)
    requires base + count <= mr.Length
    ensures words == mr[base..base + count]
  {
    words := [];
    for i := 0 to count
      invariant words == mr[base..base + i]
    {
      words := words + [mr[base + i]];
    }
  }

  /** encode_reply */
  method SendReply(r: Reply, dispatchResult: int, mr: array<word>) returns (length: nat)
    requires mr.Length == MESSAGE_MAX
    modifies mr
    ensures length <= MESSAGE_MAX && mr[..length] == ReplyFrame(Outgoing(r, dispatchResult)).registers
  {
    hide Packed;
    var reply := r;
    if reply.words == [] { reply := reply.(words := [dispatchResult % U64_LIMIT]); }
    var payloadWords := WireWords(|reply.payload|);
    if |reply.payload| > INLINE_MAX || reply.words == [] || |reply.words| - 1 > MAX_WORDS
       || 4 + |reply.words| - 1 + payloadWords > MESSAGE_MAX || |reply.caps| > 1
    {
      reply := Reply(reply.flags, [BUFFER_TOO_SMALL % U64_LIMIT], [], []);
      payloadWords := 0;
    }
    PutMessage(mr, reply.words[0], VERSION, reply.flags, reply.words[1..], reply.payload);
    length := 3 + |reply.words| + payloadWords;
  }

  /** libfacet_platform_call after the seL4 call. */
  method ReceiveReply(mr: array<word>, length: nat, caps: seq<nat>) returns (r: Result<Reply>)
    requires length <= mr.Length == MESSAGE_MAX
    ensures r == DecodeReply(Frame(mr[..length], caps)) || r == Err(OutOfMemory)
    ensures r == Err(OutOfMemory) ==>
              var p := DecodeReply(Frame(mr[..length], caps)); p.Ok? && (p.value.payload != [] || |caps| == 1)
  {
    hide Unpacked;
    if |caps| > 1 || length < 4 { return Err(ProtocolError); }
    var version, flags, size := Low32(mr[1]), Low32(mr[2]), mr[3];
    if flags >= SHARED_FLAG || size > INLINE_MAX { return Err(NotSupported); }
    var payloadWords := WireWords(size);
    var available := length - 4;
    if payloadWords > available { return Err(ProtocolError); }
    var wordCount := 1 + available - payloadWords;
    if wordCount > MAX_WORDS { return Err(ProtocolError); }
    var rest := GetWords(mr, 4, wordCount - 1);
    if version != VERSION { return Err(ProtocolError); }
    var payload := [];
    if size != 0 {
      payload := GetPayload(mr, 3 + wordCount, size);
      var granted: bool := *;
      if !granted { return Err(OutOfMemory); }
    }
    PrefixSlice(mr[..], length, 4, 3 + wordCount);
    PrefixSlice(mr[..], length, 3 + wordCount, length);
    assert mr[..][..length] == mr[..length];
    if |caps| == 1 {
      var granted: bool := *;
      if !granted { return Err(OutOfMemory); }
    }
    r := Ok(Reply(flags, [mr[0]] + rest, payload, caps));
  }
}
