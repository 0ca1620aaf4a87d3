/**
 The peer of the client: a reference Rserve with the evaluator cut down to what the client asks of
 it, that is looking a name up, measuring a vector and assigning a logical constant.
 */
module RServer {
  import opened Wire
  import opened StringVectors
  import opened Qap

  datatype Option<+T> = None | Some(value: T)

  type Store = map<Bytes, Value>

  /** Every variable is well formed, and a reply can carry it. */
  predicate StoreOk(store: Store) {
    forall name :: name in store ==> ValidValue(store[name]) && Bounded(store[name])
  }

  // ---------- Decoding parameters ----------

  /** A string parameter and what follows it; the string ends at the first NUL inside its room. */
  function DecodeString(p: Bytes): (r: Option<(Bytes, Bytes)>)
    ensures r.Some? ==> NulFree(r.value.0)
  {
    if |p| < 4 || ParType(WordAt(p, 0)) != DT_STRING then None
    else
      var room := ParLen(WordAt(p, 0));
      if |p| < 4 + room then None
      else
        var len := Strlen(p[4..4 + room], 0);
        if len == room then None else Some((p[4..4 + len], p[4 + room..]))
  }

  /**
   An expression parameter. Its outer word is read for the type alone; the extent comes from the
   inner word, or from the element count in the case of logicals.
   */
  function DecodeSexp(p: Bytes): (r: Option<Value>)
    ensures r.Some? ==> ValidValue(r.value)
  {
    if |p| < 8 || ParType(WordAt(p, 0)) != DT_SEXP then None
    else DecodeArray(ParType(WordAt(p, 4)), ParLen(WordAt(p, 4)), p[8..])
  }

  function DecodeArray(xt: byte, len: nat, body: Bytes): (r: Option<Value>)
    ensures r.Some? ==> ValidValue(r.value)
  {
    if xt == XT_ARRAY_BOOL then
      if |body| < 4 || |body| < 4 + WordAt(body, 0) then None
      else Some(Lgl(body[4..4 + WordAt(body, 0)]))
    else if |body| < len then None
    else if xt == XT_ARRAY_DOUBLE && len % 8 == 0 then Some(Dbl(body[..len]))
    else if xt == XT_ARRAY_INT && len % 4 == 0 then Some(Int(body[..len]))
    else if xt == XT_ARRAY_STR then
      WalkNulFree(body[..len], 0, CountNul(body[..len]));
      Some(Str(Strings(body[..len])))
    else None
  }

  lemma {:induction false} WalkNulFree(b: Bytes, off: nat, n: nat)
    requires off <= |b|
    ensures AllNulFree(Walk(b, off, n))
    decreases n
  {
    if n > 0 {
      var len := Strlen(b, off);
      var first := b[off..off + len];
      assert forall i :: 0 <= i < len ==> first[i] == b[off + i] != 0;
      WalkNulFree(b, if off + len < |b| then off + len + 1 else |b|, n - 1);
    }
  }

  // ---------- Evaluation ----------

  /** The text " <- TRUE ". */
  const ASSIGN_TRUE: Bytes := [32, 60, 45, 32, 84, 82, 85, 69, 32]
  /** The text " <- FALSE ". */
  const ASSIGN_FALSE: Bytes := [32, 60, 45, 32, 70, 65, 76, 83, 69, 32]
  /** The text "length(". */
  const LENGTH_OPEN: Bytes := [108, 101, 110, 103, 116, 104, 40]
  /** The text ")". */
  const CLOSE: Bytes := [41]

  predicate EndsWith(t: Bytes, suffix: Bytes) {
    |suffix| <= |t| && t[|t| - |suffix|..] == suffix
  }

  function Bool(b: bool): Value {
    Lgl([if b then 1 else 0])
  }

  /** The text that assigns a logical constant to `name`. */
  function AssignText(name: Bytes, b: bool): Bytes {
    name + (if b then ASSIGN_TRUE else ASSIGN_FALSE)
  }

  function LengthText(name: Bytes): Bytes {
    LENGTH_OPEN + name + CLOSE
  }

  function Eval(text: Bytes, store: Store): (r: (Store, Option<Value>))
  {
    if EndsWith(text, ASSIGN_TRUE) then
      (store[text[..|text| - |ASSIGN_TRUE|] := Bool(true)], Some(Bool(true)))
    else if EndsWith(text, ASSIGN_FALSE) then
      (store[text[..|text| - |ASSIGN_FALSE|] := Bool(false)], Some(Bool(false)))
    else if LENGTH_OPEN <= text && |text| > |LENGTH_OPEN| && EndsWith(text, CLOSE) then
      var name := text[|LENGTH_OPEN|..|text| - 1];
      (store, if name in store then Some(Int(Le32(Length(store[name]) % WORD_LIMIT))) else None)
    else
      (store, if text in store then Some(store[text]) else None)
  }

  // ---------- Commands ----------

  /** The answer to one request. */
  function Handle(cmd: nat, payload: Bytes, store: Store): (r: (Store, Bytes))
  {
    if cmd == CMD_SET_SEXP then
      match DecodeString(payload)
      case None => (store, ErrorReply(ERR_INV_PAR))
      case Some((name, rest)) =>
        (match DecodeSexp(rest)
         case None => (store, ErrorReply(ERR_INV_PAR))
         case Some(v) => (store[name := v], VOID_REPLY))
    else if cmd == CMD_EVAL || cmd == CMD_VOID_EVAL then
      match DecodeString(payload)
      case None => (store, ErrorReply(ERR_INV_PAR))
      case Some((text, _)) =>
        var (store', v) := Eval(text, store);
        (store', if v.None? then ErrorReply(ERR_R_ERROR)
                 else if cmd == CMD_EVAL then Reply(v.value) else VOID_REPLY)
    else if cmd == CMD_SHUTDOWN then (store, VOID_REPLY)
    else (store, ErrorReply(ERR_INV_CMD))
  }

  /** No request leaves a value behind that is ill formed or larger than the request itself. */
  lemma HandleKeepsOk(cmd: nat, payload: Bytes, store: Store)
    requires StoreOk(store) && |payload| + 16 < BODY_LIMIT
    ensures StoreOk(Handle(cmd, payload, store).0)
  {
    hide Reply, VOID_REPLY, ErrorReply, StoreOk, Eval, DecodeSexp, ValidValue, Bounded;
    if DecodeString(payload).Some? {
      var (text, rest) := DecodeString(payload).value;
      assert |rest| <= |payload|;
      hide DecodeString;
      EvalKeepsOk(text, store);
      if DecodeSexp(rest).Some? {
        DecodedFits(rest);
        PutKeepsOk(store, text, DecodeSexp(rest).value);
      }
    }
  }

  lemma PutKeepsOk(store: Store, name: Bytes, v: Value)
    requires StoreOk(store) && ValidValue(v) && Bounded(v)
    ensures StoreOk(store[name := v])
  {
    hide ValidValue, Bounded;
  }

  lemma DecodedFits(p: Bytes)
    requires |p| + 16 < BODY_LIMIT && DecodeSexp(p).Some?
    ensures ValidValue(DecodeSexp(p).value) && Bounded(DecodeSexp(p).value)
  {
    var v := DecodeSexp(p).value;
    hide Le32, WordAt, ParLen, ParType;
    if v.Str? {
      var len := ParLen(WordAt(p, 4));
      var b := p[8..][..len];
      hide DecodeSexp, Packed;
      WalkFits(b, 0, CountNul(b));
    }
  }

  /** Evaluation keeps the variables as they should be, and its result is one that a reply can carry. */
  lemma EvalKeepsOk(text: Bytes, store: Store)
    requires StoreOk(store)
    ensures StoreOk(Eval(text, store).0)
    ensures Eval(text, store).1.Some? ==> ValidValue(Eval(text, store).1.value) && Bounded(Eval(text, store).1.value)
  {
    BoolOk(true);
    BoolOk(false);
    hide Bool, Le32, ValidValue, Bounded;
    if EndsWith(text, ASSIGN_TRUE) {
      PutKeepsOk(store, text[..|text| - |ASSIGN_TRUE|], Bool(true));
    } else if EndsWith(text, ASSIGN_FALSE) {
      PutKeepsOk(store, text[..|text| - |ASSIGN_FALSE|], Bool(false));
    } else if Eval(text, store).1.Some? {
      assert forall b: Bytes :: |b| == 4 ==> ValidValue(Int(b)) && Bounded(Int(b)) by {
        forall b: Bytes | |b| == 4
          ensures ValidValue(Int(b)) && Bounded(Int(b))
        {
          WordOk(b);
        }
      }
    }
  }

  lemma WordOk(b: Bytes)
    requires |b| == 4
    ensures ValidValue(Int(b)) && Bounded(Int(b))
  {
  }

  lemma BoolOk(b: bool)
    ensures ValidValue(Bool(b)) && Bounded(Bool(b))
  {
  }

  // ---------- Framing ----------

  /** A whole request stands at the front: sixteen bytes, then as many as they announce. */
  predicate FrameReady(p: Bytes) {
    |p| >= HDR_LEN && 0 <= AsInt(WordAt(p, 4)) && HDR_LEN + WordAt(p, 4) <= |p|
  }

  function FrameLen(p: Bytes): (n: nat)
    requires FrameReady(p)
    ensures HDR_LEN <= n <= |p|
  {
    HDR_LEN + WordAt(p, 4)
  }

  /** The whole requests at the front of a stream, and the bytes that do not make one yet. */
  function Frames(p: Bytes): (r: (seq<Bytes>, Bytes))
    decreases |p|
  {
    if FrameReady(p) then
      var (fs, rest) := Frames(p[FrameLen(p)..]);
      ([p[..FrameLen(p)]] + fs, rest)
    else ([], p)
  }

  /** A server: the bytes received and not answered yet, and its variables. */
  datatype Server = Server(pending: Bytes, store: Store)

  /** Answer every whole request that is pending. */
  function Drain(s: Server): (r: (Server, Bytes))
    decreases |s.pending|
  {
    var p := s.pending;
    if FrameReady(p) then
      var (store', reply) := Handle(WordAt(p, 0), p[HDR_LEN..FrameLen(p)], s.store);
      var (s', more) := Drain(Server(p[FrameLen(p)..], store'));
      (s', reply + more)
    else (s, [])
  }

  /** The bytes on their way: the server, and what it has sent that the client has not read. */
  datatype Net = Net(server: Server, inbound: Bytes)

  /** Bytes reach the server; what it answers goes to the end of the inbound stream. */
  function Deliver(net: Net, b: Bytes): (r: Net)
  {
    var (s, replies) := Drain(net.server.(pending := net.server.pending + b));
    Net(s, net.inbound + replies)
  }

  // ---------- Framing: properties ----------

  lemma FramePrefix(p: Bytes, more: Bytes)
    requires FrameReady(p)
    ensures FrameReady(p + more) && FrameLen(p + more) == FrameLen(p)
    ensures WordAt(p + more, 0) == WordAt(p, 0)
    ensures (p + more)[FrameLen(p)..] == p[FrameLen(p)..] + more
    ensures (p + more)[HDR_LEN..FrameLen(p)] == p[HDR_LEN..FrameLen(p)]
  {
  }

  /** Answering in two instalments is answering at once. */
  lemma {:induction false} DrainSplit(p: Bytes, store: Store, more: Bytes)
    ensures var (s1, r1) := Drain(Server(p, store));
      var (s2, r2) := Drain(Server(s1.pending + more, s1.store));
      Drain(Server(p + more, store)) == (s2, r1 + r2)
    decreases |p|
  {
    hide Handle;
    if FrameReady(p) {
      FramePrefix(p, more);
      hide FrameReady, FrameLen;
      var (store', reply) := Handle(WordAt(p, 0), p[HDR_LEN..FrameLen(p)], store);
      DrainSplit(p[FrameLen(p)..], store', more);
      var (s1, r1) := Drain(Server(p[FrameLen(p)..], store'));
      var (s2, r2) := Drain(Server(s1.pending + more, s1.store));
      assert reply + (r1 + r2) == (reply + r1) + r2;
    } else {
      var (s2, r2) := Drain(Server(p + more, store));
      assert [] + r2 == r2;
    }
  }

  /** However a request is cut into sends, the server ends up in the same state with the same replies. */
  lemma DeliverSplit(net: Net, a: Bytes, b: Bytes)
    ensures Deliver(Deliver(net, a), b) == Deliver(net, a + b)
  {
    hide Drain;
    var p, store := net.server.pending, net.server.store;
    DrainSplit(p + a, store, b);
    assert p + a + b == p + (a + b);
    var (s1, r1) := Drain(Server(p + a, store));
    var (s2, r2) := Drain(Server(s1.pending + b, s1.store));
    assert net.inbound + r1 + r2 == net.inbound + (r1 + r2);
  }

  /** A request is well framed when its header announces exactly the bytes that follow it. */
  predicate WellFramed(r: Bytes) {
    |r| >= HDR_LEN && 0 <= AsInt(WordAt(r, 4)) && |r| == HDR_LEN + WordAt(r, 4)
  }

  lemma RequestWellFramed(cmd: nat, payload: Bytes)
    requires cmd < WORD_LIMIT && |payload| < INT_LIMIT
    ensures WellFramed(Request(cmd, payload))
    ensures WordAt(Request(cmd, payload), 0) == cmd
    ensures Request(cmd, payload)[HDR_LEN..] == payload
  {
    HeaderWords(cmd, |payload|, payload);
  }

  function Concat(rs: seq<Bytes>): (b: Bytes)
  {
    if rs == [] then [] else rs[0] + Concat(rs[1..])
  }

  /** The framing rule splits the outbound stream back into exactly the requests that were sent. */
  lemma {:induction false} FramesOfConcat(rs: seq<Bytes>)
    requires forall i :: 0 <= i < |rs| ==> WellFramed(rs[i])
    ensures Frames(Concat(rs)) == (rs, [])
  {
    if rs != [] {
      var first, rest := rs[0], Concat(rs[1..]);
      FramePrefix(first, rest);
      assert first[FrameLen(first)..] + rest == rest;
      assert (first + rest)[..FrameLen(first)] == first;
      FramesOfConcat(rs[1..]);
      assert [first] + rs[1..] == rs;
    }
  }

  /** A quiet server answers one well-framed request on the spot and is quiet again. */
  lemma DeliverRequest(net: Net, cmd: nat, payload: Bytes)
    requires cmd < WORD_LIMIT && |payload| < INT_LIMIT
    requires net.server.pending == []
    ensures var (store', reply) := Handle(cmd, payload, net.server.store);
      Deliver(net, Request(cmd, payload)) == Net(Server([], store'), net.inbound + reply)
  {
    var r := Request(cmd, payload);
    RequestWellFramed(cmd, payload);
    assert [] + r == r;
    assert r[FrameLen(r)..] == [];
    assert r[HDR_LEN..FrameLen(r)] == payload;
    var (store', reply) := Handle(cmd, payload, net.server.store);
    assert Drain(Server([], store')) == (Server([], store'), []);
    assert reply + [] == reply;
  }
}
