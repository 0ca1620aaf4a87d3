/**
 Whole sessions: any sequence of calls on one connection, the client and the server together, against
 a plain map from names to values.
 */
module Session {
  import opened Wire
  import opened StringVectors
  import opened Qap
  import opened RServer
  import opened Replies
  import opened SetRequests
  import opened ReplyProofs
  import opened Client

  datatype Call =
    | SetCall(name: CString, q: Qtype, data: Bytes, n: nat, width: nat)
    | GetCall(name: CString, q: Qtype)
    | ScalarCall(name: CString, q: Qtype)
    | NamedCall(name: CString, szBlob: nat, szVals: nat)
    | SetBoolCall(name: CString, x: bool)
    | GetBoolCall(name: CString)
    | LenCall(name: CString)
    | ExecCall(text: CString)
    | ExecValueCall(text: CString, expected: int)

  datatype Result =
    | Failed(status: Failure)
    | Done
    | Cells(vec: Vec)
    | Cell(v: Bytes)
    | Flag(x: bool)
    | Count(n: int)
    | Entries(keyed: Keyed)
    | Output(bytes: Bytes)

  /** What the C signatures and their memory ask for. */
  predicate CallOk(c: Call) {
    match c
    case SetCall(_, q, data, n, width) => n < WORD_LIMIT && |data| == n * CellBytes(q, width) < OBJECT_LIMIT
    case ScalarCall(_, q) => q.F8? || q.I4?
    case SetBoolCall(name, _) => |name| + 16 < OBJECT_LIMIT
    case LenCall(name) => |name| + 16 < OBJECT_LIMIT
    case _ => true
  }

  predicate CallsOk(calls: seq<Call>) {
    forall c :: c in calls ==> CallOk(c)
  }

  /** The arguments pass the checks made before anything is sent. */
  predicate Sends(c: Call)
    requires CallOk(c)
  {
    match c
    case SetCall(name, q, data, n, width) => SetArgsOk(name, q, data, n, width)
    case GetCall(_, q) => q.F8? || q.I4? || q.I1?
    case _ => true
  }

  /** The string that the request carries: the name to store under, or the text to evaluate. */
  function RequestText(c: Call): CString
    requires CallOk(c)
  {
    match c
    case SetCall(name, _, _, _, _) => name
    case SetBoolCall(name, x) => BoolCommand(name, x)
    case LenCall(name) => LengthCommand(name)
    case ExecCall(text) => text
    case ExecValueCall(text, _) => text
    case GetCall(name, _) => name
    case ScalarCall(name, _) => name
    case NamedCall(name, _, _) => name
    case GetBoolCall(name) => name
  }

  function RequestOf(c: Call): Bytes
    requires CallOk(c) && Sends(c)
  {
    if c.SetCall? then SetRequest(c.name, c.q, c.data, c.n, c.width)
    else EvalRequest(TextCommand(c), RequestText(c))
  }

  function TextCommand(c: Call): (cmd: nat)
    ensures cmd == CMD_EVAL || cmd == CMD_VOID_EVAL
  {
    if c.ExecCall? then CMD_VOID_EVAL else CMD_EVAL
  }

  /** What the call makes of the inbound stream. */
  function ParseCall(c: Call, s: Bytes, e: Failure): Outcome<Result> {
    match c
    case SetCall(_, _, _, _, _) => (var (_, r) :- ParseSet(s, e); Ok(Done, r))
    case GetCall(_, q) => (var (vec, r) :- ParseVec(q, s, e); Ok(Cells(vec), r))
    case ScalarCall(_, q) => (var (v, r) :- ParseScalar(q, s, e, Width(q)); Ok(Cell(v), r))
    case NamedCall(_, szBlob, szVals) => (var (keyed, r) :- ParseNamed(s, e, szBlob, szVals); Ok(Entries(keyed), r))
    case SetBoolCall(_, _) => (var (_, r) :- ParseExec(true, -1, s, e); Ok(Done, r))
    case GetBoolCall(_) => (var (x, r) :- ParseBool(s, e); Ok(Flag(x), r))
    case LenCall(_) => (var (n, r) :- ParseLen(s, e); Ok(Count(n), r))
    case ExecCall(_) => (var (_, r) :- ParseExec(false, -1, s, e); Ok(Done, r))
    case ExecValueCall(_, expected) => (var (out, r) :- ParseExec(true, expected, s, e); Ok(Output(out), r))
  }

  function ResultOf(p: Outcome<Result>): Result {
    if p.Ok? then p.value else Failed(p.status)
  }

  /** One call: the request goes out, the server answers what it can, the client reads its way through. */
  function Exchange(net: Net, c: Call, e: Failure): (Net, Result)
    requires CallOk(c)
  {
    if !Sends(c) then (net, Failed(-1))
    else
      var d := Deliver(net, RequestOf(c));
      var p := ParseCall(c, d.inbound, e);
      (Net(d.server, p.rest), ResultOf(p))
  }

  function Run(net: Net, calls: seq<Call>, e: Failure): (Net, seq<Result>)
    requires CallsOk(calls)
    decreases |calls|
  {
    if calls == [] then (net, [])
    else
      var (net1, r) := Exchange(net, calls[0], e);
      var (net2, rs) := Run(net1, calls[1..], e);
      (net2, [r] + rs)
  }

  predicate NoneFailed(rs: seq<Result>) {
    forall r :: r in rs ==> !r.Failed?
  }

  // ---------- The map ----------

  /** The calls whose answer is made of the value of their text. */
  predicate Asks(c: Call) {
    c.GetCall? || c.ScalarCall? || c.NamedCall? || c.GetBoolCall? || c.ExecValueCall?
  }

  /** The string of the request has a padded length that 24 bits hold; otherwise the server refuses it. */
  predicate TextFits(c: Call)
    requires CallOk(c)
  {
    StringRoom(RequestText(c)) < LEN_LIMIT
  }

  /** What a name or text stands for. */
  function ValueOf(store: Store, c: Call): Option<Value>
    requires CallOk(c)
  {
    if TextFits(c) then Eval(RequestText(c), store).1 else None
  }

  function StoreAfter(store: Store, c: Call): Store
    requires CallOk(c)
  {
    if !Sends(c) || !TextFits(c) then store
    else
      match c
      case SetCall(name, q, data, n, width) => store[name := Decoded(q, SetBody(q, data, n, width))]
      case SetBoolCall(name, x) => store[name := Bool(x)]
      case LenCall(_) => store
      case _ => Eval(RequestText(c), store).0
  }

  /**
   The outcome of a call, from the map alone: its result, and the part of the reply it leaves unread.
   `e` is the status for a stream that ends too early.
   */
  function Expected(store: Store, c: Call, e: Failure): Outcome<Result>
    requires CallOk(c)
  {
    if !Sends(c) then Err(-1, [])
    else
      match c
      case SetCall(_, _, _, _, _) => Ok(Done, [])
      case ExecCall(_) => Ok(Done, [])
      case SetBoolCall(_, _) => if TextFits(c) then Ok(Done, []) else Err(-1, [])
      case LenCall(name) =>
        if TextFits(c) && name in store then Ok(Count(AsInt(Length(store[name]) % WORD_LIMIT)), []) else Err(-1, [])
      case _ =>
        (match ValueOf(store, c)
         case Some(v) => OnValue(v, c, e)
         case None => Err(if c.GetCall? || c.ScalarCall? then e else -1, []))
  }

  /** The outcome of an asking call, given the value. */
  function OnValue(v: Value, c: Call, e: Failure): Outcome<Result>
    requires Asks(c)
  {
    match c
    case GetCall(_, q) => if VecAnswer(q, v).Some? then Ok(Cells(VecAnswer(q, v).value), []) else Err(-1, Body(v))
    case ScalarCall(_, q) =>
      if ScalarAnswer(q, v).Some? then Ok(Cell(ScalarAnswer(q, v).value), []) else Err(-1, Body(v))
    case NamedCall(_, szBlob, szVals) =>
      (var (keyed, r) :- NamedOnBody(|Body(v)| + 4 < LEN_LIMIT, Body(v), e, szBlob, szVals); Ok(Entries(keyed), r))
    case GetBoolCall(_) =>
      if BoolAnswer(v).Some? then Ok(Flag(BoolAnswer(v).value), []) else Err(-1, if v.Lgl? then [] else Body(v))
    case ExecValueCall(_, expected) =>
      if expected >= 0 && Xt(v) as int != expected then Err(-1, Body(v)) else Ok(Output(Body(v)), [])
  }

  /** Between calls nothing is on its way. */
  predicate Quiet(net: Net) {
    net.inbound == [] && net.server.pending == []
  }

  // ---------- Evaluation of the texts ----------

  /** Names the evaluator looks up: no space and no parenthesis in them. */
  predicate Ident(name: Bytes) {
    32 !in name && 40 !in name
  }

  lemma SuffixBytes(t: Bytes, suffix: Bytes)
    requires suffix != []
    ensures EndsWith(t, suffix) ==> suffix[0] in t && t[|t| - 1] == suffix[|suffix| - 1]
  {
    if EndsWith(t, suffix) {
      assert t[|t| - |suffix|] == t[|t| - |suffix|..][0];
      assert t[|t| - 1] == t[|t| - |suffix|..][|suffix| - 1];
    }
  }

  lemma EvalLookup(name: Bytes, store: Store)
    requires Ident(name)
    ensures Eval(name, store) == (store, if name in store then Some(store[name]) else None)
  {
    SuffixBytes(name, ASSIGN_TRUE);
    SuffixBytes(name, ASSIGN_FALSE);
    PrefixByte(name, LENGTH_OPEN, 6);
  }

  lemma PrefixByte(t: Bytes, prefix: Bytes, i: nat)
    requires i < |prefix|
    ensures prefix <= t ==> prefix[i] in t
  {
  }

  lemma EvalAssign(name: Bytes, x: bool, store: Store)
    ensures Eval(AssignText(name, x), store) == (store[name := Bool(x)], Some(Bool(x)))
  {
    var t := AssignText(name, x);
    if x {
      assert t[|t| - 9..] == ASSIGN_TRUE && t[..|t| - 9] == name;
    } else {
      assert t[|t| - 10..] == ASSIGN_FALSE && t[..|t| - 10] == name;
      assert t[|t| - 9..][0] == ASSIGN_FALSE[1];
    }
  }

  lemma EvalLength(name: Bytes, store: Store)
    ensures Eval(LengthText(name), store) ==
            (store, if name in store then Some(Int(Le32(Length(store[name]) % WORD_LIMIT))) else None)
  {
    hide Le32;
    var t := LengthText(name);
    SuffixBytes(t, ASSIGN_TRUE);
    SuffixBytes(t, ASSIGN_FALSE);
    assert t[|t| - 1] == 41;
    assert t[|t| - 1..] == CLOSE;
    assert t[7..|t| - 1] == name;
  }

  // ---------- One call ----------

  /** The answer to a text request that decodes, given the value of the text. */
  function TextReply(cmd: nat, v: Option<Value>): Bytes {
    if v.None? then ErrorReply(ERR_R_ERROR) else if cmd == CMD_EVAL then Reply(v.value) else VOID_REPLY
  }

  /** The answer to a call that sends a text. */
  function AnswerTo(store: Store, c: Call): Bytes
    requires CallOk(c)
  {
    if TextFits(c) then TextReply(TextCommand(c), ValueOf(store, c)) else ErrorReply(ERR_INV_PAR)
  }

  lemma TextDelivered(net: Net, cmd: nat, text: CString)
    requires net.server.pending == []
    requires cmd == CMD_EVAL || cmd == CMD_VOID_EVAL
    ensures var store := net.server.store;
      Deliver(net, EvalRequest(cmd, text)) ==
        if StringRoom(text) < LEN_LIMIT
        then Net(Server([], Eval(text, store).0), net.inbound + TextReply(cmd, Eval(text, store).1))
        else Net(net.server, net.inbound + ErrorReply(ERR_INV_PAR))
  {
    StringParamRoundTrip(text, []);
    assert DtString(text) + [] == DtString(text);
    hide Eval, DecodeString, DtString, Reply, ErrorReply, VOID_REPLY, Deliver, Request;
    DeliverRequest(net, cmd, DtString(text));
  }

  /** A call that sends a text gets the reply to that text, and nothing else is on its way. */
  lemma TextExchange(net: Net, c: Call, e: Failure)
    requires Quiet(net) && CallOk(c) && !c.SetCall? && Sends(c)
    ensures var store := net.server.store;
      var store' := if TextFits(c) then Eval(RequestText(c), store).0 else store;
      var p := ParseCall(c, AnswerTo(store, c), e);
      Exchange(net, c, e) == (Net(Server([], store'), p.rest), ResultOf(p))
  {
    hide Eval, TextReply, ErrorReply, ParseCall, Deliver, EvalRequest, RequestText, StringRoom, ResultOf, TextCommand;
    TextDelivered(net, TextCommand(c), RequestText(c));
    var reply := AnswerTo(net.server.store, c);
    assert [] + reply == reply;
  }

  /** The outcome of an asking call on the reply for its value. */
  lemma AskOfReply(v: Value, c: Call, e: Failure)
    requires ValidValue(v) && Bounded(v) && CallOk(c) && Asks(c) && Sends(c)
    ensures ParseCall(c, Reply(v), e) == OnValue(v, c, e)
  {
    hide Reply, ParseVec, ParseScalar, ParseNamed, ParseBool, ParseExec, VecAnswer, ScalarAnswer, BoolAnswer, Bounded,
      Strings, NamedOnBody, Body, ValidValue;
    assert Reply(v) + [] == Reply(v) && Body(v) + [] == Body(v);
    match c
    case GetCall(_, q) =>
      VecOfReply(q, v, [], e);
    case ScalarCall(_, q) =>
      ScalarOfReply(q, v, [], e, Width(q));
      assert forall cell: Bytes :: |cell| == Width(q) ==> cell[..Width(q)] == cell && cell[Width(q)..] + [] == [];
      ScalarAnswerWidth(q, v);
    case NamedCall(_, szBlob, szVals) =>
      NamedOfValue(v, [], e, szBlob, szVals);
    case GetBoolCall(_) =>
      BoolOfReply(v, [], e);
    case ExecValueCall(_, expected) =>
      ExecOfReply(expected, v, [], e);
  }

  lemma ScalarAnswerWidth(q: Qtype, v: Value)
    ensures ScalarAnswer(q, v).Some? ==> |ScalarAnswer(q, v).value| == Width(q)
  {
  }

  /** The call has the outcome and the effect that the map gives it. */
  predicate Exact(net: Net, c: Call, e: Failure)
    requires CallOk(c)
  {
    var store, p := net.server.store, Expected(net.server.store, c, e);
    Exchange(net, c, e) == (Net(Server([], StoreAfter(store, c)), p.rest), ResultOf(p))
  }

  lemma AskExact(net: Net, c: Call, e: Failure)
    requires Quiet(net) && StoreOk(net.server.store) && Asks(c) && CallOk(c) && Sends(c)
    ensures Exact(net, c, e)
  {
    hide Reply, ErrorReply, ParseCall, OnValue, Bounded, ValidValue, Exchange, Eval, RequestText, TextFits, StoreOk,
      Sends;
    TextExchange(net, c, e);
    var store := net.server.store;
    EvalKeepsOk(RequestText(c), store);
    if ValueOf(store, c).Some? {
      AskOfReply(ValueOf(store, c).value, c, e);
    } else {
      AskOfError(c, ERR_R_ERROR, e);
      AskOfError(c, ERR_INV_PAR, e);
    }
  }

  /** Calls that want a value on a reply that has none. */
  lemma AskOfError(c: Call, stat: nat, e: Failure)
    requires (Asks(c) || c.LenCall? || c.SetBoolCall?) && stat < 128
    ensures ParseCall(c, ErrorReply(stat), e) == Err(if c.GetCall? || c.ScalarCall? then e else -1, [])
  {
    EmptyReplies(stat);
    OnEmptyReply(ErrorReply(stat), e);
    hide ErrorReply, ParseVec, ParseScalar, ParseNamed, ParseBool, ParseLen, ParseExec;
  }

  lemma LenExact(net: Net, c: Call, e: Failure)
    requires Quiet(net) && c.LenCall? && CallOk(c)
    ensures Exact(net, c, e)
  {
    hide Length, Le32, Reply, ErrorReply, ParseCall, AsInt, Exchange, Eval, RequestText, ValueOf, TextFits;
    var store := net.server.store;
    TextExchange(net, c, e);
    LengthValue(store, c);
    if TextFits(c) && c.name in store {
      LenCallOfReply(c, Length(store[c.name]) % WORD_LIMIT, e);
    } else {
      AskOfError(c, ERR_R_ERROR, e);
      AskOfError(c, ERR_INV_PAR, e);
    }
  }

  lemma LengthValue(store: Store, c: Call)
    requires c.LenCall? && CallOk(c)
    ensures ValueOf(store, c) == if TextFits(c) && c.name in store
                                 then Some(Int(Le32(Length(store[c.name]) % WORD_LIMIT))) else None
    ensures Eval(RequestText(c), store).0 == store
  {
    hide Le32, Length, Eval, StringRoom;
    EvalLength(c.name, store);
  }

  lemma LenCallOfReply(c: Call, n: nat, e: Failure)
    requires c.LenCall? && n < WORD_LIMIT
    ensures ParseCall(c, Reply(Int(Le32(n))), e) == Ok(Count(AsInt(n)), [])
  {
    hide Reply, Le32, AsInt, ParseLen;
    LenOfReply(n, [], e);
    assert Reply(Int(Le32(n))) + [] == Reply(Int(Le32(n)));
  }

  lemma SetBoolExact(net: Net, c: Call, e: Failure)
    requires Quiet(net) && c.SetBoolCall? && CallOk(c)
    ensures Exact(net, c, e)
  {
    hide Bool, Reply, ErrorReply, ParseCall, Exchange, Eval, RequestText, ValueOf, TextFits;
    TextExchange(net, c, e);
    AssignedValue(net.server.store, c);
    SetBoolOfReply(c, e);
    AskOfError(c, ERR_INV_PAR, e);
  }

  lemma AssignedValue(store: Store, c: Call)
    requires c.SetBoolCall? && CallOk(c)
    ensures ValueOf(store, c) == if TextFits(c) then Some(Bool(c.x)) else None
    ensures Eval(RequestText(c), store).0 == store[c.name := Bool(c.x)]
  {
    hide Bool, Eval, StringRoom;
    EvalAssign(c.name, c.x, store);
  }

  lemma SetBoolOfReply(c: Call, e: Failure)
    requires c.SetBoolCall?
    ensures ParseCall(c, Reply(Bool(c.x)), e) == Ok(Done, [])
  {
    hide Bool, Bounded, ValidValue, Reply, ParseExec, Body, Xt;
    var v := Bool(c.x);
    BoolOk(c.x);
    ExecOfReply(-1, v, [], e);
    assert Reply(v) + [] == Reply(v);
  }

  lemma ExecExact(net: Net, c: Call, e: Failure)
    requires Quiet(net) && c.ExecCall? && CallOk(c)
    ensures Exact(net, c, e)
  {
    hide ErrorReply, VOID_REPLY, ParseExec, Eval, Exchange, RequestText, TextFits, Empty;
    TextExchange(net, c, e);
    EmptyReplies(ERR_R_ERROR);
    EmptyReplies(ERR_INV_PAR);
    OnEmptyReply(VOID_REPLY, e);
    OnEmptyReply(ErrorReply(ERR_R_ERROR), e);
    OnEmptyReply(ErrorReply(ERR_INV_PAR), e);
  }

  /** The request of set_vec is answered with an empty reply, whatever the server did with it. */
  lemma SetDelivered(net: Net, c: Call)
    requires net.server.pending == [] && c.SetCall? && CallOk(c) && Sends(c)
    ensures Deliver(net, RequestOf(c)) == Net(Server([], StoreAfter(net.server.store, c)),
                                              net.inbound + if TextFits(c) then VOID_REPLY else ErrorReply(ERR_INV_PAR))
  {
    SetHandled(c.name, c.q, c.data, c.n, c.width, net.server.store);
    SetSize(c.name, c.q, c.data, c.n, c.width);
    hide Handle, SetPayload, Decoded, SetBody, VOID_REPLY, ErrorReply, Deliver, Request, SetArgsOk, StringRoom;
    DeliverRequest(net, CMD_SET_SEXP, SetPayload(c.name, c.q, c.data, c.n, c.width));
  }

  lemma SetExact(net: Net, c: Call, e: Failure)
    requires Quiet(net) && c.SetCall? && CallOk(c) && Sends(c)
    ensures Exact(net, c, e)
  {
    SetDelivered(net, c);
    var reply := if TextFits(c) then VOID_REPLY else ErrorReply(ERR_INV_PAR);
    EmptyReplies(ERR_INV_PAR);
    OnEmptyReply(reply, e);
    hide SetArgsOk, RequestOf, Deliver, ParseSet, VOID_REPLY, ErrorReply, StoreAfter, StringRoom, Empty;
    assert [] + reply == reply;
  }

  /**
   On a quiet connection every call, whatever its arguments and whatever the map holds, has the outcome
   and the effect that the map gives it: result, unread bytes, new map.
   */
  lemma CallExact(net: Net, c: Call, e: Failure)
    requires Quiet(net) && StoreOk(net.server.store) && CallOk(c)
    ensures Exact(net, c, e)
  {
    if Sends(c) {
      hide Exact;
      match c
      case SetCall(_, _, _, _, _) => SetExact(net, c, e);
      case SetBoolCall(_, _) => SetBoolExact(net, c, e);
      case LenCall(_) => LenExact(net, c, e);
      case ExecCall(_) => ExecExact(net, c, e);
      case _ => AskExact(net, c, e);
    }
  }

  lemma StoreStaysOk(store: Store, c: Call)
    requires StoreOk(store) && CallOk(c)
    ensures StoreOk(StoreAfter(store, c))
  {
    hide StoreOk, Handle, Bool, SetArgsOk, Eval, StringRoom, SetBody, Decoded, SetPayload;
    if Sends(c) && TextFits(c) {
      match c
      case SetCall(name, q, data, n, width) =>
        SetHandled(name, q, data, n, width, store);
        SetSize(name, q, data, n, width);
        HandleKeepsOk(CMD_SET_SEXP, SetPayload(name, q, data, n, width), store);
      case SetBoolCall(name, x) =>
        BoolOk(x);
        PutKeepsOk(store, name, Bool(x));
      case LenCall(_) =>
      case _ =>
        EvalKeepsOk(RequestText(c), store);
    }
  }

  // ---------- When a call leaves the connection quiet ----------

  /** The reply for the value is read to its end. */
  predicate Drains(v: Value, c: Call)
    requires Asks(c)
  {
    match c
    case GetCall(_, q) => VecAnswer(q, v).Some? || Body(v) == []
    case ScalarCall(_, q) => ScalarAnswer(q, v).Some? || Body(v) == []
    case NamedCall(_, szBlob, szVals) => NamedDrains(|Body(v)| + 4 < LEN_LIMIT, Body(v), szBlob, szVals)
    case GetBoolCall(_) => v.Lgl? || Body(v) == []
    case ExecValueCall(_, expected) => expected < 0 || Xt(v) as int == expected || Body(v) == []
  }

  predicate NamedDrains(fits: bool, b: Bytes, szBlob: nat, szVals: nat) {
    if |b| < 8 || !fits || !NamedWords(b, szBlob) then |b| <= 8
    else
      var l := ParLen(WordAt(b, 4));
      |b| <= 20 + l || (CountNul(b[8..8 + l]) < szVals && |b| <= 20 + l + 8 * CountNul(b[8..8 + l]))
  }

  predicate LeavesQuiet(store: Store, c: Call)
    requires CallOk(c)
  {
    Sends(c) && Asks(c) && ValueOf(store, c).Some? ==> Drains(ValueOf(store, c).value, c)
  }

  lemma NamedDrainsExact(fits: bool, b: Bytes, e: Failure, szBlob: nat, szVals: nat)
    ensures NamedOnBody(fits, b, e, szBlob, szVals).rest == [] <==> NamedDrains(fits, b, szBlob, szVals)
  {
    hide NamedWords, WordAt, ParLen, CountNul;
  }

  lemma DrainsExact(v: Value, c: Call, e: Failure)
    requires Asks(c)
    ensures OnValue(v, c, e).rest == [] <==> Drains(v, c)
  {
    hide NamedOnBody, NamedDrains, VecAnswer, ScalarAnswer, Body, Xt;
    if c.NamedCall? {
      NamedDrainsExact(|Body(v)| + 4 < LEN_LIMIT, Body(v), e, c.szBlob, c.szVals);
    }
  }

  /**
   A call on a quiet connection leaves it quiet exactly when it sends nothing, wants no value, gets
   none, or gets one whose reply it reads to the end.
   */
  lemma QuietAfterIff(net: Net, c: Call, e: Failure)
    requires Quiet(net) && StoreOk(net.server.store) && CallOk(c)
    ensures Quiet(Exchange(net, c, e).0) <==> LeavesQuiet(net.server.store, c)
  {
    CallExact(net, c, e);
    RestExact(net.server.store, c, e);
    hide Exchange, Expected, LeavesQuiet, StoreAfter, StoreOk;
  }

  lemma RestExact(store: Store, c: Call, e: Failure)
    requires CallOk(c)
    ensures Expected(store, c, e).rest == [] <==> LeavesQuiet(store, c)
  {
    hide OnValue, Drains, ValueOf, TextFits, Length, AsInt;
    if Sends(c) && Asks(c) && ValueOf(store, c).Some? {
      DrainsExact(ValueOf(store, c).value, c, e);
    }
  }

  /**
   For a plain name that fits, the value is the one the map has under it: the call leaves the connection
   quiet exactly when the map has none, or one whose reply the call reads to the end.
   */
  lemma NameLookup(store: Store, c: Call)
    requires Asks(c) && !c.ExecValueCall? && CallOk(c) && Ident(c.name) && TextFits(c)
    ensures ValueOf(store, c) == if c.name in store then Some(store[c.name]) else None
    ensures StoreAfter(store, c) == store
    ensures Sends(c) ==> (LeavesQuiet(store, c) <==> c.name !in store || Drains(store[c.name], c))
  {
    EvalLookup(c.name, store);
    hide Eval, Ident, StringRoom, Drains, Sends;
  }

  /** Keys and values are found, and the body goes on behind them. */
  predicate NamedOverlong(fits: bool, b: Bytes, szBlob: nat, szVals: nat) {
    && |b| >= 8 && fits && NamedWords(b, szBlob)
    && var l := ParLen(WordAt(b, 4));
       |b| >= 20 + l && CountNul(b[8..8 + l]) < szVals && |b| > 20 + l + 8 * CountNul(b[8..8 + l])
  }

  /** The one way to succeed and leave bytes unread. */
  predicate Overlong(store: Store, c: Call)
    requires CallOk(c)
  {
    && c.NamedCall? && ValueOf(store, c).Some?
    && var b := Body(ValueOf(store, c).value);
       NamedOverlong(|b| + 4 < LEN_LIMIT, b, c.szBlob, c.szVals)
  }

  lemma NamedOverlongExact(fits: bool, b: Bytes, e: Failure, szBlob: nat, szVals: nat)
    ensures var p := NamedOnBody(fits, b, e, szBlob, szVals);
      p.Ok? && p.rest != [] <==> NamedOverlong(fits, b, szBlob, szVals)
  {
    hide NamedWords, WordAt, ParLen, CountNul;
  }

  lemma OverlongExact(store: Store, c: Call, e: Failure)
    requires CallOk(c)
    ensures Expected(store, c, e).Ok? && !LeavesQuiet(store, c) <==> Overlong(store, c)
  {
    hide LeavesQuiet, ValueOf, TextFits, Length, AsInt, Body, Xt, VecAnswer, ScalarAnswer, BoolAnswer, NamedOnBody,
      NamedOverlong;
    RestExact(store, c, e);
    if c.NamedCall? && ValueOf(store, c).Some? {
      var b := Body(ValueOf(store, c).value);
      NamedOverlongExact(|b| + 4 < LEN_LIMIT, b, e, c.szBlob, c.szVals);
    }
  }

  /** The bytes of a named vector never go on behind its values. */
  lemma NamedNotOverlong(store: Store, c: Call)
    requires CallOk(c) && ValueOf(store, c).Some?
    requires var v := ValueOf(store, c).value; v.Named? && ValidValue(v)
    ensures !Overlong(store, c)
  {
    if c.NamedCall? {
      var v := ValueOf(store, c).value;
      NamedShape(v.keys, v.cells, []);
      hide ValueOf, Body, StringArray, NamedOnBody, NamedOverlong, NAMES_TAG;
      NamedOnNamed(|Body(v)| + 4 < LEN_LIMIT, v.keys, v.cells, [], -1, c.szBlob, c.szVals);
      assert Body(v) + [] == Body(v);
      NamedOverlongExact(|Body(v)| + 4 < LEN_LIMIT, Body(v), -1, c.szBlob, c.szVals);
    }
  }

  // ---------- set_vec ----------

  /**
   set_vec succeeds on a quiet connection whatever the server makes of the request, because the reply is
   empty and its response code is not looked at. Under a name too long for its word nothing is stored; a
   body too long for its word is stored cut short. So it has stored its value exactly if the request was
   accepted, or was refused with the value there before.
   */
  lemma SetStoresIffAccepted(net: Net, c: Call, e: Failure)
    requires Quiet(net) && c.SetCall? && CallOk(c) && Sends(c)
    ensures var store := net.server.store;
      var after := if StringRoom(c.name) < LEN_LIMIT
        then store[c.name := Decoded(c.q, SetBody(c.q, c.data, c.n, c.width))] else store;
      var v := SetValue(c.q, c.data, c.n, c.width);
      && Exchange(net, c, e) == (Net(Server([], after), []), Done)
      && (Holds(after, c.name, v) <==>
            || Accepted(c.name, c.q, c.data, c.n, c.width)
            || (StringRoom(c.name) >= LEN_LIMIT && Holds(store, c.name, v)))
  {
    SetExact(net, c, e);
    SetHandled(c.name, c.q, c.data, c.n, c.width, net.server.store);
    StoredIffAccepted(c.name, c.q, c.data, c.n, c.width, net.server.store);
    hide Exchange, Handle, SetPayload, SetArgsOk, Decoded, SetBody, SetValue, StringRoom, Accepted, Holds;
  }

  /** One double or more, or integers, or logicals, stored under a plain name: the vector is then there. */
  lemma VectorStored(net: Net, name: Bytes, q: Qtype, data: Bytes, n: nat, e: Failure)
    requires Quiet(net) && 0 !in name && 0 < |name| < 0xff_fff8 && n > 0
    requires
      || (q.F8? && |data| == 8 * n && |data| < 0x100_0000)
      || (q.I4? && |data| == 4 * n && |data| < 0x100_0000)
      || (q.I1? && |data| == n && |data| < 0x2000_0000)
    ensures var v := if q.F8? then Dbl(data) else if q.I4? then Int(data) else Lgl(data);
      Exchange(net, SetCall(name, q, data, n, 0), e) == (Net(Server([], net.server.store[name := v]), []), Done)
  {
    CellsAccepted(name, q, data, n, 0);
    BodyRecovered(q, data, n, 0);
    hide Exchange, SetArgsOk, Decoded;
    SetStoresIffAccepted(net, SetCall(name, q, data, n, 0), e);
  }

  /** Strings laid out at a width larger than each of them: the server then has them, in their order. */
  lemma StringsStored(net: Net, name: Bytes, strs: seq<Bytes>, width: nat, e: Failure)
    requires Quiet(net) && 0 !in name && 0 < |name| < 0xff_fff8 && |strs| > 0
    requires forall s: Bytes :: s in strs ==> 0 !in s && |s| < width
    requires |strs| * width <= 0xff_fff8
    ensures CallOk(SetCall(name, SC, Layout(strs, width), |strs|, width))
    ensures Exchange(net, SetCall(name, SC, Layout(strs, width), |strs|, width), e)
         == (Net(Server([], net.server.store[name := Str(strs)]), []), Done)
  {
    var data, n := Layout(strs, width), |strs|;
    assert strs[0] in strs;
    CellsBound(n, width);
    StringsAccepted(name, strs, width);
    SlotsOfLayout(strs, width);
    BlobSize(data, n, width);
    BodyRecovered(SC, data, n, width);
    hide Exchange, SetArgsOk, Decoded, Layout, Slots, SlotsEnd, Blob;
    SetStoresIffAccepted(net, SetCall(name, SC, data, n, width), e);
  }

  /** A named vector that the server holds is what get_named_vec_F8 returns, with nothing left behind. */
  lemma NamedReadBack(name: Bytes, keys: seq<Bytes>, cells: Bytes, szBlob: nat, szVals: nat, e: Failure)
    requires 0 !in name && Ident(name) && |name| < 0xff_fff8
    requires (forall k: Bytes :: k in keys ==> 0 !in k) && |cells| == 8 * |keys|
    requires |StringArray(keys)| + |cells| + 24 < 0x100_0000 && |StringArray(keys)| < szBlob && |keys| < szVals
    ensures var net := Net(Server([], map[name := Named(keys, cells)]), []);
      && StoreOk(net.server.store)
      && Exchange(net, NamedCall(name, szBlob, szVals), e) == (net, Entries(Keyed(StringArray(keys), cells)))
  {
    var store: Store := map[name := Named(keys, cells)];
    var c := NamedCall(name, szBlob, szVals);
    NamedShape(keys, cells, []);
    NamedOnNamed(true, keys, cells, [], e, szBlob, szVals);
    assert Body(Named(keys, cells)) + [] == Body(Named(keys, cells));
    hide Exchange, Body, StringArray, Ident, StringRoom, NamedOnBody, Strings;
    NameLookup(store, c);
    CallExact(Net(Server([], store), []), c, e);
  }

  /** And get_vec_len of it is the number of its keys. */
  lemma NamedLength(net: Net, name: CString, e: Failure)
    requires Quiet(net) && StoreOk(net.server.store) && |name| + 16 < LEN_LIMIT
    requires name in net.server.store && net.server.store[name].Named? && |net.server.store[name].keys| < INT_LIMIT
    ensures Exchange(net, LenCall(name), e) == (net, Count(|net.server.store[name].keys|))
  {
    hide Exchange, Length, ValidValue, Bounded, Eval, TextFits, RequestText, ValueOf;
    LengthFits(name);
    NamedElements(net.server.store[name]);
    assert ValidValue(net.server.store[name]);
    CallExact(net, LenCall(name), e);
  }

  lemma LengthFits(name: CString)
    requires |name| + 16 < LEN_LIMIT
    ensures TextFits(LenCall(name))
  {
    assert |LengthCommand(name)| == |name| + 8;
    hide LengthCommand;
  }

  lemma NamedElements(v: Value)
    requires v.Named?
    ensures ValidValue(v) ==> Length(v) == |v.keys|
  {
    assert 8 * |v.keys| / 8 == |v.keys|;
  }

  /** Letters, digits, the dot and the underscore make plain names. */
  lemma PlainNames(name: Bytes)
    requires forall b :: b in name ==> 65 <= b <= 90 || 97 <= b <= 122 || 48 <= b <= 57 || b == 46 || b == 95
    ensures Ident(name)
  {
  }

  // ---------- Sequences of calls ----------

  function StoreRun(store: Store, calls: seq<Call>): Store
    requires CallsOk(calls)
    decreases |calls|
  {
    if calls == [] then store else StoreRun(StoreAfter(store, calls[0]), calls[1..])
  }

  /** The results of a sequence of calls, from the map alone. */
  function ExpectedRun(store: Store, calls: seq<Call>, e: Failure): (rs: seq<Result>)
    requires CallsOk(calls)
    decreases |calls|
  {
    if calls == [] then []
    else [ResultOf(Expected(store, calls[0], e))] + ExpectedRun(StoreAfter(store, calls[0]), calls[1..], e)
  }

  /** Each call of the sequence leaves the connection quiet, by what the map holds when its turn comes. */
  predicate QuietRun(store: Store, calls: seq<Call>)
    requires CallsOk(calls)
    decreases |calls|
  {
    calls != [] ==> LeavesQuiet(store, calls[0]) && QuietRun(StoreAfter(store, calls[0]), calls[1..])
  }

  /** The connection is quiet after each call of the sequence. */
  predicate QuietAlong(net: Net, calls: seq<Call>, e: Failure)
    requires CallsOk(calls)
    decreases |calls|
  {
    calls != [] ==>
      var net1 := Exchange(net, calls[0], e).0;
      Quiet(net1) && QuietAlong(net1, calls[1..], e)
  }

  /**
   Client and server together are a map from names to values. For every sequence of calls the connection
   is quiet after each of them exactly when, by the map, each leaves it so; and then every result is the
   map's, failures included, and the server holds the map's contents.
   */
  lemma {:induction false} RunRefinesMap(net: Net, calls: seq<Call>, e: Failure)
    requires Quiet(net) && StoreOk(net.server.store) && CallsOk(calls)
    ensures QuietAlong(net, calls, e) <==> QuietRun(net.server.store, calls)
    ensures QuietRun(net.server.store, calls) ==>
      && Run(net, calls, e) == (Net(Server([], StoreRun(net.server.store, calls)), []),
                                ExpectedRun(net.server.store, calls, e))
      && StoreOk(StoreRun(net.server.store, calls))
    decreases |calls|
  {
    hide Exchange, Expected, StoreAfter, LeavesQuiet, StoreOk, CallOk;
    if calls != [] {
      var store, c := net.server.store, calls[0];
      CallExact(net, c, e);
      QuietAfterIff(net, c, e);
      RestExact(store, c, e);
      StoreStaysOk(store, c);
      if LeavesQuiet(store, c) {
        RunRefinesMap(Exchange(net, c, e).0, calls[1..], e);
      }
    }
  }

  /** No call of the sequence finds a body that goes on behind the keys and values it takes. */
  predicate NoOverlong(store: Store, calls: seq<Call>)
    requires CallsOk(calls)
    decreases |calls|
  {
    calls != [] ==> !Overlong(store, calls[0]) && NoOverlong(StoreAfter(store, calls[0]), calls[1..])
  }

  lemma {:induction false} NoNamedReads(store: Store, calls: seq<Call>)
    requires CallsOk(calls) && forall c :: c in calls ==> !c.NamedCall?
    ensures NoOverlong(store, calls) && NamedReadsMeetNamed(store, calls)
    decreases |calls|
  {
    hide StoreAfter, CallOk, ValueOf;
    if calls != [] {
      NoNamedReads(StoreAfter(store, calls[0]), calls[1..]);
    }
  }

  /** Every get_named_vec_F8 of the sequence meets a named vector, or no value, when its turn comes. */
  predicate NamedReadsMeetNamed(store: Store, calls: seq<Call>)
    requires CallsOk(calls)
    decreases |calls|
  {
    calls != [] ==>
      && (calls[0].NamedCall? && ValueOf(store, calls[0]).Some? ==> ValueOf(store, calls[0]).value.Named?)
      && NamedReadsMeetNamed(StoreAfter(store, calls[0]), calls[1..])
  }

  lemma {:induction false} NamedReadsNotOverlong(store: Store, calls: seq<Call>)
    requires StoreOk(store) && CallsOk(calls) && NamedReadsMeetNamed(store, calls)
    ensures NoOverlong(store, calls)
    decreases |calls|
  {
    hide StoreOk, StoreAfter, CallOk;
    if calls != [] {
      var c := calls[0];
      if c.NamedCall? && ValueOf(store, c).Some? {
        EvalKeepsOk(RequestText(c), store);
        NamedNotOverlong(store, c);
      }
      StoreStaysOk(store, c);
      NamedReadsNotOverlong(StoreAfter(store, c), calls[1..]);
    }
  }

  /**
   Apart from such bodies success is enough: all calls succeed exactly when the map answers all of them,
   and then each has left the connection quiet.
   */
  lemma {:induction false} SuccessKeepsQuiet(net: Net, calls: seq<Call>, e: Failure)
    requires Quiet(net) && StoreOk(net.server.store) && CallsOk(calls) && NoOverlong(net.server.store, calls)
    ensures NoneFailed(Run(net, calls, e).1) <==> NoneFailed(ExpectedRun(net.server.store, calls, e))
    ensures NoneFailed(Run(net, calls, e).1) ==> QuietRun(net.server.store, calls)
    decreases |calls|
  {
    hide Exchange, Expected, StoreAfter, LeavesQuiet, StoreOk, CallOk, Overlong;
    if calls != [] {
      var store, c := net.server.store, calls[0];
      CallExact(net, c, e);
      OverlongExact(store, c, e);
      RestExact(store, c, e);
      StoreStaysOk(store, c);
      var (net1, r) := Exchange(net, c, e);
      var rs, xs := Run(net1, calls[1..], e).1, ExpectedRun(StoreAfter(store, c), calls[1..], e);
      OkResult(store, c, e);
      NoneFailedFirst(r, rs);
      NoneFailedFirst(r, xs);
      if !r.Failed? {
        SuccessKeepsQuiet(net1, calls[1..], e);
      }
    }
  }

  lemma NoneFailedFirst(r: Result, rs: seq<Result>)
    ensures NoneFailed([r] + rs) <==> !r.Failed? && NoneFailed(rs)
  {
    assert r in [r] + rs && forall x :: x in rs ==> x in [r] + rs;
  }

  lemma OkResult(store: Store, c: Call, e: Failure)
    requires CallOk(c)
    ensures !ResultOf(Expected(store, c, e)).Failed? <==> Expected(store, c, e).Ok?
  {
    hide ValueOf, TextFits, Length, AsInt, Body, Xt, VecAnswer, ScalarAnswer, BoolAnswer, NamedOnBody;
  }

  lemma {:induction false} QuietAppend(store: Store, a: seq<Call>, b: seq<Call>)
    requires CallsOk(a) && CallsOk(b)
    ensures CallsOk(a + b)
    ensures QuietRun(store, a + b) <==> QuietRun(store, a) && QuietRun(StoreRun(store, a), b)
    ensures StoreRun(store, a + b) == StoreRun(StoreRun(store, a), b)
    decreases |a|
  {
    hide StoreAfter, LeavesQuiet, CallOk;
    if a == [] {
      assert a + b == b;
    } else {
      assert (a + b)[1..] == a[1..] + b;
      QuietAppend(StoreAfter(store, a[0]), a[1..], b);
    }
  }

  /** In a session whose calls all succeed, the connection is quiet between any two of them. */
  lemma QuietBetweenCalls(net: Net, before: seq<Call>, after: seq<Call>, e: Failure)
    requires Quiet(net) && StoreOk(net.server.store) && CallsOk(before) && CallsOk(after)
    requires CallsOk(before + after) && NoOverlong(net.server.store, before + after)
    requires NoneFailed(Run(net, before + after, e).1)
    ensures Run(net, before, e).0 == Net(Server([], StoreRun(net.server.store, before)), [])
  {
    hide Run, StoreRun, QuietRun, NoOverlong, ExpectedRun, StoreOk;
    SuccessKeepsQuiet(net, before + after, e);
    QuietAppend(net.server.store, before, after);
    RunRefinesMap(net, before, e);
  }

  // ---------- The last value stored ----------

  predicate Assigns(text: Bytes, name: Bytes) {
    || (EndsWith(text, ASSIGN_TRUE) && text[..|text| - |ASSIGN_TRUE|] == name)
    || (EndsWith(text, ASSIGN_FALSE) && text[..|text| - |ASSIGN_FALSE|] == name)
  }

  predicate Writes(c: Call, name: Bytes)
    requires CallOk(c)
  {
    match c
    case SetCall(target, _, _, _, _) => target == name
    case SetBoolCall(target, _) => target == name
    case LenCall(_) => false
    case _ => Assigns(RequestText(c), name)
  }

  /** A call that stores writes the name it is given; lookups of plain names and get_vec_len write none. */
  lemma WritesItsName(c: Call, name: Bytes)
    requires CallOk(c)
    ensures c.SetCall? || c.SetBoolCall? ==> (Writes(c, name) <==> c.name == name)
    ensures c.LenCall? ==> !Writes(c, name)
    ensures !c.SetCall? && !c.SetBoolCall? && Ident(RequestText(c)) ==> !Writes(c, name)
  {
    SuffixBytes(RequestText(c), ASSIGN_TRUE);
    SuffixBytes(RequestText(c), ASSIGN_FALSE);
    hide EndsWith, LengthCommand, BoolCommand;
  }

  predicate SameAt(a: Store, b: Store, name: Bytes) {
    (name in a <==> name in b) && (name in a ==> a[name] == b[name])
  }

  lemma WritesElsewhere(store: Store, c: Call, name: Bytes)
    requires CallOk(c) && !Writes(c, name)
    ensures SameAt(store, StoreAfter(store, c), name)
  {
    hide EndsWith, Decoded, SetBody, Bool, Sends, TextFits, Le32, Length;
  }

  lemma {:induction false} RunElsewhere(store: Store, calls: seq<Call>, name: Bytes)
    requires CallsOk(calls) && forall c :: c in calls ==> !Writes(c, name)
    ensures SameAt(store, StoreRun(store, calls), name)
    decreases |calls|
  {
    hide StoreAfter, Writes, CallOk;
    if calls != [] {
      WritesElsewhere(store, calls[0], name);
      RunElsewhere(StoreAfter(store, calls[0]), calls[1..], name);
    }
  }

  /**
   What `w` made of the map at a name is still there after calls that do not write the name, some of
   which may have failed; and the connection is quiet.
   */
  lemma LastWriteStands(net: Net, before: seq<Call>, w: Call, after: seq<Call>, name: Bytes, e: Failure)
    requires Quiet(net) && StoreOk(net.server.store)
    requires CallsOk(before) && CallOk(w) && CallsOk(after) && CallsOk(before + [w] + after)
    requires QuietRun(net.server.store, before + [w] + after)
    requires forall c :: c in after ==> !Writes(c, name)
    ensures var net1 := Run(net, before + [w] + after, e).0;
      && net1 == Net(Server([], net1.server.store), []) && StoreOk(net1.server.store)
      && SameAt(StoreAfter(StoreRun(net.server.store, before), w), net1.server.store, name)
  {
    var store, all := net.server.store, before + [w] + after;
    QuietAppend(store, before + [w], after);
    QuietAppend(store, before, [w]);
    var mid := StoreRun(store, before);
    assert StoreRun(mid, [w]) == StoreAfter(mid, w) by {
      assert [w][1..] == [];
      assert StoreRun(StoreAfter(mid, w), []) == StoreAfter(mid, w);
    }
    hide Run, StoreRun, QuietRun, StoreAfter, StoreOk, ExpectedRun;
    RunRefinesMap(net, all, e);
    RunElsewhere(StoreAfter(mid, w), after, name);
  }

  /**
   get_vec after set_vec of the same name and type, with any other calls in between that keep the
   connection quiet. Doubles and integers come back as the server kept them, which is what was stored
   exactly when the request was accepted; logicals come back with the padding of their last word, unless
   they are too many for the word of the reply.
   */
  lemma GetReturnsLastSet(net: Net, before: seq<Call>, w: Call, after: seq<Call>, e: Failure)
    requires Quiet(net) && StoreOk(net.server.store)
    requires CallsOk(before) && CallOk(w) && CallsOk(after) && CallsOk(before + [w] + after)
    requires QuietRun(net.server.store, before + [w] + after)
    requires w.SetCall? && (w.q.F8? || w.q.I4? || w.q.I1?) && Sends(w) && TextFits(w) && Ident(w.name)
    requires forall c :: c in after ==> !Writes(c, w.name)
    ensures var net1 := Run(net, before + [w] + after, e).0;
      var (net2, r) := Exchange(net1, GetCall(w.name, w.q), e);
      && (!w.q.I1? ==> net2 == net1 && (r == Cells(Vec(w.n, w.data)) <==> |w.data| < LEN_LIMIT))
      && (!w.q.I1? ==> r == Cells(KeptVec(w.q, w.data)))
      && (w.q.I1? ==> (r.Failed? <==> w.n + 8 > LEN_LIMIT))
      && (r.Cells? && w.q.I1? ==>
            && net2 == net1 && r.vec.n == (w.n + 3) / 4 * 4 && w.data <= r.vec.data
            && (r.vec == Vec(w.n, w.data) <==> w.n % 4 == 0))
  {
    hide Run, StoreRun, QuietRun, Exchange, StoreAfter, StoreOk, Sends, Ident, SameAt, Expected;
    LastWriteStands(net, before, w, after, w.name, e);
    var net1 := Run(net, before + [w] + after, e).0;
    var get := GetCall(w.name, w.q);
    StoredValue(StoreRun(net.server.store, before), net1.server.store, w);
    CallExact(net1, get, e);
    GetExpected(net1.server.store, w, e);
    NameLookup(net1.server.store, get);
  }

  /** What is left of data whose length wrapped. */
  function KeptVec(q: Qtype, data: Bytes): Vec {
    var kept := data[..|data| % LEN_LIMIT];
    Vec(|kept| / Width(q), kept)
  }

  lemma StoredValue(mid: Store, store: Store, w: Call)
    requires CallOk(w) && w.SetCall? && Sends(w) && TextFits(w) && SameAt(StoreAfter(mid, w), store, w.name)
    ensures Holds(store, w.name, Decoded(w.q, SetBody(w.q, w.data, w.n, w.width)))
  {
    hide Sends, TextFits, Decoded, SetBody;
  }

  /** The map's word on get_vec of a name that holds what set_vec made of it. */
  lemma GetExpected(store: Store, w: Call, e: Failure)
    requires CallOk(w) && w.SetCall? && (w.q.F8? || w.q.I4? || w.q.I1?) && TextFits(w) && Ident(w.name)
    requires Holds(store, w.name, Decoded(w.q, SetBody(w.q, w.data, w.n, w.width)))
    ensures var p := Expected(store, GetCall(w.name, w.q), e);
      && (!w.q.I1? ==> p == Ok(Cells(KeptVec(w.q, w.data)), []))
      && (!w.q.I1? ==> (KeptVec(w.q, w.data) == Vec(w.n, w.data) <==> |w.data| < LEN_LIMIT))
      && (w.q.I1? ==> (p.Ok? <==> w.n + 8 <= LEN_LIMIT))
      && (p.Ok? ==> p.rest == [] && p.value.Cells?)
      && (p.Ok? && w.q.I1? ==>
            && p.value.vec.n == (w.n + 3) / 4 * 4 && w.data <= p.value.vec.data
            && (p.value.vec == Vec(w.n, w.data) <==> w.n % 4 == 0))
  {
    hide Ident, StringRoom, ValueOf, Expected, VecAnswer, KeptVec, OnValue;
    var v := store[w.name];
    NameLookup(store, GetCall(w.name, w.q));
    GetOnValue(store, GetCall(w.name, w.q), v, e);
    if w.q.I1? {
      LogicalAnswer(w.data);
    } else {
      KeptAnswer(w.q, w.data, w.n);
      hide Decoded;
    }
  }

  lemma GetOnValue(store: Store, get: Call, v: Value, e: Failure)
    requires get.GetCall? && CallOk(get) && Sends(get) && ValueOf(store, get) == Some(v)
    ensures Expected(store, get, e) ==
            if VecAnswer(get.q, v).Some? then Ok(Cells(VecAnswer(get.q, v).value), []) else Err(-1, Body(v))
  {
    hide ValueOf, VecAnswer, Body;
  }

  lemma LogicalAnswer(cells: Bytes)
    ensures var a := VecAnswer(I1, Lgl(cells));
      && (a.Some? <==> |cells| + 8 <= LEN_LIMIT)
      && (a.Some? ==> a.value.n == (|cells| + 3) / 4 * 4 && cells <= a.value.data)
      && (a.Some? ==> (a.value == Vec(|cells|, cells) <==> |cells| % 4 == 0))
  {
    PaddedTo4(|cells|);
    assert LogicalCells(cells)[..|cells|] == cells;
    if |cells| % 4 == 0 {
      assert LogicalCells(cells) == cells;
    }
  }

  lemma KeptAnswer(q: Qtype, data: Bytes, n: nat)
    requires (q.F8? || q.I4?) && |data| == n * Width(q)
    ensures VecAnswer(q, Decoded(q, data)) == Some(KeptVec(q, data))
    ensures KeptVec(q, data) == Vec(n, data) <==> |data| < LEN_LIMIT
  {
    if |data| < LEN_LIMIT {
      assert data[..|data| % LEN_LIMIT] == data;
    }
  }

  /** get_bool returns the last value that set_bool gave the name. */
  lemma GetBoolReturnsLastSet(net: Net, before: seq<Call>, w: Call, after: seq<Call>, e: Failure)
    requires Quiet(net) && StoreOk(net.server.store)
    requires CallsOk(before) && CallOk(w) && CallsOk(after) && CallsOk(before + [w] + after)
    requires QuietRun(net.server.store, before + [w] + after)
    requires w.SetBoolCall? && TextFits(w) && Ident(w.name)
    requires forall c :: c in after ==> !Writes(c, w.name)
    ensures var net1 := Run(net, before + [w] + after, e).0;
      Exchange(net1, GetBoolCall(w.name), e) == (net1, Flag(w.x))
  {
    hide Run, StoreRun, QuietRun, Exchange, StoreAfter, StoreOk, TextFits, Ident, SameAt, Expected;
    LastWriteStands(net, before, w, after, w.name, e);
    var net1 := Run(net, before + [w] + after, e).0;
    BoolExpected(StoreRun(net.server.store, before), net1.server.store, w, e);
    CallExact(net1, GetBoolCall(w.name), e);
  }

  lemma BoolExpected(mid: Store, store: Store, w: Call, e: Failure)
    requires w.SetBoolCall? && CallOk(w) && TextFits(w) && Ident(w.name)
    requires SameAt(StoreAfter(mid, w), store, w.name)
    ensures Expected(store, GetBoolCall(w.name), e) == Ok(Flag(w.x), [])
    ensures StoreAfter(store, GetBoolCall(w.name)) == store
  {
    var get := GetBoolCall(w.name);
    assert |RequestText(get)| <= |RequestText(w)|;
    NameLookup(store, get);
    hide ValueOf, Ident, Eval;
  }

  /**
   get_vec_len after set_vec of the same name, for every type: the number of cells or strings last stored,
   exactly when the request was accepted.
   */
  lemma LengthReturnsLastSet(net: Net, before: seq<Call>, w: Call, after: seq<Call>, e: Failure)
    requires Quiet(net) && StoreOk(net.server.store)
    requires CallsOk(before) && CallOk(w) && CallsOk(after) && CallsOk(before + [w] + after)
    requires QuietRun(net.server.store, before + [w] + after)
    requires w.SetCall? && Sends(w) && TextFits(w) && CallOk(LenCall(w.name)) && TextFits(LenCall(w.name))
    requires forall c :: c in after ==> !Writes(c, w.name)
    ensures var net1 := Run(net, before + [w] + after, e).0;
      var (net2, r) := Exchange(net1, LenCall(w.name), e);
      && net2 == net1 && r.Count?
      && (r.n == w.n <==> Accepted(w.name, w.q, w.data, w.n, w.width))
  {
    hide Run, StoreRun, QuietRun, Exchange, StoreAfter, StoreOk, TextFits, SameAt, Expected, Sends, Accepted;
    LastWriteStands(net, before, w, after, w.name, e);
    var net1 := Run(net, before + [w] + after, e).0;
    StoredValue(StoreRun(net.server.store, before), net1.server.store, w);
    LengthExpected(net1.server.store, w, e);
    CallExact(net1, LenCall(w.name), e);
  }

  lemma LengthExpected(store: Store, w: Call, e: Failure)
    requires CallOk(w) && w.SetCall? && Sends(w) && TextFits(w)
    requires CallOk(LenCall(w.name)) && TextFits(LenCall(w.name))
    requires Holds(store, w.name, Decoded(w.q, SetBody(w.q, w.data, w.n, w.width)))
    ensures var p := Expected(store, LenCall(w.name), e);
      && p.Ok? && p.rest == [] && p.value.Count?
      && (p.value.n == w.n <==> Accepted(w.name, w.q, w.data, w.n, w.width))
    ensures StoreAfter(store, LenCall(w.name)) == store
  {
    hide Length, Decoded, SetBody, SetArgsOk, TextFits, Accepted, Eval, RequestText, ValueOf;
    DecodedLength(w);
    AcceptedBody(w);
  }

  lemma AcceptedBody(w: Call)
    requires CallOk(w) && w.SetCall? && TextFits(w)
    ensures Accepted(w.name, w.q, w.data, w.n, w.width)
       <==> w.q.I1? || |SetBody(w.q, w.data, w.n, w.width)| < LEN_LIMIT
  {
    hide SetBody, StringRoom;
  }

  /** A body that is cut short has fewer elements. */
  lemma DecodedLength(w: Call)
    requires CallOk(w) && w.SetCall? && Sends(w)
    ensures var n := Length(Decoded(w.q, SetBody(w.q, w.data, w.n, w.width)));
      && n <= w.n < INT_LIMIT
      && (n == w.n <==> w.q.I1? || |SetBody(w.q, w.data, w.n, w.width)| < LEN_LIMIT)
  {
    var body := SetBody(w.q, w.data, w.n, w.width);
    CellsBound(w.n, CellBytes(w.q, w.width));
    if w.q.SC? {
      StringsLength(w.data, w.n, w.width);
    } else if |body| < LEN_LIMIT {
      assert body[..|body| % LEN_LIMIT] == body;
    }
    hide Slots, SlotsEnd, Blob, Strings;
  }

  lemma StringsLength(data: Bytes, n: nat, width: nat)
    requires |data| == n * width && n > 0
    ensures var b := Blob(data, n, width);
      var kept := |Strings(b[..|b| % LEN_LIMIT])|;
      kept <= n && (kept == n <==> |b| < LEN_LIMIT)
  {
    hide Blob, Slots, Strings;
    var b := Blob(data, n, width);
    BlobRoundTrip(data, n, width);
    if |b| < LEN_LIMIT {
      assert b[..|b| % LEN_LIMIT] == b;
    } else {
      CutBlobLosesStrings(data, n, width, |b| % LEN_LIMIT);
    }
  }

  lemma CellsBound(n: nat, k: nat)
    requires k > 0
    ensures n <= n * k
  {
  }

  // ---------- Framing of whole sessions ----------

  /** The requests of a sequence of calls; a call that refuses its arguments sends none. */
  function Requests(calls: seq<Call>): seq<Bytes>
    requires CallsOk(calls)
    decreases |calls|
  {
    if calls == [] then []
    else (if Sends(calls[0]) then [RequestOf(calls[0])] else []) + Requests(calls[1..])
  }

  lemma RequestFramed(c: Call)
    requires CallOk(c) && Sends(c)
    ensures WellFramed(RequestOf(c))
  {
    hide WellFramed;
    if c.SetCall? {
      SetSize(c.name, c.q, c.data, c.n, c.width);
      RequestWellFramed(CMD_SET_SEXP, SetPayload(c.name, c.q, c.data, c.n, c.width));
    } else {
      hide RequestText, TextCommand;
      RequestWellFramed(TextCommand(c), DtString(RequestText(c)));
    }
  }

  /** The server's framing rule splits all that a sequence of calls sends into exactly its requests. */
  lemma FramesOfCalls(calls: seq<Call>)
    requires CallsOk(calls)
    ensures Frames(Concat(Requests(calls))) == (Requests(calls), [])
  {
    RequestsFramed(calls);
    FramesOfConcat(Requests(calls));
  }

  lemma {:induction false} RequestsFramed(calls: seq<Call>)
    requires CallsOk(calls)
    ensures forall i :: 0 <= i < |Requests(calls)| ==> WellFramed(Requests(calls)[i])
    decreases |calls|
  {
    hide WellFramed, RequestOf, Sends, CallOk;
    if calls != [] {
      RequestsFramed(calls[1..]);
      if Sends(calls[0]) {
        RequestFramed(calls[0]);
      }
    }
  }

  // ---------- Where the map does not speak ----------

  /**
   Bytes left unread are what the next call trips over: after get_F8 on an integer, get_F8 on a double
   fails although the map has its value.
   */
  lemma EarlyExitDesynchronises(net: Net, x: CString, y: CString, e: Failure)
    requires Quiet(net) && StoreOk(net.server.store)
    requires Ident(x) && Ident(y) && StringRoom(x) < LEN_LIMIT && StringRoom(y) < LEN_LIMIT
    requires var store := net.server.store;
      && x in store && store[x].Int? && |store[x].cells| == 4
      && y in store && store[y].Dbl? && |store[y].cells| == 8
    ensures var store := net.server.store;
      var (net1, r1) := Exchange(net, ScalarCall(x, F8), e);
      && r1 == Failed(-1) && net1 == Net(net.server, store[x].cells)
      && Exchange(net, ScalarCall(y, F8), e) == (net, Cell(store[y].cells))
      && Exchange(net1, ScalarCall(y, F8), e).1 == Failed(-1)
  {
    var store := net.server.store;
    var cx, cy := ScalarCall(x, F8), ScalarCall(y, F8);
    CallExact(net, cx, e);
    CallExact(net, cy, e);
    NameLookup(store, cx);
    NameLookup(store, cy);
    var left := store[x].cells;
    EvalLookup(y, store);
    TextDelivered(Net(net.server, left), CMD_EVAL, y);
    StaleHead(left, store[y], e);
    hide Eval, Reply, ParseScalar, Deliver, EvalRequest, StringRoom, Ident, StoreOk;
  }

  /** Four stale bytes in front of a reply put the words of its header where its data words should be. */
  lemma StaleHead(left: Bytes, v: Value, e: Failure)
    requires |left| == 4 && v.Dbl? && |v.cells| == 8
    ensures ParseScalar(F8, left + Reply(v), e, 8).Err? && ParseScalar(F8, left + Reply(v), e, 8).status == -1
  {
    var s := left + Reply(v);
    StaleWord(left, Xt(v), Body(v));
    WordInSlice(s, HDR_LEN, 24, 0);
    assert s[HDR_LEN..][..8] == s[HDR_LEN..24];
    hide Reply, Body, Xt;
    assert TakeAtOnce(s[HDR_LEN..], 8, e) == Ok(s[HDR_LEN..24], s[HDR_LEN..][8..]);
  }

  lemma StaleWord(left: Bytes, xt: byte, body: Bytes)
    requires |left| == 4
    ensures WordAt(left + ValueReply(xt, body), HDR_LEN) == 0
  {
    hide Le32, SetPar;
    var len := (8 + |body|) % WORD_LIMIT;
    var rest := Le32(SetPar(DT_SEXP, 4 + |body|)) + (Le32(SetPar(xt, |body|)) + body);
    var pre := left + Le32(RESP_OK) + Le32(len) + Le32(0);
    assert left + ValueReply(xt, body) == pre + Le32(0) + rest;
    WordRoundTrip(pre, 0, rest);
  }
}
