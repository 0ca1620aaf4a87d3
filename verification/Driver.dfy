/** Programs that make calls one after the other through the client's methods, on one connection. */
module Driver {
  import opened Wire
  import opened Qap
  import opened RServer
  import opened Replies
  import opened SetRequests
  import opened ReplyProofs
  import opened Client
  import opened Session

  function Outgoing(c: Call): Bytes
    requires CallOk(c)
  {
    if Sends(c) then RequestOf(c) else []
  }

  /** Calls with a read outside the reassembly loop. */
  predicate RawRead(c: Call) {
    c.GetCall? || c.ScalarCall?
  }

  predicate NoRawRead(calls: seq<Call>) {
    forall c :: c in calls ==> !RawRead(c)
  }

  /** The call did what Exchange says, and sent its request. */
  ghost predicate Performed(link: Link, was: Net, before: Bytes, c: Call, r: Result)
    requires CallOk(c)
    reads link
  {
    (link.State(), r) == Exchange(was, c, link.E()) && link.sent == before + Outgoing(c)
  }

  /** The request is out, and the call succeeded or no read of it could be cut short. */
  ghost predicate Determined(link: Link, before: Bytes, c: Call, r: Result)
    requires CallOk(c)
    reads link
  {
    link.sent == before + Outgoing(c) && (!r.Failed? || link.RawReadsWhole() || !RawRead(c))
  }

  /** Either all of `out` went out, or less of it did and the call failed, which `whole` rules out. */
  ghost predicate SentOrFailed(link: Link, before: Bytes, out: Bytes, failed: bool)
    reads link
  {
    link.sent == before + out || (failed && !link.whole && |link.sent| < |before| + |out|)
  }

  /**
   Make one call. Once its request is out it does what Exchange says if it succeeds, or if its reads
   cannot be cut short. There is one proviso, `wholeCell`: that a scalar that succeeds has read a whole
   cell. For such a scalar this is the same as having done what Exchange says. It holds whenever raw
   reads are whole and the connection was quiet.
   */
  method Perform(link: Link, c: Call) returns (r: Result, ghost wholeCell: bool)
    requires CallOk(c)
    modifies link
    ensures SentOrFailed(link, old(link.sent), Outgoing(c), r.Failed?)
    ensures Determined(link, old(link.sent), c, r) && wholeCell ==>
      Performed(link, old(link.State()), old(link.sent), c, r)
    ensures !c.ScalarCall? || r.Failed? ==> wholeCell
    ensures !r.Failed? ==> (wholeCell <==> Performed(link, old(link.State()), old(link.sent), c, r))
    ensures link.RawReadsWhole() && Quiet(old(link.State())) && StoreOk(old(link.server.store)) ==> wholeCell
  {
    hide Performed, SentOrFailed, Quiet, StoreOk;
    wholeCell := true;
    match c {
      case SetCall(_, _, _, _, _) =>
        r := PerformSet(link, c);
      case GetCall(_, _) =>
        r := PerformGet(link, c);
      case ScalarCall(_, _) =>
        r, wholeCell := PerformScalar(link, c);
      case NamedCall(_, _, _) =>
        r := PerformNamed(link, c);
      case _ =>
        r := PerformExec(link, c);
    }
    SuccessSends(link, old(link.sent), c, r);
  }

  lemma SuccessSends(link: Link, before: Bytes, c: Call, r: Result)
    requires CallOk(c) && SentOrFailed(link, before, Outgoing(c), r.Failed?)
    ensures !r.Failed? ==> Determined(link, before, c, r)
  {
    hide Outgoing;
  }

  lemma ShortSend(link: Link, was: Net, before: Bytes, req: Bytes)
    requires link.PartlySent(was, before, req)
    ensures |link.sent| < |before| + |req|
  {
    hide Deliver;
  }

  method PerformSet(link: Link, c: Call) returns (r: Result)
    requires c.SetCall? && CallOk(c)
    modifies link
    ensures SentOrFailed(link, old(link.sent), Outgoing(c), r.Failed?)
    ensures Determined(link, old(link.sent), c, r) ==> Performed(link, old(link.State()), old(link.sent), c, r)
  {
    hide Deliver, SetRequest, SetArgsOk, ParseSet, Link.PartlySent;
    var data := new byte[|c.data|](i requires 0 <= i < |c.data| => c.data[i]);
    assert data[..] == c.data;
    var status := link.SetVec(Ptr(c.name), c.q, data, c.n, c.width);
    r := if status < 0 then Failed(status) else Done;
    assert old(link.sent) + [] == old(link.sent);
    if link.sent != old(link.sent) + Outgoing(c) {
      ShortSend(link, old(link.State()), old(link.sent), RequestOf(c));
    }
  }

  method PerformGet(link: Link, c: Call) returns (r: Result)
    requires c.GetCall? && CallOk(c)
    modifies link
    ensures SentOrFailed(link, old(link.sent), Outgoing(c), r.Failed?)
    ensures Determined(link, old(link.sent), c, r) ==> Performed(link, old(link.State()), old(link.sent), c, r)
  {
    hide Deliver, EvalRequest, ParseVec, Link.PartlySent;
    var status, data, n := link.GetVec(Ptr(c.name), c.q);
    r := if status < 0 then Failed(status) else if data == null then Done else Cells(Vec(n, data[..]));
    assert old(link.sent) + [] == old(link.sent);
    if link.sent != old(link.sent) + Outgoing(c) {
      ShortSend(link, old(link.State()), old(link.sent), RequestOf(c));
    }
  }

  method PerformScalar(link: Link, c: Call) returns (r: Result, ghost wholeCell: bool)
    requires c.ScalarCall? && CallOk(c)
    modifies link
    ensures SentOrFailed(link, old(link.sent), Outgoing(c), r.Failed?)
    ensures Determined(link, old(link.sent), c, r) && wholeCell ==>
      Performed(link, old(link.State()), old(link.sent), c, r)
    ensures r.Failed? || Performed(link, old(link.State()), old(link.sent), c, r) ==> wholeCell
    ensures link.RawReadsWhole() && Quiet(old(link.State())) && StoreOk(old(link.server.store)) ==> wholeCell
  {
    hide Deliver, EvalRequest, ParseScalar, Link.PartlySent, Quiet, StoreOk;
    ghost var inbound := Deliver(link.State(), RequestOf(c)).inbound;
    var dval := new byte[Width(c.q)];
    var status;
    ghost var got;
    status, got := link.GetScalar(Ptr(c.name), c.q, dval);
    wholeCell := status == 0 ==> got == Width(c.q);
    assert dval[..Width(c.q)] == dval[..];
    r := if status < 0 then Failed(status) else Cell(dval[..]);
    if link.sent != old(link.sent) + Outgoing(c) {
      ShortSend(link, old(link.State()), old(link.sent), RequestOf(c));
    } else if status == 0 {
      if Performed(link, old(link.State()), old(link.sent), c, r) && !link.RawReadsWhole() {
        SameRestSameCell(c.q, inbound, link.E(), got, Width(c.q));
      }
      if link.RawReadsWhole() && Quiet(old(link.State())) && StoreOk(old(link.server.store)) {
        WholeCell(old(link.State()), c, link.E());
      }
    }
  }

  /** Reads of the cell that leave the same bytes unread have moved the same number. */
  lemma SameRestSameCell(q: Qtype, s: Bytes, e: Failure, a: nat, b: nat)
    requires ParseScalar(q, s, e, a).Ok? && ParseScalar(q, s, e, b).Ok?
    requires ParseScalar(q, s, e, a).rest == ParseScalar(q, s, e, b).rest
    ensures |ParseScalar(q, s, e, a).value| == |ParseScalar(q, s, e, b).value|
  {
    hide ParseVecHead;
  }

  /** On a quiet connection a scalar call gets a whole cell or fails. */
  lemma WholeCell(net: Net, c: Call, e: Failure)
    requires c.ScalarCall? && CallOk(c) && Quiet(net) && StoreOk(net.server.store)
    ensures Exchange(net, c, e).1.Failed? || (Exchange(net, c, e).1.Cell? && |Exchange(net, c, e).1.v| == Width(c.q))
  {
    hide Exchange, ValueOf, StoreOk, Body;
    CallExact(net, c, e);
    if ValueOf(net.server.store, c).Some? {
      ScalarAnswerWidth(c.q, ValueOf(net.server.store, c).value);
    }
  }

  method PerformNamed(link: Link, c: Call) returns (r: Result)
    requires c.NamedCall? && CallOk(c)
    modifies link
    ensures SentOrFailed(link, old(link.sent), Outgoing(c), r.Failed?)
    ensures Determined(link, old(link.sent), c, r) ==> Performed(link, old(link.State()), old(link.sent), c, r)
  {
    hide Deliver, EvalRequest, ParseNamed, Link.PartlySent;
    var keyBlob := new byte[c.szBlob];
    var vals := new byte[8 * c.szVals];
    var status, nKeyBlob, nVals := link.GetNamedVecF8(Ptr(c.name), keyBlob, c.szBlob, vals, c.szVals);
    if status < 0 {
      r := Failed(status);
    } else {
      r := Entries(Keyed(keyBlob[..nKeyBlob], vals[..8 * nVals]));
    }
    if link.sent != old(link.sent) + Outgoing(c) {
      ShortSend(link, old(link.State()), old(link.sent), RequestOf(c));
    }
  }

  method PerformExec(link: Link, c: Call) returns (r: Result)
    requires c.SetBoolCall? || c.GetBoolCall? || c.LenCall? || c.ExecCall? || c.ExecValueCall?
    requires CallOk(c)
    modifies link
    ensures SentOrFailed(link, old(link.sent), Outgoing(c), r.Failed?)
    ensures Determined(link, old(link.sent), c, r) ==> Performed(link, old(link.State()), old(link.sent), c, r)
  {
    hide Deliver, EvalRequest, ParseExec, ParseBool, ParseLen, BoolCommand, LengthCommand, Link.PartlySent;
    var status;
    match c {
      case SetBoolCall(name, x) =>
        status := link.SetBool(name, x);
        r := if status < 0 then Failed(status) else Done;
      case GetBoolCall(name) =>
        var x;
        status, x := link.GetBool(Ptr(name));
        r := if status < 0 then Failed(status) else Flag(x);
      case LenCall(name) =>
        var n;
        status, n := link.GetVecLen(name);
        r := if status < 0 then Failed(status) else Count(n);
      case ExecCall(text) =>
        var out;
        status, out := link.ExecStr(Ptr(text), false, -1);
        r := if status < 0 then Failed(status) else Done;
      case ExecValueCall(text, expected) =>
        var out;
        status, out := link.ExecStr(Ptr(text), true, expected);
        r := if status < 0 then Failed(status) else if out == null then Done else Output(out[..]);
    }
    if link.sent != old(link.sent) + Outgoing(c) {
      ShortSend(link, old(link.State()), old(link.sent), RequestOf(c));
    }
  }

  /** The connection is quiet, and by the map stays so: for all calls, or as long as they succeed. */
  ghost predicate Ready(net: Net, calls: seq<Call>, quiet: bool)
    requires CallsOk(calls)
  {
    && Quiet(net) && StoreOk(net.server.store)
    && if quiet then QuietRun(net.server.store, calls) else NoOverlong(net.server.store, calls)
  }

  lemma ReadyStep(net: Net, calls: seq<Call>, quiet: bool, e: Failure)
    requires CallsOk(calls) && calls != [] && Ready(net, calls, quiet)
    requires quiet || !Exchange(net, calls[0], e).1.Failed?
    ensures Ready(Exchange(net, calls[0], e).0, calls[1..], quiet)
  {
    hide Exchange, StoreAfter, LeavesQuiet, Overlong, StoreOk, CallOk, Expected;
    var store, c := net.server.store, calls[0];
    CallExact(net, c, e);
    StoreStaysOk(store, c);
    RestExact(store, c, e);
    OverlongExact(store, c, e);
    OkResult(store, c, e);
  }

  /**
   Make the calls of a program in order. Once all requests are out, the program does what Run says,
   however its looped reads and its sends are fragmented: if its calls succeed, or if no read of theirs can
   be cut short. The proviso `wholeCells` is that each scalar that succeeded has read a whole cell. It
   holds when raw reads are whole on a connection that starts quiet and that the calls leave quiet.
   */
  method RunCalls(link: Link, calls: seq<Call>) returns (results: seq<Result>, ghost wholeCells: bool)
    requires CallsOk(calls)
    modifies link
    ensures |results| == |calls|
    ensures SentOrFailed(link, old(link.sent), Concat(Requests(calls)), !NoneFailed(results))
    ensures (forall c :: c in calls ==> !c.ScalarCall?) ==> wholeCells
    ensures
      && link.sent == old(link.sent) + Concat(Requests(calls))
      && (NoneFailed(results) || link.RawReadsWhole() || NoRawRead(calls))
      && wholeCells ==>
        (link.State(), results) == Run(old(link.State()), calls, link.E())
    ensures
      && link.sent == old(link.sent) + Concat(Requests(calls)) && link.RawReadsWhole()
      && (Ready(old(link.State()), calls, true) || (Ready(old(link.State()), calls, false) && NoneFailed(results))) ==>
        wholeCells
  {
    hide Exchange, Outgoing, CallOk, Sends, RequestOf, Quiet, StoreOk, QuietRun, NoOverlong;
    results, wholeCells := [], true;
    ghost var net, before, allOut := link.State(), link.sent, true;
    var i := 0;
    assert calls[i..] == calls;
    assert [] + Run(net, calls, link.E()).1 == Run(net, calls, link.E()).1;
    while i < |calls|
      invariant 0 <= i <= |calls| && |results| == i
      invariant link.whole || NoneFailed(results) ==> allOut
      invariant if allOut then SentFrom(before, calls, link.sent, calls[i..])
                else |link.sent| + |Concat(Requests(calls[i..]))| < |before| + |Concat(Requests(calls))|
      invariant (forall c :: c in calls[..i] ==> !c.ScalarCall?) ==> wholeCells
      invariant allOut && (NoneFailed(results) || link.RawReadsWhole() || NoRawRead(calls)) && wholeCells ==>
        RunFrom(net, calls, link.State(), calls[i..], results, link.E())
      invariant allOut && link.RawReadsWhole() && Ready(net, calls, true) ==>
        wholeCells && Ready(link.State(), calls[i..], true)
      invariant allOut && link.RawReadsWhole() && Ready(net, calls, false) && NoneFailed(results) ==>
        wholeCells && Ready(link.State(), calls[i..], false)
    {
      ghost var was, wasSent, got := link.State(), link.sent, results;
      var r;
      ghost var wholeCell;
      r, wholeCell := Perform(link, calls[i]);
      results := results + [r];
      assert calls[..i + 1] == calls[..i] + [calls[i]];
      assert calls[i..][1..] == calls[i + 1..];
      NoneFailedLast(got, r);
      wholeCells := wholeCells && wholeCell;
      ghost var wasOut := allOut;
      allOut := allOut && link.sent == wasSent + Outgoing(calls[i]);
      ConcatFirst(calls[i..]);
      if allOut {
        SentStep(before, calls, wasSent, calls[i..]);
        if (NoneFailed(results) || link.RawReadsWhole() || NoRawRead(calls)) && wholeCells {
          RunStep(net, calls, was, calls[i..], got, link.E());
        }
        if link.RawReadsWhole() && Ready(net, calls, true) {
          ReadyStep(was, calls[i..], true, link.E());
        }
        if link.RawReadsWhole() && Ready(net, calls, false) && NoneFailed(results) {
          ReadyStep(was, calls[i..], false, link.E());
        }
      }
      i := i + 1;
    }
    assert calls[i..] == [];
    assert results + [] == results && link.sent + [] == link.sent;
  }

  lemma NoneFailedLast(rs: seq<Result>, r: Result)
    ensures NoneFailed(rs + [r]) <==> NoneFailed(rs) && !r.Failed?
  {
    assert r in rs + [r] && forall x :: x in rs ==> x in rs + [r];
  }

  /** `rest` from the state `now` completes the run of `calls` from `net`. */
  ghost predicate RunFrom(net: Net, calls: seq<Call>, now: Net, rest: seq<Call>, results: seq<Result>, e: Failure)
    requires CallsOk(calls) && CallsOk(rest)
  {
    var (net2, rs) := Run(now, rest, e);
    Run(net, calls, e) == (net2, results + rs)
  }

  ghost predicate SentFrom(before: Bytes, calls: seq<Call>, sent: Bytes, rest: seq<Call>)
    requires CallsOk(calls) && CallsOk(rest)
  {
    before + Concat(Requests(calls)) == sent + Concat(Requests(rest))
  }

  lemma RunStep(net: Net, calls: seq<Call>, now: Net, rest: seq<Call>, results: seq<Result>, e: Failure)
    requires CallsOk(calls) && CallsOk(rest) && rest != []
    requires RunFrom(net, calls, now, rest, results, e)
    ensures var (net1, r) := Exchange(now, rest[0], e);
      RunFrom(net, calls, net1, rest[1..], results + [r], e)
  {
    hide Exchange, CallOk;
    var (net1, r) := Exchange(now, rest[0], e);
    var rs := Run(net1, rest[1..], e).1;
    assert results + ([r] + rs) == results + [r] + rs;
  }

  lemma SentStep(before: Bytes, calls: seq<Call>, sent: Bytes, rest: seq<Call>)
    requires CallsOk(calls) && CallsOk(rest) && rest != []
    requires SentFrom(before, calls, sent, rest)
    ensures SentFrom(before, calls, sent + Outgoing(rest[0]), rest[1..])
  {
    hide RequestOf, CallOk, Sends;
    var out, more := Outgoing(rest[0]), Requests(rest[1..]);
    ConcatFirst(rest);
    assert sent + (out + Concat(more)) == sent + out + Concat(more);
  }

  lemma ConcatFirst(calls: seq<Call>)
    requires CallsOk(calls) && calls != []
    ensures Concat(Requests(calls)) == Outgoing(calls[0]) + Concat(Requests(calls[1..]))
  {
    hide RequestOf, CallOk, Sends;
    var more := Requests(calls[1..]);
    if Sends(calls[0]) {
      var r := RequestOf(calls[0]);
      assert ([r] + more)[1..] == more && ([r] + more)[0] == r;
    } else {
      assert [] + more == more;
      assert [] + Concat(more) == Concat(more);
    }
  }

  /**
   A program of any calls on a quiet connection, under every fragmentation of its looped reads and its
   sends. If by the map each call leaves the connection quiet, and all requests went out, then the
   program gets the map's results, failures included, nothing is left inbound or pending, the server holds
   the map's contents, and what was sent splits into exactly the requests. That is so when raw reads are
   whole or the program has none; on other connections, when the calls succeed and each scalar has read
   a whole cell. Success sends all requests, and is enough to know that each call left the connection quiet,
   unless get_named_vec_F8 meets a body that goes on behind its values.
   */
  method Converse(link: Link, calls: seq<Call>) returns (results: seq<Result>, ghost wholeCells: bool)
    requires Quiet(link.State()) && StoreOk(link.server.store) && link.sent == []
    requires CallsOk(calls)
    modifies link
    ensures |results| == |calls|
    ensures SentOrFailed(link, [], Concat(Requests(calls)), !NoneFailed(results))
    ensures
      && QuietRun(old(link.server.store), calls) && link.sent == Concat(Requests(calls))
      && (link.RawReadsWhole() || NoRawRead(calls) || (NoneFailed(results) && wholeCells)) ==>
        && results == ExpectedRun(old(link.server.store), calls, link.E())
        && link.State() == Net(Server([], StoreRun(old(link.server.store), calls)), [])
        && Frames(link.sent) == (Requests(calls), [])
    ensures
      && NoOverlong(old(link.server.store), calls) && NoneFailed(results)
      && (link.RawReadsWhole() || NoRawRead(calls) || wholeCells) ==>
        QuietRun(old(link.server.store), calls)
    ensures
      && NoOverlong(old(link.server.store), calls) && link.sent == Concat(Requests(calls))
      && (link.RawReadsWhole() || NoRawRead(calls)) ==>
        (NoneFailed(results) <==> NoneFailed(ExpectedRun(old(link.server.store), calls, link.E())))
  {
    ghost var net := link.State();
    results, wholeCells := RunCalls(link, calls);
    hide Run, StoreRun, ExpectedRun, QuietRun, QuietAlong, NoOverlong, Frames, Requests, NoneFailed, CallsOk, StoreOk;
    RunRefinesMap(net, calls, link.E());
    if NoOverlong(net.server.store, calls) {
      SuccessKeepsQuiet(net, calls, link.E());
    }
    FramesOfCalls(calls);
    assert [] + Concat(Requests(calls)) == Concat(Requests(calls));
  }
}
