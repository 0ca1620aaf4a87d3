/**
 The client: one connection, the helpers every call shares, and the calls themselves. Each call is
 proved against the outcome that Replies gives for the stream it finds, under every fragmentation.
 */
module Client {
  import opened Wire
  import opened StringVectors
  import opened Qap
  import opened RServer
  import opened Replies
  import opened SetRequests
  import opened ReplyProofs

  /** A `char *` parameter. */
  datatype CPtr = Null | Ptr(s: CString)

  /** How the inbound stream ends: the peer closes it, or a read reports an error. */
  datatype End = Closed | Broken

  /** The status a looped read gives when the stream ends under it. */
  function EndStatus(end: End): (status: Failure)
    ensures end == Closed ==> status == -2
    ensures end == Broken ==> status == -3
  {
    if end.Closed? then -2 else -3
  }

  function StatusOf<T>(p: Outcome<T>): int {
    if p.Ok? then 0 else p.status
  }

  datatype Command = CmdShutdown | CmdSetSexp | CmdEval | CmdVoidEval | CmdOther

  function CommandCode(c: Command): (code: nat)
    ensures code < WORD_LIMIT
  {
    match c
    case CmdShutdown => CMD_SHUTDOWN
    case CmdSetSexp => CMD_SET_SEXP
    case CmdEval => CMD_EVAL
    case CmdVoidEval => CMD_VOID_EVAL
    case CmdOther => 0
  }

  /** The text "Rsrv0103QAP1" that opens the 32 bytes of a server's greeting. */
  const SIGNATURE: Bytes := [82, 115, 114, 118, 48, 49, 48, 51, 81, 65, 80, 49]

  /** The text set_bool executes. */
  function BoolCommand(name: CString, x: bool): (text: CString)
    requires |name| + 16 < OBJECT_LIMIT
    ensures x ==> text == name + [32, 60, 45, 32, 84, 82, 85, 69, 32]
    ensures !x ==> text == name + [32, 60, 45, 32, 70, 65, 76, 83, 69, 32]
  {
    AssignText(name, x)
  }

  /** The text get_vec_len executes. */
  function LengthCommand(name: CString): (text: CString)
    requires |name| + 16 < OBJECT_LIMIT
    ensures text == [108, 101, 110, 103, 116, 104, 40] + name + [41]
  {
    LengthText(name)
  }

  // ---------- Buffers ----------

  /** Store a word in place, low byte first. */
  method StoreWord(buf: array<byte>, off: nat, w: nat)
    requires off + 4 <= buf.Length && w < WORD_LIMIT
    modifies buf
    ensures buf[off..off + 4] == Le32(w)
    ensures forall k :: 0 <= k < off || off + 4 <= k < buf.Length ==> buf[k] == old(buf[k])
  {
    hide *;
    var b := Le32(w);
    buf[off], buf[off + 1], buf[off + 2], buf[off + 3] := b[0], b[1], b[2], b[3];
  }

  /** Fill a header in place; an unknown command or a negative length is refused. */
  method MkHdr(command: Command, payloadLen: int, ph: array<byte>) returns (status: int)
    requires ph.Length == HDR_LEN && payloadLen < INT_LIMIT
    modifies ph
    ensures status == if command.CmdOther? || payloadLen < 0 then -1 else 0
    ensures status == 0 ==> ph[..] == Header(CommandCode(command), payloadLen)
    ensures status == 0 ==>
      ph[0] == if command.CmdShutdown? then 4 else if command.CmdSetSexp? then 32 else if command.CmdEval? then 3 else 2
  {
    hide Le32;
    if payloadLen < 0 {
      return -1;
    }
    forall k | 0 <= k < HDR_LEN {
      ph[k] := 0;
    }
    StoreWord(ph, 4, payloadLen);
    if command.CmdOther? {
      return -1;
    }
    StoreWord(ph, 0, CommandCode(command));
    ZeroWord();
    assert ph[8..12] == Le32(0) && ph[12..16] == Le32(0);
    assert ph[..] == ph[0..4] + ph[4..8] + ph[8..12] + ph[12..16];
    CodeBytes(command);
    assert ph[0] == ph[0..4][0];
    return 0;
  }

  lemma CodeBytes(command: Command)
    requires !command.CmdOther?
    ensures Le32(CommandCode(command))[0] as int ==
      if command.CmdShutdown? then 4 else if command.CmdSetSexp? then 32 else if command.CmdEval? then 3 else 2
  {
  }

  lemma ZeroWord()
    ensures forall k :: 0 <= k < 4 ==> Le32(0)[k] == 0
  {
  }

  /** Grow a length one by one until it is a multiple of eight, which takes at most seven steps. */
  method PadLength(len: nat) returns (padded: nat)
    ensures padded == RoundUp8(len)
  {
    padded := len;
    while (padded + 4) / 8 * 8 != padded
      invariant len <= padded <= RoundUp8(len)
      decreases RoundUp8(len) - padded
    {
      padded := padded + 1;
    }
  }

  /**
   A string parameter: the length grows until the string with its NUL fills whole groups of eight
   bytes, then the word, the string and zeros fill the buffer.
   */
  method MkDtString(name: CPtr) returns (status: int, param: array?<byte>)
    ensures name.Null? ==> status == -1 && param == null
    ensures name.Ptr? ==> status == 0 && param != null && fresh(param) && param[..] == DtString(name.s)
    ensures param != null ==> param.Length % 8 == 4
  {
    if name.Null? {
      return -1, null;
    }
    var lenName := PadLength(|name.s| + 1);
    var lenParam := 4 + lenName;
    param := new byte[lenParam](_ => 0);
    FillParam(param, name.s, lenName);
    // the length is four more than a multiple of eight, so this exit is never taken
    FourMore(lenName);
    if lenParam % 4 != 0 {
      assert false;
    }
    status := 0;
  }

  lemma FourMore(m: nat)
    requires m % 8 == 0
    ensures (4 + m) % 4 == 0 && (4 + m) % 8 == 4
  {
  }

  method FillParam(param: array<byte>, s: Bytes, room: nat)
    requires param.Length == 4 + room && |s| <= room
    requires forall k :: 0 <= k < param.Length ==> param[k] == 0
    modifies param
    ensures param[..] == Le32(SetPar(DT_STRING, room)) + s + Fill(0, room - |s|)
  {
    hide *;
    var w := SetPar(DT_STRING, room);
    StoreWord(param, 0, w);
    CopyIn(s, param, 4);
    var end := 4 + |s|;
    assert param[4..end] == s;
    assert param[end..] == Fill(0, room - |s|);
    assert param[..] == param[0..4] + param[4..end] + param[end..];
  }

  /** strcpy into a zeroed buffer. */
  method CopyIn(s: Bytes, buf: array<byte>, off: nat)
    requires off + |s| <= buf.Length
    modifies buf
    ensures forall k :: off <= k < off + |s| ==> buf[k] == s[k - off]
    ensures forall k :: 0 <= k < off || off + |s| <= k < buf.Length ==> buf[k] == old(buf[k])
  {
    forall k | off <= k < off + |s| {
      buf[k] := s[k - off];
    }
  }

  /** Count the NULs among the first `len` bytes. */
  method CountNuls(buf: array<byte>, len: nat) returns (count: nat)
    requires len <= buf.Length
    ensures count == CountNul(buf[..len])
  {
    count := 0;
    for i := 0 to len
      invariant count == CountNul(buf[..i])
    {
      assert buf[..i + 1] == buf[..i] + [buf[i]];
      CountNulConcat(buf[..i], [buf[i]]);
      if buf[i] == 0 {
        count := count + 1;
      }
    }
  }

  // ---------- The connection ----------

  /**
   A connected socket with the server behind it. Bytes that are sent reach the server at once, and its
   replies line up behind what is already inbound. A read moves any positive number of bytes that are
   there; a send moves any number of those it is given, or fails. On a `whole` connection a read moves
   all it can and a send moves all it is given. On a `rawWhole` one only the raw reads move all they can:
   those that stand outside the reassembly loop and get no second chance.
   */
  class Link {
    const whole: bool
    const rawWhole: bool
    const end: End
    var server: Server
    var inbound: Bytes
    ghost var sent: Bytes

    constructor (server: Server, inbound: Bytes, whole: bool, rawWhole: bool, end: End)
      ensures State() == Net(server, inbound) && sent == []
      ensures this.whole == whole && this.rawWhole == rawWhole && this.end == end
    {
      this.server, this.inbound, this.sent := server, inbound, [];
      this.whole, this.rawWhole, this.end := whole, rawWhole, end;
    }

    /** Reads that have to move all their bytes at once do so, if the bytes are there. */
    predicate RawReadsWhole() {
      whole || rawWhole
    }

    function State(): Net
      reads this
    {
      Net(server, inbound)
    }

    function E(): Failure {
      EndStatus(end)
    }

    // ----- System calls -----

    method Read(buf: array<byte>, off: nat, n: nat, raw: bool) returns (nr: int)
      requires 0 < n && off + n <= buf.Length
      modifies this`inbound, buf
      ensures old(inbound) == [] ==> nr == (if end.Closed? then 0 else -1) && inbound == []
      ensures old(inbound) == [] ==> forall k :: 0 <= k < buf.Length ==> buf[k] == old(buf[k])
      ensures old(inbound) != [] ==>
                && 1 <= nr <= n && nr <= |old(inbound)|
                && inbound == old(inbound)[nr..]
                && (forall k :: off <= k < off + nr ==> buf[k] == old(inbound)[k - off])
                && (forall k :: 0 <= k < off || off + nr <= k < buf.Length ==> buf[k] == old(buf[k]))
      ensures (whole || (raw && rawWhole)) && old(inbound) != [] ==> nr == n || nr == |old(inbound)|
    {
      hide *;
      if inbound == [] {
        return if end.Closed? then 0 else -1;
      }
      nr :| 1 <= nr <= n && nr <= |inbound| && (whole || (raw && rawWhole) ==> nr == n || nr == |inbound|);
      CopyIn(inbound[..nr], buf, off);
      inbound := inbound[nr..];
    }

    method Send(buf: array<byte>, len: nat) returns (numSent: int)
      requires len <= buf.Length
      modifies this
      ensures -1 <= numSent <= len
      ensures whole ==> numSent == len
      ensures var b := if numSent < 0 then [] else buf[..numSent];
        sent == old(sent) + b && State() == Deliver(old(State()), b)
    {
      numSent :| -1 <= numSent <= len && (whole ==> numSent == len);
      var b := if numSent < 0 then [] else buf[..numSent];
      var net := Deliver(State(), b);
      server, inbound, sent := net.server, net.inbound, sent + b;
    }

    // ----- Shared helpers -----

    /**
     Read on until `buflen` bytes are in the buffer. Whatever the sizes in which they arrive, the
     call succeeds exactly when that many come, with exactly those bytes, and reads none beyond them.
     If the stream ends first, what came is in the buffer, and the rest of it is as it was.
     */
    method GetBufFromSock(buf: array?<byte>, buflen: int) returns (status: int)
      requires buf != null ==> buflen <= buf.Length
      modifies this`inbound, buf
      ensures buf == null || buflen < 0 ==> status == -1 && inbound == old(inbound)
      ensures buf != null && 0 <= buflen <= |old(inbound)| ==> status == 0
      ensures buf != null && buflen > |old(inbound)| ==> status == if end == Closed then -2 else -3
      ensures buf != null && buflen >= 0 ==>
        var p := Take(old(inbound), buflen, E());
        && status == StatusOf(p) && inbound == p.rest
        && (p.Ok? ==> buf[..buflen] == p.value)
        && (forall k :: 0 <= k < Min(buflen, |old(inbound)|) ==> buf[k] == old(inbound)[k])
        && (forall k :: Min(buflen, |old(inbound)|) <= k < buf.Length ==> buf[k] == old(buf[k]))
    {
      if buflen < 0 {
        return -1;
      }
      if buf == null {
        return -1;
      }
      if buflen == 0 {
        return 0;
      }
      status := ReadAll(buf, buflen);
    }

    method ReadAll(buf: array<byte>, numToRead: nat) returns (status: int)
      requires 0 < numToRead <= buf.Length
      modifies this`inbound, buf
      ensures var p := Take(old(inbound), numToRead, E());
        && status == StatusOf(p) && inbound == p.rest
        && (p.Ok? ==> buf[..numToRead] == p.value)
        && (forall k :: 0 <= k < Min(numToRead, |old(inbound)|) ==> buf[k] == old(inbound)[k])
        && (forall k :: Min(numToRead, |old(inbound)|) <= k < buf.Length ==> buf[k] == old(buf[k]))
    {
      ghost var stream := inbound;
      var totalNumRead, remaining := 0, numToRead;
      while true
        invariant 0 < remaining && totalNumRead >= 0 && totalNumRead + remaining == numToRead
        invariant totalNumRead <= |stream|
        invariant inbound == stream[totalNumRead..]
        invariant forall k :: 0 <= k < totalNumRead ==> buf[k] == stream[k]
        invariant forall k :: totalNumRead <= k < buf.Length ==> buf[k] == old(buf[k])
        decreases remaining
      {
        var numRead := Read(buf, totalNumRead, remaining, false);
        if numRead == 0 {
          return -2;
        }
        if numRead < 0 {
          return -3;
        }
        totalNumRead := totalNumRead + numRead;
        if totalNumRead >= numToRead {
          break;
        }
        remaining := remaining - numRead;
      }
      status := 0;
    }

    method ReadHdr(ph: array<byte>) returns (status: int)
      requires ph.Length == HDR_LEN
      modifies this`inbound, ph
      ensures var p := Take(old(inbound), HDR_LEN, E());
        status == StatusOf(p) && inbound == p.rest && (p.Ok? ==> ph[..] == p.value)
    {
      hide *;
      status := GetBufFromSock(ph, HDR_LEN);
      assert ph[..HDR_LEN] == ph[..];
    }

    /**
     A read that had to move eight bytes, from `at` on in the stream that was inbound, moved fewer: the
     call failed with -1 and goes on behind them.
     */
    ghost predicate CutShort(stream: Bytes, at: nat, status: int)
      reads this
    {
      status == -1 && exists k :: at < k < at + 8 && k <= |stream| && inbound == stream[k..]
    }

    /** One read of eight bytes that has to move them all. */
    method ReadWords(hdr: array<byte>) returns (status: int)
      requires hdr.Length == HDR_LEN
      modifies this`inbound, hdr
      ensures status <= 0
      ensures var p := TakeAtOnce(old(inbound), 8, E());
        || (status == StatusOf(p) && inbound == p.rest && (p.Ok? ==> hdr[..8] == p.value))
        || (!RawReadsWhole() && CutShort(old(inbound), 0, status))
    {
      var nr := Read(hdr, 0, 8, true);
      if nr == 0 {
        return -2;
      }
      if nr < 0 {
        return -3;
      }
      if nr != 8 {
        return -1;
      }
      status := 0;
    }

    /** The request `req` has gone out whole, and the server has seen it from the state `was` on. */
    ghost predicate Sent(was: Net, before: Bytes, req: Bytes)
      reads this
    {
      sent == before + req && State() == Deliver(was, req)
    }

    /** Only a part of `req` has gone out, which may be none of it. */
    ghost predicate PartlySent(was: Net, before: Bytes, req: Bytes)
      reads this
    {
      exists k: nat :: k < |req| && Sent(was, before, req[..k])
    }

    lemma PartOfLonger(was: Net, before: Bytes, req: Bytes, more: Bytes)
      requires PartlySent(was, before, req)
      ensures PartlySent(was, before, req + more)
    {
      hide Deliver;
      var k: nat :| k < |req| && Sent(was, before, req[..k]);
      assert (req + more)[..k] == req[..k];
    }

    lemma PartBehind(was: Net, before: Bytes, first: Bytes, rest: Bytes)
      requires PartlySent(Deliver(was, first), before + first, rest)
      ensures PartlySent(was, before, first + rest)
    {
      hide Deliver;
      var k: nat :| k < |rest| && Sent(Deliver(was, first), before + first, rest[..k]);
      DeliverSplit(was, first, rest[..k]);
      assert (first + rest)[..|first| + k] == first + rest[..k];
      assert before + first + rest[..k] == before + (first + rest[..k]);
      assert Sent(was, before, (first + rest)[..|first| + k]);
    }

    /** Send a header and a string parameter: what every query starts with. */
    method SendQuery(command: Command, text: CPtr) returns (status: int)
      requires command.CmdEval? || command.CmdVoidEval?
      modifies this
      ensures status == 0 || status == -1
      ensures text.Null? ==> status == -1 && State() == old(State()) && sent == old(sent)
      ensures text.Ptr? ==>
        && (whole ==> status == 0)
        && (status == 0 ==> Sent(old(State()), old(sent), EvalRequest(CommandCode(command), text.s)))
        && (status != 0 ==> PartlySent(old(State()), old(sent), EvalRequest(CommandCode(command), text.s)))
    {
      hide DtString, Header, Deliver;
      var param;
      status, param := MkDtString(text);
      if status < 0 {
        return;
      }
      var ph := new byte[HDR_LEN];
      status := MkHdr(command, param.Length, ph);
      if status < 0 {
        return;
      }
      status := SendTwo(ph, HDR_LEN, param, param.Length);
      assert ph[..HDR_LEN] == ph[..] && param[..param.Length] == param[..];
      assert param.Length == |DtString(text.s)|;
    }

    /** Two sends in a row; neither may fall short. */
    method SendTwo(a: array<byte>, lenA: nat, b: array<byte>, lenB: nat) returns (status: int)
      requires 0 < lenA <= a.Length && 0 < lenB <= b.Length
      modifies this
      ensures status == 0 || status == -1
      ensures whole ==> status == 0
      ensures status == 0 ==> Sent(old(State()), old(sent), a[..lenA] + b[..lenB])
      ensures status != 0 ==> PartlySent(old(State()), old(sent), a[..lenA] + b[..lenB])
    {
      ghost var net, before := State(), sent;
      status := SendAll(a, lenA);
      hide Deliver;
      if status < 0 {
        PartOfLonger(net, before, a[..lenA], b[..lenB]);
        return;
      }
      status := SendAll(b, lenB);
      if status < 0 {
        PartBehind(net, before, a[..lenA], b[..lenB]);
        return;
      }
      DeliverSplit(net, a[..lenA], b[..lenB]);
      assert before + a[..lenA] + b[..lenB] == before + (a[..lenA] + b[..lenB]);
    }

    /** A send that falls short is a failure. */
    method SendAll(a: array<byte>, len: nat) returns (status: int)
      requires 0 < len <= a.Length
      modifies this
      ensures status == 0 || status == -1
      ensures whole ==> status == 0
      ensures status == 0 ==> Sent(old(State()), old(sent), a[..len])
      ensures status != 0 ==> PartlySent(old(State()), old(sent), a[..len])
    {
      hide Deliver;
      var numSent := Send(a, len);
      if numSent != len {
        ghost var k := if numSent < 0 then 0 else numSent;
        assert a[..len][..k] == if numSent < 0 then [] else a[..numSent];
        assert Sent(old(State()), old(sent), a[..len][..k]);
        return -1;
      }
      status := 0;
    }

    /**
     The call sent `req` and read its way through the inbound stream to the outcome `p`; what the
     outcome leaves unread is still inbound.
     */
    ghost predicate Settled<T>(was: Net, before: Bytes, req: Bytes, p: Outcome<T>, status: int)
      reads this
    {
      && sent == before + req
      && State() == Net(Deliver(was, req).server, p.rest)
      && status == StatusOf(p)
    }

    // ----- exec_str and the logical scalars -----

    /** Execute a text. Its result is wanted or not; a negative `expectedXt` accepts any type of result. */
    method ExecStr(str: CPtr, wantOutput: bool, expectedXt: int) returns (status: int, out: array?<byte>)
      modifies this
      ensures status <= 0 && (status != 0 || !wantOutput ==> out == null) && (out != null ==> fresh(out))
      ensures str.Null? ==> status == -1 && State() == old(State()) && sent == old(sent)
      ensures str.Ptr? ==>
        var req := EvalRequest(if wantOutput then CMD_EVAL else CMD_VOID_EVAL, str.s);
        var p := ParseExec(wantOutput, expectedXt, Deliver(old(State()), req).inbound, E());
        && (whole || status == 0 ==> sent == old(sent) + req)
        && (sent != old(sent) + req ==> status == -1 && PartlySent(old(State()), old(sent), req))
        && (sent == old(sent) + req ==>
              && Settled(old(State()), old(sent), req, p, status)
              && (status == 0 && wantOutput ==> out != null && out[..] == p.value))
    {
      hide Deliver, EvalRequest, WordAt, AsInt, ParType;
      out := null;
      status := SendQuery(if wantOutput then CmdEval else CmdVoidEval, str);
      if status < 0 {
        return;
      }
      status, out := ReadExec(wantOutput, expectedXt);
    }

    method ReadExec(wantOutput: bool, expectedXt: int) returns (status: int, out: array?<byte>)
      modifies this`inbound
      ensures status <= 0 && (status != 0 || !wantOutput ==> out == null) && (out != null ==> fresh(out))
      ensures var p := ParseExec(wantOutput, expectedXt, old(inbound), E());
        && status == StatusOf(p) && inbound == p.rest
        && (status == 0 && wantOutput ==> out != null && out[..] == p.value)
    {
      hide AsInt, ParType, WordAt;
      out := null;
      var ph := new byte[HDR_LEN];
      status := ReadHdr(ph);
      if status < 0 {
        return;
      }
      var payloadLen := AsInt(WordAt(ph[..], 4));
      if !wantOutput {
        return;
      }
      // a length below eight turns into a size that no allocation can satisfy
      if payloadLen < 8 {
        return -1, null;
      }
      var szOutBuf := payloadLen - 8;
      var outBuf := new byte[szOutBuf](_ => 0);
      var hdr := new byte[HDR_LEN](_ => 0);
      status := GetBufFromSock(hdr, 8);
      if status < 0 {
        return;
      }
      var words := hdr[..8];
      if ParType(WordAt(words, 0)) != DT_SEXP {
        return -1, null;
      }
      if expectedXt >= 0 {
        if ParType(WordAt(words, 4)) as int != expectedXt {
          return -1, null;
        }
      }
      status := GetBufFromSock(outBuf, szOutBuf);
      if status < 0 {
        return;
      }
      assert outBuf[..szOutBuf] == outBuf[..];
      out := outBuf;
    }

    /** Read a logical; any failure of the exchange becomes -1. */
    method GetBool(name: CPtr) returns (status: int, x: bool)
      modifies this
      ensures status <= 0
      ensures name.Null? ==> status == -1 && State() == old(State()) && sent == old(sent)
      ensures name.Ptr? ==>
        var req := EvalRequest(CMD_EVAL, name.s);
        var p := ParseBool(Deliver(old(State()), req).inbound, E());
        && (whole || status == 0 ==> sent == old(sent) + req)
        && (sent != old(sent) + req ==> status == -1 && PartlySent(old(State()), old(sent), req))
        && (sent == old(sent) + req ==>
              && Settled(old(State()), old(sent), req, p, status)
              && (status == 0 ==> x == p.value))
    {
      hide Deliver, EvalRequest, ParseExec, WordAt;
      x := false;
      if name.Null? {
        return -1, x;
      }
      var out;
      status, out := ExecStr(name, true, XT_ARRAY_BOOL as int);
      if out == null {
        return -1, x;
      }
      if out.Length != 8 {
        return -1, x;
      }
      if out[0] != 1 {
        return -1, x;
      }
      x := WordAt(out[..], 4) % 2 == 1;
    }

    /** Assign a logical constant by executing the text of the assignment; its value comes back unused. */
    method SetBool(name: CString, x: bool) returns (status: int)
      requires |name| + 16 < OBJECT_LIMIT
      modifies this
      ensures status <= 0
      ensures
        var req := EvalRequest(CMD_EVAL, BoolCommand(name, x));
        var p := ParseExec(true, -1, Deliver(old(State()), req).inbound, E());
        && (whole || status == 0 ==> sent == old(sent) + req)
        && (sent != old(sent) + req ==> status == -1 && PartlySent(old(State()), old(sent), req))
        && (sent == old(sent) + req ==> Settled(old(State()), old(sent), req, p, status))
      ensures whole || status == 0 ==>
        var assignment: Bytes := if x then [32, 60, 45, 32, 84, 82, 85, 69, 32]
          else [32, 60, 45, 32, 70, 65, 76, 83, 69, 32];
        name + assignment == BoolCommand(name, x)
        && sent == old(sent) + EvalRequest(CMD_EVAL, BoolCommand(name, x))
    {
      hide Deliver, EvalRequest, ParseExec, BoolCommand;
      var out;
      status, out := ExecStr(Ptr(BoolCommand(name, x)), true, -1);
    }

    /** Ask for the length of a vector. */
    method GetVecLen(name: CString) returns (status: int, n: int)
      requires |name| + 16 < OBJECT_LIMIT
      modifies this
      ensures status <= 0
      ensures
        var req := EvalRequest(CMD_EVAL, LengthCommand(name));
        var p := ParseLen(Deliver(old(State()), req).inbound, E());
        && (whole || status == 0 ==> sent == old(sent) + req)
        && (sent != old(sent) + req ==> status == -1 && PartlySent(old(State()), old(sent), req))
        && (sent == old(sent) + req ==>
              && Settled(old(State()), old(sent), req, p, status)
              && (status == 0 ==> n == p.value))
    {
      hide Deliver, EvalRequest, ParseExec, WordAt, AsInt, LengthCommand;
      n := 0;
      var out;
      status, out := ExecStr(Ptr(LengthCommand(name)), true, XT_ARRAY_INT as int);
      if status < 0 {
        return;
      }
      if out == null || out.Length < 4 {
        return -1, n;
      }
      n := AsInt(WordAt(out[..], 0));
    }

    // ----- Vectors and scalars -----

    lemma CutBehind(stream: Bytes, status: int)
      requires |stream| >= HDR_LEN && CutShort(stream[HDR_LEN..], 0, status)
      ensures CutShort(stream, HDR_LEN, status)
    {
      var k :| 0 < k < 8 && k <= |stream[HDR_LEN..]| && inbound == stream[HDR_LEN..][k..];
      assert stream[HDR_LEN..][k..] == stream[HDR_LEN + k..];
    }

    /** The head of a vector reply: header, two words, and the checks on them. */
    method ReadVecHead(q: Qtype) returns (status: int, len: nat)
      modifies this`inbound
      ensures status <= 0
      ensures var p := ParseVecHead(q, old(inbound), E());
        || (status == StatusOf(p) && inbound == p.rest && (p.Ok? ==> len == p.value))
        || (!RawReadsWhole() && CutShort(old(inbound), HDR_LEN, status))
    {
      hide AsInt, ParType, ParLen, WordAt, XtOf;
      len := 0;
      var ph := new byte[HDR_LEN];
      status := ReadHdr(ph);
      if status < 0 {
        return;
      }
      var numLeftToRead := AsInt(WordAt(ph[..], 4));
      var hdr := new byte[HDR_LEN];
      ghost var behind := inbound;
      status := ReadWords(hdr);
      if status < 0 {
        if CutShort(behind, 0, status) {
          CutBehind(old(inbound), status);
        }
        return;
      }
      var pp := hdr[..8];
      if ParType(WordAt(pp, 0)) != DT_SEXP {
        return -1, len;
      }
      if ParType(WordAt(pp, 4)) != XtOf(q) {
        return -1, len;
      }
      len := ParLen(WordAt(pp, 4));
      numLeftToRead := numLeftToRead - 8;
      if numLeftToRead != len {
        return -1, len;
      }
    }

    method ReadVecBody(q: Qtype, len: nat) returns (status: int, data: array?<byte>, n: nat)
      modifies this`inbound
      ensures status <= 0 && (status != 0 ==> data == null && n == 0) && (data != null ==> fresh(data))
      ensures var p := ParseVecBody(q, len, old(inbound), E());
        && status == StatusOf(p) && inbound == p.rest
        && (p.Ok? ==> data != null && p.value == Vec(n, data[..]))
    {
      data, n := null, 0;
      var numLeftToRead: int := len;
      if q.I1? {
        var itmp := new byte[4];
        status := GetBufFromSock(itmp, 4);
        if status < 0 {
          return;
        }
        numLeftToRead := numLeftToRead - 4;
        // a negative count turns into a size that no allocation can satisfy
        if numLeftToRead < 0 {
          return -1, null, 0;
        }
      }
      var count := numLeftToRead / Width(q);
      var sz := count * Width(q);
      var cells := new byte[sz];
      status := GetBufFromSock(cells, sz);
      if status < 0 {
        return;
      }
      assert cells[..sz] == cells[..];
      data, n := cells, count;
    }

    /** Read a vector of doubles, integers or logicals. */
    method GetVec(name: CPtr, q: Qtype) returns (status: int, data: array?<byte>, n: nat)
      modifies this
      ensures status <= 0 && (status != 0 ==> data == null && n == 0)
      ensures name.Null? || q.SC? || q.OtherQtype? ==> status == -1 && State() == old(State()) && sent == old(sent)
      ensures name.Ptr? && !q.SC? && !q.OtherQtype? ==>
        var req := EvalRequest(CMD_EVAL, name.s);
        var net := Deliver(old(State()), req);
        var p := ParseVec(q, net.inbound, E());
        && (whole || status == 0 ==> sent == old(sent) + req)
        && (sent != old(sent) + req ==> status == -1 && PartlySent(old(State()), old(sent), req))
        && (sent == old(sent) + req ==>
              || (Settled(old(State()), old(sent), req, p, status)
                  && (status == 0 ==> data != null && p.value == Vec(n, data[..])))
              || (!RawReadsWhole() && server == net.server && CutShort(net.inbound, HDR_LEN, status)))
    {
      hide Deliver, EvalRequest, ParseVecHead, ParseVecBody;
      data, n := null, 0;
      if name.Null? {
        return -1, null, 0;
      }
      if !q.F8? && !q.I4? && !q.I1? {
        return -1, null, 0;
      }
      status := SendQuery(CmdEval, name);
      if status < 0 {
        return;
      }
      var len;
      status, len := ReadVecHead(q);
      if status < 0 {
        return;
      }
      status, data, n := ReadVecBody(q, len);
    }

    /**
     Read a scalar into the caller's cell: get_F8 and get_I4. The count of the last read, `got`, is not
     compared with the width, so the call succeeds on a cell that is filled in part.
     */
    method GetScalar(name: CPtr, q: Qtype, dval: array<byte>) returns (status: int, ghost got: nat)
      requires q.F8? || q.I4?
      requires dval.Length == Width(q)
      modifies this, dval
      ensures status <= 0
      ensures name.Null? ==> status == -1 && State() == old(State()) && sent == old(sent)
      ensures status == 0 ==> 1 <= got <= Width(q)
      ensures status != 0 ==> forall k :: 0 <= k < dval.Length ==> dval[k] == old(dval[k])
      ensures name.Ptr? ==>
        var req := EvalRequest(CMD_EVAL, name.s);
        var net := Deliver(old(State()), req);
        var p := ParseScalar(q, net.inbound, E(), if RawReadsWhole() then Width(q) else got);
        && (whole || status == 0 ==> sent == old(sent) + req)
        && (sent != old(sent) + req ==> status == -1 && PartlySent(old(State()), old(sent), req))
        && (sent == old(sent) + req ==>
              || (Settled(old(State()), old(sent), req, p, status)
                  && (status == 0 ==>
                        && dval[..got] == p.value
                        && forall k :: got <= k < dval.Length ==> dval[k] == old(dval[k])))
              || (!RawReadsWhole() && server == net.server && CutShort(net.inbound, HDR_LEN, status)))
    {
      hide Deliver, EvalRequest, ParseVecHead;
      got := 0;
      status := SendQuery(CmdEval, name);
      if status < 0 {
        return;
      }
      var len;
      status, len := ReadVecHead(q);
      if status < 0 {
        return;
      }
      var n := len / Width(q);
      if n != 1 {
        return -1, got;
      }
      status, got := ReadCell(q, dval);
    }

    /** One read into the cell, with no look at its count. */
    method ReadCell(q: Qtype, dval: array<byte>) returns (status: int, ghost got: nat)
      requires dval.Length == Width(q)
      modifies this`inbound, dval
      ensures old(inbound) == [] ==> status == E() && inbound == []
      ensures old(inbound) == [] ==> forall k :: 0 <= k < dval.Length ==> dval[k] == old(dval[k])
      ensures old(inbound) != [] ==>
        && status == 0
        && 1 <= got <= Min(Width(q), |old(inbound)|)
        && (RawReadsWhole() ==> got == Min(Width(q), |old(inbound)|))
        && dval[..got] == old(inbound)[..got]
        && inbound == old(inbound)[got..]
        && (forall k :: got <= k < dval.Length ==> dval[k] == old(dval[k]))
    {
      hide Width;
      got := 0;
      var nr := Read(dval, 0, Width(q), true);
      if nr == 0 {
        return -2, got;
      }
      if nr < 0 {
        return -3, got;
      }
      status, got := 0, nr;
    }

    // ----- set_vec -----

    /** Store a vector of `n` cells under a name. */
    method SetVec(name: CPtr, q: Qtype, data: array?<byte>, n: nat, width: nat) returns (status: int)
      requires n < WORD_LIMIT
      requires data != null ==> data.Length == n * CellBytes(q, width) < OBJECT_LIMIT
      modifies this
      ensures status <= 0
      ensures name.Null? || data == null || !SetArgsOk(name.s, q, data[..], n, width) ==>
        status == -1 && State() == old(State()) && sent == old(sent)
      ensures name.Null? || name.s == [] || data == null || n == 0 || q.OtherQtype? || (q.SC? && width == 0) ==>
        status == -1 && State() == old(State()) && sent == old(sent)
      ensures name.Ptr? && |name.s| > 0 && data != null && n > 0 && (q.F8? || q.I4? || q.I1?) ==>
        && (whole || status == 0 ==> |sent| > |old(sent)|)
        && (whole && |old(inbound)| == 0 && |old(server.pending)| == 0 ==> status == 0)
      ensures forall strs {:trigger Layout(strs, width)} ::
        && name.Ptr? && |name.s| > 0 && data != null && n > 0 && q.SC? && |strs| == n
        && (forall s: Bytes :: s in strs ==> 0 !in s && |s| < width) && Layout(strs, width) == data[..] ==>
          && (whole || status == 0 ==> |sent| > |old(sent)|)
          && (whole && |old(inbound)| == 0 && |old(server.pending)| == 0 ==> status == 0)
      ensures name.Ptr? && data != null && SetArgsOk(name.s, q, data[..], n, width) ==>
        var req := SetRequest(name.s, q, data[..], n, width);
        var p := ParseSet(Deliver(old(State()), req).inbound, E());
        && (whole || status == 0 ==> sent == old(sent) + req)
        && (sent != old(sent) + req ==> status == -1 && PartlySent(old(State()), old(sent), req))
        && (sent == old(sent) + req ==> Settled(old(State()), old(sent), req, p, status))
    {
      if name.Ptr? && data != null {
        SetAccepted(name.s, q, data[..], n, width);
      }
      hide Deliver, SlotsEnd, Blob, SetRequest, Layout, ParseSet, PartlySent, Settled;
      if name.Null? || name.s == [] {
        return -1;
      }
      if q.OtherQtype? {
        return -1;
      }
      if data == null {
        return -1;
      }
      if n == 0 {
        return -1;
      }
      if q.SC? && width == 0 {
        return -1;
      }
      var body := data;
      if q.SC? {
        var alt;
        status, alt := PackStrings(data[..], n, width);
        if status < 0 {
          return;
        }
        body := alt;
      }
      status := SendAndConfirm(name.s, q, data[..], n, width, body);
    }

    /** The request and the empty reply to it. */
    method SendAndConfirm(name: CString, q: Qtype, ghost data: Bytes, n: nat, width: nat, body: array<byte>)
      returns (status: int)
      requires n < WORD_LIMIT && |data| == n * CellBytes(q, width) < OBJECT_LIMIT
      requires SetArgsOk(name, q, data, n, width)
      requires body[..] == SetBody(q, data, n, width)
      modifies this
      ensures status <= 0
      ensures
        var req := SetRequest(name, q, data, n, width);
        var p := ParseSet(Deliver(old(State()), req).inbound, E());
        && (whole || status == 0 ==> sent == old(sent) + req)
        && (sent != old(sent) + req ==> status == -1 && PartlySent(old(State()), old(sent), req))
        && (sent == old(sent) + req ==> Settled(old(State()), old(sent), req, p, status))
      ensures whole || status == 0 ==> |sent| > |old(sent)|
      ensures whole && |old(inbound)| == 0 && |old(server.pending)| == 0 ==> status == 0
    {
      SetAnswered(State(), name, q, data, n, width, E());
      hide Deliver, SetArgsOk, SetRequest, SetBody, ParseSet, PartlySent, Request;
      status := SendSet(name, q, data, n, width, body);
      if status < 0 {
        return;
      }
      status := ReadEmptyReply();
    }

    /** The sends of set_vec: header, name, words of the expression, body. */
    method SendSet(name: CString, q: Qtype, ghost data: Bytes, n: nat, width: nat, body: array<byte>)
      returns (status: int)
      requires n < WORD_LIMIT && |data| == n * CellBytes(q, width) < OBJECT_LIMIT
      requires SetArgsOk(name, q, data, n, width)
      requires body[..] == SetBody(q, data, n, width)
      modifies this
      ensures status == 0 || status == -1
      ensures whole ==> status == 0
      ensures status == 0 ==> Sent(old(State()), old(sent), SetRequest(name, q, data, n, width))
      ensures status != 0 ==> PartlySent(old(State()), old(sent), SetRequest(name, q, data, n, width))
    {
      hide Deliver, SlotsEnd, Blob, Header, DtString, SetHead;
      ghost var net, before := State(), sent;
      var _, param1 := MkDtString(Ptr(name));
      var lenHead := HeadLen(q);
      var param2 := MkSetHead(q, n, body.Length);
      ghost var head := SetHead(q, n, body.Length);
      SetSize(name, q, data, n, width);
      var ph := new byte[HDR_LEN];
      status := MkHdr(CmdSetSexp, param1.Length + lenHead + body.Length, ph);
      if status < 0 {
        return;
      }
      BodyNotEmpty(name, q, data, n, width);
      assert ph[..HDR_LEN] == ph[..] && param1[..param1.Length] == param1[..] && body[..body.Length] == body[..];
      Regroup4(before, ph[..], param1[..], head, body[..]);
      status := SendTwo(ph, HDR_LEN, param1, param1.Length);
      if status < 0 {
        PartOfLonger(net, before, ph[..] + param1[..], head + body[..]);
        return;
      }
      status := SendTwo(param2, lenHead, body, body.Length);
      if status < 0 {
        PartBehind(net, before, ph[..] + param1[..], head + body[..]);
        return;
      }
      DeliverSplit(net, ph[..] + param1[..], head + body[..]);
    }

    method ReadEmptyReply() returns (status: int)
      modifies this`inbound
      ensures var p := ParseSet(old(inbound), E());
        status == StatusOf(p) && inbound == p.rest
    {
      hide WordAt;
      var ph := new byte[HDR_LEN];
      status := ReadHdr(ph);
      if status < 0 {
        return;
      }
      if WordAt(ph[..], 4) != 0 {
        return -1;
      }
    }

    // ----- get_named_vec_F8 -----

    /**
     Read a named vector of doubles into two buffers of the caller's: `szKeyBlob` bytes for the keys
     and `szVals` cells for the values. Keys or values that do not leave room to spare are refused.
     Whatever the outcome, the buffers hold what came for them; the rest of the keys is zero, and so is
     the rest of the first `szVals` bytes of the values.
     */
    method GetNamedVecF8(name: CPtr, keyBlob: array<byte>, szKeyBlob: nat, vals: array<byte>, szVals: nat)
      returns (status: int, nKeyBlob: nat, nVals: nat)
      requires keyBlob != vals && szKeyBlob == keyBlob.Length && vals.Length == 8 * szVals
      modifies this, keyBlob, vals
      ensures status <= 0
      ensures name.Null? ==> status == -1 && State() == old(State()) && sent == old(sent)
      ensures name.Ptr? ==>
        var req := EvalRequest(CMD_EVAL, name.s);
        var p := ParseNamed(Deliver(old(State()), req).inbound, E(), szKeyBlob, szVals);
        && (whole || status == 0 ==> sent == old(sent) + req)
        && (sent != old(sent) + req ==> status == -1 && PartlySent(old(State()), old(sent), req))
        && (sent == old(sent) + req ==>
              && Settled(old(State()), old(sent), req, p, status)
              && (status == 0 ==>
                    && nKeyBlob == |p.value.blob| < keyBlob.Length
                    && nVals == CountNul(p.value.blob) < szVals
                    && keyBlob[..nKeyBlob] == p.value.blob
                    && vals[..8 * nVals] == p.value.vals))
      ensures name.Null? ==> forall k :: 0 <= k < keyBlob.Length ==> keyBlob[k] == old(keyBlob[k])
      ensures name.Null? ==> forall k :: 0 <= k < vals.Length ==> vals[k] == old(vals[k])
      ensures name.Ptr? ==>
        var req := EvalRequest(CMD_EVAL, name.s);
        var bufs := if sent == old(sent) + req
          then NamedBuffers(Deliver(old(State()), req).inbound, E(), szKeyBlob, szVals) else Keyed([], []);
        && |bufs.blob| <= keyBlob.Length && |bufs.vals| <= vals.Length
        && (forall k :: 0 <= k < keyBlob.Length ==>
              keyBlob[k] == if k < |bufs.blob| then bufs.blob[k] else 0)
        && (forall k :: 0 <= k < vals.Length ==>
              vals[k] == if k < |bufs.vals| then bufs.vals[k] else if k < szVals then 0 else old(vals[k]))
    {
      hide CountNul, Deliver, EvalRequest, ParseNamedHead, BodyBuffers;
      nKeyBlob, nVals := 0, 0;
      if name.Null? {
        return -1, 0, 0;
      }
      forall k | 0 <= k < szKeyBlob {
        keyBlob[k] := 0;
      }
      // the capacity counts cells, and as many bytes are cleared
      forall k | 0 <= k < szVals {
        vals[k] := 0;
      }
      status := SendQuery(CmdEval, name);
      if status < 0 {
        return;
      }
      var len;
      status, len := ReadNamedHead(szKeyBlob);
      if status < 0 {
        return;
      }
      status, nVals := ReadNamedBody(len, keyBlob, vals, szVals);
      nKeyBlob := len;
    }

    method ReadNamedHead(szKeyBlob: nat) returns (status: int, len: nat)
      modifies this`inbound
      ensures status <= 0
      ensures var p := ParseNamedHead(old(inbound), E(), szKeyBlob);
        && status == StatusOf(p) && inbound == p.rest && (p.Ok? ==> len == p.value < szKeyBlob)
    {
      hide AsInt, ParType, ParLen, WordAt;
      len := 0;
      var ph := new byte[HDR_LEN];
      status := ReadHdr(ph);
      if status < 0 {
        return;
      }
      var n1 := AsInt(WordAt(ph[..], 4));
      if n1 == 0 {
        return -1, 0;
      }
      var hdr := new byte[HDR_LEN];
      status := ReadHdr(hdr);
      if status < 0 {
        return;
      }
      var words := hdr[..];
      if ParType(WordAt(words, 0)) != DT_SEXP {
        return -1, 0;
      }
      var n2: int := ParLen(WordAt(words, 0)) - 12;
      if n1 - HDR_LEN != n2 {
        return -1, 0;
      }
      if ParType(WordAt(words, 8)) != XT_LIST_TAG {
        return -1, 0;
      }
      if ParType(WordAt(words, 12)) != XT_ARRAY_STR {
        return -1, 0;
      }
      len := ParLen(WordAt(words, 12));
      if len >= szKeyBlob {
        return -1, 0;
      }
    }

    method ReadNamedBody(len: nat, keyBlob: array<byte>, vals: array<byte>, szVals: nat)
      returns (status: int, nVals: nat)
      requires keyBlob != vals && len <= keyBlob.Length && vals.Length == 8 * szVals
      modifies this`inbound, keyBlob, vals
      ensures var p := ParseNamedBody(len, old(inbound), E(), szVals);
        && status == StatusOf(p) && inbound == p.rest
        && (p.Ok? ==>
              && keyBlob[..len] == p.value.blob
              && nVals == CountNul(p.value.blob) < szVals
              && vals[..8 * nVals] == p.value.vals)
      ensures var bufs := BodyBuffers(len, old(inbound), E(), szVals);
        && |bufs.blob| <= keyBlob.Length && |bufs.vals| <= vals.Length
        && (forall k :: 0 <= k < keyBlob.Length ==>
              keyBlob[k] == if k < |bufs.blob| then bufs.blob[k] else old(keyBlob[k]))
        && (forall k :: 0 <= k < vals.Length ==>
              vals[k] == if k < |bufs.vals| then bufs.vals[k] else old(vals[k]))
    {
      hide CountNul, ParseKeys;
      nVals := 0;
      var chkNVals;
      status, chkNVals := ReadKeys(len, keyBlob);
      if status < 0 {
        return;
      }
      if chkNVals >= szVals {
        return -1, 0;
      }
      status := GetBufFromSock(vals, 8 * chkNVals);
      if status < 0 {
        return;
      }
      nVals := chkNVals;
    }

    /** The keys and their count, and the twelve bytes behind them. */
    method ReadKeys(len: nat, keyBlob: array<byte>) returns (status: int, chkNVals: nat)
      requires len <= keyBlob.Length
      modifies this`inbound, keyBlob
      ensures var p := ParseKeys(len, old(inbound), E());
        && status == StatusOf(p) && inbound == p.rest
        && (p.Ok? ==> keyBlob[..len] == p.value && chkNVals == CountNul(p.value))
      ensures forall k :: 0 <= k < keyBlob.Length ==>
        keyBlob[k] == if k < Min(len, |old(inbound)|) then old(inbound)[k] else old(keyBlob[k])
    {
      hide CountNul;
      chkNVals := 0;
      status := GetBufFromSock(keyBlob, len);
      if status < 0 {
        return;
      }
      chkNVals := CountNuls(keyBlob, len);
      var hdr := new byte[HDR_LEN];
      status := GetBufFromSock(hdr, 12);
    }

    // ----- The greeting -----

    /** The part of rconnect that touches the stream: 32 bytes, of which the first twelve must match. */
    method ReadGreeting() returns (status: int)
      modifies this`inbound
      ensures status == 0 <==> |old(inbound)| >= 32 && SIGNATURE <= old(inbound)
      ensures |old(inbound)| >= 32 ==> status == (if SIGNATURE <= old(inbound) then 0 else -1)
      ensures |old(inbound)| >= 32 ==>
        (status == 0 <==> old(inbound)[..12] == [82, 115, 114, 118, 48, 49, 48, 51, 81, 65, 80, 49])
      ensures |old(inbound)| < 32 ==> status == if end == Closed then -2 else -3
      ensures inbound == if |old(inbound)| >= 32 then old(inbound)[32..] else []
    {
      var hdr := new byte[32](_ => 0);
      status := GetBufFromSock(hdr, 32);
      if status < 0 {
        return;
      }
      if hdr[..12] != SIGNATURE {
        return -1;
      }
    }
  }

  /** Only the words at the front of the buffer are sent from it. */
  method MkSetHead(q: Qtype, n: nat, bodyLen: nat) returns (param: array<byte>)
    requires n < WORD_LIMIT
    ensures fresh(param) && HeadLen(q) <= param.Length
    ensures param[..HeadLen(q)] == SetHead(q, n, bodyLen)
  {
    hide Le32, SetPar, XtOf;
    var len := HeadLen(q) + bodyLen;
    var a, b := SetPar(DT_SEXP, len), SetPar(XtOf(q), if q.I1? then len else bodyLen);
    param := new byte[len](_ => 0);
    StoreWord(param, 0, a);
    StoreWord(param, 4, b);
    assert param[0..4] == Le32(a);
    if q.I1? {
      StoreWord(param, 8, n);
      assert param[0..4] == Le32(a) && param[4..8] == Le32(b);
      assert param[..12] == param[0..4] + param[4..8] + param[8..12];
    } else {
      assert param[..8] == param[0..4] + param[4..8];
    }
  }

  /** A quiet server answers every request of set_vec so that the call succeeds. */
  lemma SetAnswered(net: Net, name: CString, q: Qtype, data: Bytes, n: nat, width: nat, e: Failure)
    requires n < WORD_LIMIT && |data| == n * CellBytes(q, width) < OBJECT_LIMIT
    requires SetArgsOk(name, q, data, n, width)
    ensures |SetRequest(name, q, data, n, width)| > 0
    ensures net.inbound == [] && net.server.pending == [] ==>
      ParseSet(Deliver(net, SetRequest(name, q, data, n, width)).inbound, e) == Ok((), [])
  {
    hide SetArgsOk, SetPayload, Deliver, Handle, Request, VOID_REPLY, ErrorReply, ParseSet, StringRoom, Decoded,
      SetBody;
    if net.inbound == [] && net.server.pending == [] {
      SetSize(name, q, data, n, width);
      SetHandled(name, q, data, n, width, net.server.store);
      DeliverRequest(net, CMD_SET_SEXP, SetPayload(name, q, data, n, width));
      SetReplyAccepted(VOID_REPLY, e);
      SetReplyAccepted(ErrorReply(ERR_INV_PAR), e);
    }
  }

  lemma SetReplyAccepted(reply: Bytes, e: Failure)
    requires reply == VOID_REPLY || reply == ErrorReply(ERR_INV_PAR)
    ensures ParseSet([] + reply, e) == Ok((), [])
  {
    EmptyReplies(ERR_INV_PAR);
    hide VOID_REPLY, ErrorReply, ParseSet, Empty;
    OnEmptyReply(reply, e);
    assert [] + reply == reply;
  }

  /** Arguments that set_vec accepts, for each type. */
  lemma SetAccepted(name: CString, q: Qtype, data: Bytes, n: nat, width: nat)
    requires |data| == n * CellBytes(q, width)
    ensures |name| > 0 && n > 0 && (q.F8? || q.I4? || q.I1?) ==> SetArgsOk(name, q, data, n, width)
    ensures forall strs {:trigger Layout(strs, width)} ::
      && |name| > 0 && n > 0 && q.SC? && |strs| == n
      && (forall s: Bytes :: s in strs ==> 0 !in s && |s| < width) && Layout(strs, width) == data ==>
        SetArgsOk(name, q, data, n, width)
  {
    if q.F8? || q.I4? || q.I1? {
      CellsAccepted(name, q, data, n, width);
    }
    forall strs {:trigger Layout(strs, width)} |
      && |name| > 0 && n > 0 && q.SC? && |strs| == n
      && (forall s: Bytes :: s in strs ==> 0 !in s && |s| < width) && Layout(strs, width) == data
      ensures SetArgsOk(name, q, data, n, width)
    {
      StringsAccepted(name, strs, width);
    }
  }

  lemma BodyNotEmpty(name: CString, q: Qtype, data: Bytes, n: nat, width: nat)
    requires n < WORD_LIMIT && |data| == n * CellBytes(q, width)
    requires SetArgsOk(name, q, data, n, width)
    ensures |SetBody(q, data, n, width)| > 0
  {
    if q.SC? {
      var strs := Slots(data, n, width, n);
      assert strs == [strs[0]] + strs[1..];
    }
  }

  lemma Regroup4(z: Bytes, a: Bytes, b: Bytes, c: Bytes, d: Bytes)
    ensures z + (a + b) + (c + d) == z + (a + b + (c + d))
    ensures a + b + (c + d) == a + (b + (c + d))
  {
  }
}
