/**
 The echo protocol of the sample client and server, as a state machine over the statements of the two
 processes and the two byte channels between them. A write of a whole message goes out in chunks as
 room appears; a read takes any positive number of the bytes that are there, up to the number asked
 for. Both sides ask for the whole message again in every read of their loops, not for what is left of
 it. The count of the read that takes the length word is ignored: if fewer than four bytes are there, the
 length is made up with what the buffer held before. Whether that happens is up to the network. When the
 server exits its end is closed: what is still on its way to the client can be read, after that a read
 returns zero, and a write may kill the client.
 */
module Echo {
  import opened Wire

  /**
   Message size, number of rounds, size of the server's buffer, capacity of each channel, and whether
   the network always hands over the four bytes of a length together.
   */
  datatype Config = Config(n: nat, niters: nat, szbuf: nat, cap: nat, wholeLen: bool)

  predicate ConfigOk(g: Config) {
    4 <= g.n < INT_LIMIT && g.niters > 0 && 4 <= g.szbuf
  }

  /** The message fits the server's buffer, and its length arrives whole. */
  predicate Sound(g: Config) {
    ConfigOk(g) && g.n <= g.szbuf && g.wholeLen
  }

  datatype ClientPhase = CWriting(w: nat) | CAwaiting | CReading(toRead: int, r: nat)
    | CDone | COverrun | CKilled

  datatype ServerPhase = SAwaiting | SReading(toRead: int, r: nat) | SWriting(len: nat, k: nat) | SExited | SOverrun

  datatype State = State(
    cp: ClientPhase, round: nat, failedChecks: nat, rcv: Bytes,
    sp: ServerPhase, buf: Bytes,
    up: Bytes, down: Bytes)

  /** What the client sends in every round: the length, then ones. */
  function Message(g: Config): (m: Bytes)
    requires ConfigOk(g)
    ensures |m| == g.n
  {
    Le32(g.n) + Fill(1, g.n - 4)
  }

  /** What comes back: the same length, then twos. */
  function Echoed(g: Config): (m: Bytes)
    requires ConfigOk(g)
    ensures |m| == g.n
  {
    Le32(g.n) + Fill(2, g.n - 4)
  }

  /** All bytes from the fifth up to `n` are `v`. */
  predicate AllAre(b: Bytes, n: nat, v: byte)
    requires n <= |b|
  {
    forall j :: 4 <= j < n ==> b[j] == v
  }

  /** The buffer after the server's pass over a message of `n` bytes. */
  function Rewritten(b: Bytes, n: nat): (r: Bytes)
    requires n <= |b|
    ensures |r| == |b|
  {
    seq(|b|, j requires 0 <= j < |b| => if 4 <= j < n then 2 else b[j])
  }

  // ---------- The loops over the buffers ----------

  /** The server's pass in place: every byte must be 1 and becomes 2. */
  method CheckAndRewrite(buf: array<byte>, n: nat) returns (ok: bool)
    requires n <= buf.Length
    modifies buf
    ensures ok <==> forall j :: 4 <= j < n ==> old(buf[j]) == 1
    ensures ok ==> forall j :: 0 <= j < buf.Length ==> buf[j] == if 4 <= j < n then 2 else old(buf[j])
    ensures ok <==> AllAre(old(buf[..]), n, 1)
    ensures ok ==> buf[..] == Rewritten(old(buf[..]), n)
  {
    var j := 4;
    while j < n
      invariant 4 <= j && (j <= n || j == 4)
      invariant forall k :: 4 <= k < j && k < n ==> buf[k] == 2 && old(buf[k]) == 1
      invariant forall k :: 0 <= k < buf.Length && !(4 <= k < j) ==> buf[k] == old(buf[k])
    {
      if buf[j] != 1 {
        assert old(buf[..])[j] != 1;
        return false;
      }
      buf[j] := 2;
      j := j + 1;
    }
    assert forall k :: 4 <= k < n ==> old(buf[..])[k] == old(buf[k]);
    ok := true;
  }

  /** The client's pass over what it received. */
  method CheckReply(rcvbuf: array<byte>, n: nat) returns (status: int)
    requires n <= rcvbuf.Length
    ensures status == 0 || status == -1
    ensures status == 0 <==> forall j :: 4 <= j < n ==> rcvbuf[j] == 2
    ensures status == 0 <==> AllAre(rcvbuf[..], n, 2)
  {
    var j := 4;
    while j < n
      invariant 4 <= j && (j <= n || j == 4)
      invariant forall k :: 4 <= k < j && k < n ==> rcvbuf[k] == 2
    {
      if rcvbuf[j] != 2 {
        assert rcvbuf[..][j] != 2;
        return -1;
      }
      j := j + 1;
    }
    status := 0;
  }

  /** The client fills its buffer with ones and puts the length over the first four. */
  method InitSendbuf(sendbuf: array<byte>, ghost g: Config)
    requires ConfigOk(g) && sendbuf.Length == g.n
    modifies sendbuf
    ensures sendbuf[..4] == Le32(sendbuf.Length) && forall k :: 4 <= k < sendbuf.Length ==> sendbuf[k] == 1
    ensures sendbuf[..] == Message(g)
  {
    var n := sendbuf.Length;
    var i := 0;
    while i < n
      invariant 0 <= i <= n
      invariant forall k :: 0 <= k < i ==> sendbuf[k] == 1
    {
      sendbuf[i] := 1;
      i := i + 1;
    }
    var word := Le32(n);
    hide Le32;
    sendbuf[0], sendbuf[1], sendbuf[2], sendbuf[3] := word[0], word[1], word[2], word[3];
    assert sendbuf[..4] == word && sendbuf[4..] == Fill(1, n - 4);
    assert sendbuf[..] == sendbuf[..4] + sendbuf[4..];
  }

  // ---------- Steps ----------

  predicate Init(g: Config, s: State) {
    && s.cp == CWriting(0) && s.round == 0 && s.failedChecks == 0 && |s.rcv| == g.n
    && s.sp == SAwaiting && |s.buf| == g.szbuf
    && s.up == [] && s.down == []
  }

  /** Overwrite part of a buffer. */
  function Splice(b: Bytes, at: nat, chunk: Bytes): (r: Bytes)
    requires at + |chunk| <= |b|
    ensures |r| == |b|
  {
    b[..at] + chunk + b[at + |chunk|..]
  }

  predicate ClientWrite(g: Config, s: State, t: State, j: nat)
    requires ConfigOk(g)
  {
    && s.cp.CWriting? && 1 <= j && s.cp.w + j <= g.n && |s.up| + j <= g.cap
    && t == s.(up := s.up + Message(g)[s.cp.w..s.cp.w + j],
               cp := if s.cp.w + j == g.n then CAwaiting else CWriting(s.cp.w + j))
  }

  /** Up to four bytes over the front of the buffer; then the word that stands there is the length. */
  predicate ClientReadLen(g: Config, s: State, t: State, j: nat) {
    && s.cp.CAwaiting? && 1 <= j <= 4 && j <= |s.down| && (g.wholeLen ==> j == 4) && |s.rcv| >= 4
    && var rcv := Splice(s.rcv, 0, s.down[..j]);
       t == s.(rcv := rcv, down := s.down[j..], cp := CReading(AsInt(WordAt(rcv, 0)), 4))
  }

  /** Any chunk of up to `toRead` bytes may arrive, and lands behind those that are there. */
  predicate ClientRead(s: State, t: State, j: nat) {
    && s.cp.CReading? && s.cp.r < s.cp.toRead && 1 <= j <= s.cp.toRead && j <= |s.down|
    && t == if s.cp.r + j <= |s.rcv|
            then s.(rcv := Splice(s.rcv, s.cp.r, s.down[..j]), down := s.down[j..],
                    cp := CReading(s.cp.toRead, s.cp.r + j))
            else s.(down := s.down[j..], cp := COverrun)
  }

  /** The check of the reply; its outcome does not stop the rounds, and a negative length has no bytes to check. */
  predicate ClientCheck(g: Config, s: State, t: State) {
    && s.cp.CReading? && s.cp.r >= s.cp.toRead
    && t == if s.cp.toRead <= |s.rcv|
            then s.(failedChecks := s.failedChecks + if AllAre(s.rcv, Count(s.cp.toRead), 2) then 0 else 1,
                    round := s.round + 1,
                    cp := if s.round + 1 < g.niters then CWriting(0) else CDone)
            else s.(cp := COverrun)
  }

  function Count(n: int): nat {
    if n < 0 then 0 else n
  }

  /**
   The client after the server has left. A write may kill it. A read returns zero once the channel is
   empty, which the client does not notice: for the length it takes what its buffer held before, and for
   the rest it asks again and again.
   */
  predicate ClientAlone(s: State, t: State) {
    && s.sp.SExited?
    && match s.cp
       case CWriting(_) => t == s.(cp := CKilled)
       case CAwaiting =>
         s.down == [] && |s.rcv| >= 4 && t == s.(cp := CReading(AsInt(WordAt(s.rcv, 0)), 4))
       case CReading(toRead, r) => s.down == [] && r < toRead && t == s
       case _ => false
  }

  predicate ServerReadLen(g: Config, s: State, t: State, j: nat) {
    && s.sp.SAwaiting? && 1 <= j <= 4 && j <= |s.up| && (g.wholeLen ==> j == 4) && |s.buf| >= 4
    && var buf := Splice(s.buf, 0, s.up[..j]);
       var n := AsInt(WordAt(buf, 0));
       t == s.(buf := buf, up := s.up[j..], sp := if n <= 0 || n > g.szbuf then SExited else SReading(n, 4))
  }

  predicate ServerRead(s: State, t: State, j: nat) {
    && s.sp.SReading? && s.sp.r < s.sp.toRead && 1 <= j <= s.sp.toRead && j <= |s.up|
    && t == if s.sp.r + j <= |s.buf|
            then s.(buf := Splice(s.buf, s.sp.r, s.up[..j]), up := s.up[j..],
                    sp := SReading(s.sp.toRead, s.sp.r + j))
            else s.(up := s.up[j..], sp := SOverrun)
  }

  predicate ServerCheck(s: State, t: State) {
    && s.sp.SReading? && s.sp.r >= s.sp.toRead
    && t == if 0 <= s.sp.toRead <= |s.buf| && AllAre(s.buf, s.sp.toRead, 1)
            then s.(buf := Rewritten(s.buf, s.sp.toRead), sp := SWriting(s.sp.toRead, 0))
            else s.(sp := SExited)
  }

  predicate ServerWrite(g: Config, s: State, t: State, j: nat) {
    && s.sp.SWriting? && 1 <= j && s.sp.k + j <= s.sp.len <= |s.buf| && |s.down| + j <= g.cap
    && t == s.(down := s.down + s.buf[s.sp.k..s.sp.k + j],
               sp := if s.sp.k + j == s.sp.len then SAwaiting else SWriting(s.sp.len, s.sp.k + j))
  }

  /** One statement of one process, with a chunk of `j` bytes where one is moved. */
  predicate StepBy(g: Config, s: State, t: State, j: nat)
    requires ConfigOk(g)
  {
    || ClientWrite(g, s, t, j) || ClientReadLen(g, s, t, j) || ClientRead(s, t, j) || ClientCheck(g, s, t)
    || ServerReadLen(g, s, t, j) || ServerRead(s, t, j) || ServerCheck(s, t) || ServerWrite(g, s, t, j)
    || ClientAlone(s, t)
  }

  ghost predicate Step(g: Config, s: State, t: State)
    requires ConfigOk(g)
  {
    exists j: nat :: StepBy(g, s, t, j)
  }

  // ---------- What the steps do ----------

  /** A byte other than 2 in the reply is counted as a failed check, and nothing else is. */
  lemma WrongReplyCounts(g: Config, s: State, t: State)
    requires ClientCheck(g, s, t) && s.cp.toRead <= |s.rcv|
    ensures t.failedChecks == s.failedChecks + if forall j :: 4 <= j < s.cp.toRead ==> s.rcv[j] == 2 then 0 else 1
    ensures t.round == s.round + 1 && t.rcv == s.rcv
  {
    assert AllAre(s.rcv, Count(s.cp.toRead), 2) <==> forall j :: 4 <= j < s.cp.toRead ==> s.rcv[j] == 2;
  }

  /** The server leaves on a byte other than 1; otherwise it goes on to send the same bytes with twos for ones. */
  lemma WrongRequestExits(s: State, t: State)
    requires ServerCheck(s, t) && 0 <= s.sp.toRead <= |s.buf|
    ensures t.sp == SExited <==> exists j :: 4 <= j < s.sp.toRead && s.buf[j] != 1
    ensures t.sp != SExited ==>
      && t.sp == SWriting(s.sp.toRead, 0) && |t.buf| == |s.buf|
      && forall j :: 0 <= j < |s.buf| ==> t.buf[j] == if 4 <= j < s.sp.toRead then 2 else s.buf[j]
  {
    if t.sp == SExited {
      assert !AllAre(s.buf, s.sp.toRead, 1);
    }
  }

  /** A length that arrives whole is read low byte first, as a signed number, and refused outside the buffer. */
  lemma LengthDecides(g: Config, s: State, t: State)
    requires ServerReadLen(g, s, t, 4)
    ensures var high := if s.up[3] < 128 then s.up[3] as int else s.up[3] as int - 256;
      var n := s.up[0] as int + 256 * (s.up[1] as int) + 65536 * (s.up[2] as int) + 16777216 * high;
      t.sp == (if n <= 0 || n > g.szbuf then SExited else SReading(n, 4)) && t.up == s.up[4..]
  {
    var buf := Splice(s.buf, 0, s.up[..4]);
    assert buf[0] == s.up[0] && buf[1] == s.up[1] && buf[2] == s.up[2] && buf[3] == s.up[3];
  }

  /** A write may put any number of bytes into the channel that there is room for. */
  lemma AnyChunkWritten(g: Config, s: State, j: nat) returns (t: State)
    requires ConfigOk(g) && j > 0
    requires
      || (s.cp.CWriting? && s.cp.w + j <= g.n && |s.up| + j <= g.cap)
      || (s.sp.SWriting? && s.sp.k + j <= s.sp.len <= |s.buf| && |s.down| + j <= g.cap)
    ensures StepBy(g, s, t, j)
    ensures |t.up| == |s.up| + j || |t.down| == |s.down| + j
  {
    if s.cp.CWriting? && s.cp.w + j <= g.n && |s.up| + j <= g.cap {
      t := s.(up := s.up + Message(g)[s.cp.w..s.cp.w + j],
              cp := if s.cp.w + j == g.n then CAwaiting else CWriting(s.cp.w + j));
      assert ClientWrite(g, s, t, j);
    } else {
      t := s.(down := s.down + s.buf[s.sp.k..s.sp.k + j],
              sp := if s.sp.k + j == s.sp.len then SAwaiting else SWriting(s.sp.len, s.sp.k + j));
      assert ServerWrite(g, s, t, j);
    }
  }

  /**
   A read of the client that wants more may take any number of the bytes that are there, up to the whole
   length again, however much it has already; beyond the end of the buffer that is an overrun.
   */
  lemma AnyChunkRead(g: Config, s: State, j: nat) returns (t: State)
    requires ConfigOk(g) && s.cp.CReading? && s.cp.r < s.cp.toRead && 1 <= j <= s.cp.toRead && j <= |s.down|
    ensures StepBy(g, s, t, j) && t.down == s.down[j..]
    ensures if s.cp.r + j > |s.rcv| then t.cp == COverrun
            else t.cp == CReading(s.cp.toRead, s.cp.r + j) && t.rcv[s.cp.r..s.cp.r + j] == s.down[..j]
  {
    t := if s.cp.r + j <= |s.rcv|
         then s.(rcv := Splice(s.rcv, s.cp.r, s.down[..j]), down := s.down[j..],
                 cp := CReading(s.cp.toRead, s.cp.r + j))
         else s.(down := s.down[j..], cp := COverrun);
    assert ClientRead(s, t, j);
  }

  /** And so may a read of the server. */
  lemma AnyChunkTaken(g: Config, s: State, j: nat) returns (t: State)
    requires ConfigOk(g) && s.sp.SReading? && s.sp.r < s.sp.toRead && 1 <= j <= s.sp.toRead && j <= |s.up|
    ensures StepBy(g, s, t, j) && t.up == s.up[j..]
    ensures if s.sp.r + j > |s.buf| then t.sp == SOverrun
            else t.sp == SReading(s.sp.toRead, s.sp.r + j) && t.buf[s.sp.r..s.sp.r + j] == s.up[..j]
  {
    t := if s.sp.r + j <= |s.buf|
         then s.(buf := Splice(s.buf, s.sp.r, s.up[..j]), up := s.up[j..],
                 sp := SReading(s.sp.toRead, s.sp.r + j))
         else s.(up := s.up[j..], sp := SOverrun);
    assert ServerRead(s, t, j);
  }

  // ---------- The invariant ----------

  /** How much of this round's reply the client has taken. */
  function Taken(s: State): nat {
    if s.cp.CReading? then s.cp.r else 0
  }

  /** The client is past its write: it waits for the length or reads the rest. */
  predicate ClientReceives(g: Config, s: State)
    requires ConfigOk(g)
  {
    && (s.cp.CAwaiting? || (s.cp.CReading? && s.cp.toRead == g.n && 4 <= s.cp.r <= g.n))
    && |s.rcv| == g.n
    && s.rcv[..Taken(s)] == Echoed(g)[..Taken(s)]
  }

  /** The request of this round is on its way or being read: what is sent and not read is in the channel. */
  predicate RequestPhase(g: Config, s: State)
    requires ConfigOk(g)
  {
    var sent := if s.cp.CWriting? then s.cp.w else g.n;
    var read := if s.sp.SReading? then s.sp.r else 0;
    && ((s.cp.CWriting? && s.cp.w < g.n) || s.cp.CAwaiting?)
    && (s.sp.SAwaiting? || (s.sp.SReading? && s.sp.toRead == g.n && 4 <= s.sp.r))
    && read <= sent
    && s.up == Message(g)[read..sent]
    && s.down == []
    && |s.buf| == g.szbuf && read <= g.szbuf && s.buf[..read] == Message(g)[..read]
  }

  /** The reply of this round is on its way: what is written and not taken is in the channel. */
  predicate ReplyPhase(g: Config, s: State)
    requires ConfigOk(g)
  {
    var written := if s.sp.SWriting? then s.sp.k else g.n;
    && ClientReceives(g, s)
    && (s.sp.SAwaiting? || (s.sp.SWriting? && s.sp.len == g.n && s.sp.k < g.n
            && g.n <= |s.buf| && s.buf[..g.n] == Echoed(g)))
    && Taken(s) <= written
    && s.up == []
    && s.down == Echoed(g)[Taken(s)..written]
  }

  predicate Inv(g: Config, s: State)
    requires ConfigOk(g)
  {
    && |s.rcv| == g.n && |s.buf| == g.szbuf
    && |s.up| <= g.cap && |s.down| <= g.cap
    && s.failedChecks == 0
    && if s.cp.CDone? then s.round == g.niters && s.sp.SAwaiting? && s.up == [] && s.down == []
       else s.round < g.niters && (RequestPhase(g, s) || ReplyPhase(g, s))
  }

  lemma InitInv(g: Config, s: State)
    requires Sound(g) && Init(g, s)
    ensures Inv(g, s)
  {
  }

  /**
   What is in flight toward a reader never exceeds what it still lacks of this round's message. So a
   read that asks for the whole message neither passes the end of the buffer nor takes a byte of the
   next round.
   */
  lemma InFlightBounded(g: Config, s: State)
    requires Sound(g) && Inv(g, s)
    ensures s.cp.CReading? ==> s.cp.toRead == g.n && |s.down| <= g.n - s.cp.r && s.cp.r + |s.down| <= |s.rcv|
    ensures s.sp.SReading? ==> s.sp.toRead == g.n && |s.up| <= g.n - s.sp.r && s.sp.r + |s.up| <= |s.buf|
    ensures !s.cp.COverrun? && !s.sp.SOverrun? && !s.sp.SExited?
  {
    hide Message, Echoed;
  }

  // ---------- Every step keeps the invariant ----------

  lemma Texts(g: Config)
    requires ConfigOk(g)
    ensures forall rest :: WordAt(Message(g)[..4] + rest, 0) == g.n && WordAt(Echoed(g)[..4] + rest, 0) == g.n
    ensures AsInt(g.n) == g.n
    ensures AllAre(Message(g), g.n, 1) && AllAre(Echoed(g), g.n, 2)
    ensures Rewritten(Message(g), g.n) == Echoed(g)
  {
    WordOfLe32(g.n);
    assert Message(g)[..4] == Le32(g.n) && Echoed(g)[..4] == Le32(g.n);
    hide Le32;
    forall rest: Bytes
      ensures WordAt(Le32(g.n) + rest, 0) == g.n
    {
      WordRoundTrip([], g.n, rest);
      assert [] + Le32(g.n) + rest == Le32(g.n) + rest;
    }
  }

  /** A chunk from the front of what is to come extends the part that is there. */
  lemma Extend(b: Bytes, text: Bytes, at: nat, j: nat, more: Bytes)
    requires at + j <= |text| && at + j <= |b| && b[..at] == text[..at]
    requires |more| >= j && more[..j] == text[at..at + j]
    ensures Splice(b, at, more[..j])[..at + j] == text[..at + j]
  {
  }

  lemma SliceFront(text: Bytes, a: nat, b: nat, j: nat)
    requires a + j <= b <= |text|
    ensures text[a..b][..j] == text[a..a + j] && text[a..b][j..] == text[a + j..b]
  {
  }

  lemma ClientWriteKeeps(g: Config, s: State, t: State, j: nat)
    requires Sound(g) && Inv(g, s) && ClientWrite(g, s, t, j)
    ensures Inv(g, t)
  {
    hide Message, Echoed;
    var read := if s.sp.SReading? then s.sp.r else 0;
    var w := s.cp.w;
    assert Message(g)[read..w] + Message(g)[w..w + j] == Message(g)[read..w + j];
  }

  lemma ServerReadLenKeeps(g: Config, s: State, t: State, j: nat)
    requires Sound(g) && Inv(g, s) && ServerReadLen(g, s, t, j)
    ensures Inv(g, t)
  {
    Texts(g);
    hide Message, Echoed;
    var sent := |s.up|;
    var m := Message(g);
    SliceFront(m, 0, sent, 4);
    assert m[0..4] == m[..4];
    assert s.up == m[..4] + s.up[4..];
    assert [] + s.buf == s.buf;
    Extend(s.buf, m, 0, 4, s.up);
  }

  lemma ServerReadKeeps(g: Config, s: State, t: State, j: nat)
    requires Sound(g) && Inv(g, s) && ServerRead(s, t, j)
    ensures Inv(g, t)
  {
    InFlightBounded(g, s);
    hide Message, Echoed;
    var sent := if s.cp.CWriting? then s.cp.w else g.n;
    SliceFront(Message(g), s.sp.r, sent, j);
    Extend(s.buf, Message(g), s.sp.r, j, s.up);
    hide Splice;
  }

  lemma ServerCheckKeeps(g: Config, s: State, t: State)
    requires Sound(g) && Inv(g, s) && ServerCheck(s, t)
    ensures Inv(g, t) && t.sp.SWriting?
  {
    Texts(g);
    hide Message, Echoed;
    assert s.sp.r == g.n && s.cp.CAwaiting?;
    var m := Message(g);
    assert s.buf[..g.n] == m[..g.n] == m;
    assert forall k :: 0 <= k < g.n ==> s.buf[k] == s.buf[..g.n][k];
    assert t.buf[..g.n] == Rewritten(m, g.n);
    assert Echoed(g)[..0] == [];
  }

  lemma ServerWriteKeeps(g: Config, s: State, t: State, j: nat)
    requires Sound(g) && Inv(g, s) && ServerWrite(g, s, t, j)
    ensures Inv(g, t)
  {
    hide Message, Echoed;
    var c, k := Taken(s), s.sp.k;
    assert s.buf[k..k + j] == s.buf[..g.n][k..k + j];
    assert Echoed(g)[c..k] + Echoed(g)[k..k + j] == Echoed(g)[c..k + j];
  }

  lemma ClientReadLenKeeps(g: Config, s: State, t: State, j: nat)
    requires Sound(g) && Inv(g, s) && ClientReadLen(g, s, t, j)
    ensures Inv(g, t)
  {
    Texts(g);
    hide Message, Echoed;
    var m := Echoed(g);
    SliceFront(m, 0, |s.down|, 4);
    assert m[0..4] == m[..4];
    assert s.down == m[..4] + s.down[4..];
    Extend(s.rcv, m, 0, 4, s.down);
  }

  lemma ClientReadKeeps(g: Config, s: State, t: State, j: nat)
    requires Sound(g) && Inv(g, s) && ClientRead(s, t, j)
    ensures Inv(g, t)
  {
    InFlightBounded(g, s);
    hide Message, Echoed;
    var written := if s.sp.SWriting? then s.sp.k else g.n;
    SliceFront(Echoed(g), s.cp.r, written, j);
    Extend(s.rcv, Echoed(g), s.cp.r, j, s.down);
    hide Splice;
  }

  /** The reply is checked only when all of it is there: the check passes, and the length is the one sent. */
  lemma ClientCheckKeeps(g: Config, s: State, t: State)
    requires Sound(g) && Inv(g, s) && ClientCheck(g, s, t)
    ensures Inv(g, t)
    ensures s.cp.toRead == g.n && s.rcv == Echoed(g) && t.round == s.round + 1 && !t.cp.COverrun?
  {
    Texts(g);
    hide Message, Echoed;
    assert s.rcv[..g.n] == s.rcv && Echoed(g)[..g.n] == Echoed(g);
    assert s.down == [];
  }

  lemma StepKeepsInv(g: Config, s: State, t: State, j: nat)
    requires Sound(g) && Inv(g, s) && StepBy(g, s, t, j)
    ensures Inv(g, t)
  {
    hide Inv, ClientWrite, ClientReadLen, ClientRead, ClientCheck, ServerReadLen, ServerRead, ServerCheck, ServerWrite;
    if {
      case ClientWrite(g, s, t, j) => ClientWriteKeeps(g, s, t, j);
      case ClientReadLen(g, s, t, j) => ClientReadLenKeeps(g, s, t, j);
      case ClientRead(s, t, j) => ClientReadKeeps(g, s, t, j);
      case ClientCheck(g, s, t) => ClientCheckKeeps(g, s, t);
      case ServerReadLen(g, s, t, j) => ServerReadLenKeeps(g, s, t, j);
      case ServerRead(s, t, j) => ServerReadKeeps(g, s, t, j);
      case ServerCheck(s, t) => ServerCheckKeeps(g, s, t);
      case ServerWrite(g, s, t, j) => ServerWriteKeeps(g, s, t, j);
      case ClientAlone(s, t) =>
        InFlightBounded(g, s);
        assert false;
    }
  }

  // ---------- Progress ----------

  /** The work of one round: every byte written and read once on each side, and the two checks. */
  function RoundWork(g: Config): nat {
    4 * g.n + 2
  }

  /** The work of this round that is done. */
  function WorkDone(g: Config, s: State): nat {
    var client := if s.cp.CWriting? then s.cp.w else g.n;
    var server :=
      match s.sp
      case SReading(_, r) => r
      case SWriting(_, k) => g.n + 1 + k
      case _ => if s.cp.CWriting? || s.up != [] then 0 else 2 * g.n + 1;
    client + server + Taken(s)
  }

  function Progress(g: Config, s: State): nat {
    s.round * RoundWork(g) + if s.cp.CDone? then 0 else WorkDone(g, s)
  }

  /** Every step moves the protocol forward. */
  lemma StepProgresses(g: Config, s: State, t: State, j: nat)
    requires Sound(g) && Inv(g, s) && StepBy(g, s, t, j)
    ensures Progress(g, t) > Progress(g, s)
  {
    StepKeepsInv(g, s, t, j);
    if ClientCheck(g, s, t) {
      ClientCheckKeeps(g, s, t);
      NextRound(s.round, RoundWork(g));
      hide Message, Echoed, AllAre;
      assert WorkDone(g, s) < RoundWork(g);
    } else {
      SameRound(g, s, t, j);
    }
  }

  lemma NextRound(round: nat, work: nat)
    ensures (round + 1) * work == round * work + work
  {
  }

  lemma SameRound(g: Config, s: State, t: State, j: nat)
    requires Sound(g) && Inv(g, s) && StepBy(g, s, t, j) && !ClientCheck(g, s, t) && Inv(g, t)
    ensures Progress(g, t) > Progress(g, s)
  {
    hide Message, Echoed, AllAre, Splice, Rewritten, WordAt;
    assert t.round == s.round && !s.cp.CDone? && !t.cp.CDone?;
    assert WorkDone(g, t) > WorkDone(g, s) by {
      if RequestPhase(g, s) {
        RequestWork(g, s, t, j);
      } else {
        ReplyWork(g, s, t, j);
      }
    }
  }

  lemma RequestWork(g: Config, s: State, t: State, j: nat)
    requires Sound(g) && Inv(g, s) && RequestPhase(g, s) && StepBy(g, s, t, j) && Inv(g, t)
    ensures WorkDone(g, t) > WorkDone(g, s)
  {
    hide Message, Echoed, AllAre, Splice, Rewritten, WordAt;
    if ServerCheck(s, t) {
      ServerCheckKeeps(g, s, t);
    }
  }

  lemma ReplyWork(g: Config, s: State, t: State, j: nat)
    requires Sound(g) && Inv(g, s) && ReplyPhase(g, s) && !RequestPhase(g, s)
    requires StepBy(g, s, t, j) && !ClientCheck(g, s, t) && Inv(g, t)
    ensures WorkDone(g, t) > WorkDone(g, s)
  {
    hide Message, Echoed, AllAre, Splice, Rewritten, WordAt;
  }

  lemma ProgressBounded(g: Config, s: State)
    requires Sound(g) && Inv(g, s)
    ensures Progress(g, s) <= g.niters * RoundWork(g)
  {
    hide Message, Echoed;
    if !s.cp.CDone? {
      assert WorkDone(g, s) < RoundWork(g);
      NextRound(s.round, RoundWork(g));
      RoundsFit(s.round + 1, g.niters, RoundWork(g));
    }
  }

  lemma RoundsFit(a: nat, b: nat, work: nat)
    requires a <= b
    ensures a * work <= b * work
  {
    assert (b - a) * work >= 0;
    assert b * work == a * work + (b - a) * work;
  }

  // ---------- No deadlock ----------

  /** With room for the length word in a channel, some process can always move until the client is done. */
  lemma NeverStuck(g: Config, s: State) returns (t: State, j: nat)
    requires Sound(g) && Inv(g, s) && g.cap >= 4 && !s.cp.CDone?
    ensures StepBy(g, s, t, j)
  {
    if RequestPhase(g, s) {
      t, j := RequestMoves(g, s);
    } else {
      t, j := ReplyMoves(g, s);
    }
  }

  lemma RequestMoves(g: Config, s: State) returns (t: State, j: nat)
    requires Sound(g) && Inv(g, s) && g.cap >= 4 && RequestPhase(g, s)
    ensures StepBy(g, s, t, j)
  {
    j := 1;
    if s.cp.CWriting? && |s.up| < g.cap {
      t := s.(up := s.up + Message(g)[s.cp.w..s.cp.w + j],
              cp := if s.cp.w + j == g.n then CAwaiting else CWriting(s.cp.w + j));
      assert ClientWrite(g, s, t, j);
    } else if s.sp.SAwaiting? {
      j := 4;
      var buf := Splice(s.buf, 0, s.up[..4]);
      var n := AsInt(WordAt(buf, 0));
      t := s.(buf := buf, up := s.up[4..], sp := if n <= 0 || n > g.szbuf then SExited else SReading(n, 4));
      assert ServerReadLen(g, s, t, j);
    } else if s.sp.r < g.n {
      t := s.(buf := Splice(s.buf, s.sp.r, s.up[..j]), up := s.up[j..], sp := SReading(s.sp.toRead, s.sp.r + j));
      assert ServerRead(s, t, j);
    } else {
      t := if AllAre(s.buf, s.sp.toRead, 1)
           then s.(buf := Rewritten(s.buf, s.sp.toRead), sp := SWriting(s.sp.toRead, 0)) else s.(sp := SExited);
      assert ServerCheck(s, t);
    }
    hide Message, Echoed;
  }

  lemma ReplyMoves(g: Config, s: State) returns (t: State, j: nat)
    requires Sound(g) && Inv(g, s) && g.cap >= 4 && ReplyPhase(g, s)
    ensures StepBy(g, s, t, j)
  {
    hide Message, Echoed;
    j := 1;
    if s.sp.SWriting? && |s.down| < g.cap {
      t := s.(down := s.down + s.buf[s.sp.k..s.sp.k + j],
              sp := if s.sp.k + j == s.sp.len then SAwaiting else SWriting(s.sp.len, s.sp.k + j));
      assert ServerWrite(g, s, t, j);
    } else if s.cp.CAwaiting? {
      j := 4;
      var rcv := Splice(s.rcv, 0, s.down[..4]);
      t := s.(rcv := rcv, down := s.down[4..], cp := CReading(AsInt(WordAt(rcv, 0)), 4));
      assert ClientReadLen(g, s, t, j);
    } else if s.cp.r < g.n {
      t := s.(rcv := Splice(s.rcv, s.cp.r, s.down[..j]), down := s.down[j..], cp := CReading(s.cp.toRead, s.cp.r + j));
      assert ClientRead(s, t, j);
    } else {
      t := s.(failedChecks := s.failedChecks + if AllAre(s.rcv, Count(s.cp.toRead), 2) then 0 else 1,
              round := s.round + 1, cp := if s.round + 1 < g.niters then CWriting(0) else CDone);
      assert ClientCheck(g, s, t);
    }
  }

  // ---------- Whole runs ----------

  /** An interleaving of the two processes from the start. */
  ghost predicate IsRun(g: Config, run: seq<State>)
    requires ConfigOk(g)
  {
    && run != [] && Init(g, run[0])
    && forall i :: 0 <= i < |run| - 1 ==> Step(g, run[i], run[i + 1])
  }

  ghost predicate Stuck(g: Config, s: State)
    requires ConfigOk(g)
  {
    forall t :: !Step(g, s, t)
  }

  /** All rounds done, every check passed, both channels empty. */
  predicate Finished(g: Config, s: State) {
    s.cp.CDone? && s.round == g.niters && s.failedChecks == 0 && s.up == [] && s.down == []
  }

  /** In every run, every state satisfies the invariant, and the run is at most as long as its work. */
  lemma {:induction false} RunsAreSafe(g: Config, run: seq<State>)
    requires Sound(g) && IsRun(g, run)
    ensures forall i :: 0 <= i < |run| ==> Inv(g, run[i])
    ensures |run| - 1 <= Progress(g, run[|run| - 1]) <= g.niters * RoundWork(g)
    decreases |run|
  {
    hide Inv, StepBy, Progress, RoundWork;
    var last := |run| - 1;
    if last == 0 {
      InitInv(g, run[0]);
    } else {
      var shorter := run[..last];
      assert shorter[0] == run[0];
      assert forall i :: 0 <= i < last - 1 ==> Step(g, shorter[i], shorter[i + 1]) by {
        forall i | 0 <= i < last - 1
          ensures Step(g, shorter[i], shorter[i + 1])
        {
          assert Step(g, run[i], run[i + 1]);
        }
      }
      RunsAreSafe(g, shorter);
      assert Inv(g, run[last - 1]) by {
        assert shorter[last - 1] == run[last - 1];
      }
      assert Step(g, run[last - 1], run[last - 1 + 1]);
      var j: nat :| StepBy(g, run[last - 1], run[last], j);
      StepKeepsInv(g, run[last - 1], run[last], j);
      StepProgresses(g, run[last - 1], run[last], j);
      forall i | 0 <= i < |run|
        ensures Inv(g, run[i])
      {
        assert i < last ==> run[i] == shorter[i];
      }
    }
    ProgressBounded(g, run[last]);
  }

  /** In no state of a run has a check failed, a read passed the end of its buffer, or the server left. */
  lemma RunsGoWell(g: Config, run: seq<State>, i: nat)
    requires Sound(g) && IsRun(g, run) && i < |run|
    ensures run[i].failedChecks == 0 && !run[i].cp.COverrun? && !run[i].cp.CKilled?
    ensures !run[i].sp.SOverrun? && !run[i].sp.SExited?
  {
    RunsAreSafe(g, run);
    hide IsRun;
    InFlightBounded(g, run[i]);
  }

  /** Every run that cannot go on has finished all its rounds. */
  ghost predicate AlwaysFinishes(g: Config)
    requires ConfigOk(g)
  {
    forall run :: IsRun(g, run) && Stuck(g, run[|run| - 1]) ==> Finished(g, run[|run| - 1])
  }

  lemma FinishesWithRoom(g: Config, run: seq<State>)
    requires Sound(g) && g.cap >= 4 && IsRun(g, run) && Stuck(g, run[|run| - 1])
    ensures Finished(g, run[|run| - 1])
  {
    var s := run[|run| - 1];
    RunsAreSafe(g, run);
    if !s.cp.CDone? {
      CanMove(g, s);
    }
  }

  lemma CanMove(g: Config, s: State)
    requires Sound(g) && Inv(g, s) && g.cap >= 4 && !s.cp.CDone?
    ensures !Stuck(g, s)
  {
    hide StepBy, Inv;
    var t, j := NeverStuck(g, s);
    assert Step(g, s, t);
  }

  // ---------- Runs that stop ----------

  /** Reads that hand over the length whole never find it in a channel that holds less than four bytes. */
  lemma StuckWithoutRoom(g: Config) returns (run: seq<State>)
    requires ConfigOk(g) && g.cap < 4 && (g.wholeLen || g.cap == 0)
    ensures IsRun(g, run) && Stuck(g, run[|run| - 1]) && !Finished(g, run[|run| - 1])
  {
    hide Message, WordAt, AsInt;
    var s := State(CWriting(0), 0, 0, Fill(0, g.n), SAwaiting, Fill(0, g.szbuf), [], []);
    if g.cap == 0 {
      run := [s];
    } else {
      var t := s.(up := s.up + Message(g)[0..g.cap], cp := CWriting(g.cap));
      assert ClientWrite(g, s, t, g.cap);
      assert StepBy(g, s, t, g.cap);
      run := [s, t];
    }
  }

  /** The server has left, and the next write kills the client. */
  lemma KilledAfterExit(g: Config, run: seq<State>) returns (longer: seq<State>)
    requires ConfigOk(g) && IsRun(g, run)
    requires run[|run| - 1].cp.CWriting? && run[|run| - 1].sp.SExited?
    ensures IsRun(g, longer) && Stuck(g, longer[|longer| - 1]) && longer[|longer| - 1].cp.CKilled?
  {
    hide Message, Init, WordAt;
    var s := run[|run| - 1];
    var t := s.(cp := CKilled);
    assert ClientAlone(s, t);
    longer := GoOn(g, run, t, 0);
  }

  /** A client that is reading when the server leaves asks for ever, once the channel is empty. */
  lemma ClientSpins(g: Config, s: State, t: State, j: nat)
    requires ConfigOk(g) && s.sp.SExited? && s.down == [] && s.cp.CReading? && s.cp.r < s.cp.toRead
    ensures StepBy(g, s, s, j)
    ensures StepBy(g, s, t, j) ==> t == s
  {
    hide Message, WordAt, Splice, AllAre;
    assert ClientAlone(s, s);
  }

  lemma GoOn(g: Config, run: seq<State>, t: State, j: nat) returns (longer: seq<State>)
    requires ConfigOk(g) && IsRun(g, run) && StepBy(g, run[|run| - 1], t, j)
    ensures longer == run + [t] && IsRun(g, longer)
  {
    hide Init, StepBy;
    longer := run + [t];
    assert longer[0] == run[0];
    forall i | 0 <= i < |longer| - 1
      ensures Step(g, longer[i], longer[i + 1])
    {
      if i < |run| - 1 {
        assert Step(g, run[i], run[i + 1]);
      }
    }
  }

  /** The first bytes of the length go out, and the server makes a length of them that it refuses. */
  lemma ExitRun(g: Config, was: Bytes, j: nat) returns (run: seq<State>)
    requires ConfigOk(g) && |was| == g.szbuf && 1 <= j <= 4 && j <= g.cap && j < g.n && (g.wholeLen ==> j == 4)
    requires var n := AsInt(WordAt(Splice(was, 0, Message(g)[..j]), 0)); n <= 0 || n > g.szbuf
    ensures IsRun(g, run)
    ensures var s := run[|run| - 1];
      s.cp == CWriting(j) && s.sp.SExited? && s.up == [] && s.down == []
  {
    hide Message, WordAt, Splice, AsInt;
    var s0 := State(CWriting(0), 0, 0, Fill(0, g.n), SAwaiting, was, [], []);
    var s1 := s0.(up := s0.up + Message(g)[0..0 + j], cp := CWriting(j));
    assert ClientWrite(g, s0, s1, j);
    run := GoOn(g, [s0], s1, j);
    assert s1.up[..j] == Message(g)[..j] && s1.up[j..] == [];
    var s2 := s1.(buf := Splice(s1.buf, 0, s1.up[..j]), up := s1.up[j..], sp := SExited);
    assert ServerReadLen(g, s1, s2, j);
    run := GoOn(g, run, s2, j);
  }

  /** One byte of the length over a buffer of bytes 255 reads as a negative length. */
  lemma StaleLength(g: Config)
    requires ConfigOk(g)
    ensures AsInt(WordAt(Splice(Fill(255, g.szbuf), 0, Message(g)[..1]), 0)) < 0
  {
    hide Message;
    var b := Splice(Fill(255, g.szbuf), 0, Message(g)[..1]);
    assert b[1] == 255 && b[2] == 255 && b[3] == 255;
  }

  /** A length of which one byte is read alone can make the server leave. */
  lemma KilledOnShortRead(g: Config) returns (run: seq<State>)
    requires ConfigOk(g) && !g.wholeLen && g.cap > 0
    ensures IsRun(g, run) && Stuck(g, run[|run| - 1]) && run[|run| - 1].cp.CKilled?
  {
    hide Message, WordAt, Splice, AsInt, IsRun, Stuck;
    StaleLength(g);
    run := ExitRun(g, Fill(255, g.szbuf), 1);
    run := KilledAfterExit(g, run);
  }

  /** A message larger than the server's buffer makes it leave. */
  lemma KilledOnLongMessage(g: Config) returns (run: seq<State>)
    requires ConfigOk(g) && g.cap >= 4 && g.n > g.szbuf
    ensures IsRun(g, run) && Stuck(g, run[|run| - 1]) && run[|run| - 1].cp.CKilled?
  {
    var was := Fill(0, g.szbuf);
    LengthInBuffer(g, was);
    hide Message, WordAt, Splice, AsInt, IsRun, Stuck;
    run := ExitRun(g, was, 4);
    run := KilledAfterExit(g, run);
  }

  lemma LengthInBuffer(g: Config, was: Bytes)
    requires ConfigOk(g) && |was| == g.szbuf
    ensures AsInt(WordAt(Splice(was, 0, Message(g)[..4]), 0)) == g.n
  {
    Texts(g);
    hide Message, WordAt, AsInt;
    assert Splice(was, 0, Message(g)[..4]) == Message(g)[..4] + was[4..];
  }

  /**
   The protocol runs all its rounds, with every check passed, in every interleaving and for every
   fragmentation of the messages, exactly when a channel has room for the four bytes of the length, the
   message fits the server's buffer, and the network hands the length over whole.
   */
  lemma EchoFinishesIff(g: Config)
    requires ConfigOk(g)
    ensures AlwaysFinishes(g) <==> g.cap >= 4 && g.n <= g.szbuf && g.wholeLen
    ensures g.cap >= 4 && g.n <= g.szbuf && g.wholeLen ==>
      forall run :: IsRun(g, run) && Stuck(g, run[|run| - 1]) ==>
        var s: State := run[|run| - 1];
        s.cp == CDone && s.round == g.niters && s.failedChecks == 0 && s.up == [] && s.down == []
  {
    if Sound(g) && g.cap >= 4 {
      forall run | IsRun(g, run) && Stuck(g, run[|run| - 1])
        ensures Finished(g, run[|run| - 1])
      {
        FinishesWithRoom(g, run);
      }
    }
    hide Stuck, Step, Init;
    if Sound(g) && g.cap >= 4 {
      hide Finished;
      forall run | IsRun(g, run) && Stuck(g, run[|run| - 1])
        ensures Finished(g, run[|run| - 1])
      {
        FinishesWithRoom(g, run);
      }
    } else {
      var run;
      if g.cap == 0 || (g.wholeLen && g.cap < 4) {
        run := StuckWithoutRoom(g);
      } else if !g.wholeLen {
        run := KilledOnShortRead(g);
      } else {
        run := KilledOnLongMessage(g);
      }
    }
  }

  /** The programs with their default sizes, and any smaller message: four bytes of room decide. */
  lemma DefaultsFinish(n: nat, niters: nat, cap: nat)
    requires 4 <= n <= 1048576 && niters > 0
    ensures AlwaysFinishes(Config(n, niters, 1048576, cap, true)) <==> cap >= 4
    ensures n == 65536 && niters == 16 ==> Sound(Config(n, niters, 1048576, cap, true))
  {
    EchoFinishesIff(Config(n, niters, 1048576, cap, true));
    hide AlwaysFinishes;
  }
}
