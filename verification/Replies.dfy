/**
 What each call makes of the bytes that come back: the outcome for every inbound stream, well formed
 or not, and the bytes it leaves unread. `e` is the status a read reports at the end of the stream.
 */
module Replies {
  import opened Wire
  import opened StringVectors
  import opened Qap

  /** The status of a call that did not succeed. */
  type Failure = s: int | s < 0 witness -1

  datatype Outcome<+T> = Ok(value: T, rest: Bytes) | Err(status: Failure, rest: Bytes) {
    predicate IsFailure() {
      Err?
    }

    function PropagateFailure<U>(): Outcome<U>
      requires Err?
    {
      Err(status, rest)
    }

    function Extract(): (T, Bytes)
      requires Ok?
    {
      (value, rest)
    }
  }

  /** Exactly `n` bytes through the reassembly loop; a stream that ends first is used up. */
  function Take(s: Bytes, n: nat, e: Failure): (r: Outcome<Bytes>)
    ensures r.Ok? <==> n <= |s|
    ensures r.Ok? ==> s == r.value + r.rest && |r.value| == n
    ensures r.Err? ==> r == Err(e, [])
  {
    if n <= |s| then Ok(s[..n], s[n..]) else Err(e, [])
  }

  /** `n` bytes through one call of read that must move them all. */
  function TakeAtOnce(s: Bytes, n: nat, e: Failure): (r: Outcome<Bytes>)
    ensures r.Ok? ==> s == r.value + r.rest && |r.value| == n
  {
    if s == [] then Err(e, []) else if n <= |s| then Ok(s[..n], s[n..]) else Err(-1, [])
  }

  function Width(q: Qtype): (w: nat)
    ensures w > 0
  {
    match q
    case F8 => 8
    case I4 => 4
    case _ => 1
  }

  function XtOf(q: Qtype): byte {
    match q
    case F8 => XT_ARRAY_DOUBLE
    case I4 => XT_ARRAY_INT
    case I1 => XT_ARRAY_BOOL
    case _ => XT_ARRAY_STR
  }

  // ---------- Vectors ----------

  datatype Vec = Vec(n: nat, data: Bytes)

  /** The frame header and the two words of a vector reply; the value is the length of the body. */
  function ParseVecHead(q: Qtype, s: Bytes, e: Failure): Outcome<nat> {
    var (hdr, r1) :- Take(s, HDR_LEN, e);
    var (words, r2) :- TakeAtOnce(r1, 8, e);
    var len := ParLen(WordAt(words, 4));
    if ParType(WordAt(words, 0)) != DT_SEXP then Err(-1, r2)
    else if ParType(WordAt(words, 4)) != XtOf(q) then Err(-1, r2)
    else if AsInt(WordAt(hdr, 4)) - 8 != len then Err(-1, r2)
    else Ok(len, r2)
  }

  /**
   The cells that follow. Logicals carry an element count, which is read and not used: the number of
   cells comes from the length. A length below four then asks for a negative amount of memory.
   */
  function ParseVecBody(q: Qtype, len: nat, s: Bytes, e: Failure): Outcome<Vec> {
    if q.I1? then
      var (_, r1) :- Take(s, 4, e);
      if len < 4 then Err(-1, r1)
      else
        var (data, r2) :- Take(r1, len - 4, e);
        Ok(Vec(len - 4, data), r2)
    else
      var n := len / Width(q);
      var (data, r) :- Take(s, n * Width(q), e);
      Ok(Vec(n, data), r)
  }

  function ParseVec(q: Qtype, s: Bytes, e: Failure): Outcome<Vec> {
    var (len, r) :- ParseVecHead(q, s, e);
    ParseVecBody(q, len, r, e)
  }

  /**
   A scalar: the same head, then one read of the cell whose count is not compared with the width.
   `cut` is the most that read moves.
   */
  function ParseScalar(q: Qtype, s: Bytes, e: Failure, cut: nat): (p: Outcome<Bytes>)
    ensures p.Ok? ==> |p.value| <= Width(q)
  {
    var (len, r) :- ParseVecHead(q, s, e);
    if len / Width(q) != 1 then Err(-1, r)
    else if r == [] then Err(e, [])
    else
      var k := Min(Width(q), Min(cut, |r|));
      Ok(r[..k], r[k..])
  }

  function Min(a: nat, b: nat): (m: nat)
    ensures m <= a && m <= b && (m == a || m == b)
  {
    if a <= b then a else b
  }

  // ---------- exec_str, set_vec and the logical scalars ----------

  /**
   The reply to exec_str. Without an output only the header is read, whatever it announces. With one,
   a body shorter than the two words fails before anything of it is read. A negative `expected` stands
   for any type.
   */
  function ParseExec(wantOutput: bool, expected: int, s: Bytes, e: Failure): Outcome<Bytes> {
    var (hdr, r1) :- Take(s, HDR_LEN, e);
    var len := AsInt(WordAt(hdr, 4));
    if !wantOutput then Ok([], r1)
    else if len < 8 then Err(-1, r1)
    else
      var (words, r2) :- Take(r1, 8, e);
      if ParType(WordAt(words, 0)) != DT_SEXP then Err(-1, r2)
      else if expected >= 0 && ParType(WordAt(words, 4)) as int != expected then Err(-1, r2)
      else Take(r2, len - 8, e)
  }

  /** The reply to set_vec must be empty. */
  function ParseSet(s: Bytes, e: Failure): Outcome<()> {
    var (hdr, r) :- Take(s, HDR_LEN, e);
    if WordAt(hdr, 4) != 0 then Err(-1, r) else Ok((), r)
  }

  /** get_bool turns every failure of exec_str into -1. */
  function ParseBool(s: Bytes, e: Failure): Outcome<bool> {
    match ParseExec(true, XT_ARRAY_BOOL as int, s, e)
    case Err(_, r) => Err(-1, r)
    case Ok(out, r) =>
      if |out| != 8 || out[0] != 1 then Err(-1, r) else Ok(WordAt(out, 4) % 2 == 1, r)
  }

  function ParseLen(s: Bytes, e: Failure): Outcome<int> {
    var (out, r) :- ParseExec(true, XT_ARRAY_INT as int, s, e);
    if |out| < 4 then Err(-1, r) else Ok(AsInt(WordAt(out, 0)), r)
  }

  // ---------- Named vectors ----------

  datatype Keyed = Keyed(blob: Bytes, vals: Bytes)

  /** The frame header and the first four words of a named vector; the value is the size of the blob. */
  function ParseNamedHead(s: Bytes, e: Failure, szBlob: nat): Outcome<nat> {
    var (hdr, r1) :- Take(s, HDR_LEN, e);
    var n1 := AsInt(WordAt(hdr, 4));
    if n1 == 0 then Err(-1, r1)
    else
      var (words, r2) :- Take(r1, HDR_LEN, e);
      if ParType(WordAt(words, 0)) != DT_SEXP then Err(-1, r2)
      else if n1 - HDR_LEN != ParLen(WordAt(words, 0)) - 12 then Err(-1, r2)
      else if ParType(WordAt(words, 8)) != XT_LIST_TAG then Err(-1, r2)
      else if ParType(WordAt(words, 12)) != XT_ARRAY_STR then Err(-1, r2)
      else if ParLen(WordAt(words, 12)) >= szBlob then Err(-1, r2)
      else Ok(ParLen(WordAt(words, 12)), r2)
  }

  /** The keys, and twelve bytes that are skipped. */
  function ParseKeys(len: nat, s: Bytes, e: Failure): Outcome<Bytes> {
    var (blob, r1) :- Take(s, len, e);
    var (_, r2) :- Take(r1, 12, e);
    Ok(blob, r2)
  }

  /** One eight-byte value for each NUL of the keys. */
  function ParseNamedBody(len: nat, s: Bytes, e: Failure, szVals: nat): Outcome<Keyed> {
    var (blob, r1) :- ParseKeys(len, s, e);
    if CountNul(blob) >= szVals then Err(-1, r1)
    else
      var (vals, r2) :- Take(r1, 8 * CountNul(blob), e);
      Ok(Keyed(blob, vals), r2)
  }

  function ParseNamed(s: Bytes, e: Failure, szBlob: nat, szVals: nat): Outcome<Keyed> {
    var (len, r) :- ParseNamedHead(s, e, szBlob);
    ParseNamedBody(len, r, e, szVals)
  }

  /** The bytes of a read of `n` that come before the stream ends. */
  function Arrived(s: Bytes, n: nat): (b: Bytes)
    ensures |b| == Min(n, |s|) && b <= s
  {
    s[..Min(n, |s|)]
  }

  /** What reaches the buffers for keys and values, however the call ends. */
  function NamedBuffers(s: Bytes, e: Failure, szBlob: nat, szVals: nat): (bufs: Keyed) {
    match ParseNamedHead(s, e, szBlob)
    case Err(_, _) => Keyed([], [])
    case Ok(len, r) => BodyBuffers(len, r, e, szVals)
  }

  function BodyBuffers(len: nat, s: Bytes, e: Failure, szVals: nat): (bufs: Keyed) {
    var keys := ParseKeys(len, s, e);
    Keyed(Arrived(s, len),
          if keys.Ok? && CountNul(keys.value) < szVals then Arrived(keys.rest, 8 * CountNul(keys.value)) else [])
  }

  /** On success the buffers hold the result; the parts that arrive always fit them. */
  lemma NamedBuffersFit(s: Bytes, e: Failure, szBlob: nat, szVals: nat)
    ensures var bufs := NamedBuffers(s, e, szBlob, szVals);
      && |bufs.blob| <= szBlob && |bufs.vals| <= 8 * szVals
      && (ParseNamed(s, e, szBlob, szVals).Ok? ==> ParseNamed(s, e, szBlob, szVals).value == bufs)
  {
    hide CountNul, WordAt, ParType, ParLen, AsInt;
  }

  // ---------- Scalars against vectors ----------

  /** The stream stops inside the cell of a well-announced scalar. */
  predicate CellCut(q: Qtype, s: Bytes, e: Failure) {
    var head := ParseVecHead(q, s, e);
    head.Ok? && head.value / Width(q) == 1 && 0 < |head.rest| < Width(q)
  }

  predicate SameScalar(q: Qtype, s: Bytes, e: Failure, v: Bytes, rest: Bytes) {
    ParseScalar(q, s, e, Width(q)) == Ok(v, rest) <==> ParseVec(q, s, e) == Ok(Vec(1, v), rest)
  }

  /**
   With reads that deliver all that is there, get_F8 and get_I4 succeed with a value exactly when
   get_vec succeeds with the vector of that one value, leaving the same bytes unread, except on streams
   that stop inside the cell, where only the scalar call succeeds.
   */
  lemma ScalarAgreesWithVector(q: Qtype, s: Bytes, e: Failure)
    requires q.F8? || q.I4?
    ensures (forall v, rest :: SameScalar(q, s, e, v, rest)) <==> !CellCut(q, s, e)
    ensures CellCut(q, s, e) ==> ParseScalar(q, s, e, Width(q)).Ok? && ParseVec(q, s, e) == Err(e, [])
  {
    hide ParseVecHead;
    var head := ParseVecHead(q, s, e);
    if CellCut(q, s, e) {
      assert !SameScalar(q, s, e, head.rest, []) by {
        assert head.rest[..|head.rest|] == head.rest && head.rest[|head.rest|..] == [];
      }
    } else {
      forall v, rest
        ensures SameScalar(q, s, e, v, rest)
      {
        if head.Ok? && head.value / Width(q) == 1 && |head.rest| >= Width(q) {
          assert ParseVecBody(q, head.value, head.rest, e)
              == Ok(Vec(1, head.rest[..Width(q)]), head.rest[Width(q)..]);
        }
      }
    }
  }

  /** Such streams exist: the reply for one cell, ended anywhere inside the cell. */
  lemma CutReplyCutsCell(q: Qtype, cell: Bytes, k: nat, e: Failure)
    requires (q.F8? || q.I4?) && |cell| == Width(q) && 0 < k < Width(q)
    ensures CellCut(q, ValueReply(XtOf(q), cell)[..24 + k], e)
  {
    var len := Width(q);
    var dt, xt := SetPar(DT_SEXP, 4 + len), SetPar(XtOf(q), len);
    HeaderWordRoundTrip(DT_SEXP, 4 + len);
    HeaderWordRoundTrip(XtOf(q), len);
    FrameShape(8 + len, dt, xt, cell[..k], []);
    CutFrame(8 + len, dt, xt, cell, k);
    hide ValueFrame, Header, Le32, SetPar, ParType, ParLen, ParseVecHead;
    VecHeadOfFrame(q, ValueReply(XtOf(q), cell)[..24 + k], 8 + len, dt, xt, cell[..k] + [], e);
  }

  lemma CutFrame(len: nat, dt: nat, xt: nat, cell: Bytes, k: nat)
    requires len < WORD_LIMIT && dt < WORD_LIMIT && xt < WORD_LIMIT && k <= |cell|
    ensures (Header(RESP_OK, len) + Le32(dt) + (Le32(xt) + cell))[..24 + k]
         == Header(RESP_OK, len) + Le32(dt) + (Le32(xt) + cell[..k]) + []
  {
    hide Header, Le32;
  }

  // ---------- What is left unread ----------

  /**
   After get_vec succeeds for F8 or I4 it has read its reply but for (ph.len - 8) mod width bytes, so
   on a reply followed by other bytes it stops at the reply's end exactly when the width divides.
   */
  lemma VectorRemainder(q: Qtype, s: Bytes, e: Failure)
    requires q.F8? || q.I4?
    requires ParseVec(q, s, e).Ok?
    ensures var r := ParseVec(q, s, e);
      var len := AsInt(WordAt(s, 4));
      && 8 <= len
      && r.value.n == (len - 8) / Width(q)
      && |s| - |r.rest| == HDR_LEN + len - (len - 8) % Width(q)
      && (|s| - |r.rest| == HDR_LEN + len <==> (len - 8) % Width(q) == 0)
      && r.rest == s[|s| - |r.rest|..]
      && r.value.data == s[24..|s| - |r.rest|]
  {
    var head := ParseVecHead(q, s, e);
    VecHeadFacts(q, s, e);
    hide ParseVecHead;
    var len := head.value;
    var n := len / Width(q);
    assert len == n * Width(q) + len % Width(q);
  }

  lemma VecHeadFacts(q: Qtype, s: Bytes, e: Failure)
    requires ParseVecHead(q, s, e).Ok?
    ensures var head := ParseVecHead(q, s, e);
      |s| >= 24 && head.rest == s[24..] && AsInt(WordAt(s, 4)) == head.value + 8
  {
    WordInSlice(s, 0, HDR_LEN, 4);
  }

  // ---------- The parsers on the frames of a server ----------

  lemma VecHeadOfFrame(q: Qtype, s: Bytes, len: nat, dt: nat, xt: nat, rest: Bytes, e: Failure)
    requires len < WORD_LIMIT && ValueFrame(s, len, dt, xt, rest) && ParType(dt) == DT_SEXP
    ensures ParseVecHead(q, s, e) ==
            if ParType(xt) == XtOf(q) && AsInt(len) - 8 == ParLen(xt) then Ok(ParLen(xt), rest) else Err(-1, rest)
  {
    WordInSlice(s, 0, HDR_LEN, 4);
    WordInSlice(s[HDR_LEN..], 0, 8, 0);
    WordInSlice(s[HDR_LEN..], 0, 8, 4);
    assert s[HDR_LEN..][8..] == s[24..];
  }

  lemma ExecOfFrame(expected: int, s: Bytes, len: nat, dt: nat, xt: nat, rest: Bytes, e: Failure)
    requires 8 <= len < INT_LIMIT && ValueFrame(s, len, dt, xt, rest) && ParType(dt) == DT_SEXP
    ensures ParseExec(true, expected, s, e) ==
            if expected >= 0 && ParType(xt) as int != expected then Err(-1, rest) else Take(rest, len - 8, e)
  {
    WordInSlice(s, 0, HDR_LEN, 4);
    WordInSlice(s[HDR_LEN..], 0, 8, 0);
    WordInSlice(s[HDR_LEN..], 0, 8, 4);
    assert s[HDR_LEN..][8..] == s[24..];
  }

  lemma TakeConcat(a: Bytes, b: Bytes, e: Failure)
    ensures Take(a + b, |a|, e) == Ok(a, b)
    ensures a != [] ==> TakeAtOnce(a + b, |a|, e) == Ok(a, b)
  {
    assert (a + b)[..|a|] == a && (a + b)[|a|..] == b;
  }
}
