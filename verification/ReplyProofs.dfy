/** The parsers of the client on the replies of the server, with any bytes behind them. */
module ReplyProofs {
  import opened Wire
  import opened StringVectors
  import opened Qap
  import opened RServer
  import opened Replies

  /** The body of the value has a length that 24 bits hold. */
  predicate Fits(v: Value) {
    |Body(v)| < LEN_LIMIT
  }

  /** The values get_vec accepts for a type, and what it makes of them. */
  function VecAnswer(q: Qtype, v: Value): Option<Vec> {
    if !Fits(v) then None
    else if q.F8? && v.Dbl? then Some(Vec(|v.cells| / 8, v.cells))
    else if q.I4? && v.Int? then Some(Vec(|v.cells| / 4, v.cells))
    else if q.I1? && v.Lgl? then Some(Vec(|LogicalCells(v.cells)|, LogicalCells(v.cells)))
    else None
  }

  /** get_vec on any value reply: its vector and nothing beyond, or an error with the body unread. */
  lemma VecOfReply(q: Qtype, v: Value, tail: Bytes, e: Failure)
    requires ValidValue(v) && Bounded(v) && (q.F8? || q.I4? || q.I1?)
    ensures ParseVec(q, Reply(v) + tail, e) ==
            match VecAnswer(q, v)
            case Some(vec) => Ok(vec, tail)
            case None => Err(-1, Body(v) + tail)
  {
    VecHeadOfReply(q, v, tail, e);
    hide ParseVecHead, Reply;
    if VecAnswer(q, v).Some? {
      VecBodyOfReply(q, v, tail, e);
    } else {
      assert ParseVecHead(q, Reply(v) + tail, e) == Err(-1, Body(v) + tail);
    }
  }

  lemma VecHeadOfReply(q: Qtype, v: Value, tail: Bytes, e: Failure)
    requires Bounded(v)
    ensures ParseVecHead(q, Reply(v) + tail, e) ==
            if Xt(v) == XtOf(q) && Fits(v) then Ok(|Body(v)|, Body(v) + tail) else Err(-1, Body(v) + tail)
  {
    HeaderWordRoundTrip(DT_SEXP, 4 + |Body(v)|);
    HeaderWordRoundTrip(Xt(v), |Body(v)|);
    ReplyShape(Xt(v), Body(v), tail);
    hide Body, ValueFrame, ValueReply, ParseVecHead, SetPar, ParType, ParLen, Xt, XtOf;
    VecHeadOfFrame(q, Reply(v) + tail, 8 + |Body(v)|, SetPar(DT_SEXP, 4 + |Body(v)|),
                   SetPar(Xt(v), |Body(v)|), Body(v) + tail, e);
  }

  lemma VecBodyOfReply(q: Qtype, v: Value, tail: Bytes, e: Failure)
    requires ValidValue(v) && VecAnswer(q, v).Some?
    ensures ParseVecBody(q, |Body(v)|, Body(v) + tail, e) == Ok(VecAnswer(q, v).value, tail)
  {
    hide Le32;
    if q.I1? {
      var count := Le32(|v.cells| % WORD_LIMIT);
      var cells := LogicalCells(v.cells);
      assert Body(v) + tail == count + (cells + tail);
      TakeConcat(count, cells + tail, e);
      TakeConcat(cells, tail, e);
    } else {
      TakeConcat(v.cells, tail, e);
    }
  }

  /**
   Logicals come back padded: as many cells as fill whole words, of which the first are the cells that
   were stored. The number is the stored one exactly when four divides it.
   */
  lemma LogicalsComeBackPadded(cells: Bytes, tail: Bytes, e: Failure)
    requires |cells| + 8 < LEN_LIMIT
    ensures var p := ParseVec(I1, Reply(Lgl(cells)) + tail, e);
      && p.Ok? && p.rest == tail
      && p.value.n == |p.value.data| == (|cells| + 3) / 4 * 4
      && cells <= p.value.data
      && (p.value == Vec(|cells|, cells) <==> |cells| % 4 == 0)
  {
    VecOfReply(I1, Lgl(cells), tail, e);
    hide Reply, ParseVec, Fill;
    var padded := LogicalCells(cells);
    assert |Body(Lgl(cells))| == 4 + |padded|;
    assert padded[..|cells|] == cells;
    PaddedTo4(|cells|);
  }

  lemma PaddedTo4(n: nat)
    ensures n + PadTo4(n) == (n + 3) / 4 * 4
    ensures PadTo4(n) == 0 <==> n % 4 == 0
  {
  }

  /** get_F8 and get_I4 accept one cell of their type. */
  function ScalarAnswer(q: Qtype, v: Value): Option<Bytes> {
    if ((q.F8? && v.Dbl?) || (q.I4? && v.Int?)) && |v.cells| == Width(q) then Some(v.cells) else None
  }

  /**
   A scalar call on any value reply. Where the last read moves less than the cell, the call still
   succeeds, with part of the cell and the rest of it unread.
   */
  lemma ScalarOfReply(q: Qtype, v: Value, tail: Bytes, e: Failure, cut: nat)
    requires ValidValue(v) && Bounded(v) && (q.F8? || q.I4?) && 0 < cut <= Width(q)
    ensures ParseScalar(q, Reply(v) + tail, e, cut) ==
            match ScalarAnswer(q, v)
            case Some(cell) => Ok(cell[..cut], cell[cut..] + tail)
            case None => Err(-1, Body(v) + tail)
    ensures ScalarAnswer(q, v).Some? ==>
            (ParseScalar(q, Reply(v) + tail, e, cut) == Ok(v.cells, tail) <==> cut == Width(q))
  {
    VecHeadOfReply(q, v, tail, e);
    hide ParseVecHead, Reply;
    if ScalarAnswer(q, v).Some? {
      CutCell(v.cells, tail, cut);
    }
  }

  lemma CutCell(cell: Bytes, tail: Bytes, cut: nat)
    requires cut <= |cell|
    ensures (cell + tail)[..cut] == cell[..cut] && (cell + tail)[cut..] == cell[cut..] + tail
    ensures cell[..cut] == cell <==> cut == |cell|
    ensures cut == |cell| ==> cell[cut..] + tail == tail
  {
  }

  /** exec_str hands over the whole body of a value of the expected type. The reference server sends the low 24 bits
   of a length that does not fit, and the call goes by the frame. */
  lemma ExecOfReply(expected: int, v: Value, tail: Bytes, e: Failure)
    requires Bounded(v)
    ensures ParseExec(true, expected, Reply(v) + tail, e) ==
            if expected >= 0 && Xt(v) as int != expected then Err(-1, Body(v) + tail) else Ok(Body(v), tail)
  {
    HeaderWordRoundTrip(DT_SEXP, 4 + |Body(v)|);
    HeaderWordRoundTrip(Xt(v), |Body(v)|);
    ReplyShape(Xt(v), Body(v), tail);
    hide Body, ValueFrame, ValueReply, ParseExec, SetPar, ParType, ParLen, Xt;
    ExecOfFrame(expected, Reply(v) + tail, 8 + |Body(v)|, SetPar(DT_SEXP, 4 + |Body(v)|),
                SetPar(Xt(v), |Body(v)|), Body(v) + tail, e);
    TakeConcat(Body(v), tail, e);
  }

  function BoolAnswer(v: Value): Option<bool> {
    if v.Lgl? && |v.cells| == 1 then Some(v.cells[0] % 2 == 1) else None
  }

  /**
   get_bool accepts one logical; NA, which is 2, reads as false. It refuses other values with -1, having
   read the whole reply if it holds logicals and none of the body otherwise.
   */
  lemma BoolOfReply(v: Value, tail: Bytes, e: Failure)
    requires ValidValue(v) && Bounded(v)
    ensures match BoolAnswer(v)
            case Some(b) => ParseBool(Reply(v) + tail, e) == Ok(b, tail)
            case None => ParseBool(Reply(v) + tail, e) == Err(-1, if v.Lgl? then tail else Body(v) + tail)
  {
    ExecOfReply(XT_ARRAY_BOOL as int, v, tail, e);
    hide ParseExec, Reply;
    if v.Lgl? {
      LogicalBody(v.cells);
    }
  }

  /** The body of logicals is eight bytes long and starts with the byte 1 for a single one only. */
  lemma LogicalBody(cells: Bytes)
    requires |cells| < WORD_LIMIT
    ensures var b := Body(Lgl(cells));
      && (|b| == 8 && b[0] == 1 <==> |cells| == 1)
      && (|cells| == 1 ==> WordAt(b, 4) % 2 == (cells[0] % 2) as int)
  {
    var b := Body(Lgl(cells));
    assert b[0] as int == |cells| % 256;
    if |cells| == 1 {
      assert b[4] == cells[0];
    }
  }

  lemma LenOfReply(n: nat, tail: Bytes, e: Failure)
    requires n < WORD_LIMIT
    ensures ParseLen(Reply(Int(Le32(n))) + tail, e) == Ok(AsInt(n), tail)
  {
    ExecOfReply(XT_ARRAY_INT as int, Int(Le32(n)), tail, e);
    WordOfLe32(n);
  }

  // ---------- Named vectors ----------

  /**
   What get_named_vec_F8 makes of a named vector: it wants room to spare in both buffers, and it is the
   one call that checks the length in the outer word, so that this has to fit as well.
   */
  function NamedAnswer(v: Value, szBlob: nat, szVals: nat): Option<Keyed> {
    if v.Named? && |Body(v)| + 4 < LEN_LIMIT && |StringArray(v.keys)| < szBlob && |v.keys| < szVals then
      Some(Keyed(StringArray(v.keys), v.cells))
    else None
  }

  /** The first words of the attribute list, where the client looks for them. */
  lemma NamedShape(keys: seq<Bytes>, cells: Bytes, tail: Bytes)
    ensures var blob := StringArray(keys);
      var b := Body(Named(keys, cells)) + tail;
      && |Body(Named(keys, cells))| == 20 + |blob| + |cells|
      && WordAt(b, 0) == SetPar(XT_LIST_TAG, 16 + |blob|)
      && WordAt(b, 4) == SetPar(XT_ARRAY_STR, |blob|)
      && b[8..] == blob + (NAMES_TAG + (cells + tail))
  {
    hide Le32, SetPar, StringArray;
    var blob := StringArray(keys);
    var rest := blob + (NAMES_TAG + (cells + tail));
    TwoWords([], SetPar(XT_LIST_TAG, 16 + |blob|), SetPar(XT_ARRAY_STR, |blob|), rest);
    var a, b := Le32(SetPar(XT_LIST_TAG, 16 + |blob|)), Le32(SetPar(XT_ARRAY_STR, |blob|));
    RegroupNamed(a, b, blob, NAMES_TAG, cells, tail);
  }

  lemma RegroupNamed(a: Bytes, b: Bytes, blob: Bytes, tag: Bytes, cells: Bytes, tail: Bytes)
    ensures a + b + blob + tag + cells + tail == [] + (a + b + (blob + (tag + (cells + tail))))
  {
  }

  /** The words that have to open the body: a tagged list whose first element is a string vector. */
  predicate NamedWords(b: Bytes, szBlob: nat)
    requires |b| >= 8
  {
    && ParType(WordAt(b, 0)) == XT_LIST_TAG
    && ParType(WordAt(b, 4)) == XT_ARRAY_STR
    && ParLen(WordAt(b, 4)) < szBlob
  }

  /**
   What the call makes of the bytes behind the first twenty-four of a reply. `fits` tells that the outer
   word holds its length. The type word of the value plays no part.
   */
  function NamedOnBody(fits: bool, b: Bytes, e: Failure, szBlob: nat, szVals: nat): Outcome<Keyed> {
    if |b| < 8 then Err(e, [])
    else if !fits || !NamedWords(b, szBlob) then Err(-1, b[8..])
    else KeyedAt(ParLen(WordAt(b, 4)), b, e, szVals)
  }

  /** Behind two words, `l` bytes of keys, twelve that are skipped, and eight for each NUL of the keys. */
  function KeyedAt(l: nat, b: Bytes, e: Failure, szVals: nat): Outcome<Keyed>
    requires |b| >= 8
  {
    if |b| < 20 + l then Err(e, [])
    else
      var k := CountNul(b[8..8 + l]);
      if k >= szVals then Err(-1, b[20 + l..])
      else if |b| < 20 + l + 8 * k then Err(e, [])
      else Ok(Keyed(b[8..8 + l], b[20 + l..20 + l + 8 * k]), b[20 + l + 8 * k..])
  }

  lemma NamedHeadOfFrame(s: Bytes, len: nat, dt: nat, xt: nat, rest: Bytes, e: Failure, szBlob: nat)
    requires 8 <= len < INT_LIMIT && ValueFrame(s, len, dt, xt, rest) && ParType(dt) == DT_SEXP
    ensures ParseNamedHead(s, e, szBlob) ==
            if |rest| < 8 then Err(e, [])
            else if ParLen(dt) == len - 4 && NamedWords(rest, szBlob) then Ok(ParLen(WordAt(rest, 4)), rest[8..])
            else Err(-1, rest[8..])
  {
    WordInSlice(s, 0, HDR_LEN, 4);
    if |rest| >= 8 {
      WordInSlice(s, HDR_LEN, 2 * HDR_LEN, 0);
      WordInSlice(s, HDR_LEN, 2 * HDR_LEN, 8);
      WordInSlice(s, HDR_LEN, 2 * HDR_LEN, 12);
      WordInSlice(s, 24, |s|, 0);
      WordInSlice(s, 24, |s|, 4);
      assert s[HDR_LEN..][..HDR_LEN] == s[HDR_LEN..2 * HDR_LEN];
      assert s[HDR_LEN..][HDR_LEN..] == s[24..][8..];
      assert s[24..|s|] == s[24..];
    }
    hide ParType, ParLen, WordAt;
  }

  lemma NamedBodyAt(l: nat, b: Bytes, e: Failure, szVals: nat)
    requires |b| >= 8
    ensures ParseNamedBody(l, b[8..], e, szVals) == KeyedAt(l, b, e, szVals)
  {
    if |b| >= 20 + l {
      assert b[8..][..l] == b[8..8 + l];
      assert b[8..][l..][12..] == b[20 + l..];
      var k := CountNul(b[8..8 + l]);
      hide CountNul;
      if |b| >= 20 + l + 8 * k {
        assert b[20 + l..][..8 * k] == b[20 + l..20 + l + 8 * k];
        assert b[20 + l..][8 * k..] == b[20 + l + 8 * k..];
      }
    }
  }

  /** get_named_vec_F8 on the reply for any value whatever, with any bytes behind it. */
  lemma NamedOfValue(v: Value, tail: Bytes, e: Failure, szBlob: nat, szVals: nat)
    requires Bounded(v)
    ensures ParseNamed(Reply(v) + tail, e, szBlob, szVals)
         == NamedOnBody(|Body(v)| + 4 < LEN_LIMIT, Body(v) + tail, e, szBlob, szVals)
  {
    var b := Body(v) + tail;
    HeaderWordRoundTrip(DT_SEXP, 4 + |Body(v)|);
    ReplyShape(Xt(v), Body(v), tail);
    hide Body, Reply, SetPar, ParType, ParLen, ParseNamedHead, ParseNamedBody, ValueFrame, WordAt, NamedWords,
      KeyedAt;
    NamedHeadOfFrame(Reply(v) + tail, 8 + |Body(v)|, SetPar(DT_SEXP, 4 + |Body(v)|), SetPar(Xt(v), |Body(v)|),
                     b, e, szBlob);
    if |b| >= 8 {
      NamedBodyAt(ParLen(WordAt(b, 4)), b, e, szVals);
    }
  }

  /** What is left unread of a named vector that is refused. */
  function NamedLeft(keys: seq<Bytes>, cells: Bytes, szBlob: nat): Bytes {
    if |Body(Named(keys, cells))| + 4 < LEN_LIMIT && |StringArray(keys)| < szBlob then cells
    else StringArray(keys) + NAMES_TAG + cells
  }

  /**
   On the reply for a double vector whose only attribute is `names`, the call succeeds exactly when the
   lengths fit and both buffers have room to spare; it then has the keys as a blob and the values, and
   nothing of what follows the reply. The twelve bytes it skips are the word of the symbol and the
   padded "names".
   */
  lemma NamedOfReply(keys: seq<Bytes>, cells: Bytes, tail: Bytes, e: Failure, szBlob: nat, szVals: nat)
    requires AllNulFree(keys) && |cells| == 8 * |keys| && 20 + |StringArray(keys)| + |cells| < BODY_LIMIT
    ensures ParseNamed(Reply(Named(keys, cells)) + tail, e, szBlob, szVals) ==
            match NamedAnswer(Named(keys, cells), szBlob, szVals)
            case Some(keyed) => Ok(keyed, tail)
            case None => Err(-1, NamedLeft(keys, cells, szBlob) + tail)
    ensures Strings(StringArray(keys)) == keys
  {
    NamedShape(keys, cells, tail);
    NamedOfValue(Named(keys, cells), tail, e, szBlob, szVals);
    BlobStrings(keys);
    hide ParseNamed, Reply, StringArray, Strings, Body, NAMES_TAG, NamedOnBody, CountNul;
    NamedOnNamed(|Body(Named(keys, cells))| + 4 < LEN_LIMIT, keys, cells, tail, e, szBlob, szVals);
  }

  /** On the bytes of a named vector, and whatever stands behind them. */
  lemma NamedOnNamed(fits: bool, keys: seq<Bytes>, cells: Bytes, tail: Bytes, e: Failure, szBlob: nat, szVals: nat)
    requires AllNulFree(keys) && |cells| == 8 * |keys| && (fits ==> 16 + |StringArray(keys)| < LEN_LIMIT)
    ensures var blob := StringArray(keys);
      NamedOnBody(fits, Body(Named(keys, cells)) + tail, e, szBlob, szVals) ==
        if !fits || |blob| >= szBlob then Err(-1, blob + NAMES_TAG + cells + tail)
        else if |keys| >= szVals then Err(-1, cells + tail)
        else Ok(Keyed(blob, cells), tail)
  {
    var blob := StringArray(keys);
    var b := Body(Named(keys, cells)) + tail;
    NamedShape(keys, cells, tail);
    HeaderWordRoundTrip(XT_LIST_TAG, 16 + |blob|);
    HeaderWordRoundTrip(XT_ARRAY_STR, |blob|);
    BlobStrings(keys);
    hide StringArray, Strings, Body, NAMES_TAG, CountNul, SetPar, ParType, ParLen, WordAt;
    NamedPieces(b, blob, NAMES_TAG, cells, tail);
  }

  lemma NamedPieces(b: Bytes, blob: Bytes, tag: Bytes, cells: Bytes, tail: Bytes)
    requires |b| >= 8 && b[8..] == blob + (tag + (cells + tail)) && |tag| == 12
    ensures |b| == 20 + |blob| + |cells| + |tail|
    ensures b[8..8 + |blob|] == blob
    ensures b[20 + |blob|..20 + |blob| + |cells|] == cells
    ensures b[20 + |blob| + |cells|..] == tail
    ensures b[20 + |blob|..] == cells + tail
    ensures b[8..] == blob + tag + cells + tail
  {
    hide *;
    var l := 20 + |blob|;
    var r := cells + tail;
    SplitConcat(blob, tag + r);
    SplitConcat(tag, r);
    SplitConcat(cells, tail);
    assert b[8..8 + |blob|] == b[8..][..|blob|];
    assert b[l..] == b[8..][|blob|..][12..];
    assert b[l..l + |cells|] == b[l..][..|cells|];
    assert b[l + |cells|..] == b[l..][|cells|..];
    assert blob + tag + cells + tail == blob + (tag + r);
  }

  lemma SplitConcat(a: Bytes, b: Bytes)
    ensures (a + b)[..|a|] == a && (a + b)[|a|..] == b
  {
  }

  lemma BlobStrings(keys: seq<Bytes>)
    requires AllNulFree(keys)
    ensures Strings(StringArray(keys)) == keys && CountNul(StringArray(keys)) == |keys|
  {
    StringsOfPacked(keys, Fill(1, PadTo4(|Packed(keys)|)));
    CountNulPacked(keys, Fill(1, PadTo4(|Packed(keys)|)));
  }

  /**
   A plain double vector that starts with the bytes of a named vector is taken for one, keys and values and
   all, and what it has beyond them stays unread. Those bytes can be the ones of any named vector whose
   size is a multiple of eight: with keys "a" and "b" they are five doubles.
   */
  lemma LookalikeParses(keys: seq<Bytes>, cells: Bytes, more: Bytes, tail: Bytes, e: Failure, szBlob: nat, szVals: nat)
    requires AllNulFree(keys) && |cells| == 8 * |keys| && |StringArray(keys)| % 8 == 4 && |more| % 8 == 0
    requires |Body(Named(keys, cells))| + |more| + 4 < LEN_LIMIT && |StringArray(keys)| < szBlob && |keys| < szVals
    ensures var v := Dbl(Body(Named(keys, cells)) + more);
      && ValidValue(v)
      && ParseNamed(Reply(v) + tail, e, szBlob, szVals) == Ok(Keyed(StringArray(keys), cells), more + tail)
  {
    hide *;
    LookalikeValid(keys, cells, more);
    var n := Named(keys, cells);
    var v := Dbl(Body(n) + more);
    NamedOfValue(v, tail, e, szBlob, szVals);
    NamedOnNamed(true, keys, cells, more + tail, e, szBlob, szVals);
    assert Body(n) + more + tail == Body(n) + (more + tail);
  }

  /** The smallest such vector with two keys, "a" and "b": five doubles, the last two of any value. */
  lemma FiveDoublesParse(cells: Bytes, tail: Bytes, e: Failure)
    requires |cells| == 16
    ensures var v := Dbl(Body(Named([[97], [98]], cells)));
      && Length(v) == 5
      && ParseNamed(Reply(v) + tail, e, 5, 3) == Ok(Keyed([97, 0, 98, 0], cells), tail)
  {
    hide Body, StringArray, ParseNamed, Reply, Length, AllNulFree, ValidValue;
    var keys: seq<Bytes> := [[97], [98]];
    TwoKeys(cells);
    LookalikeParses(keys, cells, [], tail, e, 5, 3);
    assert Body(Named(keys, cells)) + [] == Body(Named(keys, cells));
    assert [] + tail == tail;
  }

  lemma TwoKeys(cells: Bytes)
    requires |cells| == 16
    ensures StringArray([[97], [98]]) == [97, 0, 98, 0] && AllNulFree([[97], [98]])
    ensures |Body(Named([[97], [98]], cells))| == 40 && Length(Dbl(Body(Named([[97], [98]], cells)))) == 5
  {
    assert Packed([[98]]) == [98] + [0] + Packed([]);
    assert [[97], [98]][1..] == [[98]];
    assert Packed([[97], [98]]) == [97, 0, 98, 0];
    NamedShape([[97], [98]], cells, []);
    hide NamesAttribute;
  }

  lemma LookalikeValid(keys: seq<Bytes>, cells: Bytes, more: Bytes)
    requires |cells| == 8 * |keys| && |StringArray(keys)| % 8 == 4 && |more| % 8 == 0
    requires |Body(Named(keys, cells))| + |more| + 4 < LEN_LIMIT
    ensures ValidValue(Dbl(Body(Named(keys, cells)) + more)) && Bounded(Dbl(Body(Named(keys, cells)) + more))
    ensures Body(Dbl(Body(Named(keys, cells)) + more)) == Body(Named(keys, cells)) + more
    ensures |Body(Named(keys, cells))| == 20 + |StringArray(keys)| + |cells|
  {
    hide StringArray, NamesAttribute;
  }

  // ---------- Replies without a body ----------

  /** A reply that is a header alone, as for void commands and for errors. */
  predicate Empty(r: Bytes) {
    |r| == HDR_LEN && WordAt(r, 4) == 0
  }

  lemma EmptyReplies(stat: nat)
    requires stat < 128
    ensures Empty(VOID_REPLY) && Empty(ErrorReply(stat))
  {
    HeaderWords(RESP_OK, 0, []);
    HeaderWords(RESP_ERR + stat * 0x100_0000, 0, []);
    assert Header(RESP_OK, 0) + [] == Header(RESP_OK, 0);
    assert ErrorReply(stat) + [] == ErrorReply(stat);
  }

  /**
   set_vec and a void exec_str succeed on every empty reply: they do not look at the response code, so
   an error without a message is as good as success. The calls that want a value all fail on it.
   */
  lemma OnEmptyReply(r: Bytes, e: Failure)
    requires Empty(r)
    ensures ParseSet(r, e) == Ok((), [])
    ensures forall x :: ParseExec(false, x, r, e) == Ok([], [])
    ensures forall x :: ParseExec(true, x, r, e) == Err(-1, [])
    ensures forall q :: ParseVec(q, r, e) == Err(e, [])
    ensures forall q, cut :: ParseScalar(q, r, e, cut) == Err(e, [])
    ensures forall szBlob, szVals :: ParseNamed(r, e, szBlob, szVals) == Err(-1, [])
    ensures ParseBool(r, e) == Err(-1, []) && ParseLen(r, e) == Err(-1, [])
  {
    hide ParType, ParLen, WordAt;
    assert r[..HDR_LEN] == r && r[HDR_LEN..] == [];
    assert Take(r, HDR_LEN, e) == Ok(r, []);
  }
}
