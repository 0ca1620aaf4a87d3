/**
 Messages written out byte for byte, as a capture of the connection would show them, and the parsers as
 conditions on the bytes at their offsets. The statements use no encoder, no decoder and no constant of
 the protocol.
 */
module Literal {
  import opened Wire
  import opened StringVectors
  import opened Qap
  import opened RServer
  import opened Replies
  import opened SetRequests
  import opened ReplyProofs
  import opened Client
  import opened Session

  // ---------- Requests ----------

  lemma HeaderBytes(cmd: byte, a: byte, b: byte)
    ensures Header(cmd as int, a as int + 256 * (b as int)) == [cmd, 0, 0, 0, a, b, 0, 0, 0, 0, 0, 0, 0, 0, 0, 0]
  {
    Le32Bytes(cmd, 0, 0, 0);
    Le32Bytes(a, b, 0, 0);
    Le32Bytes(0, 0, 0, 0);
    hide Le32;
  }

  lemma NameX()
    ensures DtString([120]) == [4, 8, 0, 0, 120, 0, 0, 0, 0, 0, 0, 0]
  {
    HeaderWordBytes(4, 8, 0, 0);
    hide Le32, SetPar;
  }

  /** A request to store under "x" is a header, the name and the parameter. */
  lemma SetX(q: Qtype, data: Bytes, n: nat, width: nat, a: byte, b: byte)
    requires n < WORD_LIMIT && |data| == n * CellBytes(q, width) < OBJECT_LIMIT
    requires SetArgsOk([120], q, data, n, width)
    requires |SetParam(q, data, n, width)| + 12 == a as int + 256 * (b as int)
    ensures SetRequest([120], q, data, n, width) ==
            [32, 0, 0, 0, a, b, 0, 0, 0, 0, 0, 0, 0, 0, 0, 0]
            + [4, 8, 0, 0, 120, 0, 0, 0, 0, 0, 0, 0]
            + SetParam(q, data, n, width)
  {
    NameX();
    HeaderBytes(32, a, b);
    hide Header, DtString, SetParam, SetArgsOk;
  }

  /** set_vec("x", "F8", ..) of one double. */
  lemma SetOneDouble(cells: Bytes)
    requires |cells| == 8
    ensures RequestOf(SetCall([120], F8, cells, 1, 0)) ==
            [32, 0, 0, 0, 28, 0, 0, 0, 0, 0, 0, 0, 0, 0, 0, 0]
            + [4, 8, 0, 0, 120, 0, 0, 0, 0, 0, 0, 0]
            + [10, 16, 0, 0, 33, 8, 0, 0] + cells
  {
    HeaderWordBytes(10, 16, 0, 0);
    HeaderWordBytes(33, 8, 0, 0);
    assert SetParam(F8, cells, 1, 0) == [10, 16, 0, 0, 33, 8, 0, 0] + cells by {
      hide Le32, SetPar;
    }
    hide SetParam, SetRequest;
    SetX(F8, cells, 1, 0, 28, 0);
  }

  /** Of 32 doubles: the lengths now take a second byte. */
  lemma SetManyDoubles(cells: Bytes)
    requires |cells| == 256
    ensures RequestOf(SetCall([120], F8, cells, 32, 0)) ==
            [32, 0, 0, 0, 20, 1, 0, 0, 0, 0, 0, 0, 0, 0, 0, 0]
            + [4, 8, 0, 0, 120, 0, 0, 0, 0, 0, 0, 0]
            + [10, 8, 1, 0, 33, 0, 1, 0] + cells
  {
    HeaderWordBytes(10, 8, 1, 0);
    HeaderWordBytes(33, 0, 1, 0);
    assert SetParam(F8, cells, 32, 0) == [10, 8, 1, 0, 33, 0, 1, 0] + cells by {
      hide Le32, SetPar;
    }
    hide SetParam, SetRequest;
    SetX(F8, cells, 32, 0, 20, 1);
  }

  /** set_vec("x", "I4", ..) of one integer. */
  lemma SetOneInt(cells: Bytes)
    requires |cells| == 4
    ensures RequestOf(SetCall([120], I4, cells, 1, 0)) ==
            [32, 0, 0, 0, 24, 0, 0, 0, 0, 0, 0, 0, 0, 0, 0, 0]
            + [4, 8, 0, 0, 120, 0, 0, 0, 0, 0, 0, 0]
            + [10, 12, 0, 0, 32, 4, 0, 0] + cells
  {
    HeaderWordBytes(10, 12, 0, 0);
    HeaderWordBytes(32, 4, 0, 0);
    assert SetParam(I4, cells, 1, 0) == [10, 12, 0, 0, 32, 4, 0, 0] + cells by {
      hide Le32, SetPar;
    }
    hide SetParam, SetRequest;
    SetX(I4, cells, 1, 0, 24, 0);
  }

  /** set_vec("x", "I1", ..) of one logical: a count follows the words. */
  lemma SetOneLogical(cell: byte)
    ensures RequestOf(SetCall([120], I1, [cell], 1, 0)) ==
            [32, 0, 0, 0, 25, 0, 0, 0, 0, 0, 0, 0, 0, 0, 0, 0]
            + [4, 8, 0, 0, 120, 0, 0, 0, 0, 0, 0, 0]
            + [10, 13, 0, 0, 36, 13, 0, 0, 1, 0, 0, 0, cell]
  {
    OneLogicalParam(cell);
    hide SetParam, SetRequest;
    SetX(I1, [cell], 1, 0, 25, 0);
  }

  lemma OneLogicalParam(cell: byte)
    ensures SetParam(I1, [cell], 1, 0) == [10, 13, 0, 0, 36, 13, 0, 0, 1, 0, 0, 0, cell]
  {
    HeaderWordBytes(10, 13, 0, 0);
    HeaderWordBytes(36, 13, 0, 0);
    Le32Bytes(1, 0, 0, 0);
    hide Le32, SetPar;
  }

  /** set_vec("x", "SC", ..) of "a" and "b" in slots of two bytes: strings, NULs and four times X. */
  lemma SetTwoStrings()
    ensures Layout([[97], [98]], 2) == [97, 0, 98, 0]
    ensures Sends(SetCall([120], SC, [97, 0, 98, 0], 2, 2))
    ensures RequestOf(SetCall([120], SC, [97, 0, 98, 0], 2, 2)) ==
            [32, 0, 0, 0, 28, 0, 0, 0, 0, 0, 0, 0, 0, 0, 0, 0]
            + [4, 8, 0, 0, 120, 0, 0, 0, 0, 0, 0, 0]
            + [10, 16, 0, 0, 34, 8, 0, 0, 97, 0, 98, 0, 88, 88, 88, 88]
  {
    TwoRows();
    TwoStringsParam();
    hide SetParam, SetRequest, Layout, SetArgsOk;
    SetX(SC, [97, 0, 98, 0], 2, 2, 28, 0);
  }

  lemma TwoStringsParam()
    ensures SetParam(SC, [97, 0, 98, 0], 2, 2) == [10, 16, 0, 0, 34, 8, 0, 0, 97, 0, 98, 0, 88, 88, 88, 88]
  {
    TwoStringsBlob();
    HeaderWordBytes(10, 16, 0, 0);
    HeaderWordBytes(34, 8, 0, 0);
    hide Le32, SetPar, Blob;
  }

  lemma TwoRows()
    ensures Layout([[97], [98]], 2) == [97, 0, 98, 0]
    ensures SetArgsOk([120], SC, [97, 0, 98, 0], 2, 2)
  {
    assert [[97], [98]][1..] == [[98]];
    assert Layout([[98]], 2) == [98] + Fill(0, 1) + Layout([], 2);
    assert Layout([[97], [98]], 2) == [97] + Fill(0, 1) + Layout([[98]], 2);
    assert forall s: Bytes :: s in [[97], [98]] ==> s == [97] || s == [98];
    StringsAccepted([120], [[97], [98]], 2);
  }

  lemma TwoStringsBlob()
    ensures Blob([97, 0, 98, 0], 2, 2) == [97, 0, 98, 0, 88, 88, 88, 88]
  {
    TwoRows();
    assert forall s: Bytes :: s in [[97], [98]] ==> s == [97] || s == [98];
    SlotsOfLayout([[97], [98]], 2);
    TwoPacked();
    hide Slots, Layout, Packed;
  }

  lemma TwoPacked()
    ensures Packed([[97], [98]]) == [97, 0, 98, 0]
  {
    assert [[97], [98]][1..] == [[98]];
    assert Packed([[98]]) == [98] + [0] + Packed([]);
  }

  /** get_vec and the other lookups of "x" evaluate the name; exec_str without an output evaluates it in vain. */
  lemma LookUpX()
    ensures RequestOf(GetCall([120], F8)) ==
            [3, 0, 0, 0, 12, 0, 0, 0, 0, 0, 0, 0, 0, 0, 0, 0] + [4, 8, 0, 0, 120, 0, 0, 0, 0, 0, 0, 0]
    ensures RequestOf(ExecValueCall([120], -1)) == RequestOf(GetCall([120], F8))
    ensures RequestOf(GetCall([120], I4)) == RequestOf(GetCall([120], I1)) == RequestOf(GetCall([120], F8))
    ensures RequestOf(ScalarCall([120], F8)) == RequestOf(ScalarCall([120], I4)) == RequestOf(GetCall([120], F8))
    ensures RequestOf(NamedCall([120], 5, 3)) == RequestOf(GetBoolCall([120])) == RequestOf(GetCall([120], F8))
    ensures RequestOf(ExecCall([120])) ==
            [2, 0, 0, 0, 12, 0, 0, 0, 0, 0, 0, 0, 0, 0, 0, 0] + [4, 8, 0, 0, 120, 0, 0, 0, 0, 0, 0, 0]
  {
    NameX();
    HeaderBytes(3, 12, 0);
    HeaderBytes(2, 12, 0);
    hide Header, DtString;
  }

  /** set_bool("x", ..) evaluates "x <- TRUE " or "x <- FALSE ". */
  lemma AssignX()
    ensures RequestOf(SetBoolCall([120], true)) ==
            [3, 0, 0, 0, 20, 0, 0, 0, 0, 0, 0, 0, 0, 0, 0, 0]
            + [4, 16, 0, 0, 120, 32, 60, 45, 32, 84, 82, 85, 69, 32, 0, 0, 0, 0, 0, 0]
    ensures RequestOf(SetBoolCall([120], false)) ==
            [3, 0, 0, 0, 20, 0, 0, 0, 0, 0, 0, 0, 0, 0, 0, 0]
            + [4, 16, 0, 0, 120, 32, 60, 45, 32, 70, 65, 76, 83, 69, 32, 0, 0, 0, 0, 0]
  {
    HeaderBytes(3, 20, 0);
    AssignTexts();
    hide Header, DtString, BoolCommand;
  }

  lemma AssignTexts()
    ensures DtString(BoolCommand([120], true)) ==
            [4, 16, 0, 0, 120, 32, 60, 45, 32, 84, 82, 85, 69, 32, 0, 0, 0, 0, 0, 0]
    ensures DtString(BoolCommand([120], false)) ==
            [4, 16, 0, 0, 120, 32, 60, 45, 32, 70, 65, 76, 83, 69, 32, 0, 0, 0, 0, 0]
  {
    HeaderWordBytes(4, 16, 0, 0);
    hide Le32, SetPar;
  }

  /** get_vec_len("x") evaluates "length(x)". */
  lemma MeasureX()
    ensures RequestOf(LenCall([120])) ==
            [3, 0, 0, 0, 20, 0, 0, 0, 0, 0, 0, 0, 0, 0, 0, 0]
            + [4, 16, 0, 0, 108, 101, 110, 103, 116, 104, 40, 120, 41, 0, 0, 0, 0, 0, 0, 0]
  {
    HeaderBytes(3, 20, 0);
    HeaderWordBytes(4, 16, 0, 0);
    hide Header, Le32, SetPar;
  }

  // ---------- Replies ----------

  /** The replies without a value: one word of a response code, and fifteen or so zeros. */
  lemma EmptyReplyBytes(stat: byte)
    requires stat < 128
    ensures VOID_REPLY == [1, 0, 1, 0, 0, 0, 0, 0, 0, 0, 0, 0, 0, 0, 0, 0]
    ensures ErrorReply(stat as int) == [2, 0, 1, stat, 0, 0, 0, 0, 0, 0, 0, 0, 0, 0, 0, 0]
  {
    Le32Bytes(1, 0, 1, 0);
    Le32Bytes(2, 0, 1, stat);
    Le32Bytes(0, 0, 0, 0);
    hide Le32;
  }

  lemma OkHeaderBytes(a: byte)
    ensures Header(RESP_OK, a as int) == [1, 0, 1, 0, a, 0, 0, 0, 0, 0, 0, 0, 0, 0, 0, 0]
  {
    Le32Bytes(1, 0, 1, 0);
    Le32Bytes(a, 0, 0, 0);
    Le32Bytes(0, 0, 0, 0);
    hide Le32;
  }

  /** A reply whose lengths fit one byte: the header, the two words, the body. */
  lemma SmallReply(xt: byte, body: Bytes)
    requires |body| < 248
    ensures ValueReply(xt, body) ==
            [1, 0, 1, 0, (8 + |body|) as byte, 0, 0, 0, 0, 0, 0, 0, 0, 0, 0, 0]
            + [10, (4 + |body|) as byte, 0, 0, xt, |body| as byte, 0, 0] + body
  {
    OkHeaderBytes((8 + |body|) as byte);
    HeaderWordBytes(10, (4 + |body|) as byte, 0, 0);
    HeaderWordBytes(xt, |body| as byte, 0, 0);
    hide Header, Le32, SetPar;
  }

  /**
   The named vector c(a = 1.5, b = 3.5) as doc/Simon1.txt writes it out, behind its header; and what
   get_named_vec_F8 makes of it: the keys "a" and "b", and the sixteen bytes of the two doubles.
   */
  lemma NamedReplyBytes(e: Failure)
    ensures var doubles: Bytes := [0, 0, 0, 0, 0, 0, 0xf8, 0x3f, 0, 0, 0, 0, 0, 0, 0x0c, 0x40];
      var s: Bytes := [1, 0, 1, 0, 48, 0, 0, 0, 0, 0, 0, 0, 0, 0, 0, 0]
        + [0x0a, 0x2c, 0, 0, 0xa1, 0x28, 0, 0]
        + [0x15, 0x14, 0, 0, 0x22, 4, 0, 0, 97, 0, 98, 0, 0x13, 8, 0, 0, 110, 97, 109, 101, 115, 0, 0, 0] + doubles;
      && Reply(Named([[97], [98]], doubles)) == s
      && ParseNamed(s, e, 5, 3) == Ok(Keyed([97, 0, 98, 0], doubles), [])
  {
    var doubles: Bytes := [0, 0, 0, 0, 0, 0, 0xf8, 0x3f, 0, 0, 0, 0, 0, 0, 0x0c, 0x40];
    NamedReplyOf(doubles);
    hide *;
    NamedReplyParses(doubles, e);
  }

  lemma NamedReplyOf(cells: Bytes)
    requires |cells| == 16
    ensures Reply(Named([[97], [98]], cells)) ==
            [1, 0, 1, 0, 48, 0, 0, 0, 0, 0, 0, 0, 0, 0, 0, 0]
            + [0x0a, 0x2c, 0, 0, 0xa1, 0x28, 0, 0]
            + [0x15, 0x14, 0, 0, 0x22, 4, 0, 0, 97, 0, 98, 0, 0x13, 8, 0, 0, 110, 97, 109, 101, 115, 0, 0, 0] + cells
  {
    NamedBodyBytes(cells);
    SmallReply(0xa1, Body(Named([[97], [98]], cells)));
    hide ValueReply, Body;
  }

  lemma NamedReplyParses(cells: Bytes, e: Failure)
    requires |cells| == 16
    ensures ParseNamed(Reply(Named([[97], [98]], cells)), e, 5, 3) == Ok(Keyed([97, 0, 98, 0], cells), [])
  {
    var keys: seq<Bytes> := [[97], [98]];
    TwoKeys(cells);
    hide Body, ParseNamed, StringArray, Strings, AllNulFree, Reply;
    NamedOfReply(keys, cells, [], e, 5, 3);
    assert Reply(Named(keys, cells)) + [] == Reply(Named(keys, cells));
  }

  lemma NamedBodyBytes(cells: Bytes)
    requires |cells| == 16
    ensures Body(Named([[97], [98]], cells)) ==
            [0x15, 0x14, 0, 0, 0x22, 4, 0, 0, 97, 0, 98, 0, 0x13, 8, 0, 0, 110, 97, 109, 101, 115, 0, 0, 0] + cells
  {
    TwoKeys(cells);
    HeaderWordBytes(0x15, 0x14, 0, 0);
    HeaderWordBytes(0x22, 4, 0, 0);
    HeaderWordBytes(0x13, 8, 0, 0);
    hide Le32, SetPar, StringArray;
  }

  /** The reply for one logical: 1 is TRUE, 0 is FALSE and 2, which is NA, reads as FALSE. */
  lemma LogicalReplyBytes(cell: byte, e: Failure)
    ensures var s: Bytes := [1, 0, 1, 0, 16, 0, 0, 0, 0, 0, 0, 0, 0, 0, 0, 0]
        + [10, 12, 0, 0, 36, 8, 0, 0, 1, 0, 0, 0, cell, 255, 255, 255];
      && Reply(Lgl([cell])) == s
      && ParseBool(s, e) == Ok(cell % 2 == 1, [])
  {
    LogicalReplyOf(cell);
    LogicalReplyParses(cell, e);
    hide *;
  }

  lemma LogicalReplyOf(cell: byte)
    ensures Reply(Lgl([cell])) ==
            [1, 0, 1, 0, 16, 0, 0, 0, 0, 0, 0, 0, 0, 0, 0, 0]
            + [10, 12, 0, 0, 36, 8, 0, 0, 1, 0, 0, 0, cell, 255, 255, 255]
  {
    LogicalBodyBytes(cell);
    SmallReply(36, Body(Lgl([cell])));
    hide ValueReply, Body;
  }

  lemma LogicalReplyParses(cell: byte, e: Failure)
    ensures ParseBool(Reply(Lgl([cell])), e) == Ok(cell % 2 == 1, [])
  {
    LogicalBodyBytes(cell);
    hide Reply, Body, ParseBool;
    BoolOfReply(Lgl([cell]), [], e);
    assert Reply(Lgl([cell])) + [] == Reply(Lgl([cell]));
  }

  lemma LogicalBodyBytes(cell: byte)
    ensures Body(Lgl([cell])) == [1, 0, 0, 0, cell, 255, 255, 255]
  {
    Le32Bytes(1, 0, 0, 0);
    hide Le32;
  }

  /** The reply for the string "a": its NUL, and bytes 1 up to a multiple of four. */
  lemma StringReplyBytes()
    ensures Reply(Str([[97]])) ==
            [1, 0, 1, 0, 12, 0, 0, 0, 0, 0, 0, 0, 0, 0, 0, 0]
            + [10, 8, 0, 0, 34, 4, 0, 0, 97, 0, 1, 1]
  {
    StringBodyBytes();
    SmallReply(34, Body(Str([[97]])));
    hide ValueReply, Body;
  }

  lemma StringBodyBytes()
    ensures Body(Str([[97]])) == [97, 0, 1, 1]
  {
    assert Packed([[97]]) == [97] + [0] + Packed([]);
  }

  // ---------- The parsers, by offset ----------

  function Unsigned24(s: Bytes, i: nat): (n: nat)
    requires i + 3 <= |s|
  {
    s[i] as int + 256 * (s[i + 1] as int) + 65536 * (s[i + 2] as int)
  }

  function Signed32(s: Bytes, i: nat): int
    requires i + 4 <= |s|
  {
    Unsigned24(s, i) + 16777216 * if s[i + 3] < 128 then s[i + 3] as int else s[i + 3] as int - 256
  }

  /** A word, taken apart into its bytes. */
  lemma WordBytes(s: Bytes, i: nat)
    requires i + 4 <= |s|
    ensures AsInt(WordAt(s, i)) == Signed32(s, i)
    ensures ParType(WordAt(s, i)) == s[i] && ParLen(WordAt(s, i)) == Unsigned24(s, i + 1)
    ensures WordAt(s, i) == 0 <==> s[i] == 0 && s[i + 1] == 0 && s[i + 2] == 0 && s[i + 3] == 0
  {
    var high := Unsigned24(s, i + 1);
    assert WordAt(s, i) == 256 * high + s[i] as int;
    assert WordAt(s, i) / 256 == high && WordAt(s, i) % 256 == s[i] as int;
  }

  /** set_vec fails on every header that announces a body. */
  lemma SetOnBytes(s: Bytes, e: Failure)
    ensures ParseSet(s, e) ==
            if |s| < 16 then Err(e, [])
            else if s[4] == 0 && s[5] == 0 && s[6] == 0 && s[7] == 0 then Ok((), s[16..])
            else Err(-1, s[16..])
  {
    if |s| >= 16 {
      WordBytes(s, 4);
      WordInSlice(s, 0, 16, 4);
    }
    hide WordAt;
  }

  /** exec_str: the type of the parameter, the expected type, and then what is left of the length. */
  lemma ExecOnBytes(expected: int, s: Bytes, e: Failure)
    ensures ParseExec(false, expected, s, e) == if |s| < 16 then Err(e, []) else Ok([], s[16..])
    ensures ParseExec(true, expected, s, e) ==
            if |s| < 16 then Err(e, [])
            else if Signed32(s, 4) < 8 then Err(-1, s[16..])
            else if |s| < 24 then Err(e, [])
            else if s[16] != 10 || (expected >= 0 && s[20] as int != expected) then Err(-1, s[24..])
            else if |s| < 16 + Signed32(s, 4) then Err(e, [])
            else Ok(s[24..16 + Signed32(s, 4)], s[16 + Signed32(s, 4)..])
  {
    if |s| >= 16 {
      WordBytes(s, 4);
      WordInSlice(s, 0, 16, 4);
      if |s| >= 24 {
        WordBytes(s, 16);
        WordBytes(s, 20);
        WordInSlice(s, 16, 24, 0);
        WordInSlice(s, 16, 24, 4);
        assert s[16..][..8] == s[16..24] && s[16..][8..] == s[24..];
        var n := Signed32(s, 4);
        if 8 <= n && 16 + n <= |s| {
          assert s[24..][..n - 8] == s[24..16 + n] && s[24..][n - 8..] == s[16 + n..];
        }
      }
    }
    hide WordAt, Signed32, AsInt, ParType, ParLen;
  }

  /** set_bool reads its reply like exec_str with no type expected: a value of any type will do. */
  lemma SetBoolOnBytes(c: Call, s: Bytes, e: Failure)
    requires c.SetBoolCall? && |s| >= 24
    ensures ParseCall(c, s, e).Ok? <==> 8 <= Signed32(s, 4) <= |s| - 16 && s[16] == 10
    ensures ParseCall(c, s, e).Ok? ==> ParseCall(c, s, e).rest == s[16 + Signed32(s, 4)..]
  {
    ExecOnBytes(-1, s, e);
    hide ParseExec, Signed32;
  }

  /** The head of a vector reply: the type of the parameter, of the vector, and equal lengths. */
  lemma VecHeadOnBytes(q: Qtype, s: Bytes, e: Failure)
    requires q.F8? || q.I4? || q.I1?
    ensures ParseVecHead(q, s, e) ==
            if |s| <= 16 then Err(e, [])
            else if |s| < 24 then Err(-1, [])
            else if
              && s[16] == 10 && s[20] == (if q.F8? then 33 else if q.I4? then 32 else 36)
              && Signed32(s, 4) == 8 + Unsigned24(s, 21)
            then Ok(Unsigned24(s, 21), s[24..])
            else Err(-1, s[24..])
  {
    hide WordAt, Signed32, Unsigned24, AsInt, ParType, ParLen;
    if |s| >= 24 {
      WordBytes(s, 4);
      WordBytes(s, 16);
      WordBytes(s, 20);
      hide Take, TakeAtOnce;
      VecHeadPieces(s, e);
    }
  }

  lemma VecHeadPieces(s: Bytes, e: Failure)
    requires |s| >= 24
    ensures Take(s, 16, e) == Ok(s[..16], s[16..])
    ensures TakeAtOnce(s[16..], 8, e) == Ok(s[16..24], s[24..])
    ensures WordAt(s[..16], 4) == WordAt(s, 4)
    ensures WordAt(s[16..24], 0) == WordAt(s, 16) && WordAt(s[16..24], 4) == WordAt(s, 20)
  {
    WordInSlice(s, 0, 16, 4);
    WordInSlice(s, 16, 24, 0);
    WordInSlice(s, 16, 24, 4);
    assert s[16..][..8] == s[16..24] && s[16..][8..] == s[24..];
    hide WordAt;
  }

  /** get_vec of doubles and integers: as many whole cells as the length has room for. */
  lemma CellsOnBytes(q: Qtype, s: Bytes, e: Failure)
    requires (q.F8? || q.I4?) && ParseVecHead(q, s, e).Ok?
    ensures var n := Unsigned24(s, 21) / if q.F8? then 8 else 4;
      var end := 24 + n * if q.F8? then 8 else 4;
      ParseVec(q, s, e) == if |s| < end then Err(e, []) else Ok(Vec(n, s[24..end]), s[end..])
  {
    VecHeadOnBytes(q, s, e);
    hide ParseVecHead, Unsigned24, Signed32;
    var end := 24 + Unsigned24(s, 21) / Width(q) * Width(q);
    if |s| >= end {
      assert s[24..][..end - 24] == s[24..end] && s[24..][end - 24..] == s[end..];
    }
  }

  /** get_vec of logicals: four bytes are skipped, and the rest of the length are the cells. */
  lemma LogicalsOnBytes(s: Bytes, e: Failure)
    requires ParseVecHead(I1, s, e).Ok?
    ensures var len := Unsigned24(s, 21);
      ParseVec(I1, s, e) ==
        if |s| < 28 then Err(e, [])
        else if len < 4 then Err(-1, s[28..])
        else if |s| < 24 + len then Err(e, [])
        else Ok(Vec(len - 4, s[28..24 + len]), s[24 + len..])
  {
    VecHeadOnBytes(I1, s, e);
    hide ParseVecHead, Unsigned24, Signed32;
    var len := Unsigned24(s, 21);
    if |s| >= 28 {
      assert s[24..][4..] == s[28..];
      if 4 <= len && 24 + len <= |s| {
        assert s[28..][..len - 4] == s[28..24 + len] && s[28..][len - 4..] == s[24 + len..];
      }
    }
  }

  /** get_F8 and get_I4: exactly one cell in the length, then as much of it as one read moves. */
  lemma ScalarOnBytes(q: Qtype, s: Bytes, e: Failure, cut: nat)
    requires (q.F8? || q.I4?) && 0 < cut <= Width(q) && ParseVecHead(q, s, e).Ok?
    ensures var len, width := Unsigned24(s, 21), if q.F8? then 8 else 4;
      ParseScalar(q, s, e, cut) ==
        if len < width || len >= 2 * width then Err(-1, s[24..])
        else if |s| == 24 then Err(e, [])
        else if |s| < 24 + cut then Ok(s[24..], [])
        else Ok(s[24..24 + cut], s[24 + cut..])
  {
    VecHeadOnBytes(q, s, e);
    hide ParseVecHead, Unsigned24, Signed32;
    if |s| >= 24 + cut {
      assert s[24..][..cut] == s[24..24 + cut] && s[24..][cut..] == s[24 + cut..];
    } else {
      assert s[24..][..|s| - 24] == s[24..] && s[24..][|s| - 24..] == [];
    }
  }

  /** get_bool succeeds on one logical in eight bytes, and tells its lowest bit; everything else is -1. */
  lemma BoolOnBytes(s: Bytes, e: Failure)
    ensures var p := ParseBool(s, e);
      && (p.Ok? <==> |s| >= 32 && Signed32(s, 4) == 16 && s[16] == 10 && s[20] == 36 && s[24] == 1)
      && (p.Ok? ==> p == Ok(s[28] % 2 == 1, s[32..]))
      && (p.Err? ==> p.status == -1)
  {
    ExecOnBytes(36, s, e);
    hide ParseExec;
    if ParseExec(true, 36, s, e).Ok? && |ParseExec(true, 36, s, e).value| == 8 {
      WordInSlice(s, 24, 32, 4);
      LowBit(s, 28);
    }
    hide WordAt, Signed32;
  }

  lemma LowBit(s: Bytes, i: nat)
    requires i + 4 <= |s|
    ensures WordAt(s, i) % 2 == 1 <==> s[i] % 2 == 1
  {
  }

  /** get_vec_len succeeds on integers, at least one, and returns the first. */
  lemma LenOnBytes(s: Bytes, e: Failure)
    ensures var p := ParseLen(s, e);
      && (p.Ok? <==> |s| >= 28 && 12 <= Signed32(s, 4) <= |s| - 16 && s[16] == 10 && s[20] == 32)
      && (p.Ok? ==> p == Ok(Signed32(s, 24), s[16 + Signed32(s, 4)..]))
  {
    ExecOnBytes(32, s, e);
    hide ParseExec;
    if ParseExec(true, 32, s, e).Ok? && |ParseExec(true, 32, s, e).value| >= 4 {
      WordInSlice(s, 24, 16 + Signed32(s, 4), 0);
      WordBytes(s, 24);
    }
    hide WordAt, Signed32, AsInt;
  }

  /**
   get_named_vec_F8: the two lengths agree, the types are those of a tagged list with strings in it, and
   the strings leave room to spare in their buffer.
   */
  lemma NamedHeadOnBytes(s: Bytes, e: Failure, szBlob: nat)
    ensures ParseNamedHead(s, e, szBlob) ==
            if |s| < 16 then Err(e, [])
            else if Signed32(s, 4) == 0 then Err(-1, s[16..])
            else if |s| < 32 then Err(e, [])
            else if
              && s[16] == 10 && Signed32(s, 4) - 16 == Unsigned24(s, 17) - 12
              && s[24] == 21 && s[28] == 34 && Unsigned24(s, 29) < szBlob
            then Ok(Unsigned24(s, 29), s[32..])
            else Err(-1, s[32..])
  {
    hide WordAt, Signed32, Unsigned24, AsInt, ParType, ParLen;
    if |s| >= 16 {
      WordBytes(s, 4);
      WordInSlice(s, 0, 16, 4);
      if |s| >= 32 {
        WordBytes(s, 16);
        WordBytes(s, 24);
        WordBytes(s, 28);
        hide Take;
        NamedHeadPieces(s, e);
      }
    }
  }

  lemma NamedHeadPieces(s: Bytes, e: Failure)
    requires |s| >= 32
    ensures Take(s, 16, e) == Ok(s[..16], s[16..])
    ensures Take(s[16..], 16, e) == Ok(s[16..32], s[32..])
    ensures WordAt(s[..16], 4) == WordAt(s, 4) && WordAt(s[16..32], 0) == WordAt(s, 16)
    ensures WordAt(s[16..32], 8) == WordAt(s, 24) && WordAt(s[16..32], 12) == WordAt(s, 28)
  {
    WordInSlice(s, 0, 16, 4);
    WordInSlice(s, 16, 32, 0);
    WordInSlice(s, 16, 32, 8);
    WordInSlice(s, 16, 32, 12);
    assert s[16..][..16] == s[16..32] && s[16..][16..] == s[32..];
    hide WordAt;
  }

  /** And then the keys, twelve bytes that are skipped, and eight bytes for each NUL of the keys. */
  lemma NamedOnBytes(s: Bytes, e: Failure, szBlob: nat, szVals: nat)
    requires ParseNamedHead(s, e, szBlob).Ok?
    ensures var l := Unsigned24(s, 29);
      ParseNamed(s, e, szBlob, szVals) ==
        if |s| < 44 + l then Err(e, [])
        else
          var end := 44 + l + 8 * CountNul(s[32..32 + l]);
          if CountNul(s[32..32 + l]) >= szVals then Err(-1, s[44 + l..])
          else if |s| < end then Err(e, [])
          else Ok(Keyed(s[32..32 + l], s[44 + l..end]), s[end..])
  {
    NamedHeadOnBytes(s, e, szBlob);
    hide ParseNamedHead, Unsigned24, Signed32, CountNul;
    var l := Unsigned24(s, 29);
    if |s| >= 44 + l {
      assert s[32..][..l] == s[32..32 + l] && s[32..][l..][12..] == s[44 + l..];
      var end := 44 + l + 8 * CountNul(s[32..32 + l]);
      if |s| >= end {
        assert s[44 + l..][..end - 44 - l] == s[44 + l..end] && s[44 + l..][end - 44 - l..] == s[end..];
      }
    }
  }
}
