/** The request of set_vec: packing of string vectors, the header words, and what a server decodes. */
module SetRequests {
  import opened Wire
  import opened StringVectors
  import opened Qap
  import opened RServer
  import opened Replies

  // ---------- Fixed-width strings ----------

  /** Where slot `i` of `n` starts; the whole slot lies inside the data. */
  function SlotStart(i: nat, n: nat, width: nat): (off: nat)
    requires i < n
    ensures off + width <= n * width
  {
    MulStep(i, n, width);
    i * width
  }

  lemma MulStep(i: nat, n: nat, width: nat)
    requires i < n
    ensures i * width + width <= n * width
  {
    assert (n - i - 1) * width >= 0;
    assert n * width == i * width + width + (n - i - 1) * width;
  }

  function SlotLen(data: Bytes, n: nat, width: nat, i: nat): (len: nat)
    requires |data| == n * width && i < n
  {
    Strlen(data, SlotStart(i, n, width))
  }

  function Slot(data: Bytes, n: nat, width: nat, i: nat): (s: Bytes)
    requires |data| == n * width && i < n
    ensures NulFree(s) && |s| == SlotLen(data, n, width, i)
  {
    var off := SlotStart(i, n, width);
    var s := data[off..off + Strlen(data, off)];
    assert forall k :: 0 <= k < |s| ==> s[k] == data[off + k];
    s
  }

  /** Every string among the first `k` ends inside its slot. */
  predicate SlotsEnd(data: Bytes, n: nat, width: nat, k: nat)
    requires |data| == n * width && k <= n
  {
    forall i :: 0 <= i < k ==> SlotLen(data, n, width, i) < width
  }

  function Slots(data: Bytes, n: nat, width: nat, k: nat): (strs: seq<Bytes>)
    requires |data| == n * width && k <= n
    ensures |strs| == k && AllNulFree(strs)
  {
    seq(k, i requires 0 <= i < k => Slot(data, n, width, i))
  }

  lemma SlotsGrow(data: Bytes, n: nat, width: nat, k: nat)
    requires |data| == n * width && k < n
    ensures Packed(Slots(data, n, width, k + 1))
         == Packed(Slots(data, n, width, k)) + Slot(data, n, width, k) + [0]
  {
    assert Slots(data, n, width, k + 1) == Slots(data, n, width, k) + [Slot(data, n, width, k)];
    PackedSnoc(Slots(data, n, width, k), Slot(data, n, width, k));
  }

  /** Packing never needs more room than the slots take. */
  lemma {:induction false} PackedFits(data: Bytes, n: nat, width: nat, k: nat)
    requires |data| == n * width && k <= n && SlotsEnd(data, n, width, k)
    ensures |Packed(Slots(data, n, width, k))| <= k * width
  {
    if k > 0 {
      PackedFits(data, n, width, k - 1);
      SlotsGrow(data, n, width, k - 1);
      assert SlotLen(data, n, width, k - 1) < width;
      MulStep(k - 1, k, width);
    }
  }

  lemma {:induction false} PackedGrows(data: Bytes, n: nat, width: nat, j: nat, k: nat)
    requires |data| == n * width && j <= k <= n
    ensures |Packed(Slots(data, n, width, j))| <= |Packed(Slots(data, n, width, k))|
    decreases k - j
  {
    if j < k {
      SlotsGrow(data, n, width, j);
      PackedGrows(data, n, width, j + 1, k);
    }
  }

  /** Strings at fixed width: one row each, the string and NULs up to the width. */
  function Layout(strs: seq<Bytes>, width: nat): (b: Bytes)
    requires forall s :: s in strs ==> |s| <= width
    ensures |b| == |strs| * width
  {
    if strs == [] then [] else (strs[0] + Fill(0, width - |strs[0]|)) + Layout(strs[1..], width)
  }

  /** Row `i` stands at `i` times the width, counted from the front. */
  lemma {:induction false} LayoutRow(strs: seq<Bytes>, width: nat, i: nat)
    requires forall s :: s in strs ==> |s| <= width
    requires i < |strs|
    ensures 0 <= i * width <= i * width + width <= |strs| * width
    ensures Layout(strs, width)[i * width..i * width + width] == strs[i] + Fill(0, width - |strs[i]|)
  {
    MulStep(i, |strs|, width);
    var row := strs[0] + Fill(0, width - |strs[0]|);
    var rest := Layout(strs[1..], width);
    if i > 0 {
      LayoutRow(strs[1..], width, i - 1);
      assert (i - 1) * width + width == i * width;
      hide Layout;
      RowBehind(row, rest, (i - 1) * width, width);
    }
  }

  lemma RowBehind(row: Bytes, rest: Bytes, at: nat, width: nat)
    requires |row| == width && at + width <= |rest|
    ensures (row + rest)[width + at..width + at + width] == rest[at..at + width]
  {
  }

  /** A string and its NULs, found in place. */
  lemma StrlenOfRow(data: Bytes, off: nat, width: nat, s: Bytes)
    requires NulFree(s) && |s| < width && off + width <= |data|
    requires data[off..off + width] == s + Fill(0, width - |s|)
    ensures Strlen(data, off) == |s| && data[off..off + |s|] == s
  {
    var row := data[off..off + width];
    assert forall k :: 0 <= k < width ==> row[k] == data[off + k];
    forall k | off <= k < off + |s|
      ensures data[k] != 0
    {
      assert row[k - off] == s[k - off];
    }
    assert data[off + |s|] == row[|s|] == 0;
    StrlenUnique(data, off, |s|);
    assert data[off..off + |s|] == row[..|s|] == s;
  }

  /** Strings laid out at fixed width are found again, each in its place and in their order. */
  lemma SlotsOfLayout(strs: seq<Bytes>, width: nat)
    requires forall s: Bytes :: s in strs ==> 0 !in s && |s| < width
    ensures SlotsEnd(Layout(strs, width), |strs|, width, |strs|)
    ensures Slots(Layout(strs, width), |strs|, width, |strs|) == strs
  {
    hide Layout, SlotLen, Slot;
    var data, n := Layout(strs, width), |strs|;
    forall i | 0 <= i < n
      ensures SlotLen(data, n, width, i) < width && Slot(data, n, width, i) == strs[i]
    {
      SlotOfLayout(strs, width, i);
    }
  }

  lemma SlotOfLayout(strs: seq<Bytes>, width: nat, i: nat)
    requires (forall s: Bytes :: s in strs ==> 0 !in s && |s| < width) && i < |strs|
    ensures SlotLen(Layout(strs, width), |strs|, width, i) < width
    ensures Slot(Layout(strs, width), |strs|, width, i) == strs[i]
  {
    hide Layout, Strlen;
    assert strs[i] in strs;
    LayoutRow(strs, width, i);
    StrlenOfRow(Layout(strs, width), i * width, width, strs[i]);
  }

  /** A string ends inside its slot exactly when one of the bytes of the slot is a NUL. */
  lemma SlotEndsIffNul(data: Bytes, n: nat, width: nat, i: nat)
    requires |data| == n * width && i < n
    ensures 0 <= i * width <= i * width + width <= |data|
    ensures SlotLen(data, n, width, i) < width <==> 0 in data[i * width..i * width + width]
  {
    MulStep(i, n, width);
    var off := i * width;
    var slot, len := data[off..off + width], Strlen(data, off);
    assert forall k :: 0 <= k < width ==> slot[k] == data[off + k];
    if len < width {
      assert slot[len] == 0;
    }
  }

  const X: byte := 88

  /** The blob: the strings with their NULs, then X up to the next multiple of eight. */
  function Blob(data: Bytes, n: nat, width: nat): (b: Bytes)
    requires |data| == n * width
    ensures |b| % 8 == 0
  {
    var packed := Packed(Slots(data, n, width, n));
    packed + Fill(X, RoundUp8(|packed|) - |packed|)
  }

  /**
   Two passes over the slots: the first measures, and refuses a string that does not end inside its
   slot; the second fills a buffer of the measured size, rounded up, and X covers what is left of it.
   */
  method PackStrings(data: Bytes, n: nat, width: nat) returns (status: int, alt: array?<byte>)
    requires |data| == n * width
    ensures status == 0 <==> SlotsEnd(data, n, width, n)
    ensures status != 0 ==> status == -1 && alt == null
    ensures status == 0 ==> alt != null && fresh(alt) && alt[..] == Blob(data, n, width)
    ensures forall strs {:trigger Layout(strs, width)} ::
      |strs| == n && (forall s: Bytes :: s in strs ==> 0 !in s && |s| < width) && Layout(strs, width) == data ==>
        status == 0 && Strings(alt[..]) == strs
  {
    BlobRoundTrip(data, n, width);
    forall strs {:trigger Layout(strs, width)} |
      |strs| == n && (forall s: Bytes :: s in strs ==> 0 !in s && |s| < width) && Layout(strs, width) == data
      ensures SlotsEnd(data, n, width, n) && Slots(data, n, width, n) == strs
    {
      SlotsOfLayout(strs, width);
    }
    hide Slots, Packed, SlotsEnd, Strings, Layout;
    var cumLen;
    status, cumLen := MeasureStrings(data, n, width);
    if status < 0 {
      return status, null;
    }
    alt := new byte[cumLen](_ => 0);
    var idx := FillStrings(data, n, width, alt);
    PadTail(alt, idx);
  }

  /** The measuring pass: the room of the strings with their NULs, rounded up to a multiple of eight. */
  method MeasureStrings(data: Bytes, n: nat, width: nat) returns (status: int, cumLen: nat)
    requires |data| == n * width
    ensures status == 0 <==> SlotsEnd(data, n, width, n)
    ensures status == 0 || status == -1
    ensures status == 0 ==> cumLen == RoundUp8(|Packed(Slots(data, n, width, n))|)
  {
    hide Slots, Packed, SlotStart;
    cumLen := 0;
    var i := 0;
    EmptyPack(data, n, width);
    while i < n
      invariant 0 <= i <= n
      invariant SlotsEnd(data, n, width, i)
      invariant cumLen == |Packed(Slots(data, n, width, i))|
    {
      var len := SlotLen(data, n, width, i);
      if len >= width {
        return -1, cumLen;
      }
      SlotsGrow(data, n, width, i);
      cumLen := cumLen + len;
      cumLen := cumLen + 1;
      i := i + 1;
    }
    var uitmp := cumLen / 8;
    if uitmp * 8 != cumLen {
      cumLen := (uitmp + 1) * 8;
    }
    status := 0;
  }

  lemma EmptyPack(data: Bytes, n: nat, width: nat)
    requires |data| == n * width
    ensures Packed(Slots(data, n, width, 0)) == []
  {
  }

  /** The fill pass writes the strings and their NULs, and ends at the sum of the first pass. */
  method FillStrings(data: Bytes, n: nat, width: nat, alt: array<byte>) returns (idx: nat)
    requires |data| == n * width
    requires |Packed(Slots(data, n, width, n))| <= alt.Length
    requires forall k :: 0 <= k < alt.Length ==> alt[k] == 0
    modifies alt
    ensures idx == |Packed(Slots(data, n, width, n))|
    ensures alt[..idx] == Packed(Slots(data, n, width, n))
  {
    hide Slots, Packed, SlotStart;
    idx := 0;
    var i := 0;
    assert alt[..idx] == Packed(Slots(data, n, width, 0)) by {
      EmptyPack(data, n, width);
    }
    while i < n
      invariant 0 <= i <= n
      invariant idx == |Packed(Slots(data, n, width, i))| <= alt.Length
      invariant alt[..idx] == Packed(Slots(data, n, width, i))
      invariant forall k :: idx <= k < alt.Length ==> alt[k] == 0
    {
      var s := Slot(data, n, width, i);
      SlotsGrow(data, n, width, i);
      PackedGrows(data, n, width, i + 1, n);
      CopyString(s, alt, idx);
      idx := idx + |s|;
      idx := idx + 1;
      i := i + 1;
    }
  }

  /** memcpy of one string into the zeroed part of the buffer; the byte behind it stays NUL. */
  method CopyString(s: Bytes, alt: array<byte>, idx: nat)
    requires idx + |s| < alt.Length
    requires forall k :: idx <= k < alt.Length ==> alt[k] == 0
    modifies alt
    ensures alt[..idx + |s| + 1] == old(alt[..idx]) + s + [0]
    ensures forall k :: idx + |s| <= k < alt.Length ==> alt[k] == 0
  {
    forall k | 0 <= k < |s| {
      alt[idx + k] := s[k];
    }
  }

  /** X covers exactly what the strings left over. */
  method PadTail(alt: array<byte>, idx: nat)
    requires idx <= alt.Length
    modifies alt
    ensures alt[..] == old(alt[..idx]) + Fill(X, alt.Length - idx)
  {
    var i := idx;
    while i < alt.Length
      invariant idx <= i <= alt.Length
      invariant alt[..idx] == old(alt[..idx])
      invariant forall k :: idx <= k < i ==> alt[k] == X
    {
      alt[i] := X;
      i := i + 1;
    }
    assert alt[idx..] == Fill(X, alt.Length - idx);
    assert alt[..] == alt[..idx] + alt[idx..];
  }

  // ---------- The request ----------

  /** Bytes of a string vector count from its slots; the other types have their own width. */
  function CellBytes(q: Qtype, width: nat): nat {
    if q.SC? then width else Width(q)
  }

  predicate SetArgsOk(name: Bytes, q: Qtype, data: Bytes, n: nat, width: nat)
    requires |data| == n * CellBytes(q, width)
  {
    name != [] && !q.OtherQtype? && n > 0 && (q.SC? ==> width > 0 && SlotsEnd(data, n, width, n))
  }

  /** The three types of fixed width ask for a name and for at least one element, and no more than that. */
  lemma CellsAccepted(name: Bytes, q: Qtype, data: Bytes, n: nat, width: nat)
    requires |data| == n * CellBytes(q, width) && (q.F8? || q.I4? || q.I1?)
    ensures SetArgsOk(name, q, data, n, width) <==> |name| > 0 && |data| > 0
    ensures |data| == n * if q.F8? then 8 else if q.I4? then 4 else 1
  {
    if n > 0 {
      assert n * CellBytes(q, width) >= CellBytes(q, width);
    }
  }

  /** Strings are accepted if each ends inside its slot: those laid out at a width larger than each of them. */
  lemma StringsAccepted(name: Bytes, strs: seq<Bytes>, width: nat)
    requires |name| > 0 && |strs| > 0
    requires forall s: Bytes :: s in strs ==> 0 !in s && |s| < width
    ensures SetArgsOk(name, SC, Layout(strs, width), |strs|, width)
  {
    SlotsOfLayout(strs, width);
    assert strs[0] in strs;
    hide Layout, SlotsEnd;
  }

  function SetBody(q: Qtype, data: Bytes, n: nat, width: nat): (b: Bytes)
    requires |data| == n * CellBytes(q, width)
  {
    if q.SC? then Blob(data, n, width) else data
  }

  function HeadLen(q: Qtype): nat {
    if q.I1? then 12 else 8
  }

  /** The words before the body: the outer one, the inner one, and the count of logicals. */
  function SetHead(q: Qtype, n: nat, bodyLen: nat): (h: Bytes)
    requires n < WORD_LIMIT
    ensures |h| == HeadLen(q)
  {
    var len := HeadLen(q) + bodyLen;
    if q.I1? then
      Le32(SetPar(DT_SEXP, len)) + Le32(SetPar(XtOf(q), len)) + Le32(n)
    else
      Le32(SetPar(DT_SEXP, len)) + Le32(SetPar(XtOf(q), bodyLen))
  }

  function SetParam(q: Qtype, data: Bytes, n: nat, width: nat): (p: Bytes)
    requires n < WORD_LIMIT && |data| == n * CellBytes(q, width)
  {
    var body := SetBody(q, data, n, width);
    SetHead(q, n, |body|) + body
  }

  lemma BlobSize(data: Bytes, n: nat, width: nat)
    requires |data| == n * width && SlotsEnd(data, n, width, n)
    ensures |Blob(data, n, width)| < |data| + 8
  {
    PackedFits(data, n, width, n);
  }

  function SetPayload(name: CString, q: Qtype, data: Bytes, n: nat, width: nat): (p: Bytes)
    requires |data| == n * CellBytes(q, width) < OBJECT_LIMIT && n < WORD_LIMIT
  {
    DtString(name) + SetParam(q, data, n, width)
  }

  function SetRequest(name: CString, q: Qtype, data: Bytes, n: nat, width: nat): (r: Bytes)
    requires |data| == n * CellBytes(q, width) < OBJECT_LIMIT && n < WORD_LIMIT
    requires SetArgsOk(name, q, data, n, width)
  {
    SetSize(name, q, data, n, width);
    Request(CMD_SET_SEXP, SetPayload(name, q, data, n, width))
  }

  lemma SetSize(name: CString, q: Qtype, data: Bytes, n: nat, width: nat)
    requires |data| == n * CellBytes(q, width) < OBJECT_LIMIT && n < WORD_LIMIT
    requires SetArgsOk(name, q, data, n, width)
    ensures |SetPayload(name, q, data, n, width)| + 16 < BODY_LIMIT
  {
    hide DtString, SetHead, Blob, SlotsEnd;
    var body := SetBody(q, data, n, width);
    if q.SC? {
      BlobSize(data, n, width);
    }
    assert |body| < |data| + 8;
    assert |SetHead(q, n, |body|)| <= 12;
  }

  // ---------- What the server makes of it ----------

  /** The value that set_vec is asked to store. */
  function SetValue(q: Qtype, data: Bytes, n: nat, width: nat): (v: Value)
    requires |data| == n * CellBytes(q, width)
  {
    match q
    case F8 => Dbl(data)
    case I4 => Int(data)
    case I1 => Lgl(data)
    case SC => Str(Slots(data, n, width, n))
    case OtherQtype => Str([])
  }

  /** The limits within which the server stores what it was sent. */
  predicate Accepted(name: CString, q: Qtype, data: Bytes, n: nat, width: nat)
    requires |data| == n * CellBytes(q, width)
  {
    StringRoom(name) < LEN_LIMIT && (q.I1? || |SetBody(q, data, n, width)| < LEN_LIMIT)
  }

  /** A string parameter gives its string back exactly while its room is below 2^24. */
  lemma StringParamRoundTrip(name: CString, rest: Bytes)
    ensures DecodeString(DtString(name) + rest) ==
            if StringRoom(name) < LEN_LIMIT then Some((name, rest)) else None
  {
    var room := StringRoom(name);
    var kept := room % LEN_LIMIT;
    var par := name + Fill(0, room - |name|);
    var p := DtString(name) + rest;
    StringParamParts(name, rest);
    HeaderWordRoundTrip(DT_STRING, room);
    hide Le32, SetPar, ParType, ParLen, DtString;
    assert p[4..4 + kept] == par[..kept];
    if room < LEN_LIMIT {
      assert par[..kept] == par && p[4 + room..] == rest;
      StrlenUnique(par, 0, |name|);
      assert p[4..4 + |name|] == par[..|name|] == name;
    } else {
      assert forall i :: 0 <= i < kept ==> par[..kept][i] == name[i];
    }
  }

  lemma StringParamParts(name: CString, rest: Bytes)
    ensures var p := DtString(name) + rest;
      && |p| == 4 + StringRoom(name) + |rest|
      && WordAt(p, 0) == SetPar(DT_STRING, StringRoom(name))
      && p[4..] == name + Fill(0, StringRoom(name) - |name|) + rest
  {
    hide SetPar, Le32;
    var w := SetPar(DT_STRING, StringRoom(name));
    var par := name + Fill(0, StringRoom(name) - |name|);
    assert DtString(name) + rest == [] + Le32(w) + (par + rest);
    WordRoundTrip([], w, par + rest);
  }

  /** The words of the expression parameter and the bytes behind them. */
  lemma SetParamParts(q: Qtype, n: nat, body: Bytes)
    requires n < WORD_LIMIT
    ensures var p := SetHead(q, n, |body|) + body;
      && |p| == HeadLen(q) + |body|
      && WordAt(p, 0) == SetPar(DT_SEXP, |p|)
      && WordAt(p, 4) == SetPar(XtOf(q), if q.I1? then |p| else |body|)
      && p[8..] == (if q.I1? then Le32(n) else []) + body
  {
    hide SetPar, Le32;
    var len := HeadLen(q) + |body|;
    var a, b := SetPar(DT_SEXP, len), SetPar(XtOf(q), if q.I1? then len else |body|);
    var rest := (if q.I1? then Le32(n) else []) + body;
    TwoWords([], a, b, rest);
    assert SetHead(q, n, |body|) + body == [] + (Le32(a) + Le32(b) + rest);
  }

  /**
   The two words of the parameter announce more than follows them: the outer one four bytes too many,
   for every type; the inner one eight too many for logicals and none for the others.
   */
  lemma HeaderWordsOverdeclare(q: Qtype, data: Bytes, n: nat, width: nat)
    requires n < WORD_LIMIT && |data| == n * CellBytes(q, width)
    ensures var p := SetParam(q, data, n, width);
      && ParLen(WordAt(p, 0)) == (|p[4..]| + 4) % LEN_LIMIT
      && ParLen(WordAt(p, 4)) == (|p[8..]| + if q.I1? then 8 else 0) % LEN_LIMIT
  {
    SetParamParts(q, n, SetBody(q, data, n, width));
    var p := SetParam(q, data, n, width);
    HeaderWordRoundTrip(DT_SEXP, |p|);
    HeaderWordRoundTrip(XtOf(q), if q.I1? then |p| else |SetBody(q, data, n, width)|);
  }

  /** Where the words of doubles and integers first fail to hold their lengths. */
  lemma HeaderWordThresholds(q: Qtype, data: Bytes, n: nat, width: nat)
    requires q.F8? || q.I4?
    requires n < WORD_LIMIT && |data| == n * CellBytes(q, width)
    ensures ParLen(WordAt(SetParam(q, data, n, width), 0)) == |SetParam(q, data, n, width)|
       <==> n < if q.F8? then 2097151 else 4194302
    ensures ParLen(WordAt(SetParam(q, data, n, width), 4)) == |data|
       <==> n < if q.F8? then 2097152 else 4194304
  {
    SetParamParts(q, n, data);
    HeaderWordRoundTrip(DT_SEXP, 8 + |data|);
    HeaderWordRoundTrip(XtOf(q), |data|);
    hide SetHead, SetPar, ParLen, WordAt;
    if q.F8? {
      assert |data| == 8 * n;
    } else {
      assert |data| == 4 * n;
    }
  }

  /** What the decoding of a set_vec body gives, whatever its size: a wrapped length cuts the body short. */
  function Decoded(q: Qtype, body: Bytes): Value {
    var kept := body[..|body| % LEN_LIMIT];
    match q
    case F8 => Dbl(kept)
    case I4 => Int(kept)
    case I1 => Lgl(body)
    case _ => Str(Strings(kept))
  }

  lemma DecodeSetParam(q: Qtype, data: Bytes, n: nat, width: nat)
    requires n < WORD_LIMIT && |data| == n * CellBytes(q, width) && !q.OtherQtype?
    ensures DecodeSexp(SetParam(q, data, n, width)) == Some(Decoded(q, SetBody(q, data, n, width)))
  {
    DecodeHeadAndBody(q, SetBody(q, data, n, width), n);
    hide DecodeSexp, SetHead, Decoded, Blob;
  }

  lemma DecodeHeadAndBody(q: Qtype, body: Bytes, n: nat)
    requires n < WORD_LIMIT && !q.OtherQtype?
    requires !q.SC? ==> |body| == n * Width(q)
    ensures DecodeSexp(SetHead(q, n, |body|) + body) == Some(Decoded(q, body))
  {
    var announced := if q.I1? then HeadLen(q) + |body| else |body|;
    SetParamParts(q, n, body);
    HeaderWordRoundTrip(DT_SEXP, HeadLen(q) + |body|);
    HeaderWordRoundTrip(XtOf(q), announced);
    DecodeBody(q, body, n);
    hide SetHead, SetPar, ParType, ParLen, WordAt, Le32, Decoded, DecodeArray, Width, XtOf;
    assert [] + body == body;
  }

  lemma DecodeBody(q: Qtype, body: Bytes, n: nat)
    requires n < WORD_LIMIT && !q.OtherQtype?
    requires !q.SC? ==> |body| == n * Width(q)
    ensures q.I1? ==> DecodeArray(XtOf(q), (12 + |body|) % LEN_LIMIT, Le32(n) + body) == Some(Decoded(q, body))
    ensures !q.I1? ==> DecodeArray(XtOf(q), |body| % LEN_LIMIT, body) == Some(Decoded(q, body))
  {
    hide Strings, Le32, WordAt;
    if q.I1? {
      WordRoundTrip([], n, body);
      assert [] + Le32(n) + body == Le32(n) + body;
      assert (Le32(n) + body)[4..4 + n] == body;
    } else if q.F8? {
      assert |body| % LEN_LIMIT == 8 * (n - |body| / LEN_LIMIT * 2097152);
    } else if q.I4? {
      assert |body| % LEN_LIMIT == 4 * (n - |body| / LEN_LIMIT * 4194304);
    }
  }

  /** The strings of the slots, empty ones included, are what counting and walking recover from the blob. */
  lemma BlobRoundTrip(data: Bytes, n: nat, width: nat)
    requires |data| == n * width
    ensures CountNul(Blob(data, n, width)) == n
    ensures Strings(Blob(data, n, width)) == Slots(data, n, width, n)
  {
    var strs := Slots(data, n, width, n);
    var pad := Fill(X, RoundUp8(|Packed(strs)|) - |Packed(strs)|);
    hide Slots, Packed, Strings, CountNul;
    StringsOfPacked(strs, pad);
    CountNulPacked(strs, pad);
  }

  /** Any cut of a blob before its last string ends loses strings. */
  lemma CutBlobLosesStrings(data: Bytes, n: nat, width: nat, k: nat)
    requires |data| == n * width && n > 0
    requires k + 8 <= |Blob(data, n, width)|
    ensures |Strings(Blob(data, n, width)[..k])| < n
  {
    var strs := Slots(data, n, width, n);
    var blob := Blob(data, n, width);
    var packed := Packed(strs);
    CountNulPacked(strs, Fill(X, |blob| - |packed|));
    hide Slots;
    assert strs == strs[..n - 1] + [strs[n - 1]];
    PackedSnoc(strs[..n - 1], strs[n - 1]);
    hide Packed, Blob;
    assert blob == blob[..k] + blob[k..];
    CountNulConcat(blob[..k], blob[k..]);
    NulInside(blob[k..], |packed| - 1 - k);
  }

  lemma {:induction false} NulInside(b: Bytes, i: nat)
    requires i < |b| && b[i] == 0
    ensures CountNul(b) > 0
  {
    if i > 0 {
      NulInside(b[1..], i - 1);
    }
  }

  predicate Recovered(name: CString, q: Qtype, data: Bytes, n: nat, width: nat)
    requires |data| == n * CellBytes(q, width) < OBJECT_LIMIT && n < WORD_LIMIT
  {
    var param := SetParam(q, data, n, width);
    && DecodeString(SetPayload(name, q, data, n, width)) == Some((name, param))
    && DecodeSexp(param) == Some(SetValue(q, data, n, width))
  }

  /** The server recovers the name and the value of a request exactly when the request is within the limits. */
  lemma SetRoundTrip(name: CString, q: Qtype, data: Bytes, n: nat, width: nat)
    requires |data| == n * CellBytes(q, width) < OBJECT_LIMIT && n < WORD_LIMIT
    requires SetArgsOk(name, q, data, n, width)
    ensures Recovered(name, q, data, n, width) <==> Accepted(name, q, data, n, width)
  {
    StringParamRoundTrip(name, SetParam(q, data, n, width));
    DecodeSetParam(q, data, n, width);
    BodyRecovered(q, data, n, width);
    hide DecodeSexp, DecodeString, DtString, SetParam, Decoded, SetBody, SetValue;
  }

  lemma BodyRecovered(q: Qtype, data: Bytes, n: nat, width: nat)
    requires |data| == n * CellBytes(q, width) && n > 0 && !q.OtherQtype?
    ensures Decoded(q, SetBody(q, data, n, width)) == SetValue(q, data, n, width)
       <==> q.I1? || |SetBody(q, data, n, width)| < LEN_LIMIT
  {
    hide Strings, Slots, Packed, SlotsEnd;
    var body := SetBody(q, data, n, width);
    if |body| < LEN_LIMIT {
      assert body[..|body| % LEN_LIMIT] == body;
      if q.SC? {
        BlobRoundTrip(data, n, width);
      }
    } else if q.SC? {
      CutBlobLosesStrings(data, n, width, |body| % LEN_LIMIT);
    }
  }

  /**
   The answer to a request of set_vec, for every size of name and body. Under a name that fits, the
   server stores what it decodes, cut short if the length wrapped; under one that does not, it refuses
   and keeps its map.
   */
  lemma SetHandled(name: CString, q: Qtype, data: Bytes, n: nat, width: nat, store: Store)
    requires |data| == n * CellBytes(q, width) < OBJECT_LIMIT && n < WORD_LIMIT
    requires SetArgsOk(name, q, data, n, width)
    ensures Handle(CMD_SET_SEXP, SetPayload(name, q, data, n, width), store) ==
            if StringRoom(name) < LEN_LIMIT then (store[name := Decoded(q, SetBody(q, data, n, width))], VOID_REPLY)
            else (store, ErrorReply(ERR_INV_PAR))
  {
    StringParamRoundTrip(name, SetParam(q, data, n, width));
    DecodeSetParam(q, data, n, width);
    hide DecodeSexp, DecodeString, DtString, SetParam, Decoded, SetBody, VOID_REPLY, ErrorReply, StringRoom;
  }

  predicate Holds(store: Store, name: Bytes, v: Value) {
    name in store && store[name] == v
  }

  /** After that request the server has the value exactly if it was accepted, or refused and there before. */
  lemma StoredIffAccepted(name: CString, q: Qtype, data: Bytes, n: nat, width: nat, store: Store)
    requires |data| == n * CellBytes(q, width) < OBJECT_LIMIT && n < WORD_LIMIT
    requires SetArgsOk(name, q, data, n, width)
    ensures var v := SetValue(q, data, n, width);
      Holds(Handle(CMD_SET_SEXP, SetPayload(name, q, data, n, width), store).0, name, v)
      <==> Accepted(name, q, data, n, width) || (StringRoom(name) >= LEN_LIMIT && Holds(store, name, v))
  {
    SetHandled(name, q, data, n, width, store);
    BodyRecovered(q, data, n, width);
    hide Handle, SetPayload, Decoded, SetBody, SetValue, StringRoom;
  }
}
