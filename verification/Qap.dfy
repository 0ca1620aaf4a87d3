/**
 QAP1 messages: the constants, the requests the client sends and the S-expressions a server answers
 with. Bodies longer than 24 bits would need XT_LARGE, which the client rejects; here the length
 simply keeps its low 24 bits, as SET_PAR does.
 */
module Qap {
  import opened Wire
  import opened StringVectors

  const HDR_LEN: nat := 16

  /** No body of a reply reaches one and a half gibibytes. */
  const BODY_LIMIT: nat := 0x6000_0000

  const CMD_VOID_EVAL: nat := 0x002
  const CMD_EVAL: nat := 0x003
  const CMD_SHUTDOWN: nat := 0x004
  const CMD_SET_SEXP: nat := 0x020

  const RESP_OK: nat := 0x10001
  const RESP_ERR: nat := 0x10002
  const ERR_INV_CMD: nat := 0x43
  const ERR_INV_PAR: nat := 0x44
  const ERR_R_ERROR: nat := 0x45

  const DT_STRING: byte := 4
  const DT_SEXP: byte := 10

  const XT_SYMNAME: byte := 19
  const XT_LIST_TAG: byte := 21
  const XT_ARRAY_INT: byte := 32
  const XT_ARRAY_DOUBLE: byte := 33
  const XT_ARRAY_STR: byte := 34
  const XT_ARRAY_BOOL: byte := 36
  const XT_HAS_ATTR: byte := 128

  /** A NUL-terminated C string, without its NUL. */
  type CString = s: Bytes | NulFree(s) && |s| < OBJECT_LIMIT witness []

  /** A message header: command, length of what follows, and two words that stay zero. */
  function Header(cmd: nat, len: nat): (h: Bytes)
    requires cmd < WORD_LIMIT && len < WORD_LIMIT
    ensures |h| == HDR_LEN
  {
    Le32(cmd) + Le32(len) + Le32(0) + Le32(0)
  }

  lemma HeaderWords(cmd: nat, len: nat, more: Bytes)
    requires cmd < WORD_LIMIT && len < WORD_LIMIT
    ensures WordAt(Header(cmd, len) + more, 0) == cmd
    ensures WordAt(Header(cmd, len) + more, 4) == len
  {
    WordRoundTrip([], cmd, Le32(len) + Le32(0) + Le32(0) + more);
    WordRoundTrip(Le32(cmd), len, Le32(0) + Le32(0) + more);
    assert Header(cmd, len) + more == [] + Le32(cmd) + (Le32(len) + Le32(0) + Le32(0) + more);
    assert Header(cmd, len) + more == Le32(cmd) + Le32(len) + (Le32(0) + Le32(0) + more);
  }

  // ---------- String parameters ----------

  /** The room a string of `n` bytes, NUL included, gets. */
  function RoundUp8(n: nat): (m: nat)
    ensures n <= m < n + 8 && m % 8 == 0
    ensures forall k: nat :: n <= k && k % 8 == 0 ==> m <= k
  {
    (n + 7) / 8 * 8
  }

  function StringRoom(name: CString): (m: nat)
    ensures |name| < m <= |name| + 8 && m % 8 == 0
  {
    RoundUp8(|name| + 1)
  }

  function DtString(name: CString): (b: Bytes)
    ensures |b| == 4 + StringRoom(name)
  {
    Le32(SetPar(DT_STRING, StringRoom(name))) + name + Fill(0, StringRoom(name) - |name|)
  }

  // ---------- Requests ----------

  datatype Qtype = F8 | I4 | I1 | SC | OtherQtype

  function Request(cmd: nat, payload: Bytes): (r: Bytes)
    requires cmd < WORD_LIMIT && |payload| < WORD_LIMIT
    ensures |r| == HDR_LEN + |payload|
  {
    Header(cmd, |payload|) + payload
  }

  function EvalRequest(cmd: nat, text: CString): (r: Bytes)
    requires cmd < WORD_LIMIT
  {
    Request(cmd, DtString(text))
  }

  // ---------- Values and their encoding ----------

  /** What a variable of the server can hold; the cells are opaque machine words or bytes. */
  datatype Value =
    | Dbl(cells: Bytes)
    | Int(cells: Bytes)
    | Lgl(cells: Bytes)
    | Str(strs: seq<Bytes>)
    | Named(keys: seq<Bytes>, cells: Bytes)

  function CellWidth(v: Value): (w: nat)
    ensures w > 0
  {
    match v
    case Dbl(_) => 8
    case Int(_) => 4
    case Lgl(_) => 1
    case Str(_) => 1
    case Named(_, _) => 8
  }

  predicate ValidValue(v: Value) {
    match v
    case Dbl(cells) => |cells| % 8 == 0
    case Int(cells) => |cells| % 4 == 0
    case Lgl(cells) => |cells| < WORD_LIMIT
    case Str(strs) => AllNulFree(strs)
    case Named(keys, cells) => AllNulFree(keys) && |cells| == 8 * |keys|
  }

  function Length(v: Value): nat {
    match v
    case Str(strs) => |strs|
    case _ => |v.cells| / CellWidth(v)
  }

  function Xt(v: Value): byte {
    match v
    case Dbl(_) => XT_ARRAY_DOUBLE
    case Int(_) => XT_ARRAY_INT
    case Lgl(_) => XT_ARRAY_BOOL
    case Str(_) => XT_ARRAY_STR
    case Named(_, _) => XT_HAS_ATTR + XT_ARRAY_DOUBLE
  }

  function PadTo4(n: nat): (p: nat)
    ensures p < 4 && (n + p) % 4 == 0
  {
    (4 - n % 4) % 4
  }

  /** Strings of a reply are padded with the byte 1, logicals with the byte 255. */
  function StringArray(strs: seq<Bytes>): (b: Bytes)
    ensures |b| % 4 == 0
  {
    Packed(strs) + Fill(1, PadTo4(|Packed(strs)|))
  }

  function LogicalCells(cells: Bytes): (b: Bytes)
    ensures |b| % 4 == 0 && |cells| <= |b| < |cells| + 4
  {
    cells + Fill(255, PadTo4(|cells|))
  }

  /** The symbol "names", closed by a NUL and padded to eight bytes. */
  const NAMES_SYMBOL: Bytes := [110, 97, 109, 101, 115, 0, 0, 0]

  /** The twelve bytes between the keys and the values: the word of the symbol and the symbol. */
  const NAMES_TAG: Bytes := Le32(SetPar(XT_SYMNAME, 8)) + NAMES_SYMBOL

  /** The attribute list of a named vector: the value of the attribute comes before its tag. */
  function NamesAttribute(keys: seq<Bytes>): (b: Bytes)
    ensures |b| == 20 + |StringArray(keys)|
  {
    var blob := StringArray(keys);
    Le32(SetPar(XT_LIST_TAG, 16 + |blob|)) + Le32(SetPar(XT_ARRAY_STR, |blob|)) + blob + NAMES_TAG
  }

  function Body(v: Value): Bytes {
    match v
    case Dbl(cells) => cells
    case Int(cells) => cells
    case Lgl(cells) => Le32(|cells| % WORD_LIMIT) + LogicalCells(cells)
    case Str(strs) => StringArray(strs)
    case Named(keys, cells) => NamesAttribute(keys) + cells
  }

  predicate Bounded(v: Value) {
    |Body(v)| < BODY_LIMIT
  }

  // ---------- Replies ----------

  /** The frame of a one-value answer: header, DT_SEXP word, word of the expression, body. */
  function ValueReply(xt: byte, body: Bytes): (r: Bytes)
    ensures |r| == HDR_LEN + 8 + |body|
  {
    Header(RESP_OK, (8 + |body|) % WORD_LIMIT) + Le32(SetPar(DT_SEXP, 4 + |body|)) + (Le32(SetPar(xt, |body|)) + body)
  }

  function Reply(v: Value): (r: Bytes)
    ensures |r| == HDR_LEN + 8 + |Body(v)|
  {
    ValueReply(Xt(v), Body(v))
  }

  const VOID_REPLY: Bytes := Header(RESP_OK, 0)

  function ErrorReply(stat: nat): (r: Bytes)
    requires stat < 128
    ensures |r| == HDR_LEN
  {
    Header(RESP_ERR + stat * 0x100_0000, 0)
  }

  /** `s` starts with a value reply that announces `len` bytes, and `rest` follows its two words. */
  predicate ValueFrame(s: Bytes, len: nat, dt: nat, xt: nat, rest: Bytes) {
    && |s| >= 24
    && WordAt(s, 4) == len
    && WordAt(s, 16) == dt
    && WordAt(s, 20) == xt
    && s[24..] == rest
  }

  /** The parts of a value reply stand where the client looks for them. */
  lemma ReplyShape(xt: byte, body: Bytes, tail: Bytes)
    requires |body| < BODY_LIMIT
    ensures ValueFrame(ValueReply(xt, body) + tail,
                       8 + |body|, SetPar(DT_SEXP, 4 + |body|), SetPar(xt, |body|), body + tail)
  {
    hide ValueFrame, Header, Le32, SetPar;
    FrameShape(8 + |body|, SetPar(DT_SEXP, 4 + |body|), SetPar(xt, |body|), body, tail);
  }

  lemma FrameShape(len: nat, dt: nat, xt: nat, body: Bytes, tail: Bytes)
    requires len < WORD_LIMIT && dt < WORD_LIMIT && xt < WORD_LIMIT
    ensures ValueFrame(Header(RESP_OK, len) + Le32(dt) + (Le32(xt) + body) + tail, len, dt, xt, body + tail)
  {
    var h, d, x := Header(RESP_OK, len), Le32(dt), Le32(xt);
    assert h + d + (x + body) + tail == h + (d + x + (body + tail));
    TwoWords(h, dt, xt, body + tail);
    HeaderWords(RESP_OK, len, d + x + (body + tail));
  }

  lemma TwoWords(h: Bytes, a: nat, b: nat, rest: Bytes)
    requires a < WORD_LIMIT && b < WORD_LIMIT
    ensures var s := h + (Le32(a) + Le32(b) + rest);
      WordAt(s, |h|) == a && WordAt(s, |h| + 4) == b && s[|h| + 8..] == rest
  {
    var s := h + (Le32(a) + Le32(b) + rest);
    assert s == h + Le32(a) + (Le32(b) + rest);
    WordRoundTrip(h, a, Le32(b) + rest);
    assert s == (h + Le32(a)) + Le32(b) + rest;
    WordRoundTrip(h + Le32(a), b, rest);
  }
}
