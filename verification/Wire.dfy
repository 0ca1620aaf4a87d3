/** Bytes, little-endian words and the header words of QAP1. */
module Wire {

  newtype byte = x: int | 0 <= x < 256

  type Bytes = seq<byte>

  const WORD_LIMIT: nat := 0x1_0000_0000
  const INT_LIMIT: nat := 0x8000_0000
  const LEN_LIMIT: nat := 0x100_0000

  /** No C string or buffer of the model reaches half a gibibyte, so `int` lengths do not wrap. */
  const OBJECT_LIMIT: nat := 0x2000_0000

  /** The four bytes of a 32-bit word, low byte first. */
  function Le32(w: nat): (b: Bytes)
    requires w < WORD_LIMIT
    ensures |b| == 4
  {
    var w1 := w / 256;
    var w2 := w1 / 256;
    [(w % 256) as byte, (w1 % 256) as byte, (w2 % 256) as byte, (w2 / 256) as byte]
  }

  /** The unsigned word stored at offset `i`. */
  function WordAt(b: Bytes, i: nat): (w: nat)
    requires i + 4 <= |b|
    ensures w < WORD_LIMIT
  {
    b[i] as int + 256 * (b[i + 1] as int) + 65536 * (b[i + 2] as int) + 16777216 * (b[i + 3] as int)
  }

  /** The value of a 32-bit word read as a C `int`. */
  function AsInt(w: nat): (i: int)
    requires w < WORD_LIMIT
    ensures -0x8000_0000 <= i < 0x8000_0000
    ensures (i - w) % WORD_LIMIT == 0
  {
    if w < INT_LIMIT then w else w - WORD_LIMIT
  }

  /** A type byte and a length packed into one word; only the low 24 bits of the length survive. */
  function SetPar(ty: byte, len: nat): (w: nat)
    ensures w < WORD_LIMIT
  {
    len % LEN_LIMIT * 256 + ty as int
  }

  function ParType(w: nat): (ty: byte)
    ensures (w - ty as int) % 256 == 0
  {
    (w % 256) as byte
  }

  function ParLen(w: nat): (len: nat)
    ensures len * 256 <= w < len * 256 + 256
  {
    w / 256
  }

  /** A header word gives back its type always, and its length exactly when that is below 2^24. */
  lemma HeaderWordRoundTrip(ty: byte, len: nat)
    ensures ParType(SetPar(ty, len)) == ty
    ensures ParLen(SetPar(ty, len)) == len % LEN_LIMIT
    ensures ParLen(SetPar(ty, len)) == len <==> len < LEN_LIMIT
  {
    var low := len % LEN_LIMIT;
    assert (low * 256 + ty as int) % 256 == ty as int;
    assert (low * 256 + ty as int) / 256 == low;
  }

  lemma WordOfLe32(w: nat)
    requires w < WORD_LIMIT
    ensures WordAt(Le32(w), 0) == w
  {
    var w1 := w / 256;
    var w2 := w1 / 256;
    assert w == w1 * 256 + w % 256 && w1 == w2 * 256 + w1 % 256 && w2 == w2 / 256 * 256 + w2 % 256;
  }

  /** Intel order: the low byte comes first, and so on up, as 0x12345678 travels as 78 56 34 12. */
  lemma Le32Bytes(a: byte, b: byte, c: byte, d: byte)
    ensures Le32(a as int + 256 * (b as int) + 65536 * (c as int) + 16777216 * (d as int)) == [a, b, c, d]
    ensures Le32(0x12345678) == [0x78, 0x56, 0x34, 0x12]
  {
    var w1 := b as int + 256 * (c as int) + 65536 * (d as int);
    var w2 := c as int + 256 * (d as int);
    var w := a as int + 256 * w1;
    assert w / 256 == w1 && w % 256 == a as int;
    assert w1 / 256 == w2 && w1 % 256 == b as int;
    assert w2 / 256 == d as int && w2 % 256 == c as int;
  }

  /** A header word travels as its type, then the length in three bytes, low byte first. */
  lemma HeaderWordBytes(ty: byte, a: byte, b: byte, c: byte)
    ensures Le32(SetPar(ty, a as int + 256 * (b as int) + 65536 * (c as int))) == [ty, a, b, c]
  {
    Le32Bytes(ty, a, b, c);
  }

  /** Storing a word and reading it back, wherever it stands. */
  lemma WordRoundTrip(pre: Bytes, w: nat, post: Bytes)
    requires w < WORD_LIMIT
    ensures WordAt(pre + Le32(w) + post, |pre|) == w
  {
    WordOfLe32(w);
    WordElsewhere(pre, Le32(w), post);
  }

  lemma WordElsewhere(pre: Bytes, b: Bytes, post: Bytes)
    requires |b| == 4
    ensures WordAt(pre + b + post, |pre|) == WordAt(b, 0)
  {
  }

  /** Reading a word from a slice is reading it from the whole. */
  lemma WordInSlice(b: Bytes, lo: nat, hi: nat, i: nat)
    requires lo + i + 4 <= hi <= |b|
    ensures WordAt(b[lo..hi], i) == WordAt(b, lo + i)
  {
  }

  /** `n` copies of one byte. */
  function Fill(v: byte, n: nat): (b: Bytes)
    ensures |b| == n
    ensures forall i :: 0 <= i < n ==> b[i] == v
  {
    seq(n, _ => v)
  }

  /** Length of the C string that starts at `off`: the bytes before the next NUL, or before the end. */
  function Strlen(b: Bytes, off: nat): (len: nat)
    requires off <= |b|
    ensures off + len <= |b|
    ensures off + len < |b| ==> b[off + len] == 0
    ensures forall i :: off <= i < off + len ==> b[i] != 0
    decreases |b| - off
  {
    if off == |b| || b[off] == 0 then 0 else 1 + Strlen(b, off + 1)
  }

  lemma StrlenUnique(b: Bytes, off: nat, len: nat)
    requires off + len < |b| && b[off + len] == 0
    requires forall i :: off <= i < off + len ==> b[i] != 0
    ensures Strlen(b, off) == len
  {
  }
}
