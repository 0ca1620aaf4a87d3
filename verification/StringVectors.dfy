/**
 String vectors as they travel: the strings one after the other, each closed by a NUL, then
 padding that holds no NUL. Packing is the work of set_vec, walking that of the reader of key blobs.
 */
module StringVectors {
  import opened Wire

  predicate NulFree(s: Bytes) {
    0 !in s
  }

  predicate AllNulFree(strs: seq<Bytes>) {
    forall i :: 0 <= i < |strs| ==> NulFree(strs[i])
  }

  function Packed(strs: seq<Bytes>): (b: Bytes)
  {
    if strs == [] then [] else strs[0] + [0] + Packed(strs[1..])
  }

  /** The number of NULs, as get_named_vec_F8 counts them. */
  function CountNul(b: Bytes): (n: nat)
    ensures n <= |b|
  {
    if b == [] then 0 else (if b[0] == 0 then 1 else 0) + CountNul(b[1..])
  }

  /** The `n` strings from `off` on: take up to the next NUL, step over it, go on. */
  function Walk(b: Bytes, off: nat, n: nat): (strs: seq<Bytes>)
    requires off <= |b|
    ensures |strs| == n
    decreases n
  {
    if n == 0 then []
    else
      var len := Strlen(b, off);
      [b[off..off + len]] + Walk(b, if off + len < |b| then off + len + 1 else |b|, n - 1)
  }

  lemma {:induction false} PackedAppend(a: seq<Bytes>, c: seq<Bytes>)
    ensures Packed(a + c) == Packed(a) + Packed(c)
  {
    if a == [] {
      assert a + c == c;
    } else {
      assert (a + c)[1..] == a[1..] + c;
      PackedAppend(a[1..], c);
    }
  }

  lemma PackedSnoc(a: seq<Bytes>, s: Bytes)
    ensures Packed(a + [s]) == Packed(a) + s + [0]
  {
    PackedAppend(a, [s]);
    assert Packed([s]) == s + [0] + Packed([]);
  }

  lemma {:induction false} CountNulConcat(a: Bytes, c: Bytes)
    ensures CountNul(a + c) == CountNul(a) + CountNul(c)
  {
    if a == [] {
      assert a + c == c;
    } else {
      assert (a + c)[1..] == a[1..] + c;
      CountNulConcat(a[1..], c);
    }
  }

  lemma {:induction false} CountNulFree(s: Bytes)
    requires NulFree(s)
    ensures CountNul(s) == 0
  {
    if s != [] {
      CountNulFree(s[1..]);
    }
  }

  lemma {:induction false} CountNulPacked(strs: seq<Bytes>, pad: Bytes)
    requires AllNulFree(strs) && NulFree(pad)
    ensures CountNul(Packed(strs) + pad) == |strs|
  {
    CountNulConcat(Packed(strs), pad);
    CountNulFree(pad);
    if strs != [] {
      CountNulPacked(strs[1..], []);
      assert Packed(strs[1..]) + [] == Packed(strs[1..]);
      CountNulConcat(strs[0] + [0], Packed(strs[1..]));
      CountNulConcat(strs[0], [0]);
      CountNulFree(strs[0]);
    }
  }

  /** Walking a packed blob gives the strings back, in order, whatever stands before and after. */
  lemma {:induction false} WalkPacked(pre: Bytes, strs: seq<Bytes>, more: Bytes)
    requires AllNulFree(strs)
    ensures Walk(pre + Packed(strs) + more, |pre|, |strs|) == strs
    decreases |strs|
  {
    hide Strlen, Packed;
    if strs != [] {
      var s := strs[0];
      var rest := Packed(strs[1..]);
      assert [s] + strs[1..] == strs;
      PackedFirst(s, strs[1..]);
      Regroup(pre, s, [0], rest, more);
      StringAt(pre, s, rest + more);
      WalkPacked(pre + s + [0], strs[1..], more);
    }
  }

  lemma Regroup(pre: Bytes, s: Bytes, nul: Bytes, rest: Bytes, more: Bytes)
    ensures pre + (s + nul + rest) + more == pre + s + nul + rest + more
    ensures pre + s + nul + rest + more == pre + s + nul + (rest + more)
  {
  }

  lemma StringAt(pre: Bytes, s: Bytes, more: Bytes)
    requires NulFree(s)
    ensures Strlen(pre + s + [0] + more, |pre|) == |s|
    ensures (pre + s + [0] + more)[|pre|..|pre| + |s|] == s
  {
    var b := pre + s + [0] + more;
    assert b[|pre| + |s|] == 0;
    forall i | |pre| <= i < |pre| + |s|
      ensures b[i] != 0
    {
      assert b[i] == s[i - |pre|];
    }
    StrlenUnique(b, |pre|, |s|);
  }

  /** What the reader of a blob recovers: one string for each NUL. */
  function Strings(blob: Bytes): (strs: seq<Bytes>)
    ensures |strs| == CountNul(blob)
  {
    Walk(blob, 0, CountNul(blob))
  }

  /** Counting and walking undo packing, for any padding without NULs. */
  lemma StringsOfPacked(strs: seq<Bytes>, pad: Bytes)
    requires AllNulFree(strs) && NulFree(pad)
    ensures Strings(Packed(strs) + pad) == strs
  {
    CountNulPacked(strs, pad);
    WalkPacked([], strs, pad);
    assert [] + Packed(strs) + pad == Packed(strs) + pad;
  }

  lemma PackedFirst(s: Bytes, rest: seq<Bytes>)
    ensures Packed([s] + rest) == s + [0] + Packed(rest)
  {
    assert ([s] + rest)[1..] == rest;
  }

  /** What a walk takes from a blob, packed again, is no longer than what it walked over. */
  lemma {:induction false} WalkFits(b: Bytes, off: nat, n: nat)
    requires off <= |b| && n <= CountNul(b[off..])
    ensures |Packed(Walk(b, off, n))| <= |b| - off
    decreases n
  {
    hide *;
    if n == 0 {
      WalkNone(b, off);
    } else {
      var len := Strlen(b, off);
      WalkStep(b, off, n);
      WalkFits(b, off + len + 1, n - 1);
      PackedFirst(b[off..off + len], Walk(b, off + len + 1, n - 1));
    }
  }

  /** Distinct lists never share a blob, even under different paddings. */
  lemma PackingInjective(a: seq<Bytes>, padA: Bytes, c: seq<Bytes>, padC: Bytes)
    requires AllNulFree(a) && AllNulFree(c) && NulFree(padA) && NulFree(padC)
    requires Packed(a) + padA == Packed(c) + padC
    ensures a == c && padA == padC
  {
    StringsOfPacked(a, padA);
    StringsOfPacked(c, padC);
    assert padA == (Packed(a) + padA)[|Packed(a)|..];
    assert padC == (Packed(c) + padC)[|Packed(c)|..];
  }

  /** The walk over a key blob: `count` times, measure the string at the cursor and step past its NUL. */
  method KeyWalk(blob: Bytes, count: nat) returns (keys: seq<Bytes>)
    requires count <= CountNul(blob)
    ensures keys == Walk(blob, 0, count)
  {
    hide Strlen, CountNul, Walk;
    keys := [];
    var cursor := 0;
    var j := 0;
    while j < count
      invariant 0 <= j <= count && 0 <= cursor <= |blob|
      invariant count - j <= CountNul(blob[cursor..])
      invariant Walk(blob, 0, count) == keys + Walk(blob, cursor, count - j)
    {
      var len := Strlen(blob, cursor);
      WalkStep(blob, cursor, count - j);
      keys := keys + [blob[cursor..cursor + len]];
      cursor := cursor + len + 1;
      j := j + 1;
    }
    WalkNone(blob, cursor);
  }

  lemma WalkNone(b: Bytes, off: nat)
    requires off <= |b|
    ensures Walk(b, off, 0) == [] && Packed([]) == []
  {
  }

  /** One step of a walk that still has a NUL ahead for each string. */
  lemma WalkStep(b: Bytes, off: nat, n: nat)
    requires off <= |b| && 0 < n <= CountNul(b[off..])
    ensures var len := Strlen(b, off);
      && off + len + 1 <= |b|
      && Walk(b, off, n) == [b[off..off + len]] + Walk(b, off + len + 1, n - 1)
      && n - 1 <= CountNul(b[off + len + 1..])
  {
    hide Strlen, CountNul;
    TailAhead(b, off);
  }

  lemma TailAhead(b: Bytes, off: nat)
    requires off <= |b| && CountNul(b[off..]) > 0
    ensures off + Strlen(b, off) + 1 <= |b|
    ensures CountNul(b[off + Strlen(b, off) + 1..]) == CountNul(b[off..]) - 1
  {
    hide *;
    var len := Strlen(b, off);
    StrlenInTail(b, off);
    NulAhead(b[off..]);
    assert b[off..][len + 1..] == b[off + len + 1..];
  }

  lemma StrlenInTail(b: Bytes, off: nat)
    requires off <= |b|
    ensures Strlen(b[off..], 0) == Strlen(b, off)
  {
    var len := Strlen(b, off);
    if off + len < |b| {
      StrlenUnique(b[off..], 0, len);
    } else {
      assert forall i :: 0 <= i < len ==> b[off..][i] == b[off + i];
    }
  }

  /** If a NUL lies ahead, the string at the cursor stops before the end and one NUL is used up. */
  lemma NulAhead(b: Bytes)
    requires CountNul(b) > 0
    ensures Strlen(b, 0) < |b|
    ensures CountNul(b[Strlen(b, 0) + 1..]) == CountNul(b) - 1
  {
    var len := Strlen(b, 0);
    if len == |b| {
      CountNulFree(b);
    } else {
      assert b == b[..len] + ([0] + b[len + 1..]);
      CountNulConcat(b[..len], [0] + b[len + 1..]);
      CountNulFree(b[..len]);
      assert ([0] + b[len + 1..])[1..] == b[len + 1..];
    }
  }
}
