/** Little-endian packing of unsigned words. */
module Bytes {
  import opened Bits

  type ByteSeq = seq<U8>

  function SetByte(b: ByteSeq, at: nat, v: U8): ByteSeq
    requires at < |b|
  {
    b[at := v]
  }

  /** 256^width: the number of values a word of that many bytes can take. */
  function Range(width: nat): (p: nat)
    ensures p >= 1
  {
    if width == 0 then 1 else 256 * Range(width - 1)
  }

  function PutLE(v: nat, width: nat): (b: ByteSeq)
    ensures |b| == width
  {
    if width == 0 then [] else [v % 256] + PutLE(v / 256, width - 1)
  }

  function GetLE(b: ByteSeq): (v: nat)
    ensures v < Range(|b|)
  {
    if b == [] then 0 else b[0] + 256 * GetLE(b[1..])
  }

  lemma {:induction false} GetPut(v: nat, width: nat)
    requires v < Range(width)
    ensures GetLE(PutLE(v, width)) == v
  {
    if width > 0 {
      GetPut(v / 256, width - 1);
      var b := PutLE(v, width);
      assert b[1..] == PutLE(v / 256, width - 1);
    }
  }

  lemma {:induction false} PutGet(b: ByteSeq)
    ensures PutLE(GetLE(b), |b|) == b
  {
    if b != [] {
      PutGet(b[1..]);
      var rest := GetLE(b[1..]);
      assert (b[0] + 256 * rest) / 256 == rest;
      assert b == [b[0]] + b[1..];
    }
  }

  /** The word stored at a fixed offset. */
  function WordAt(b: ByteSeq, at: nat, width: nat): (v: nat)
    requires at + width <= |b|
    ensures v < Range(width)
  {
    GetLE(b[at..at + width])
  }

  // A record is a sequence of words laid end to end, with the given widths.

  /** A word within a prefix reads the same whatever follows. */
  lemma WordInFront(b: ByteSeq, rest: ByteSeq, at: nat, width: nat)
    requires at + width <= |b|
    ensures WordAt(b + rest, at, width) == WordAt(b, at, width)
  {
    assert (b + rest)[at..at + width] == b[at..at + width];
  }

  function Offset(widths: seq<nat>, n: nat): nat
    requires n <= |widths|
  {
    if n == 0 then 0 else Offset(widths, n - 1) + widths[n - 1]
  }

  lemma {:induction false} OffsetMono(widths: seq<nat>, i: nat, n: nat)
    requires i < n <= |widths|
    ensures Offset(widths, i) + widths[i] <= Offset(widths, n)
  {
    if i < n - 1 {
      OffsetMono(widths, i, n - 1);
    }
  }

  ghost predicate Fits(values: seq<nat>, widths: seq<nat>) {
    |values| == |widths| && forall i :: 0 <= i < |values| ==> values[i] < Range(widths[i])
  }

  /** The bytes of the first n words of a record. */
  function Pack(values: seq<nat>, widths: seq<nat>, n: nat): (b: ByteSeq)
    requires n <= |values| == |widths|
    ensures |b| == Offset(widths, n)
  {
    if n == 0 then [] else Pack(values, widths, n - 1) + PutLE(values[n - 1], widths[n - 1])
  }

  /** Every word of a packed record is found again at its offset. */
  lemma {:induction false} WordOfPack(values: seq<nat>, widths: seq<nat>, n: nat, i: nat)
    requires Fits(values, widths) && i < n <= |values|
    ensures Offset(widths, i) + widths[i] <= Offset(widths, n)
    ensures WordAt(Pack(values, widths, n), Offset(widths, i), widths[i]) == values[i]
  {
    OffsetMono(widths, i, n);
    var b, at := Pack(values, widths, n), Offset(widths, i);
    if i == n - 1 {
      GetPut(values[i], widths[i]);
      assert b[at..at + widths[i]] == PutLE(values[i], widths[i]);
    } else {
      WordOfPack(values, widths, n - 1, i);
      assert b[at..at + widths[i]] == Pack(values, widths, n - 1)[at..at + widths[i]];
    }
  }

  ghost predicate HoldsWord(b: ByteSeq, values: seq<nat>, widths: seq<nat>, i: nat)
    requires i < |values| == |widths|
  {
    && Offset(widths, i) + widths[i] <= |b|
    && WordAt(b, Offset(widths, i), widths[i]) == values[i]
  }

  /** A buffer that holds these words at their offsets is the packed record. */
  lemma {:induction false} PackOfWords(b: ByteSeq, values: seq<nat>, widths: seq<nat>, n: nat)
    requires n <= |values| == |widths|
    requires forall i: nat :: i < n ==> HoldsWord(b, values, widths, i)
    ensures Offset(widths, n) <= |b|
    ensures b[..Offset(widths, n)] == Pack(values, widths, n)
  {
    if n > 0 {
      PackOfWords(b, values, widths, n - 1);
      assert HoldsWord(b, values, widths, n - 1);
      var at := Offset(widths, n - 1);
      var word := b[at..at + widths[n - 1]];
      PutGet(word);
      assert b[..at + widths[n - 1]] == b[..at] + word;
    }
  }

  /** Writes one little-endian word into a buffer. */
  method Store(buf: array<U8>, at: nat, v: nat, width: nat)
    requires at + width <= buf.Length
    modifies buf
    ensures buf[..] == old(buf[..at]) + PutLE(v, width) + old(buf[at + width..])
  {
    var x := v;
    ghost var was := buf[..];
    for i := 0 to width
      invariant buf[..at] == was[..at] && buf[at + i..] == was[at + i..]
      invariant buf[at..at + i] + PutLE(x, width - i) == PutLE(v, width)
    {
      ghost var done := buf[at..at + i];
      buf[at + i] := x % 256;
      assert buf[at..at + i + 1] == done + [x % 256];
      assert [x % 256] + PutLE(x / 256, width - i - 1) == PutLE(x, width - i);
      x := x / 256;
    }
    assert buf[..] == buf[..at] + buf[at..at + width] + buf[at + width..];
  }

  // Writing a record word by word.

  /** The first n words of the record are in place at lo, and nothing outside it has changed. */
  ghost predicate Written(values: seq<nat>, widths: seq<nat>, now: ByteSeq, lo: nat, n: nat, was: ByteSeq)
    requires n <= |values| == |widths|
  {
    var end, size := Offset(widths, n), Offset(widths, |widths|);
    && end <= size && lo + size <= |was| == |now|
    && now[..lo] == was[..lo]
    && now[lo..lo + end] == Pack(values, widths, n)
    && now[lo + size..] == was[lo + size..]
  }

  lemma NoneWritten(values: seq<nat>, widths: seq<nat>, now: ByteSeq, lo: nat, was: ByteSeq)
    requires |values| == |widths| && lo + Offset(widths, |widths|) <= |was| == |now|
    requires now[..lo] == was[..lo]
    requires now[lo + Offset(widths, |widths|)..] == was[lo + Offset(widths, |widths|)..]
    ensures Written(values, widths, now, lo, 0, was)
  {
  }

  lemma AllWritten(values: seq<nat>, widths: seq<nat>, now: ByteSeq, lo: nat, was: ByteSeq)
    requires |values| == |widths| && Written(values, widths, now, lo, |widths|, was)
    ensures lo + Offset(widths, |widths|) <= |was|
    ensures now == was[..lo] + Pack(values, widths, |widths|) + was[lo + Offset(widths, |widths|)..]
  {
    hide Offset, Pack;
    var size := Offset(widths, |widths|);
    assert lo + size <= |now|;
    assert now[lo..lo + size] == Pack(values, widths, |widths|);
    Splits(now, lo, lo + size);
  }

  lemma Splits(b: ByteSeq, lo: nat, hi: nat)
    requires lo <= hi <= |b|
    ensures b == b[..lo] + b[lo..hi] + b[hi..]
  {
  }

  method StoreWord(ghost values: seq<nat>, ghost widths: seq<nat>, buf: array<U8>, lo: nat, ghost i: nat,
                   at: nat, v: nat, width: nat, ghost was: ByteSeq)
    requires i < |values| == |widths| && values[i] == v && widths[i] == width && Offset(widths, i) == at
    requires Written(values, widths, buf[..], lo, i, was)
    modifies buf
    ensures Written(values, widths, buf[..], lo, i + 1, was)
  {
    OffsetMono(widths, i, |widths|);
    ghost var before, size := buf[..], Offset(widths, |widths|);
    Store(buf, lo + at, v, width);
    assert buf[lo..lo + at + width] == before[lo..lo + at] + PutLE(v, width);
    assert buf[lo + size..] == before[lo + size..];
    assert buf[..lo] == before[..lo];
  }
}
