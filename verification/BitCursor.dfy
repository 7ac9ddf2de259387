/** Bit-by-bit access through a byte pointer and a one-bit mask, as all the copy routines do it. */
module BitCursor {
  import opened Words
  import opened Streams
  import opened Packing

  const LOW_BIT: Byte := OneHot(8, 0)
  const HIGH_BIT: Byte := OneHot(8, 7)

  /** The cursor (ptr, mask) stands on bit `p` of the stream. */
  predicate At(be: bool, p: int, ptr: int, mask: Byte) {
    ptr == p / 8 && mask == OneHot(8, if be then 7 - p % 8 else p % 8)
  }

  /** Bit `i`, counted from the least significant one, of an element whose bits start at `base`. */
  function BitPos(be: bool, base: int, w: int, i: int): int {
    if be then base + w - 1 - i else base + i
  }

  lemma SeatLow(p: nat)
    ensures At(false, p, p / 8, Shl(LOW_BIT, p % 8))
  {
    assert Shl(LOW_BIT, p % 8) == OneHot(8, p % 8);
  }

  lemma SeatHigh(p: nat)
    ensures At(true, p, p / 8, Shr(HIGH_BIT, p % 8))
  {
    assert Shr(HIGH_BIT, p % 8) == OneHot(8, 7 - p % 8);
  }

  /** To the next more significant bit: up the byte, then on to the next byte (the previous one when `be`). */
  method Step(be: bool, ptr0: int, mask0: Byte, ghost p: int) returns (ptr: int, mask: Byte)
    requires At(be, p, ptr0, mask0)
    ensures At(be, if be then p - 1 else p + 1, ptr, mask)
  {
    ptr, mask := ptr0, Shl(mask0, 1);
    ghost var k := if be then 7 - p % 8 else p % 8;
    assert mask == if k == 7 then Zeros(8) else OneHot(8, k + 1);
    assert k < 7 ==> mask[k + 1];
    if IsZero(mask) {
      mask := LOW_BIT;
      ptr := if be then ptr - 1 else ptr + 1;
    }
  }

  /** Testing the mask reads the stream. */
  lemma TestBit(be: bool, bytes: seq<Byte>, p: int, ptr: int, mask: Byte)
    requires At(be, p, ptr, mask) && 0 <= p < 8 * |bytes|
    ensures 0 <= ptr < |bytes|
    ensures !IsZero(And(bytes[ptr], mask)) == Stream(be, bytes)[p]
  {
    var k := if be then 7 - p % 8 else p % 8;
    var t := And(bytes[ptr], mask);
    assert t[k] == bytes[ptr][k];
    assert Stream(be, bytes)[p] == bytes[ptr][k];
    assert forall i :: 0 <= i < 8 && i != k ==> !t[i];
  }

  function Masked(b: Byte, mask: Byte, bit: bool): Byte {
    if bit then Or(b, mask) else And(b, Not(mask))
  }

  /** Setting or clearing the masked bit updates the stream at one place. */
  lemma WriteBit(be: bool, bytes: seq<Byte>, p: int, ptr: int, mask: Byte, bit: bool)
    requires At(be, p, ptr, mask) && 0 <= p < 8 * |bytes|
    ensures 0 <= ptr < |bytes|
    ensures Stream(be, bytes[ptr := Masked(bytes[ptr], mask, bit)]) == Stream(be, bytes)[p := bit]
  {
    var b := Masked(bytes[ptr], mask, bit);
    var k := if be then 7 - p % 8 else p % 8;
    assert b == bytes[ptr][k := bit];
    var t, u := Stream(be, bytes[ptr := b]), Stream(be, bytes)[p := bit];
    forall q | 0 <= q < |t|
      ensures t[q] == u[q]
    {
      if q / 8 == ptr && q % 8 == p % 8 { assert q == p; }
    }
  }

  /** The stream with the bits `r` put at `base`. */
  function Splice(s: seq<bool>, base: nat, r: seq<bool>): (t: seq<bool>)
    requires base + |r| <= |s|
    ensures |t| == |s|
  {
    s[..base] + r + s[base + |r|..]
  }

  /** `cur` is `old` with the first `i` bits of the element `e` written at `base`. */
  ghost predicate Partial(be: bool, old_: seq<bool>, cur: seq<bool>, base: nat, e: Word, i: nat) {
    && |cur| == |old_| && base + |e| <= |old_| && i <= |e|
    && forall q :: 0 <= q < |cur| ==>
         cur[q] == if be then (if base + |e| - i <= q < base + |e| then e[base + |e| - 1 - q] else old_[q])
                   else (if base <= q < base + i then e[q - base] else old_[q])
  }

  lemma PartialStep(be: bool, s: seq<bool>, cur: seq<bool>, base: nat, e: Word, i: nat)
    requires Partial(be, s, cur, base, e, i) && i < |e|
    ensures 0 <= BitPos(be, base, |e|, i) < |cur|
    ensures Partial(be, s, cur[BitPos(be, base, |e|, i) := e[i]], base, e, i + 1)
  {
  }

  lemma PartialDone(be: bool, s: seq<bool>, cur: seq<bool>, base: nat, e: Word)
    requires Partial(be, s, cur, base, e, |e|)
    ensures cur == Splice(s, base, InOrder(be, e))
  {
    var t := Splice(s, base, InOrder(be, e));
    forall q | 0 <= q < |cur|
      ensures cur[q] == t[q]
    {
    }
  }

  /** Reads bit `i` of the element at `base` and moves the cursor on. */
  method TakeBit(be: bool, src: seq<Byte>, ptr0: int, mask0: Byte, ghost base: nat, ghost w: nat, ghost i: nat)
    returns (bit: bool, ptr: int, mask: Byte)
    requires At(be, BitPos(be, base, w, i), ptr0, mask0) && i < w && base + w <= 8 * |src|
    ensures bit == InOrder(be, Stream(be, src)[base..base + w])[i]
    ensures At(be, BitPos(be, base, w, i + 1), ptr, mask)
  {
    hide At, Stream, InOrder, BitPos;
    ElementBit(be, Stream(be, src), base, w, i);
    NextBitPos(be, base, w, i);
    TestBit(be, src, BitPos(be, base, w, i), ptr0, mask0);
    bit := !IsZero(And(src[ptr0], mask0));
    ptr, mask := Step(be, ptr0, mask0, BitPos(be, base, w, i));
  }

  /** Writes bit `i` of the element `e` at `base` and moves the cursor on. */
  method PutBit(be: bool, dst: array<Byte>, ptr0: int, mask0: Byte, bit: bool, ghost s0: seq<bool>, ghost base: nat,
                ghost e: Word, ghost i: nat)
    returns (ptr: int, mask: Byte)
    requires At(be, BitPos(be, base, |e|, i), ptr0, mask0) && i < |e| && bit == e[i]
    requires Partial(be, s0, Stream(be, dst[..]), base, e, i)
    modifies dst
    ensures At(be, BitPos(be, base, |e|, i + 1), ptr, mask)
    ensures Partial(be, s0, Stream(be, dst[..]), base, e, i + 1)
  {
    hide At, Stream, Masked, Partial, BitPos;
    ghost var before := dst[..];
    PartialStep(be, s0, Stream(be, before), base, e, i);
    WriteBit(be, before, BitPos(be, base, |e|, i), ptr0, mask0, bit);
    NextBitPos(be, base, |e|, i);
    dst[ptr0] := Masked(dst[ptr0], mask0, bit);
    assert dst[..] == before[ptr0 := Masked(before[ptr0], mask0, bit)];
    ptr, mask := Step(be, ptr0, mask0, BitPos(be, base, |e|, i));
  }

  /** The inner loop of the copies: one element, bit by bit from its least significant end. */
  method CopyElement(sBe: bool, src: seq<Byte>, sPtr0: int, sMask0: Byte, dBe: bool, dst: array<Byte>, dPtr0: int,
                     dMask0: Byte, w: nat, ghost sBase: nat, ghost dBase: nat)
    returns (sPtr: int, sMask: Byte, dPtr: int, dMask: Byte)
    requires At(sBe, BitPos(sBe, sBase, w, 0), sPtr0, sMask0) && sBase + w <= 8 * |src|
    requires At(dBe, BitPos(dBe, dBase, w, 0), dPtr0, dMask0) && dBase + w <= 8 * dst.Length
    modifies dst
    ensures At(sBe, BitPos(sBe, sBase, w, w), sPtr, sMask) && At(dBe, BitPos(dBe, dBase, w, w), dPtr, dMask)
    ensures Stream(dBe, dst[..])
         == Splice(old(Stream(dBe, dst[..])), dBase, InOrder(dBe, InOrder(sBe, Stream(sBe, src)[sBase..sBase + w])))
  {
    hide At, Partial, Stream, Splice, InOrder, BitPos;
    ghost var s0 := Stream(dBe, dst[..]);
    ghost var e := InOrder(sBe, Stream(sBe, src)[sBase..sBase + w]);
    sPtr, sMask, dPtr, dMask := sPtr0, sMask0, dPtr0, dMask0;
    PartialStart(dBe, s0, dBase, e);
    for i := 0 to w
      invariant At(sBe, BitPos(sBe, sBase, w, i), sPtr, sMask) && At(dBe, BitPos(dBe, dBase, w, i), dPtr, dMask)
      invariant Partial(dBe, s0, Stream(dBe, dst[..]), dBase, e, i)
    {
      var srcBit: bool;
      srcBit, sPtr, sMask := TakeBit(sBe, src, sPtr, sMask, sBase, w, i);
      dPtr, dMask := PutBit(dBe, dst, dPtr, dMask, srcBit, s0, dBase, e, i);
    }
    PartialDone(dBe, s0, Stream(dBe, dst[..]), dBase, e);
  }

  lemma ElementBit(be: bool, s: seq<bool>, base: nat, w: nat, i: nat)
    requires base + w <= |s| && i < w
    ensures 0 <= BitPos(be, base, w, i) < |s|
    ensures InOrder(be, s[base..base + w])[i] == s[BitPos(be, base, w, i)]
  {
  }

  lemma NextBitPos(be: bool, base: nat, w: nat, i: nat)
    ensures BitPos(be, base, w, i + 1) == if be then BitPos(be, base, w, i) - 1 else BitPos(be, base, w, i) + 1
  {
  }

  lemma PartialStart(be: bool, s: seq<bool>, base: nat, e: Word)
    requires base + |e| <= |s|
    ensures Partial(be, s, s, base, e, 0)
  {
  }

  // ----- clearing the rest of the last byte -----

  /** `w - 1` for a nonzero word. */
  function Dec(w: Word): (r: Word)
    ensures |r| == |w|
  {
    if w == [] then [] else if w[0] then [false] + w[1..] else [true] + Dec(w[1..])
  }

  lemma {:induction false} DecOneHot(n: nat, k: nat)
    requires k < n
    ensures Dec(OneHot(n, k)) == Field(n, 0, k)
    decreases n
  {
    if k == 0 {
      assert OneHot(n, k)[1..] == Zeros(n - 1);
    } else {
      assert OneHot(n, k)[1..] == OneHot(n - 1, k - 1);
      DecOneHot(n - 1, k - 1);
    }
  }

  /** The number of padding bits after `total` bits. */
  function Padding(total: nat): nat {
    8 * BytesFor(total) - total
  }

  /** The stream with the padding after `total` bits cleared. */
  function Cleared(s: seq<bool>, total: nat): (t: seq<bool>)
    requires 8 * BytesFor(total) <= |s|
    ensures |t| == |s|
  {
    Splice(s, total, Zeros(Padding(total)))
  }

  lemma ClearedAt(s: seq<bool>, total: nat, q: nat)
    requires 8 * BytesFor(total) <= |s| && q < |s|
    ensures Cleared(s, total)[q] == (s[q] && !(total <= q < 8 * BytesFor(total)))
  {
  }

  lemma StreamAt(be: bool, bytes: seq<Byte>, q: nat)
    requires q < 8 * |bytes|
    ensures Stream(be, bytes)[q] == Pick(be, bytes[q / 8], q % 8)
  {
  }

  /** The mask keeps the first `k` bits of a byte in reading order. */
  lemma MaskedPick(be: bool, b: Byte, k: nat, i: nat)
    requires k < 8 && i < 8
    ensures Pick(be, And(b, if be then Field(8, 8 - k, 8) else Field(8, 0, k)), i) == (Pick(be, b, i) && i < k)
  {
  }

  lemma ClearStream(be: bool, bytes: seq<Byte>, total: nat, b: Byte)
    requires 0 < total % 8 && total / 8 < |bytes|
    requires b == And(bytes[total / 8], if be then Field(8, 8 - total % 8, 8) else Field(8, 0, total % 8))
    ensures Stream(be, bytes[total / 8 := b]) == Cleared(Stream(be, bytes), total)
  {
    hide Stream, Cleared, Pick, And, Field;
    var s, t := Stream(be, bytes), Stream(be, bytes[total / 8 := b]);
    forall q | 0 <= q < |t|
      ensures t[q] == Cleared(s, total)[q]
    {
      ClearedAt(s, total, q);
      StreamAt(be, bytes, q);
      StreamAt(be, bytes[total / 8 := b], q);
      MaskedPick(be, bytes[total / 8], total % 8, q % 8);
    }
  }

  lemma NothingToClear(s: seq<bool>, total: nat)
    requires total % 8 == 0 && total <= |s|
    ensures Cleared(s, total) == s
  {
    hide Cleared;
    forall q | 0 <= q < |s|
      ensures Cleared(s, total)[q] == s[q]
    {
      ClearedAt(s, total, q);
    }
  }

  /** After a little-endian copy the cursor stands behind the last bit. */
  method ClearTailLow(dst: array<Byte>, ptr: int, mask: Byte, ghost total: nat) returns (end: int)
    requires At(false, total, ptr, mask) && BytesFor(total) <= dst.Length
    modifies dst
    ensures end == BytesFor(total)
    ensures Stream(false, dst[..]) == Cleared(old(Stream(false, dst[..])), total)
  {
    hide Stream, Cleared;
    end := ptr;
    ghost var before := dst[..];
    if mask != LOW_BIT {
      assert total % 8 != 0;
      DecOneHot(8, total % 8);
      ClearStream(false, before, total, And(before[ptr], Dec(mask)));
      dst[ptr] := And(dst[ptr], Dec(mask));
      assert dst[..] == before[ptr := And(before[ptr], Dec(mask))];
      end := end + 1;
    } else {
      assert LOW_BIT[0] == mask[0] && total % 8 == 0;
      NothingToClear(Stream(false, before), total);
    }
  }

  /** After a big-endian copy of `total` bits, at least one. */
  method ClearTailHigh(dst: array<Byte>, total: nat) returns (end: int)
    requires 0 < total && BytesFor(total) <= dst.Length
    modifies dst
    ensures end == BytesFor(total)
    ensures Stream(true, dst[..]) == Cleared(old(Stream(true, dst[..])), total)
  {
    hide Stream, Cleared, And, Not, Dec, Shr, Field, IsZero;
    end := (total - 1) / 8;
    ghost var before := dst[..];
    var mask: Byte := Not(Dec(Shr(HIGH_BIT, (total - 1) % 8)));
    TailMask((total - 1) % 8);
    if !IsZero(mask) {
      TailClears(before, total, mask);
      dst[end] := And(dst[end], mask);
      assert dst[..] == before[end := And(before[end], mask)];
      end := end + 1;
    }
  }

  lemma TailClears(bytes: seq<Byte>, total: nat, mask: Byte)
    requires 0 < total && BytesFor(total) <= |bytes| && mask == Field(8, 7 - (total - 1) % 8, 8)
    ensures var end := (total - 1) / 8;
        Stream(true, bytes[end := And(bytes[end], mask)]) == Cleared(Stream(true, bytes), total)
  {
    hide Stream, Cleared, And, Field;
    var end := (total - 1) / 8;
    if total % 8 == 0 {
      NothingToClear(Stream(true, bytes), total);
      AndAll(bytes[end]);
      assert bytes[end := bytes[end]] == bytes;
    } else {
      ClearStream(true, bytes, total, And(bytes[end], mask));
    }
  }

  lemma AndAll(b: Byte)
    ensures And(b, Field(8, 0, 8)) == b
  {
  }

  lemma TailMask(k: nat)
    requires k < 8
    ensures Not(Dec(Shr(HIGH_BIT, k))) == Field(8, 7 - k, 8) && !IsZero(Field(8, 7 - k, 8))
  {
    assert Shr(HIGH_BIT, k) == OneHot(8, 7 - k);
    DecOneHot(8, 7 - k);
    assert Field(8, 7 - k, 8)[7];
  }

  /** A stream that is `s`, then padding zeros, then as before is the packed `s` followed by the old bytes. */
  lemma PackedInto(be: bool, bytes: seq<Byte>, before: seq<Byte>, s: seq<bool>)
    requires |bytes| == |before| && BytesFor(|s|) <= |bytes|
    requires Stream(be, bytes) == Cleared(s + Stream(be, before)[|s|..], |s|)
    ensures bytes == Packed(be, s) + before[BytesFor(|s|)..]
  {
    hide Stream, Packed;
    var used := BytesFor(|s|);
    var rest := before[used..];
    StreamOfPacked(be, s);
    StreamConcat(be, Packed(be, s), rest);
    StreamDrop(be, before, used);
    assert Cleared(s + Stream(be, before)[|s|..], |s|) == (s + Zeros(Padding(|s|))) + Stream(be, before)[8 * used..];
    StreamInjective(be, bytes, Packed(be, s) + rest);
  }

  lemma StreamDrop(be: bool, bytes: seq<Byte>, k: nat)
    requires k <= |bytes|
    ensures Stream(be, bytes[k..]) == Stream(be, bytes)[8 * k..]
  {
    assert bytes == bytes[..k] + bytes[k..];
    StreamConcat(be, bytes[..k], bytes[k..]);
  }

  /** Writing behind a finished prefix extends it. */
  lemma SpliceAppend(front: seq<bool>, s0: seq<bool>, r: seq<bool>)
    requires |front| + |r| <= |s0|
    ensures Splice(front + s0[|front|..], |front|, r) == front + r + s0[|front| + |r|..]
  {
  }
}
