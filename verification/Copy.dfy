/** The direct bit-cursor copies between packed columns in all bit orders: plain, through a
    selection mask, and expanding through a mask. Only the nominal output format is modelled.
    The source has one routine per pair of bit orders; they differ in how the cursors move. */
module Copy {
  import opened Words
  import opened Numbers
  import opened Streams
  import opened Packing
  import opened BitCursor
  import opened Columns

  /** `dst` holds the elements `es` so far; what follows is untouched. */
  ghost predicate Laid(be: bool, bytes: seq<Byte>, before: seq<Byte>, es: seq<Word>, w: nat) {
    && |bytes| == |before| && Uniform(es, w) && |Flat(be, es)| == Span(|es|, w) <= 8 * |before|
    && Stream(be, bytes) == Flat(be, es) + Stream(be, before)[Span(|es|, w)..]
  }

  lemma LaidNone(be: bool, bytes: seq<Byte>, w: nat)
    ensures Laid(be, bytes, bytes, [], w)
  {
  }

  lemma LaidNext(be: bool, bytes: seq<Byte>, before: seq<Byte>, es: seq<Word>, w: nat, e: Word, next: seq<Byte>)
    requires Laid(be, bytes, before, es, w) && |e| == w && |next| == |before| && Span(|es|, w) + w <= 8 * |before|
    requires Stream(be, next) == Splice(Stream(be, bytes), Span(|es|, w), InOrder(be, e))
    ensures Laid(be, next, before, es + [e], w)
  {
    hide Stream, Splice, InOrder;
    FlatAppend(be, es, e);
    FlatLength(be, es + [e], w);
    SpliceAppend(Flat(be, es), Stream(be, before), InOrder(be, e));
  }

  /** With the padding cleared, the buffer is the packed column followed by the old bytes. */
  lemma LaidAll(be: bool, bytes: seq<Byte>, before: seq<Byte>, es: seq<Word>, w: nat, final: seq<Byte>)
    requires Laid(be, bytes, before, es, w) && |final| == |before| && BytesFor(Span(|es|, w)) <= |before|
    requires Stream(be, final) == Cleared(Stream(be, bytes), Span(|es|, w))
    ensures final == PackElements(be, es) + before[BytesFor(Span(|es|, w))..]
  {
    PackedInto(be, final, before, Flat(be, es));
  }

  /** The padding in the last byte is cleared and the end of the output found. */
  method FinishCopy(dBe: bool, dst: array<Byte>, dPtr: int, dMask: Byte, total: nat, ghost before: seq<Byte>,
                    ghost es: seq<Word>, ghost w: nat)
    returns (end: int)
    requires Laid(dBe, dst[..], before, es, w) && total == Span(|es|, w) && BytesFor(total) <= dst.Length
    requires !dBe ==> At(false, total, dPtr, dMask)
    modifies dst
    ensures end == BytesFor(total)
    ensures dst[..] == PackElements(dBe, es) + before[end..]
  {
    hide At, Stream, PackElements, Cleared, Laid, Flat;
    ghost var laid := dst[..];
    LaidLength(dBe, laid, before, es, w);
    if !dBe {
      end := ClearTailLow(dst, dPtr, dMask, total);
    } else if total > 0 {
      end := ClearTailHigh(dst, total);
    } else {
      end := 0;
      NothingToClear(Stream(dBe, laid), 0);
    }
    LaidAll(dBe, laid, before, es, w, dst[..]);
  }

  lemma LaidLength(be: bool, bytes: seq<Byte>, before: seq<Byte>, es: seq<Word>, w: nat)
    requires Laid(be, bytes, before, es, w)
    ensures |bytes| == |before| && Span(|es|, w) <= 8 * |bytes|
  {
  }

  // ----- where the elements are read -----

  /** The first bit of element `k`. The copies from a big-endian source keep the offset of its last bit in 32 bits. */
  function SourceBase(sBe: bool, srcBitOffset: nat, w: nat, k: nat): int
    requires 1 <= w
  {
    if sBe then Wrap(srcBitOffset + Span(k, w) + w - 1) + 1 - w else srcBitOffset + Span(k, w)
  }

  /** All elements are read inside a stream of `bits` bits. */
  ghost predicate ReadsInside(sBe: bool, bits: nat, srcBitOffset: nat, w: nat, n: nat)
    requires 1 <= w
  {
    forall k :: 0 <= k < n ==> 0 <= SourceBase(sBe, srcBitOffset, w, k) <= bits - w
  }

  /** The elements as the copies read them. */
  ghost function Read(sBe: bool, s: seq<bool>, srcBitOffset: nat, w: nat, n: nat): (es: seq<Word>)
    requires 1 <= w && ReadsInside(sBe, |s|, srcBitOffset, w, n)
    ensures |es| == n && Uniform(es, w)
  {
    seq(n, k requires 0 <= k < n =>
      var base := SourceBase(sBe, srcBitOffset, w, k); InOrder(sBe, s[base..base + w]))
  }

  lemma ReadNext(sBe: bool, s: seq<bool>, srcBitOffset: nat, w: nat, n: nat, k: nat)
    requires 1 <= w && k < n && ReadsInside(sBe, |s|, srcBitOffset, w, n)
    ensures ReadsInside(sBe, |s|, srcBitOffset, w, k) && ReadsInside(sBe, |s|, srcBitOffset, w, k + 1)
    ensures var base := SourceBase(sBe, srcBitOffset, w, k);
        && 0 <= base <= |s| - w
        && Read(sBe, s, srcBitOffset, w, k + 1)
        == Read(sBe, s, srcBitOffset, w, k) + [InOrder(sBe, s[base..base + w])]
  {
    hide SourceBase, InOrder;
  }

  lemma PlainBase(sBe: bool, bits: nat, srcBitOffset: nat, w: nat, n: nat, k: nat)
    requires 1 <= w && k < n && srcBitOffset + Span(n, w) <= bits && (sBe ==> srcBitOffset + Span(n, w) <= TWO32)
    ensures SourceBase(sBe, srcBitOffset, w, k) == srcBitOffset + Span(k, w) <= bits - w
    ensures Span(k, w) + w <= Span(n, w)
  {
    SpanMono(k, n, w);
    if sBe { WrapSmall(srcBitOffset + Span(k, w) + w - 1); }
  }

  /** Where the offset does not wrap, these are the elements of the column. */
  lemma ReadIsColumn(sBe: bool, s: seq<bool>, srcBitOffset: nat, w: nat, n: nat)
    requires 1 <= w && srcBitOffset + Span(n, w) <= |s| && (sBe ==> srcBitOffset + Span(n, w) <= TWO32)
    ensures ReadsInside(sBe, |s|, srcBitOffset, w, n)
    ensures Read(sBe, s, srcBitOffset, w, n) == Chop(sBe, s[srcBitOffset..], w, n)
  {
    hide SourceBase, InOrder, Span;
    forall k | 0 <= k < n
      ensures SourceBase(sBe, srcBitOffset, w, k) == srcBitOffset + Span(k, w) <= |s| - w
    {
      PlainBase(sBe, |s|, srcBitOffset, w, n, k);
    }
    var es, cs := Read(sBe, s, srcBitOffset, w, n), Chop(sBe, s[srcBitOffset..], w, n);
    forall k | 0 <= k < n
      ensures es[k] == cs[k]
    {
      PlainBase(sBe, |s|, srcBitOffset, w, n, k);
      ReadAt(sBe, s, srcBitOffset, w, n, k);
      ColumnAt(sBe, s, srcBitOffset, w, n, k);
    }
  }

  /** The stream in which only bit `p` is set. */
  function SingleSet(bits: nat, p: nat): (s: seq<bool>)
    requires p < bits
    ensures |s| == bits
  {
    seq(bits, i => i == p)
  }

  lemma SetInside(bits: nat, p: nat, base: nat, w: nat)
    requires p < bits && base + w <= bits && 1 <= w
    ensures p == base + w - 1 ==> InOrder(true, SingleSet(bits, p)[base..base + w])[0]
    ensures base + w <= p ==> !InOrder(true, SingleSet(bits, p)[base..base + w])[0]
  {
  }

  lemma WrappedBase(srcBitOffset: nat, w: nat, k: nat)
    requires 1 <= w && TWO32 < srcBitOffset + Span(k, w) + w
    ensures SourceBase(true, srcBitOffset, w, k) + w < srcBitOffset + Span(k, w) + w
  {
  }

  lemma ReadAt(sBe: bool, s: seq<bool>, srcBitOffset: nat, w: nat, n: nat, k: nat)
    requires 1 <= w && k < n && ReadsInside(sBe, |s|, srcBitOffset, w, n)
    ensures var base := SourceBase(sBe, srcBitOffset, w, k);
        0 <= base <= |s| - w && Read(sBe, s, srcBitOffset, w, n)[k] == InOrder(sBe, s[base..base + w])
  {
    hide SourceBase, InOrder;
  }

  /** From a big-endian source, element `k` is the `w` bits up to bit number off + k * w + w - 1 modulo 2^32; from a
      little-endian one, the `w` bits from off + k * w on. */
  lemma ReadInNumbers(s: seq<bool>, off: nat, w: nat, n: nat, k: nat)
    requires 1 <= w && k < n
    ensures ReadsInside(true, |s|, off, w, n) ==>
        var e := (off + k * w + w - 1) % 0x1_0000_0000 + 1;
        w <= e <= |s| && Read(true, s, off, w, n)[k] == Rev(s[e - w..e])
    ensures ReadsInside(false, |s|, off, w, n) ==>
        var p := off + k * w; p + w <= |s| && Read(false, s, off, w, n)[k] == s[p..p + w]
  {
    hide Read, ReadsInside, Span, Rev;
    SpanIsProduct(k, w);
    if ReadsInside(true, |s|, off, w, n) { ReadAt(true, s, off, w, n, k); }
    if ReadsInside(false, |s|, off, w, n) { ReadAt(false, s, off, w, n, k); }
  }

  lemma ColumnAt(be: bool, s: seq<bool>, a: nat, w: nat, n: nat, k: nat)
    requires k < n && a + Span(n, w) <= |s|
    ensures Span(k, w) + w <= Span(n, w)
    ensures var base := a + Span(k, w); Chop(be, s[a..], w, n)[k] == InOrder(be, s[base..base + w])
  {
    hide InOrder, Chop, Span;
    SpanMono(k, n, w);
    SameSlice(s, a, Span(k, w), w);
    ChopAt(be, s[a..], w, n, k);
  }

  /** Once the offset of a big-endian source wraps, some column of that length is copied wrongly. */
  lemma WrappedReadIsWrong(srcBitOffset: nat, w: nat, n: nat, bits: nat)
    requires 1 <= w && 1 <= n
    requires TWO32 < srcBitOffset + Span(n, w) <= bits && ReadsInside(true, bits, srcBitOffset, w, n)
    ensures var s := SingleSet(bits, srcBitOffset + Span(n, w) - 1);
        Read(true, s, srcBitOffset, w, n) != Chop(true, s[srcBitOffset..], w, n)
  {
    hide InOrder, SingleSet, SourceBase, ReadsInside, Read, Chop;
    var k := n - 1;
    var last := srcBitOffset + Span(k, w) + w - 1;
    var s := SingleSet(bits, last);
    WrappedBase(srcBitOffset, w, k);
    ReadAt(true, s, srcBitOffset, w, n, k);
    ColumnAt(true, s, srcBitOffset, w, n, k);
    SetInside(bits, last, SourceBase(true, srcBitOffset, w, k), w);
    SetInside(bits, last, srcBitOffset + Span(k, w), w);
  }

  /** A big-endian source is read inside its bounds and as the column it is, whatever its bits, exactly when the column
      ends within 2^32 bits. */
  lemma ReadsEveryColumn(srcBitOffset: nat, w: nat, n: nat, bits: nat)
    requires 1 <= w && 1 <= n && srcBitOffset + Span(n, w) <= bits
    ensures (&& ReadsInside(true, bits, srcBitOffset, w, n)
             && forall s: seq<bool> | |s| == bits ::
                  Read(true, s, srcBitOffset, w, n) == Chop(true, s[srcBitOffset..], w, n))
       <==> srcBitOffset + Span(n, w) <= TWO32
  {
    hide ReadsInside, Read, Chop, Span, SingleSet;
    if srcBitOffset + Span(n, w) <= TWO32 {
      ReadIsColumn(true, Zeros(bits), srcBitOffset, w, n);
      forall s: seq<bool> | |s| == bits
        ensures Read(true, s, srcBitOffset, w, n) == Chop(true, s[srcBitOffset..], w, n)
      {
        ReadIsColumn(true, s, srcBitOffset, w, n);
      }
    } else if ReadsInside(true, bits, srcBitOffset, w, n) {
      WrappedReadIsWrong(srcBitOffset, w, n, bits);
    }
  }

  /** For one: of 2^27 + 1 elements of 32 bits the last one is read from the place of the first. */
  lemma LastElementReadAsFirst(s: seq<bool>)
    requires |s| == TWO32 + 32
    ensures var n := 0x800_0001;
        && ReadsInside(true, |s|, 0, 32, n)
        && Read(true, s, 0, 32, n)[n - 1] == Chop(true, s, 32, 1)[0]
  {
    var n := 0x800_0001;
    forall k | 0 <= k < n
      ensures 0 <= SourceBase(true, 0, 32, k) <= |s| - 32
    {
      SpanIsProduct(k, 32);
      if k < n - 1 { WrapSmall(32 * k + 31); }
    }
    SpanIsProduct(n - 1, 32);
    assert SourceBase(true, 0, 32, n - 1) == 0;
    assert Span(1, 32) == 32;
  }

  method CopyNominal(sBe: bool, src: seq<Byte>, srcBitOffset: nat, dBe: bool, dst: array<Byte>, w: nat, n: nat)
    returns (end: int)
    requires 1 <= w && 1 <= n && srcBitOffset < 8
    requires ReadsInside(sBe, 8 * |src|, srcBitOffset, w, n) && BytesFor(Span(n, w)) <= dst.Length
    modifies dst
    ensures end == BytesFor(Span(n, w))
    ensures dst[..] == PackElements(dBe, Read(sBe, Stream(sBe, src), srcBitOffset, w, n)) + old(dst[..])[end..]
    // with an offset that does not wrap, the elements read are those of the column
    ensures (sBe ==> srcBitOffset + Span(n, w) <= TWO32) && srcBitOffset + Span(n, w) <= 8 * |src| ==>
        dst[..] == PackElements(dBe, Chop(sBe, Stream(sBe, src)[srcBitOffset..], w, n)) + old(dst[..])[end..]
  {
    hide At, Stream, PackElements, Laid, Chop, Read, ReadsInside, InOrder, Splice, Wrap, Span, SourceBase, BitPos;
    ghost var s := Stream(sBe, src);
    var sPtr: int, sMask: Byte := 0, Shl(LOW_BIT, srcBitOffset);
    var dPtr: int, dMask: Byte := 0, LOW_BIT;
    ghost var before := dst[..];
    SeatLow(srcBitOffset);
    SeatStart();
    LaidNone(dBe, before, w);
    ReadNext(sBe, s, srcBitOffset, w, n, 0);
    ReadNone(sBe, s, srcBitOffset, w);
    var srcOffset: nat, dstOffset := srcBitOffset, 0;
    WrapSmall(srcBitOffset);
    for k := 0 to n
      invariant srcOffset == (if sBe then Wrap(srcBitOffset + Span(k, w)) else srcBitOffset + Span(k, w))
      invariant dstOffset == Span(k, w) <= Span(n, w)
      invariant !sBe ==> At(false, srcOffset, sPtr, sMask)
      invariant !dBe ==> At(false, dstOffset, dPtr, dMask)
      invariant ReadsInside(sBe, |s|, srcBitOffset, w, k)
      invariant Laid(dBe, dst[..], before, Read(sBe, s, srcBitOffset, w, k), w)
    {
      SpanMono(k, n, w);
      SpanNext(k, w);
      ReadNext(sBe, s, srcBitOffset, w, n, k);
      LowCursor(srcBitOffset, dstOffset, w, k);
      ghost var laid, base := dst[..], SourceBase(sBe, srcBitOffset, w, k);
      if sBe {
        srcOffset, sPtr, sMask := SeatSource(srcOffset, w, srcBitOffset, k);
      }
      if dBe {
        dPtr, dMask := SeatBig(dstOffset + w, dstOffset, w);
      }
      sPtr, sMask, dPtr, dMask := CopyElement(sBe, src, sPtr, sMask, dBe, dst, dPtr, dMask, w, base, dstOffset);
      LaidNext(dBe, laid, before, Read(sBe, s, srcBitOffset, w, k), w, InOrder(sBe, s[base..base + w]), dst[..]);
      srcOffset, dstOffset := (if sBe then srcOffset else srcOffset + w), dstOffset + w;
    }
    end := FinishCopy(dBe, dst, dPtr, dMask, dstOffset, before, Read(sBe, s, srcBitOffset, w, n), w);
    if (sBe ==> srcBitOffset + Span(n, w) <= TWO32) && srcBitOffset + Span(n, w) <= 8 * |src| {
      ReadIsColumn(sBe, s, srcBitOffset, w, n);
    }
  }

  /** Moves the 32-bit offset of a big-endian source behind the next element and seats the cursor on its last bit. */
  method SeatSource(srcOffset0: nat, w: nat, ghost srcBitOffset: nat, ghost k: nat)
    returns (srcOffset: nat, ptr: int, mask: Byte)
    requires 1 <= w && srcOffset0 == Wrap(srcBitOffset + Span(k, w))
    ensures srcOffset == Wrap(srcBitOffset + Span(k + 1, w))
    ensures At(true, BitPos(true, SourceBase(true, srcBitOffset, w, k), w, 0), ptr, mask)
  {
    hide At, Wrap;
    ghost var p := srcBitOffset + Span(k, w);
    WrapAdd(p, w);
    srcOffset := Wrap(srcOffset0 + w);
    LastBit(p + w);
    var last: nat := if srcOffset == 0 then TWO32 - 1 else srcOffset - 1;
    SeatHigh(last);
    ptr, mask := last / 8, Shr(HIGH_BIT, last % 8);
  }

  lemma ReadNone(sBe: bool, s: seq<bool>, srcBitOffset: nat, w: nat)
    requires 1 <= w && ReadsInside(sBe, |s|, srcBitOffset, w, 0)
    ensures Span(0, w) == 0 && Read(sBe, s, srcBitOffset, w, 0) == []
  {
  }

  /** Little-endian cursors enter an element at its first bit and leave it behind its last. */
  lemma LowCursor(srcBitOffset: nat, dstOffset: nat, w: nat, k: nat)
    requires 1 <= w
    ensures SourceBase(false, srcBitOffset, w, k) == srcBitOffset + Span(k, w)
    ensures BitPos(false, srcBitOffset + Span(k, w), w, 0) == srcBitOffset + Span(k, w)
    ensures BitPos(false, srcBitOffset + Span(k, w), w, w) == srcBitOffset + Span(k, w) + w
    ensures BitPos(false, dstOffset, w, 0) == dstOffset && BitPos(false, dstOffset, w, w) == dstOffset + w
  {
  }

  /** One less than a wrapped offset is the wrapped predecessor. */
  lemma LastBit(p: nat)
    requires p > 0
    ensures Wrap(p - 1) == if Wrap(p) == 0 then TWO32 - 1 else Wrap(p) - 1
  {
  }

  lemma SeatStart()
    ensures At(false, 0, 0, LOW_BIT)
  {
  }

  /** A big-endian element is entered at its last bit, found from the offset behind it. */
  method SeatBig(offset: nat, ghost base: nat, ghost w: nat) returns (ptr: int, mask: Byte)
    requires 1 <= w && offset == base + w
    ensures At(true, BitPos(true, base, w, 0), ptr, mask)
  {
    SeatHigh(offset - 1);
    ptr, mask := (offset - 1) / 8, Shr(HIGH_BIT, (offset - 1) % 8);
  }

  // ----- reading the selection mask -----

  /** The mask cursor stands on bit `k`, with its byte loaded. */
  ghost predicate OnMask(maskBe: bool, mask: seq<Byte>, k: nat, ptr: int, msk: Byte, mByte: Byte) {
    At(maskBe, k, ptr, msk) && ptr == k / 8 < |mask| && mByte == mask[ptr]
  }

  /** Takes the next mask bit; the next mask byte is loaded as soon as the current one is used up. */
  method NextMaskBit(maskBe: bool, mask: seq<Byte>, ptr0: int, msk0: Byte, mByte0: Byte, ghost k: nat, ghost n: nat)
    returns (bit: bool, ptr: int, msk: Byte, mByte: Byte)
    requires k < n && n / 8 < |mask| && OnMask(maskBe, mask, k, ptr0, msk0, mByte0)
    ensures bit == MaskBits(maskBe, mask, n)[k]
    ensures OnMask(maskBe, mask, k + 1, ptr, msk, mByte)
  {
    hide Stream, At;
    TestBit(maskBe, mask, k, ptr0, msk0);
    MaskShift(maskBe, k, ptr0, msk0);
    bit := !IsZero(And(mByte0, msk0));
    ptr, mByte := ptr0, mByte0;
    msk := if maskBe then Shr(msk0, 1) else Shl(msk0, 1);
    if IsZero(msk) {
      ptr := ptr + 1;
      msk := if maskBe then HIGH_BIT else LOW_BIT;
      mByte := mask[ptr];
    }
  }

  lemma MaskShift(maskBe: bool, k: nat, ptr: int, msk: Byte)
    requires At(maskBe, k, ptr, msk)
    ensures var next := if maskBe then Shr(msk, 1) else Shl(msk, 1);
      if k % 8 == 7 then
        && IsZero(next) && ptr + 1 == (k + 1) / 8
        && At(maskBe, k + 1, ptr + 1, if maskBe then HIGH_BIT else LOW_BIT)
      else !IsZero(next) && At(maskBe, k + 1, ptr, next)
  {
    var j := if maskBe then 7 - k % 8 else k % 8;
    var next := if maskBe then Shr(msk, 1) else Shl(msk, 1);
    if k % 8 < 7 {
      var j' := if maskBe then j - 1 else j + 1;
      assert next == OneHot(8, j');
      assert next[j'];
    }
  }

  /** The first `n` bits of a mask in its bit order. */
  function MaskBits(maskBe: bool, mask: seq<Byte>, n: nat): (m: seq<bool>)
    requires n <= 8 * |mask|
    ensures |m| == n
  {
    Stream(maskBe, mask)[..n]
  }

  /** What a masked copy keeps of the first `n` elements of a stream. */
  function Kept(sBe: bool, s: seq<bool>, w: nat, n: nat, m: seq<bool>): seq<Word>
    requires Span(n, w) <= |s| && n <= |m|
  {
    Select(Chop(sBe, s, w, n), m[..n])
  }

  lemma KeptNext(sBe: bool, s: seq<bool>, w: nat, n: nat, m: seq<bool>)
    requires Span(n, w) + w <= |s| && n < |m|
    ensures m[n] ==> Kept(sBe, s, w, n + 1, m) == Kept(sBe, s, w, n, m) + [Elem(sBe, s, w, n)]
    ensures !m[n] ==> Kept(sBe, s, w, n + 1, m) == Kept(sBe, s, w, n, m)
    ensures Popcount(m[..n + 1]) == Popcount(m[..n]) + if m[n] then 1 else 0
  {
    hide Elem;
    ChopNext(sBe, s, w, n);
    var es := Chop(sBe, s, w, n + 1);
    assert es[..n] == Chop(sBe, s, w, n) && m[..n + 1][..n] == m[..n];
  }

  /** Seats both cursors for one selected element and copies it. */
  method CopySelected(sBe: bool, src: seq<Byte>, srcOffset: nat, dBe: bool, dst: array<Byte>, dPtr0: int, dMask0: Byte,
                      dstOffset: nat, w: nat)
    returns (dPtr: int, dMask: Byte)
    requires 1 <= w && srcOffset + w <= 8 * |src| && dstOffset + w <= 8 * dst.Length
    requires !dBe ==> At(false, dstOffset, dPtr0, dMask0)
    modifies dst
    ensures !dBe ==> At(false, dstOffset + w, dPtr, dMask)
    ensures Stream(dBe, dst[..])
         == Splice(old(Stream(dBe, dst[..])), dstOffset,
                   InOrder(dBe, InOrder(sBe, Stream(sBe, src)[srcOffset..srcOffset + w])))
  {
    hide At, Stream, InOrder, Splice;
    var sPtr: int, sMask: Byte := srcOffset / 8, Shl(LOW_BIT, srcOffset % 8);
    SeatLow(srcOffset);
    dPtr, dMask := dPtr0, dMask0;
    if sBe {
      sPtr, sMask := SeatBig(srcOffset + w, srcOffset, w);
    }
    if dBe {
      dPtr, dMask := SeatBig(dstOffset + w, dstOffset, w);
    }
    sPtr, sMask, dPtr, dMask := CopyElement(sBe, src, sPtr, sMask, dBe, dst, dPtr, dMask, w, srcOffset, dstOffset);
  }

  /** One mask bit of a masked copy: a selected element is copied if there is room for it. */
  method SelectElement(mBit: bool, sBe: bool, src: seq<Byte>, srcOffset: nat, dBe: bool, dst: array<Byte>, dPtr0: int,
                       dMask0: Byte, dstOffset0: nat, outputBits0: nat, w: nat, ghost before: seq<Byte>,
                       ghost m: seq<bool>, ghost k: nat)
    returns (ok: bool, dPtr: int, dMask: Byte, dstOffset: nat, outputBits: nat)
    requires 1 <= w && k < |m| && mBit == m[k] && srcOffset == Span(k, w) && Span(k, w) + w <= 8 * |src|
    requires dstOffset0 == Span(Popcount(m[..k]), w) && dstOffset0 + outputBits0 <= 8 * dst.Length
    requires !dBe ==> At(false, dstOffset0, dPtr0, dMask0)
    requires Laid(dBe, dst[..], before, Kept(sBe, Stream(sBe, src), w, k, m), w) && |before| == dst.Length
    modifies dst
    ensures ok == (Span(Popcount(m[..k + 1]), w) <= dstOffset0 + outputBits0)
    ensures ok ==>
      && dstOffset == Span(Popcount(m[..k + 1]), w) && dstOffset + outputBits == dstOffset0 + outputBits0
      && (!dBe ==> At(false, dstOffset, dPtr, dMask))
      && Laid(dBe, dst[..], before, Kept(sBe, Stream(sBe, src), w, k + 1, m), w)
  {
    hide At, Stream, Laid, Chop, Elem, InOrder, Splice, Kept, Select, Popcount;
    ghost var s, laid := Stream(sBe, src), dst[..];
    KeptNext(sBe, s, w, k, m);
    KeptCount(sBe, s, w, k, m);
    ok, dPtr, dMask, dstOffset, outputBits := true, dPtr0, dMask0, dstOffset0, outputBits0;
    if mBit {
      if w > outputBits { return false, dPtr, dMask, dstOffset, outputBits; }
      outputBits := outputBits - w;
      dPtr, dMask := CopySelected(sBe, src, srcOffset, dBe, dst, dPtr, dMask, dstOffset, w);
      ElemIs(sBe, s, w, k);
      LaidNext(dBe, laid, before, Kept(sBe, s, w, k, m), w, Elem(sBe, s, w, k), dst[..]);
      dstOffset := dstOffset + w;
    }
  }

  /** The copy of the elements selected by a mask. `outputBits` is the room left in the destination. */
  method CopyMasked(sBe: bool, src: seq<Byte>, maskBe: bool, mask: seq<Byte>, dBe: bool, dst: array<Byte>,
                    outputBits0: nat, w: nat, n: nat)
    returns (status: Status, end: int, outputBits: nat)
    requires 1 <= w && Span(n, w) <= 8 * |src| && n / 8 < |mask| && outputBits0 <= 8 * dst.Length
    modifies dst
    ensures var need := Span(Popcount(MaskBits(maskBe, mask, n)), w);
      && status == (if need <= outputBits0 then Ok else DstIsShort)
      && (status.Ok? ==>
            && outputBits == outputBits0 - need && end == BytesFor(need)
            && dst[..] == PackElements(dBe, Select(Unpack(sBe, src, w, n), MaskBits(maskBe, mask, n)))
                        + old(dst[..])[end..])
  {
    hide At, Stream, PackElements, Laid, Unpack, Kept, Select, Popcount, OnMask, MaskBits, Span;
    ghost var s := Stream(sBe, src);
    ghost var m := MaskBits(maskBe, mask, n);
    var dPtr: int, dMask: Byte := 0, LOW_BIT;
    var mPtr: int, msk: Byte, mByte: Byte := 0, (if maskBe then HIGH_BIT else LOW_BIT), mask[0];
    ghost var before := dst[..];
    SeatStart();
    SeatMask(maskBe, mask);
    LaidNone(dBe, before, w);
    KeptNone(sBe, s, w, m);
    var srcOffset, dstOffset: nat := 0, 0;
    outputBits := outputBits0;
    end := 0;
    for k := 0 to n
      invariant srcOffset == Span(k, w) <= Span(n, w)
      invariant dstOffset == Span(Popcount(m[..k]), w) && outputBits == outputBits0 - dstOffset
      invariant OnMask(maskBe, mask, k, mPtr, msk, mByte)
      invariant !dBe ==> At(false, dstOffset, dPtr, dMask)
      invariant Laid(dBe, dst[..], before, Kept(sBe, s, w, k, m), w)
    {
      SpanMono(k, n, w);
      SpanNext(k, w);
      var mBit: bool, ok: bool;
      mBit, mPtr, msk, mByte := NextMaskBit(maskBe, mask, mPtr, msk, mByte, k, n);
      ok, dPtr, dMask, dstOffset, outputBits :=
        SelectElement(mBit, sBe, src, srcOffset, dBe, dst, dPtr, dMask, dstOffset, outputBits, w, before, m, k);
      if !ok {
        NoRoom(m, k + 1, w);
        return DstIsShort, end, outputBits;
      }
      srcOffset := srcOffset + w;
    }
    KeptAll(sBe, src, w, n, m);
    end := FinishCopy(dBe, dst, dPtr, dMask, dstOffset, before, Kept(sBe, s, w, n, m), w);
    status := Ok;
  }

  lemma ElemIs(be: bool, s: seq<bool>, w: nat, i: nat)
    requires Span(i, w) + w <= |s|
    ensures Elem(be, s, w, i) == InOrder(be, s[Span(i, w)..Span(i, w) + w])
  {
  }

  lemma KeptAll(sBe: bool, src: seq<Byte>, w: nat, n: nat, m: seq<bool>)
    requires |m| == n && Span(n, w) <= 8 * |src|
    ensures m[..n] == m && Kept(sBe, Stream(sBe, src), w, n, m) == Select(Unpack(sBe, src, w, n), m)
    ensures |Kept(sBe, Stream(sBe, src), w, n, m)| == Popcount(m)
  {
    assert m[..n] == m;
    KeptCount(sBe, Stream(sBe, src), w, n, m);
  }

  lemma SeatMask(maskBe: bool, mask: seq<Byte>)
    requires mask != []
    ensures OnMask(maskBe, mask, 0, 0, if maskBe then HIGH_BIT else LOW_BIT, mask[0])
  {
  }

  lemma KeptNone(sBe: bool, s: seq<bool>, w: nat, m: seq<bool>)
    ensures Span(0, w) == 0 && Kept(sBe, s, w, 0, m) == [] && Popcount(m[..0]) == 0
  {
  }

  lemma KeptCount(sBe: bool, s: seq<bool>, w: nat, n: nat, m: seq<bool>)
    requires Span(n, w) <= |s| && n <= |m|
    ensures |Kept(sBe, s, w, n, m)| == Popcount(m[..n])
  {
    SelectLength(Chop(sBe, s, w, n), m[..n]);
  }

  lemma NoRoom(m: seq<bool>, k: nat, w: nat)
    requires k <= |m|
    ensures Span(Popcount(m[..k]), w) <= Span(Popcount(m), w)
  {
    PopcountPrefix(m, k);
    if Popcount(m[..k]) < Popcount(m) { SpanMono(Popcount(m[..k]), Popcount(m), w); }
  }

  // ----- expanding a little-endian source -----

  method ZeroElement(dBe: bool, dst: array<Byte>, dPtr0: int, dMask0: Byte, w: nat, ghost dBase: nat)
    returns (dPtr: int, dMask: Byte)
    requires At(dBe, BitPos(dBe, dBase, w, 0), dPtr0, dMask0) && dBase + w <= 8 * dst.Length
    modifies dst
    ensures At(dBe, BitPos(dBe, dBase, w, w), dPtr, dMask)
    ensures Stream(dBe, dst[..]) == Splice(old(Stream(dBe, dst[..])), dBase, InOrder(dBe, Zeros(w)))
  {
    hide At, Partial, Stream, Splice, InOrder, BitPos;
    ghost var s0 := Stream(dBe, dst[..]);
    dPtr, dMask := dPtr0, dMask0;
    PartialStart(dBe, s0, dBase, Zeros(w));
    for i := 0 to w
      invariant At(dBe, BitPos(dBe, dBase, w, i), dPtr, dMask)
      invariant Partial(dBe, s0, Stream(dBe, dst[..]), dBase, Zeros(w), i)
    {
      dPtr, dMask := PutBit(dBe, dst, dPtr, dMask, false, s0, dBase, Zeros(w), i);
    }
    PartialDone(dBe, s0, Stream(dBe, dst[..]), dBase, Zeros(w));
  }

  /** The `w` bits from `base` on, zeros behind the end. */
  function BitsFrom(s: seq<bool>, base: nat, w: nat): (e: Word)
    ensures |e| == w
  {
    seq(w, j requires 0 <= j < w => base + j < |s| && s[base + j])
  }

  /** Copies one element, counting down the source bytes and stopping when they run out. */
  method CopyElementChecked(src: seq<Byte>, sPtr0: int, sMask0: Byte, iBytes0: nat, dBe: bool, dst: array<Byte>,
                            dPtr0: int, dMask0: Byte, w: nat, ghost avail: nat, ghost sBase: nat, ghost dBase: nat)
    returns (ok: bool, sPtr: int, sMask: Byte, iBytes: nat, dPtr: int, dMask: Byte)
    requires At(false, sBase, sPtr0, sMask0) && sBase <= 8 * avail <= 8 * |src| && iBytes0 == avail - sBase / 8
    requires At(dBe, BitPos(dBe, dBase, w, 0), dPtr0, dMask0) && dBase + w <= 8 * dst.Length
    modifies dst
    ensures ok == (sBase + w <= 8 * avail)
    ensures ok ==>
      && At(false, sBase + w, sPtr, sMask) && iBytes == avail - (sBase + w) / 8
      && At(dBe, BitPos(dBe, dBase, w, w), dPtr, dMask)
      && Stream(dBe, dst[..])
         == Splice(old(Stream(dBe, dst[..])), dBase, InOrder(dBe, Stream(false, src)[sBase..sBase + w]))
  {
    hide At, Partial, Stream, Splice, InOrder;
    ghost var s0 := Stream(dBe, dst[..]);
    ghost var e := BitsFrom(Stream(false, src), sBase, w);
    sPtr, sMask, iBytes, dPtr, dMask := sPtr0, sMask0, iBytes0, dPtr0, dMask0;
    PartialStart(dBe, s0, dBase, e);
    for i := 0 to w
      invariant sBase + i <= 8 * avail && iBytes == avail - (sBase + i) / 8
      invariant At(false, sBase + i, sPtr, sMask) && At(dBe, BitPos(dBe, dBase, w, i), dPtr, dMask)
      invariant Partial(dBe, s0, Stream(dBe, dst[..]), dBase, e, i)
    {
      if iBytes == 0 { return false, sPtr, sMask, iBytes, dPtr, dMask; }
      PtrOf(sBase + i, sPtr, sMask);
      var srcBit: bool;
      var from := sPtr;
      SingleBit(Stream(false, src), sBase + i);
      srcBit, sPtr, sMask := TakeBit(false, src, sPtr, sMask, sBase + i, 1, 0);
      PtrOf(sBase + i + 1, sPtr, sMask);
      if sPtr != from { iBytes := iBytes - 1; }
      dPtr, dMask := PutBit(dBe, dst, dPtr, dMask, srcBit, s0, dBase, e, i);
    }
    assert e == Stream(false, src)[sBase..sBase + w];
    PartialDone(dBe, s0, Stream(dBe, dst[..]), dBase, e);
    ok := true;
  }

  lemma PtrOf(p: nat, ptr: int, mask: Byte)
    requires At(false, p, ptr, mask)
    ensures ptr == p / 8
  {
  }

  lemma SingleBit(s: seq<bool>, p: nat)
    requires p < |s|
    ensures InOrder(false, s[p..p + 1])[0] == s[p]
  {
  }

  /** What expanding has produced after `k` mask bits. */
  function Expanded(be: bool, s: seq<bool>, w: nat, m: seq<bool>, k: nat): (es: seq<Word>)
    requires k <= |m| && Span(Popcount(m[..k]), w) <= |s|
    ensures |es| == k
  {
    Expand(m[..k], Chop(be, s, w, Popcount(m[..k])), Zeros(w))
  }

  lemma ExpandedNext(be: bool, s: seq<bool>, w: nat, m: seq<bool>, k: nat)
    requires k < |m| && Span(Popcount(m[..k + 1]), w) <= |s|
    ensures Popcount(m[..k + 1]) == Popcount(m[..k]) + if m[k] then 1 else 0
    ensures Span(Popcount(m[..k]), w) <= |s|
    ensures !m[k] ==> Expanded(be, s, w, m, k + 1) == Expanded(be, s, w, m, k) + [Zeros(w)]
    ensures m[k] ==> Span(Popcount(m[..k]), w) + w <= |s|
    ensures m[k] ==> Expanded(be, s, w, m, k + 1) == Expanded(be, s, w, m, k) + [Elem(be, s, w, Popcount(m[..k]))]
  {
    hide Chop, Elem;
    assert m[..k + 1][..k] == m[..k];
    var p := Popcount(m[..k]);
    if m[k] {
      ChopNext(be, s, w, p);
      ExpandPrefix(m[..k], Chop(be, s, w, p + 1), Chop(be, s, w, p), Zeros(w));
    }
  }

  /** One output element: zero for a clear mask bit, the next source element for a set one. */
  method ExpandElement(mBit: bool, src: seq<Byte>, sPtr0: int, sMask0: Byte, iBytes0: nat, dBe: bool, dst: array<Byte>,
                       dPtr0: int, dMask0: Byte, w: nat, dstOffset: nat, ghost avail: nat, ghost before: seq<Byte>,
                       ghost m: seq<bool>, ghost k: nat)
    returns (ok: bool, sPtr: int, sMask: Byte, iBytes: nat, dPtr: int, dMask: Byte)
    requires k < |m| && mBit == m[k] && Span(Popcount(m[..k]), w) <= 8 * avail <= 8 * |src|
    requires At(false, Span(Popcount(m[..k]), w), sPtr0, sMask0) && iBytes0 == avail - Span(Popcount(m[..k]), w) / 8
    requires At(dBe, BitPos(dBe, dstOffset, w, 0), dPtr0, dMask0)
    requires dstOffset == Span(k, w) && dstOffset + w <= 8 * dst.Length
    requires Laid(dBe, dst[..], before, Expanded(false, Stream(false, src), w, m, k), w) && |before| == dst.Length
    modifies dst
    ensures ok == (Span(Popcount(m[..k + 1]), w) <= 8 * avail)
    ensures ok ==>
      && At(false, Span(Popcount(m[..k + 1]), w), sPtr, sMask) && iBytes == avail - Span(Popcount(m[..k + 1]), w) / 8
      && At(dBe, BitPos(dBe, dstOffset, w, w), dPtr, dMask)
      && Laid(dBe, dst[..], before, Expanded(false, Stream(false, src), w, m, k + 1), w)
  {
    hide At, Stream, Laid, Chop, Elem, InOrder, Splice, Expand, Expanded, Popcount, BitPos;
    ghost var s, laid, p := Stream(false, src), dst[..], Popcount(m[..k]);
    ok, sPtr, sMask, iBytes := true, sPtr0, sMask0, iBytes0;
    PopcountNext(m, k);
    if !mBit {
      dPtr, dMask := ZeroElement(dBe, dst, dPtr0, dMask0, w, dstOffset);
      ExpandedNext(false, s, w, m, k);
      LaidNext(dBe, laid, before, Expanded(false, s, w, m, k), w, Zeros(w), dst[..]);
    } else {
      ok, sPtr, sMask, iBytes, dPtr, dMask :=
        CopyElementChecked(src, sPtr, sMask, iBytes, dBe, dst, dPtr0, dMask0, w, avail, Span(p, w), dstOffset);
      if ok {
        ExpandedNext(false, s, w, m, k);
        ElemLow(s, w, p);
        LaidNext(dBe, laid, before, Expanded(false, s, w, m, k), w, Elem(false, s, w, p), dst[..]);
      }
    }
  }

  lemma ElemLow(s: seq<bool>, w: nat, i: nat)
    requires Span(i, w) + w <= |s|
    ensures Elem(false, s, w, i) == s[Span(i, w)..Span(i, w) + w]
  {
  }

  method ExpandMasked(src: seq<Byte>, maskBe: bool, mask: seq<Byte>, dBe: bool, dst: array<Byte>, iBytes0: nat,
                      w: nat, n: nat)
    returns (status: Status, end: int, iBytes: nat)
    requires 1 <= w && 1 <= n && iBytes0 <= |src| && n / 8 < |mask| && BytesFor(Span(n, w)) <= dst.Length
    modifies dst
    ensures var m := MaskBits(maskBe, mask, n);
      var need := Span(Popcount(m), w);
      && status == (if need <= 8 * iBytes0 then Ok else SrcIsShort)
      && (status.Ok? ==>
            && iBytes == iBytes0 - BytesFor(need) && end == BytesFor(Span(n, w))
            && dst[..] == PackElements(dBe, Expand(m, Unpack(false, src, w, Popcount(m)), Zeros(w)))
                        + old(dst[..])[end..])
  {
    hide At, Stream, PackElements, Laid, Unpack, Expand, Expanded, Popcount, OnMask, MaskBits, Span;
    ghost var s := Stream(false, src);
    ghost var m := MaskBits(maskBe, mask, n);
    var sPtr: int, sMask: Byte := 0, LOW_BIT;
    var dPtr: int, dMask: Byte := 0, LOW_BIT;
    var mPtr: int, msk: Byte, mByte: Byte := 0, (if maskBe then HIGH_BIT else LOW_BIT), mask[0];
    ghost var before := dst[..];
    SeatStart();
    SeatMask(maskBe, mask);
    LaidNone(dBe, before, w);
    ExpandedNone(false, s, w, m);
    var dstOffset := 0;
    iBytes := iBytes0;
    end := 0;
    for k := 0 to n
      invariant dstOffset == Span(k, w) <= Span(n, w)
      invariant Span(Popcount(m[..k]), w) <= 8 * iBytes0 && iBytes == iBytes0 - Span(Popcount(m[..k]), w) / 8
      invariant At(false, Span(Popcount(m[..k]), w), sPtr, sMask)
      invariant OnMask(maskBe, mask, k, mPtr, msk, mByte)
      invariant !dBe ==> At(false, dstOffset, dPtr, dMask)
      invariant Laid(dBe, dst[..], before, Expanded(false, s, w, m, k), w)
    {
      SpanMono(k, n, w);
      SpanNext(k, w);
      if dBe {
        dPtr, dMask := SeatBig(dstOffset + w, dstOffset, w);
      }
      var mBit: bool, ok: bool;
      mBit, mPtr, msk, mByte := NextMaskBit(maskBe, mask, mPtr, msk, mByte, k, n);
      ok, sPtr, sMask, iBytes, dPtr, dMask :=
        ExpandElement(mBit, src, sPtr, sMask, iBytes, dBe, dst, dPtr, dMask, w, dstOffset, iBytes0, before, m, k);
      if !ok {
        NoRoom(m, k + 1, w);
        return SrcIsShort, end, iBytes;
      }
      dstOffset := dstOffset + w;
    }
    assert m[..n] == m;
    ExpandedAll(false, src, w, n, m);
    end := FinishCopy(dBe, dst, dPtr, dMask, dstOffset, before, Expanded(false, s, w, m, n), w);
    SeatedOnByte(Span(Popcount(m), w), sPtr, sMask);
    if 0 < iBytes && sMask != LOW_BIT { iBytes := iBytes - 1; }
    status := Ok;
  }

  lemma ExpandedNone(be: bool, s: seq<bool>, w: nat, m: seq<bool>)
    ensures Span(0, w) == 0 && Popcount(m[..0]) == 0 && Expanded(be, s, w, m, 0) == []
  {
  }

  lemma ExpandedAll(be: bool, src: seq<Byte>, w: nat, n: nat, m: seq<bool>)
    requires |m| == n && Span(Popcount(m), w) <= 8 * |src|
    ensures m[..n] == m
    ensures Expanded(be, Stream(be, src), w, m, n) == Expand(m, Unpack(be, src, w, Popcount(m)), Zeros(w))
  {
    assert m[..n] == m;
  }

  lemma SeatedOnByte(p: nat, ptr: int, mask: Byte)
    requires At(false, p, ptr, mask)
    ensures (mask == LOW_BIT) == (p % 8 == 0)
  {
    assert LOW_BIT[0];
  }

  // ----- expanding a big-endian source -----

  /** One output element; the source offset moves only for a set mask bit, if the element ends early enough. */
  method PlaceElement(mBit: bool, src: seq<Byte>, srcOffset0: nat, dBe: bool, dst: array<Byte>, dPtr0: int,
                      dMask0: Byte, dstOffset: nat, iBytes: nat, w: nat, ghost before: seq<Byte>,
                      ghost m: seq<bool>, ghost k: nat)
    returns (ok: bool, srcOffset: nat, dPtr: int, dMask: Byte)
    requires 1 <= w && k < |m| && mBit == m[k] && iBytes < |src|
    requires srcOffset0 == Span(Popcount(m[..k]), w) <= 8 * (iBytes + 1)
    requires dstOffset == Span(k, w) && dstOffset + w <= 8 * dst.Length && |before| == dst.Length
    requires !dBe ==> At(false, dstOffset, dPtr0, dMask0)
    requires Laid(dBe, dst[..], before, Expanded(true, Stream(true, src), w, m, k), w)
    modifies dst
    ensures ok == (Span(Popcount(m[..k + 1]), w) <= 8 * (iBytes + 1))
    ensures ok ==>
      && srcOffset == Span(Popcount(m[..k + 1]), w)
      && (!dBe ==> At(false, dstOffset + w, dPtr, dMask))
      && Laid(dBe, dst[..], before, Expanded(true, Stream(true, src), w, m, k + 1), w)
  {
    hide At, Stream, Laid, Chop, Elem, InOrder, Splice, Expand, Expanded, Popcount;
    ghost var s, laid, p := Stream(true, src), dst[..], Popcount(m[..k]);
    PopcountNext(m, k);
    ok, srcOffset, dPtr, dMask := true, srcOffset0, dPtr0, dMask0;
    if !mBit {
      ExpandedNext(true, s, w, m, k);
      if dBe {
        dPtr, dMask := SeatBig(dstOffset + w, dstOffset, w);
      }
      dPtr, dMask := ZeroElement(dBe, dst, dPtr, dMask, w, dstOffset);
      LaidNext(dBe, laid, before, Expanded(true, s, w, m, k), w, Zeros(w), dst[..]);
    } else {
      srcOffset := srcOffset + w;
      if iBytes < (srcOffset - 1) / 8 { return false, srcOffset, dPtr, dMask; }
      ExpandedNext(true, s, w, m, k);
      dPtr, dMask := CopySelected(true, src, srcOffset0, dBe, dst, dPtr, dMask, dstOffset, w);
      ElemIs(true, s, w, p);
      LaidNext(dBe, laid, before, Expanded(true, s, w, m, k), w, Elem(true, s, w, p), dst[..]);
    }
  }

  /** The bounds test lets an element end in the byte behind the given `iBytes0`; the byte count is kept in 32 bits. */
  method ExpandMaskedBig(src: seq<Byte>, maskBe: bool, mask: seq<Byte>, dBe: bool, dst: array<Byte>, iBytes0: nat,
                         w: nat, n: nat)
    returns (status: Status, end: int, iBytes: int)
    requires 1 <= w && 1 <= n && iBytes0 < |src| && n / 8 < |mask| && BytesFor(Span(n, w)) <= dst.Length
    modifies dst
    ensures var m := MaskBits(maskBe, mask, n);
      var need := Span(Popcount(m), w);
      && status == (if BytesFor(need) <= iBytes0 + 1 then Ok else SrcIsShort)
      && (status.Ok? ==>
            && iBytes == (iBytes0 - BytesFor(need)) % TWO32 && end == BytesFor(Span(n, w))
            && dst[..] == PackElements(dBe, Expand(m, Unpack(true, src, w, Popcount(m)), Zeros(w)))
                        + old(dst[..])[end..])
  {
    hide At, Stream, PackElements, Laid, Unpack, Expand, Expanded, Popcount, OnMask, MaskBits, Span;
    ghost var s := Stream(true, src);
    ghost var m := MaskBits(maskBe, mask, n);
    var dPtr: int, dMask: Byte := 0, LOW_BIT;
    var mPtr: int, msk: Byte, mByte: Byte := 0, (if maskBe then HIGH_BIT else LOW_BIT), mask[0];
    ghost var before := dst[..];
    SeatStart();
    SeatMask(maskBe, mask);
    LaidNone(dBe, before, w);
    ExpandedNone(true, s, w, m);
    var srcOffset: nat, dstOffset := 0, 0;
    iBytes, end := iBytes0, 0;
    for k := 0 to n
      invariant dstOffset == Span(k, w) <= Span(n, w)
      invariant srcOffset == Span(Popcount(m[..k]), w) <= 8 * (iBytes0 + 1)
      invariant OnMask(maskBe, mask, k, mPtr, msk, mByte)
      invariant !dBe ==> At(false, dstOffset, dPtr, dMask)
      invariant Laid(dBe, dst[..], before, Expanded(true, s, w, m, k), w)
    {
      SpanMono(k, n, w);
      SpanNext(k, w);
      var mBit: bool, ok: bool;
      mBit, mPtr, msk, mByte := NextMaskBit(maskBe, mask, mPtr, msk, mByte, k, n);
      ok, srcOffset, dPtr, dMask :=
        PlaceElement(mBit, src, srcOffset, dBe, dst, dPtr, dMask, dstOffset, iBytes0, w, before, m, k);
      if !ok {
        NoRoom(m, k + 1, w);
        return SrcIsShort, end, iBytes;
      }
      dstOffset := dstOffset + w;
    }
    assert m[..n] == m;
    ExpandedAll(true, src, w, n, m);
    end := FinishCopy(dBe, dst, dPtr, dMask, dstOffset, before, Expanded(true, s, w, m, n), w);
    iBytes := (iBytes - BytesFor(srcOffset)) % TWO32;
    status := Ok;
  }

  /** For one: two bytes are expanded although only one is given. */
  method ExpandsBehindTheSource() returns (status: Status, dst: array<Byte>)
    ensures status == Ok && dst[..] == [Ones(8), OneHot(8, 0)]
  {
    var src, mask: seq<Byte> := [Ones(8), OneHot(8, 0)], [Field(8, 0, 2)];
    dst := new Byte[2](i => Zeros(8));
    TwoBytes(src, mask);
    var end, left;
    status, end, left := ExpandMaskedBig(src, false, mask, true, dst, 1, 8, 2);
  }

  lemma TwoBytes(src: seq<Byte>, mask: seq<Byte>)
    requires |src| == 2 && mask == [Field(8, 0, 2)]
    ensures Span(2, 8) == 16 && MaskBits(false, mask, 2) == [true, true] && Popcount([true, true]) == 2
    ensures PackElements(true, Expand([true, true], Unpack(true, src, 8, 2), Zeros(8))) == src
  {
    assert Span(1, 8) == 8 && Span(2, 8) == 16;
    var es := Unpack(true, src, 8, 2);
    var m := [true, true];
    assert m[..1] == [true] && m[..1][..0] == [];
    assert Popcount([true]) == 1 && Popcount(m) == 2;
    assert Expand([true], es, Zeros(8)) == [es[0]];
    assert Expand(m, es, Zeros(8)) == [es[0], es[1]] == es;
    PackUnpacked(true, src, 8, 2);
    var s := Stream(true, src);
    assert s[..16] == s && s + Zeros(0) == s;
    StreamOfPacked(true, s);
    StreamInjective(true, Packed(true, s), src);
  }
}
