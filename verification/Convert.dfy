/** Unpacking a column into 32-bit values through a 64-bit bit buffer. */
module Convert {
  import opened Words
  import opened Streams
  import opened Packing
  import opened BitCursor

  /** The values of the elements. */
  function Values(es: seq<Word>): (vs: seq<U32>)
    requires forall i :: 0 <= i < |es| ==> |es[i]| <= 32
    ensures |vs| == |es|
  {
    seq(|es|, i requires 0 <= i < |es| => Widen(es[i], 32))
  }

  /** The buffer holds the stream bits from `pos` up to `loaded`, in front of zeros:
      at its low end, or at its high end when `be`. */
  ghost predicate Buffered(be: bool, s: seq<bool>, pos: nat, loaded: nat, buffer: U64) {
    && pos <= loaded <= |s| && loaded - pos <= 64
    && buffer == InOrder(be, Widen(s[pos..loaded], 64))
  }

  lemma StreamByte(be: bool, bytes: seq<Byte>, k: nat)
    requires k < |bytes|
    ensures Stream(be, bytes)[8 * k..8 * k + 8] == InOrder(be, bytes[k])
  {
  }

  lemma LoadHigh(p: Word, b: Byte)
    requires |p| <= 56
    ensures Or(Rev(Widen(p, 64)), Shl(Widen(b, 64), 56 - |p|)) == Rev(Widen(p + Rev(b), 64))
  {
    var x, y := Or(Rev(Widen(p, 64)), Shl(Widen(b, 64), 56 - |p|)), Rev(Widen(p + Rev(b), 64));
    forall i | 0 <= i < 64
      ensures x[i] == y[i]
    {
      if 56 - |p| <= i < 64 - |p| { assert y[i] == Rev(b)[63 - i - |p|]; }
    }
  }

  lemma TakeLow(p: Word, w: nat)
    requires w <= 32 && w <= |p| <= 64
    ensures And(Widen(p, 64), Field(64, 0, w))[..32] == Widen(p[..w], 32)
    ensures Shr(Widen(p, 64), w) == Widen(p[w..], 64)
  {
  }

  lemma TakeHigh(p: Word, w: nat)
    requires w <= 32 && w <= |p| <= 64
    ensures Shr(And(Rev(Widen(p, 64)), Shl(Field(64, 0, w), 64 - w)), 64 - w)[..32] == Widen(Rev(p[..w]), 32)
    ensures Shl(Rev(Widen(p, 64)), w) == Rev(Widen(p[w..], 64))
  {
    var x := Shr(And(Rev(Widen(p, 64)), Shl(Field(64, 0, w), 64 - w)), 64 - w);
    forall i | 0 <= i < 32
      ensures x[i] == Widen(Rev(p[..w]), 32)[i]
    {
      if i < w { assert x[i] == Rev(Widen(p, 64))[64 - w + i]; }
    }
  }

  /** Where the next byte goes in a buffer of `count` bits. */
  function ByteShift(be: bool, count: nat): nat
    requires count <= 56
  {
    if be then 64 - count - 8 else count
  }

  lemma BufferByte(be: bool, bytes: seq<Byte>, pos: nat, loaded: nat, buffer: U64)
    requires Buffered(be, Stream(be, bytes), pos, loaded, buffer)
    requires loaded % 8 == 0 && loaded < 8 * |bytes| && loaded - pos <= 56
    ensures Buffered(be, Stream(be, bytes), pos, loaded + 8,
                     Or(buffer, Shl(Widen(bytes[loaded / 8], 64), ByteShift(be, loaded - pos))))
  {
    hide Stream, Or, Shl, Widen, Rev;
    var s, b := Stream(be, bytes), bytes[loaded / 8];
    var p := s[pos..loaded];
    StreamByte(be, bytes, loaded / 8);
    assert s[pos..loaded + 8] == p + InOrder(be, b);
    if be { LoadHigh(p, b); } else { OrAbove(p, b, 64); }
  }

  /** The element at the front of the buffer. */
  function Front(be: bool, buffer: U64, w: nat): U32
    requires w <= 32
  {
    var mask := Dec(OneHot(64, w));
    if be then Shr(And(buffer, Shl(mask, 64 - w)), 64 - w)[..32] else And(buffer, mask)[..32]
  }

  function Dropped(be: bool, buffer: U64, w: nat): U64
    requires w <= 64
  {
    if be then Shl(buffer, w) else Shr(buffer, w)
  }

  lemma BufferElement(be: bool, s: seq<bool>, pos: nat, loaded: nat, buffer: U64, w: nat)
    requires Buffered(be, s, pos, loaded, buffer) && w <= 32 && pos + w <= loaded
    ensures Front(be, buffer, w) == Widen(InOrder(be, s[pos..pos + w]), 32)
    ensures Buffered(be, s, pos + w, loaded, Dropped(be, buffer, w))
  {
    hide And, Shl, Shr, Widen, Rev, OneHot;
    DecOneHot(64, w);
    var p := s[pos..loaded];
    assert p[..w] == s[pos..pos + w] && p[w..] == s[pos + w..loaded];
    if be { TakeHigh(p, w); } else { TakeLow(p, w); }
  }

  /** The loop variables of the unpacker after `pos` bits have been taken out of `total`. */
  ghost predicate Unpacking(be: bool, src: seq<Byte>, total: nat, pos: nat, byteLength: nat, current: nat, temp: U64,
                            buffer: U64, count: nat, bitLength: int) {
    var loaded := pos + count;
    && byteLength == BytesFor(total) <= |src| && pos <= total
    && bitLength == total - loaded && loaded % 8 == 0 && loaded <= 8 * byteLength
    && Buffered(be, Stream(be, src), pos, loaded, buffer)
    && (bitLength > 0 ==> current == loaded / 8 + 1 && temp == Widen(src[loaded / 8], 64))
  }

  /** Loads bytes while the buffer has room for one and bits are missing. */
  method Refill(be: bool, src: seq<Byte>, byteLength: nat, current0: nat, temp0: U64, buffer0: U64, count0: nat,
                bitLength0: int, ghost pos: nat, ghost total: nat)
    returns (current: nat, temp: U64, buffer: U64, count: nat, bitLength: int)
    requires Unpacking(be, src, total, pos, byteLength, current0, temp0, buffer0, count0, bitLength0)
    ensures Unpacking(be, src, total, pos, byteLength, current, temp, buffer, count, bitLength)
    ensures bitLength == total - (pos + count) && (bitLength <= 0 || count > 56)
  {
    hide Stream, Buffered, Shl, Or, Widen;
    current, temp, buffer, count, bitLength := current0, temp0, buffer0, count0, bitLength0;
    while 0 < bitLength
      invariant Unpacking(be, src, total, pos, byteLength, current, temp, buffer, count, bitLength)
    {
      if 8 > 64 - count { break; }
      BufferByte(be, src, pos, pos + count, buffer);
      temp := Shl(temp, ByteShift(be, count));
      count := count + 8;
      bitLength := bitLength - 8;
      buffer := Or(buffer, temp);
      if current != byteLength {
        temp := Widen(src[current], 64);
        current := current + 1;
      }
    }
  }

  /** Refills a buffer of at most 32 bits. Then it holds the next element. */
  method TopUp(be: bool, src: seq<Byte>, byteLength: nat, current0: nat, temp0: U64, buffer0: U64, count0: nat,
               bitLength0: int, ghost pos: nat, ghost total: nat, ghost w: nat)
    returns (current: nat, temp: U64, buffer: U64, count: nat, bitLength: int)
    requires Unpacking(be, src, total, pos, byteLength, current0, temp0, buffer0, count0, bitLength0)
    requires bitLength0 == total - (pos + count0) && w <= 32 && pos + w <= total
    ensures Unpacking(be, src, total, pos, byteLength, current, temp, buffer, count, bitLength)
    ensures bitLength == total - (pos + count) && w <= count
  {
    hide Unpacking;
    current, temp, buffer, count, bitLength := current0, temp0, buffer0, count0, bitLength0;
    if 32 >= count {
      current, temp, buffer, count, bitLength :=
        Refill(be, src, byteLength, current, temp, buffer, count, bitLength, pos, total);
    }
  }

  lemma UnpackingNext(be: bool, src: seq<Byte>, total: nat, pos: nat, byteLength: nat, current: nat, temp: U64,
                      buffer: U64, count: nat, bitLength: int, w: nat)
    requires Unpacking(be, src, total, pos, byteLength, current, temp, buffer, count, bitLength)
    requires 1 <= w <= 32 && w <= count && pos + w <= total
    ensures Unpacking(be, src, total, pos + w, byteLength, current, temp, Dropped(be, buffer, w), count - w, bitLength)
    ensures pos + w <= 8 * |src|
    ensures Front(be, buffer, w) == Widen(InOrder(be, Stream(be, src)[pos..pos + w]), 32)
  {
    hide Stream, Buffered, Widen, Front, Dropped, InOrder;
    BufferElement(be, Stream(be, src), pos, pos + count, buffer, w);
  }

  /** `n` elements of width `w`, in either bit order. The buffer never runs dry. */
  method ConvertTo32u(src: seq<Byte>, w: nat, n: nat, be: bool, dst: array<U32>)
    requires 1 <= w <= 32 && 1 <= n <= dst.Length && BytesFor(Span(n, w)) <= |src|
    modifies dst
    ensures dst[..] == Values(Unpack(be, src, w, n)) + old(dst[..])[n..]
  {
    hide Stream, Unpacking, Widen, Front, Dropped, Unpacked, InOrder, Chop, Values;
    ghost var s, total := Stream(be, src), Span(n, w);
    var bitLength: int := BitLength(n, w);
    var byteLength := BytesFor(bitLength);
    var count: nat, buffer: U64 := 0, Zeros(64);
    var temp: U64, current := Widen(src[0], 64), 1;
    UnpackingStart(be, src, total);
    ghost var before := dst[..];
    UnpackedNone(be, s, w, before);
    ghost var pos := 0;
    for i := 0 to n
      invariant pos == Span(i, w) <= total
      invariant bitLength == total - (pos + count)
      invariant Unpacking(be, src, total, pos, byteLength, current, temp, buffer, count, bitLength)
      invariant Unpacked(dst[..], before, be, s, w, i)
    {
      SpanMono(i, n, w);
      current, temp, buffer, count, bitLength :=
        TopUp(be, src, byteLength, current, temp, buffer, count, bitLength, pos, total, w);
      UnpackingNext(be, src, total, pos, byteLength, current, temp, buffer, count, bitLength, w);
      ghost var values := dst[..];
      UnpackedNext(values, before, be, s, w, i);
      dst[i] := Front(be, buffer, w);
      assert dst[..] == values[i := Front(be, buffer, w)];
      buffer := Dropped(be, buffer, w);
      count := count - w;
      pos := pos + w;
    }
    UnpackedAll(dst[..], before, be, src, w, n);
  }

  lemma UnpackingStart(be: bool, src: seq<Byte>, total: nat)
    requires 0 < total && BytesFor(total) <= |src|
    ensures Unpacking(be, src, total, 0, BytesFor(total), 1, Widen(src[0], 64), Zeros(64), 0, total)
  {
    EmptyBuffer(be, Stream(be, src));
  }

  function BitLength(n: nat, w: nat): (r: nat)
    ensures r == Span(n, w)
  {
    SpanIsProduct(n, w);
    n * w
  }

  lemma EmptyBuffer(be: bool, s: seq<bool>)
    ensures Buffered(be, s, 0, 0, Zeros(64))
  {
    assert Widen(s[0..0], 64) == Zeros(64);
    assert Rev(Zeros(64)) == Zeros(64);
  }

  /** The first `i` values of the stream have been stored. */
  ghost predicate Unpacked(values: seq<U32>, before: seq<U32>, be: bool, s: seq<bool>, w: nat, i: nat) {
    && w <= 32 && Span(i, w) <= |s| && i <= |before| == |values|
    && values == Values(Chop(be, s, w, i)) + before[i..]
  }

  lemma UnpackedNone(be: bool, s: seq<bool>, w: nat, before: seq<U32>)
    requires w <= 32
    ensures Unpacked(before, before, be, s, w, 0)
  {
  }

  lemma UnpackedNext(values: seq<U32>, before: seq<U32>, be: bool, s: seq<bool>, w: nat, i: nat)
    requires Unpacked(values, before, be, s, w, i) && Span(i, w) + w <= |s| && i < |before|
    ensures Unpacked(values[i := Widen(InOrder(be, s[Span(i, w)..Span(i, w) + w]), 32)], before, be, s, w, i + 1)
  {
    hide Chop, InOrder, Widen;
    ChopNext(be, s, w, i);
  }

  lemma UnpackedAll(values: seq<U32>, before: seq<U32>, be: bool, src: seq<Byte>, w: nat, n: nat)
    requires Unpacked(values, before, be, Stream(be, src), w, n)
    ensures values == Values(Unpack(be, src, w, n)) + before[n..]
  {
  }
}
