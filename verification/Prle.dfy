/** The Parquet RLE / bit-packing hybrid: the counting pass and the decoding pass over a stream. */
module Prle {
  import opened Words
  import opened Numbers
  import opened Streams
  import opened Packing
  import Columns
  import opened Convert

  datatype Status = Ok | PrleFormatErr | BitWidthErr | SrcIsShort

  // ----- run headers -----

  datatype Header = BadHeader | Header(packed: bool, count: U32, next: nat)

  datatype VarIntAt = NoInt | Int(bits: Word, next: nat)

  /** The payload bits of a variable-length integer: seven per byte, low end first, up to a byte
      whose top bit is clear; `NoInt` if the input ends before it or it takes more than `room` bytes. */
  function VarInt(src: seq<Byte>, pos: nat, room: nat): (r: VarIntAt)
    decreases room
    ensures r.Int? ==> pos < r.next <= |src| && r.next <= pos + room && |r.bits| == 7 * (r.next - pos)
  {
    if room == 0 || pos >= |src| then NoInt
    else if !src[pos][7] then Int(src[pos][..7], pos + 1)
    else Prepend(src[pos][..7], VarInt(src, pos + 1, room - 1))
  }

  function Prepend(bits: Word, r: VarIntAt): VarIntAt {
    match r
    case NoInt => NoInt
    case Int(more, next) => Int(bits + more, next)
  }

  /** A run header is such an integer of at most four bytes: the low bit tells packed runs from
      repeated values, the rest is the count. */
  function HeaderAt(src: seq<Byte>, pos: nat): (h: Header)
    ensures h.Header? ==> pos < h.next <= |src|
  {
    match VarInt(src, pos, 4)
    case NoInt => BadHeader
    case Int(bits, next) => Header(bits[0], Widen(bits[1..], 32), next)
  }

  const LOW7: U32 := Field(32, 0, 7)

  lemma CountStart(b: Byte)
    ensures Shr(And(Widen(b, 32), LOW7), 1) == Widen(b[..7][1..], 32)
  {
  }

  lemma CountMore(bits: Word, b: Byte)
    requires 7 <= |bits| <= 21
    ensures Or(Widen(bits[1..], 32), Shl(And(Widen(b, 32), LOW7), |bits| - 1)) == Widen((bits + b[..7])[1..], 32)
  {
  }

  /** `k` continuation bytes have been read, with the payload `bits`. */
  ghost predicate Continued(src: seq<Byte>, pos: nat, k: nat, bits: Word) {
    k <= 4 && |bits| == 7 * k && VarInt(src, pos, 4) == Prepend(bits, VarInt(src, pos + k, 4 - k))
  }

  lemma ContinueByte(src: seq<Byte>, pos: nat, k: nat, bits: Word)
    requires Continued(src, pos, k, bits) && k < 4 && pos + k < |src|
    ensures src[pos + k][7] ==> Continued(src, pos, k + 1, bits + src[pos + k][..7])
    ensures !src[pos + k][7] ==> VarInt(src, pos, 4) == Int(bits + src[pos + k][..7], pos + k + 1)
  {
    var b := src[pos + k];
    if b[7] {
      var r := VarInt(src, pos + k + 1, 4 - k - 1);
      if r.Int? { assert bits + (b[..7] + r.bits) == (bits + b[..7]) + r.bits; }
    }
  }

  /** The header parser: shifts and masks, byte by byte. */
  method GetFormatAndCount(src: seq<Byte>, pos: nat) returns (h: Header)
    requires pos <= |src|
    ensures h == HeaderAt(src, pos)
  {
    hide VarInt, Continued, Widen, Shr, Shl, And, Or;
    if pos == |src| { NoMore(src, pos, 0, []); return BadHeader; }
    NoneContinued(src, pos);
    ghost var bits: Word := [];
    var b := src[pos];
    var format := b[0];
    var count: U32 := Shr(And(Widen(b, 32), LOW7), 1);
    CountStart(b);
    ContinueByte(src, pos, 0, bits);
    bits := bits + b[..7];
    assert bits == b[..7] && bits[0] == format;
    var next := pos + 1;
    if b[7] {
      if next == |src| { NoMore(src, pos, 1, bits); return BadHeader; }
      b, next := src[next], next + 1;
      CountMore(bits, b);
      ContinueByte(src, pos, 1, bits);
      count := Or(count, Shl(And(Widen(b, 32), LOW7), 6));
      bits := bits + b[..7];
      if b[7] {
        if next == |src| { NoMore(src, pos, 2, bits); return BadHeader; }
        b, next := src[next], next + 1;
        CountMore(bits, b);
        ContinueByte(src, pos, 2, bits);
        count := Or(count, Shl(And(Widen(b, 32), LOW7), 13));
        bits := bits + b[..7];
        if b[7] {
          if next == |src| { NoMore(src, pos, 3, bits); return BadHeader; }
          b, next := src[next], next + 1;
          CountMore(bits, b);
          ContinueByte(src, pos, 3, bits);
          count := Or(count, Shl(And(Widen(b, 32), LOW7), 20));
          bits := bits + b[..7];
          if b[7] { NoMore(src, pos, 4, bits); return BadHeader; }
        }
      }
    }
    h := Header(format, count, next);
  }

  lemma NoneContinued(src: seq<Byte>, pos: nat)
    ensures Continued(src, pos, 0, [])
  {
    var r := VarInt(src, pos, 4);
    if r.Int? { assert [] + r.bits == r.bits; }
  }

  lemma NoMore(src: seq<Byte>, pos: nat, k: nat, bits: Word)
    requires k == 0 || Continued(src, pos, k, bits)
    requires k == 4 || pos + k >= |src|
    ensures VarInt(src, pos, 4) == NoInt
  {
  }

  // ----- the meaning of a stream -----

  /** What a pass finds: its status and the values before the end or the error. */
  datatype Parsed = Parsed(status: Status, values: seq<U32>)

  function Then(vs: seq<U32>, rest: Parsed): Parsed {
    Parsed(rest.status, vs + rest.values)
  }

  /** How many of `n` elements of width `w` are complete in `bits` bits. */
  function Fit(bits: nat, w: nat, n: nat): (m: nat)
    ensures m <= n && Span(m, w) <= bits
    decreases n
  {
    if n == 0 || bits < w then 0 else (SpanFront(Fit(bits - w, w, n - 1), w); 1 + Fit(bits - w, w, n - 1))
  }

  lemma {:induction false} SpanFront(n: nat, w: nat)
    ensures Span(1 + n, w) == w + Span(n, w)
  {
    if n > 0 { SpanFront(n - 1, w); }
  }

  lemma {:induction false} FitExact(bits: nat, w: nat, n: nat, k: nat)
    requires k <= n && Span(k, w) <= bits && (k == n || Span(k, w) + w > bits)
    ensures Fit(bits, w, n) == k
    decreases n
  {
    if k > 0 {
      SpanFront(k - 1, w);
      FitExact(bits - w, w, n - 1, k - 1);
    }
  }

  /** A group is eight elements: it takes `w` bytes. */
  lemma {:induction false} SpanGroups(r: nat, w: nat)
    ensures Span(8 * r, w) == 8 * Span(r, w)
    decreases r
  {
    if r > 0 {
      SpanGroups(r - 1, w);
      var k := 8 * (r - 1);
      assert Span(k + 8, w) == Span(k + 7, w) + w == Span(k + 6, w) + 2 * w == Span(k + 5, w) + 3 * w
          == Span(k + 4, w) + 4 * w;
      assert Span(k + 4, w) == Span(k + 3, w) + w == Span(k + 2, w) + 2 * w == Span(k + 1, w) + 3 * w
          == Span(k, w) + 4 * w;
    }
  }

  /** The first `m` elements, bit-packed low end first, from byte `at` on. */
  function PackedValues(src: seq<Byte>, at: nat, w: nat, m: nat): (vs: seq<U32>)
    requires w <= 32 && at <= |src| && Span(m, w) <= 8 * (|src| - at)
    ensures |vs| == m
  {
    Values(Chop(false, Stream(false, src)[8 * at..], w, m))
  }

  /** One run: its values and where the next one starts, or the values before the input gives out. */
  datatype Run = BadRun(values: seq<U32>) | Run(values: seq<U32>, next: nat)

  /** The run at byte `pos`, in the hybrid encoding of the Parquet format. */
  function RunAt(src: seq<Byte>, past: Byte, w: nat, pos: nat): (run: Run)
    requires w <= 32 && pos < |src|
    ensures run.Run? ==> pos < run.next <= |src|
  {
    match HeaderAt(src, pos)
    case BadHeader => BadRun([])
    case Header(packed, count, next) =>
      if ToNat(count) == 0 then BadRun([])
      else if packed then PackedRun(src, w, next, ToNat(count))
      else RleRun(src, past, w, next, ToNat(count))
  }

  /** `r` groups of eight packed elements. */
  function PackedRun(src: seq<Byte>, w: nat, next: nat, r: nat): (run: Run)
    requires w <= 32 && next <= |src|
    ensures run.Run? ==> next <= run.next <= |src|
  {
    var left := |src| - next;
    var vs := PackedValues(src, next, w, Fit(8 * left, w, 8 * r));
    if Span(r, w) <= left then Run(vs, next + Span(r, w)) else BadRun(vs)
  }

  /** One value, `r` times. */
  function RleRun(src: seq<Byte>, past: Byte, w: nat, next: nat, r: nat): (run: Run)
    requires w <= 32 && next <= |src|
    ensures run.Run? ==> next <= run.next <= |src|
  {
    if BytesFor(w) <= |src| - next
    then Run(Columns.Copies(RleValue(src, past, next, w), r), next + BytesFor(w))
    else BadRun([])
  }

  /** All the runs from byte `pos` on. */
  function RunsFrom(src: seq<Byte>, past: Byte, w: nat, pos: nat): Parsed
    requires w <= 32 && pos <= |src|
    decreases |src| - pos
  {
    if pos == |src| then Parsed(Ok, [])
    else match RunAt(src, past, w, pos)
      case BadRun(vs) => Parsed(PrleFormatErr, vs)
      case Run(vs, next) => Then(vs, RunsFrom(src, past, w, next))
  }

  /** The byte at `at`; `past` stands behind the input. */
  function NextByte(src: seq<Byte>, past: Byte, at: nat): Byte
    requires at <= |src|
  {
    if at < |src| then src[at] else past
  }

  /** The bytes loaded for a repeated value. A value of width zero takes no byte, but the byte that follows is loaded
      all the same. */
  function RleBytes(src: seq<Byte>, past: Byte, at: nat, w: nat): (bytes: seq<Byte>)
    requires w <= 32 && at + BytesFor(w) <= |src|
    ensures 1 <= |bytes| <= 4 && w <= 8 * |bytes|
  {
    if w == 0 then [NextByte(src, past, at)] else src[at..at + BytesFor(w)]
  }

  /** A repeated value takes whole bytes; it is not cut to the element width. */
  function RleValue(src: seq<Byte>, past: Byte, at: nat, w: nat): U32
    requires w <= 32 && at + BytesFor(w) <= |src|
  {
    Widen(Stream(false, RleBytes(src, past, at, w)), 32)
  }

  /** For one: a run of one value of width zero at the end of the input decodes to the byte behind it. */
  lemma ZeroWidthReadsOn()
    ensures var width: Byte, header: Byte, past: Byte := Zeros(8), OneHot(8, 1), Ones(8);
        RunAt([width, header], past, 0, 1) == Run([Widen(past, 32)], 2)
  {
    hide HeaderAt, Widen, ToNat, Field;
    var width: Byte, header: Byte, past: Byte := Zeros(8), OneHot(8, 1), Ones(8);
    var src := [width, header];
    OneValueHeader(src);
    ToNatOnes(32, 1);
    assert AllOnes(1) == 1;
    StreamOne(false, past);
    assert RleValue(src, past, 2, 0) == Widen(past, 32);
    assert Columns.Copies(Widen(past, 32), 1) == [Widen(past, 32)];
  }

  /** For another: a value of width 3 keeps bit 7 of its byte. */
  lemma PaddingIsKept(past: Byte)
    ensures var width: Byte, header: Byte, value: Byte := Field(8, 0, 2), OneHot(8, 1), OneHot(8, 7);
        RunAt([width, header, value], past, 3, 1) == Run([Widen(value, 32)], 3)
  {
    hide HeaderAt, Widen, ToNat, Field;
    var width: Byte, header: Byte, value: Byte := Field(8, 0, 2), OneHot(8, 1), OneHot(8, 7);
    var src := [width, header, value];
    OneValueHeader(src);
    ToNatOnes(32, 1);
    assert AllOnes(1) == 1;
    StreamOne(false, value);
    assert src[2..3] == [value];
    assert RleValue(src, past, 2, 3) == Widen(value, 32);
    assert Columns.Copies(Widen(value, 32), 1) == [Widen(value, 32)];
  }

  lemma OneValueHeader(src: seq<Byte>)
    requires |src| >= 2 && src[1] == OneHot(8, 1)
    ensures HeaderAt(src, 1) == Header(false, Field(32, 0, 1), 2)
  {
    var b := src[1];
    assert !b[7] && VarInt(src, 1, 4) == Int(b[..7], 2);
    assert b[..7][1..] == OneHot(6, 0);
    assert Widen(OneHot(6, 0), 32) == Field(32, 0, 1);
  }

  /** A whole stream: the element width, then runs. */
  function Parse(src: seq<Byte>, past: Byte): Parsed
    requires |src| > 0
  {
    var w := ToNat(src[0]);
    if w > 32 then Parsed(BitWidthErr, [])
    else if |src| == 1 then Parsed(SrcIsShort, [])
    else RunsFrom(src, past, w, 1)
  }

  // ----- values and their width -----

  /** The value has no bit beyond its width. */
  predicate Fits(v: U32, w: nat)
    requires w <= 32
  {
    IsZero(v[w..])
  }

  lemma FitsIsBound(v: U32, w: nat)
    requires w <= 32
    ensures Fits(v, w) <==> ToNat(v) < Pow2(w)
  {
    hide ToNat, Pow2, IsZero;
    SplitValue(v, w);
    ZeroValue(v[w..]);
    if ToNat(v[w..]) > 0 { Apart(Pow2(w), 0, ToNat(v[w..])); }
  }

  ghost predicate AllFit(vs: seq<U32>, w: nat)
    requires w <= 32
  {
    forall i :: 0 <= i < |vs| ==> Fits(vs[i], w)
  }

  lemma AllFitTwo(a: seq<U32>, b: seq<U32>, w: nat)
    requires w <= 32
    ensures AllFit(a + b, w) <==> AllFit(a, w) && AllFit(b, w)
  {
    hide Fits;
    if AllFit(a + b, w) {
      assert forall i :: 0 <= i < |a| ==> a[i] == (a + b)[i];
      assert forall i :: 0 <= i < |b| ==> b[i] == (a + b)[|a| + i];
    }
  }

  /** The bits behind the width in the bytes of a repeated value are zero. */
  predicate PaddingZero(src: seq<Byte>, past: Byte, at: nat, w: nat)
    requires w <= 32 && at + BytesFor(w) <= |src|
  {
    IsZero(Stream(false, RleBytes(src, past, at, w))[w..])
  }

  /** All repeated values from byte `pos` on have zero padding. */
  predicate PaddingsZero(src: seq<Byte>, past: Byte, w: nat, pos: nat)
    requires w <= 32 && pos <= |src|
    decreases |src| - pos
  {
    pos == |src| ||
    match HeaderAt(src, pos)
    case BadHeader => true
    case Header(packed, count, next) =>
      var r := ToNat(count);
      var after := next + if packed then Span(r, w) else BytesFor(w);
      r == 0 || after > |src| || ((packed || PaddingZero(src, past, next, w)) && PaddingsZero(src, past, w, after))
  }

  lemma RepeatedFits(src: seq<Byte>, past: Byte, at: nat, w: nat, r: nat)
    requires w <= 32 && at + BytesFor(w) <= |src| && r > 0
    ensures AllFit(Columns.Copies(RleValue(src, past, at, w), r), w) <==> PaddingZero(src, past, at, w)
  {
    hide RleBytes, Stream;
    var bits := Stream(false, RleBytes(src, past, at, w));
    var v := RleValue(src, past, at, w);
    WidenFits(bits, w);
    assert Columns.Copies(v, r)[0] == v;
    hide Fits;
  }

  lemma WidenFits(bits: Word, w: nat)
    requires w <= |bits| <= 32
    ensures Fits(Widen(bits, 32), w) <==> IsZero(bits[w..])
  {
    var v := Widen(bits, 32);
    assert v[w..] == bits[w..] + Zeros(32 - |bits|);
    if IsZero(v[w..]) {
      assert forall i :: 0 <= i < |bits| - w ==> bits[w..][i] == v[w..][i];
    }
  }

  lemma PackedFit(src: seq<Byte>, at: nat, w: nat, m: nat)
    requires w <= 32 && at <= |src| && Span(m, w) <= 8 * (|src| - at)
    ensures AllFit(PackedValues(src, at, w, m), w)
  {
    hide Stream, Fits;
    var es := Chop(false, Stream(false, src)[8 * at..], w, m);
    forall i | 0 <= i < m
      ensures Fits(Values(es)[i], w)
    {
      WidenFits(es[i], w);
    }
  }

  /** Every decoded value is below 2^w exactly when the padding of every repeated value is zero. */
  lemma {:induction false} ValuesFit(src: seq<Byte>, past: Byte, w: nat, pos: nat)
    requires w <= 32 && pos <= |src|
    ensures AllFit(RunsFrom(src, past, w, pos).values, w) <==> PaddingsZero(src, past, w, pos)
    decreases |src| - pos
  {
    hide HeaderAt, AllFit, PaddingZero, PackedValues, RleValue, Fit;
    if pos < |src| && HeaderAt(src, pos).Header? && ToNat(HeaderAt(src, pos).count) > 0 {
      var h := HeaderAt(src, pos);
      var r := ToNat(h.count);
      var left := |src| - h.next;
      if h.packed {
        PackedFit(src, h.next, w, Fit(8 * left, w, 8 * r));
      } else if BytesFor(w) <= left {
        RepeatedFits(src, past, h.next, w, r);
      }
      var run := RunAt(src, past, w, pos);
      if run.Run? {
        ValuesFit(src, past, w, run.next);
        AllFitTwo(run.values, RunsFrom(src, past, w, run.next).values, w);
      }
    }
    NoneFit(w);
  }

  lemma NoneFit(w: nat)
    requires w <= 32
    ensures AllFit([], w)
  {
  }

  /** The same for a whole stream, in numbers. */
  lemma DecodedValuesFit(src: seq<Byte>, past: Byte)
    requires |src| > 0 && ToNat(src[0]) <= 32
    ensures var w, vs := ToNat(src[0]), Parse(src, past).values;
        (forall i :: 0 <= i < |vs| ==> ToNat(vs[i]) < Pow2(w)) <==> PaddingsZero(src, past, w, 1)
  {
    hide ToNat, Pow2, RunsFrom, PaddingsZero, Fits;
    var w, vs := ToNat(src[0]), Parse(src, past).values;
    ValuesFit(src, past, w, 1);
    if |src| == 1 { NothingParsed(src, past, w); }
    forall i | 0 <= i < |vs|
      ensures Fits(vs[i], w) <==> ToNat(vs[i]) < Pow2(w)
    {
      FitsIsBound(vs[i], w);
    }
  }

  lemma NothingParsed(src: seq<Byte>, past: Byte, w: nat)
    requires w <= 32 && |src| == 1
    ensures RunsFrom(src, past, w, 1).values == []
  {
  }

  // ----- counting -----

  /** Skips the packed elements of `r` groups; `ok` tells whether the input held them all. */
  method CountPackedRun(src: seq<Byte>, at: nat, w: nat, r: nat, number0: nat)
    returns (ok: bool, next: nat, number: nat)
    requires at <= |src| && number0 < TWO32
    ensures ok == (Span(r, w) <= |src| - at)
    ensures ok ==> next == at + Span(r, w) && number == Wrap(number0 + 8 * r)
  {
    hide Span, Wrap;
    next, number := at, number0;
    var bitsInBuffer: nat := 0;
    SpanGroups(r, w);
    SpanZero(w);
    WrapSmall(number0);
    for i := 0 to r
      invariant next <= |src| && 8 * (next - at) == Span(8 * i, w) + bitsInBuffer && bitsInBuffer < 8
      invariant number == Wrap(number0 + 8 * i)
    {
      for j := 0 to 8
        invariant next <= |src| && 8 * (next - at) == Span(8 * i + j, w) + bitsInBuffer && bitsInBuffer < 8
        invariant number == Wrap(number0 + 8 * i + j)
      {
        SpanMono(8 * i + j, 8 * r, w);
        SpanNext(8 * i + j, w);
        while w > bitsInBuffer
          invariant next <= |src| && 8 * (next - at) == Span(8 * i + j, w) + bitsInBuffer && bitsInBuffer < w + 8
        {
          if next == |src| { return false, next, number; }
          bitsInBuffer := bitsInBuffer + 8;
          next := next + 1;
        }
        WrapAdd(number0 + 8 * i + j, 1);
        number := Wrap(number + 1);
        bitsInBuffer := bitsInBuffer - w;
      }
    }
    ok := true;
  }

  lemma SpanZero(w: nat)
    ensures Span(0, w) == 0
  {
  }

  /** Counts one run. */
  method CountRun(src: seq<Byte>, ghost past: Byte, w: nat, pos: nat, number0: nat)
    returns (ok: bool, next: nat, number: nat)
    requires w <= 32 && pos < |src| && number0 < TWO32
    ensures ok == RunAt(src, past, w, pos).Run?
    ensures ok ==> next == RunAt(src, past, w, pos).next && number == Wrap(number0 + |RunAt(src, past, w, pos).values|)
  {
    hide ToNat, HeaderAt, PackedValues, RleValue, Wrap, Span, Fit;
    next, number := pos, number0;
    var h := GetFormatAndCount(src, pos);
    if h.BadHeader? { return false, next, number; }
    var repetitions := ToNat(h.count);
    if repetitions == 0 { return false, next, number; }
    if h.packed {
      FitGroups(|src| - h.next, w, repetitions);
      ok, next, number := CountPackedRun(src, h.next, w, repetitions, number0);
    } else {
      var valueSize := BytesFor(w);
      if |src| - h.next < valueSize { return false, next, number; }
      ok, next, number := true, h.next + valueSize, Wrap(number0 + repetitions);
    }
  }

  method CountElementsPrle(src: seq<Byte>, ghost past: Byte) returns (status: Status, number: nat)
    requires |src| > 0
    ensures status == Parse(src, past).status
    ensures status.Ok? ==> number == Wrap(|Parse(src, past).values|)
  {
    hide ToNat, RunAt, Wrap;
    var pos, w := 1, ToNat(src[0]);
    number := 0;
    if w > 32 { return BitWidthErr, number; }
    if |src| == 1 { return SrcIsShort, number; }
    ghost var seen: nat := 0;
    WrapSmall(0);
    while pos < |src|
      invariant pos <= |src| && number == Wrap(seen)
      invariant Parse(src, past).status == RunsFrom(src, past, w, pos).status
      invariant |Parse(src, past).values| == seen + |RunsFrom(src, past, w, pos).values|
      decreases |src| - pos
    {
      var ok: bool;
      ghost var run := RunAt(src, past, w, pos);
      ok, pos, number := CountRun(src, past, w, pos, number);
      if !ok { return PrleFormatErr, number; }
      WrapAdd(seen, |run.values|);
      seen := seen + |run.values|;
    }
    status := Ok;
  }

  lemma FitGroups(left: nat, w: nat, r: nat)
    ensures Span(r, w) <= left ==> Fit(8 * left, w, 8 * r) == 8 * r
  {
    SpanGroups(r, w);
    if Span(r, w) <= left { FitExact(8 * left, w, 8 * r, 8 * r); }
  }

  // ----- decoding -----

  /** `values` is `before` with `vs` stored from `index` on. */
  ghost predicate Stored(values: seq<U32>, before: seq<U32>, index: nat, vs: seq<U32>) {
    && index + |vs| <= |before| == |values|
    && values == before[..index] + vs + before[index + |vs|..]
  }

  lemma StoredNone(before: seq<U32>, index: nat)
    requires index <= |before|
    ensures Stored(before, before, index, [])
  {
  }

  lemma StoredNext(values: seq<U32>, before: seq<U32>, index: nat, vs: seq<U32>, v: U32)
    requires Stored(values, before, index, vs) && index + |vs| < |before|
    ensures Stored(values[index + |vs| := v], before, index, vs + [v])
  {
  }

  lemma StoredMore(values: seq<U32>, between: seq<U32>, before: seq<U32>, index: nat, vs: seq<U32>, us: seq<U32>)
    requires Stored(between, before, index, vs) && Stored(values, between, index + |vs|, us)
    ensures Stored(values, before, index, vs + us)
  {
  }

  /** Taking one element from the buffer yields the next packed value. */
  lemma PackedNext(src: seq<Byte>, at: nat, w: nat, k: nat, next: nat, buffer: U64)
    requires w <= 32 && at <= next <= |src| && Span(k, w) + w <= 8 * (next - at)
    requires Buffered(false, Stream(false, src), 8 * at + Span(k, w), 8 * next, buffer)
    ensures PackedValues(src, at, w, k + 1) == PackedValues(src, at, w, k) + [Front(false, buffer, w)]
    ensures Buffered(false, Stream(false, src), 8 * at + Span(k + 1, w), 8 * next, Dropped(false, buffer, w))
  {
    hide Stream, Buffered, Front, Dropped, Chop, Span, Widen;
    var s := Stream(false, src);
    var t := s[8 * at..];
    BufferElement(false, s, 8 * at + Span(k, w), 8 * next, buffer, w);
    ChopNext(false, t, w, k);
    SameSlice(s, 8 * at, Span(k, w), w);
    var es, e := Chop(false, t, w, k), Elem(false, t, w, k);
    assert Values(es + [e]) == Values(es) + [Widen(e, 32)];
  }

  /** Loads bytes until the buffer holds element `k`, or the input ends. */
  method FillFor(src: seq<Byte>, w: nat, next0: nat, bits0: nat, buffer0: U64, ghost at: nat, ghost k: nat)
    returns (ok: bool, next: nat, bits: nat, buffer: U64)
    requires w <= 32 && at <= next0 <= |src| && 8 * (next0 - at) == Span(k, w) + bits0 && bits0 < 8
    requires Buffered(false, Stream(false, src), 8 * at + Span(k, w), 8 * next0, buffer0)
    ensures at <= next <= |src| && 8 * (next - at) == Span(k, w) + bits && bits < w + 8
    ensures Buffered(false, Stream(false, src), 8 * at + Span(k, w), 8 * next, buffer)
    ensures if ok then w <= bits else next == |src| && bits < w
  {
    hide Span, Buffered, Stream, Shl, Or, Widen;
    next, bits, buffer := next0, bits0, buffer0;
    while w > bits
      invariant next0 <= next <= |src| && 8 * (next - at) == Span(k, w) + bits && bits < w + 8
      invariant Buffered(false, Stream(false, src), 8 * at + Span(k, w), 8 * next, buffer)
    {
      if next == |src| { return false, next, bits, buffer; }
      BufferByte(false, src, 8 * at + Span(k, w), 8 * next, buffer);
      buffer := Or(buffer, Shl(Widen(src[next], 64), bits));
      bits := bits + 8;
      next := next + 1;
    }
    ok := true;
  }

  method DecodePackedRun(src: seq<Byte>, at: nat, w: nat, r: nat, dst: array<U32>, index0: nat)
    returns (ok: bool, next: nat, index: nat)
    requires w <= 32 && at <= |src| && index0 + Fit(8 * (|src| - at), w, 8 * r) <= dst.Length
    modifies dst
    ensures ok == (Span(r, w) <= |src| - at) && (ok ==> next == at + Span(r, w)) && at <= next <= |src|
    ensures index == index0 + Fit(8 * (|src| - at), w, 8 * r)
    ensures Stored(dst[..], old(dst[..]), index0, PackedValues(src, at, w, Fit(8 * (|src| - at), w, 8 * r)))
  {
    hide Span, Fit, PackedValues, Stored, Buffered, Stream, Front, Dropped, Shl, Or, Widen;
    ghost var before, s := dst[..], Stream(false, src);
    next, index := at, index0;
    var bitsInBuffer: nat, buffer: U64 := 0, Zeros(64);
    SpanGroups(r, w);
    SpanZero(w);
    StoredNone(before, index0);
    PackedNone(src, at, w);
    for i := 0 to r
      invariant next <= |src| && 8 * (next - at) == Span(8 * i, w) + bitsInBuffer && bitsInBuffer < 8
      invariant index == index0 + 8 * i && Buffered(false, s, 8 * at + Span(8 * i, w), 8 * next, buffer)
      invariant Span(8 * i, w) <= 8 * (|src| - at) && Stored(dst[..], before, index0, PackedValues(src, at, w, 8 * i))
    {
      for j := 0 to 8
        invariant next <= |src| && 8 * (next - at) == Span(8 * i + j, w) + bitsInBuffer && bitsInBuffer < 8
        invariant index == index0 + 8 * i + j && Buffered(false, s, 8 * at + Span(8 * i + j, w), 8 * next, buffer)
        invariant Span(8 * i + j, w) <= 8 * (|src| - at)
        invariant Stored(dst[..], before, index0, PackedValues(src, at, w, 8 * i + j))
      {
        ghost var k := 8 * i + j;
        SpanMono(k, 8 * r, w);
        SpanNext(k, w);
        ok, next, bitsInBuffer, buffer := FillFor(src, w, next, bitsInBuffer, buffer, at, k);
        if !ok {
          FitExact(8 * (|src| - at), w, 8 * r, k);
          return;
        }
        PackedNext(src, at, w, k, next, buffer);
        FitAtLeast(8 * (|src| - at), w, 8 * r, k + 1);
        ghost var values := dst[..];
        StoredNext(values, before, index0, PackedValues(src, at, w, k), Front(false, buffer, w));
        dst[index] := Front(false, buffer, w);
        assert dst[..] == values[index := Front(false, buffer, w)];
        index := index + 1;
        bitsInBuffer := bitsInBuffer - w;
        buffer := Dropped(false, buffer, w);
      }
    }
    FitExact(8 * (|src| - at), w, 8 * r, 8 * r);
    ok := true;
  }

  lemma PackedNone(src: seq<Byte>, at: nat, w: nat)
    requires w <= 32 && at <= |src|
    ensures Span(0, w) == 0 && PackedValues(src, at, w, 0) == []
    ensures Buffered(false, Stream(false, src), 8 * at, 8 * at, Zeros(64))
  {
    assert Widen(Stream(false, src)[8 * at..8 * at], 64) == Zeros(64);
  }

  lemma {:induction false} FitAtLeast(bits: nat, w: nat, n: nat, k: nat)
    requires k <= n && Span(k, w) <= bits
    ensures k <= Fit(bits, w, n)
    decreases n
  {
    if k > 0 {
      SpanFront(k - 1, w);
      FitAtLeast(bits - w, w, n - 1, k - 1);
    }
  }

  /** Decodes one run into the destination. */
  method DecodeRun(src: seq<Byte>, past: Byte, w: nat, pos: nat, dst: array<U32>, index0: nat)
    returns (ok: bool, next: nat, index: nat)
    requires w <= 32 && pos < |src| && index0 + |RunAt(src, past, w, pos).values| <= dst.Length
    modifies dst
    ensures ok == RunAt(src, past, w, pos).Run? && pos <= next <= |src|
    ensures ok ==> next == RunAt(src, past, w, pos).next
    ensures index == index0 + |RunAt(src, past, w, pos).values|
    ensures Stored(dst[..], old(dst[..]), index0, RunAt(src, past, w, pos).values)
  {
    hide ToNat, HeaderAt, PackedValues, RleValue, Span, Fit, Stored;
    next, index := pos, index0;
    ghost var before := dst[..];
    StoredNone(before, index0);
    var h := GetFormatAndCount(src, pos);
    if h.BadHeader? { return false, next, index; }
    var repetitions := ToNat(h.count);
    if repetitions == 0 { return false, next, index; }
    if h.packed {
      FitGroups(|src| - h.next, w, repetitions);
      ok, next, index := DecodePackedRun(src, h.next, w, repetitions, dst, index0);
    } else {
      var valueSize := BytesFor(w);
      if |src| - h.next < valueSize { return false, next, index; }
      var value := LoadRleValue(src, past, h.next, w);
      next := h.next + valueSize;
      index := DecodeRepeats(value, repetitions, dst, index0);
      ok := true;
    }
  }

  /** Assembles the repeated value from as many bytes as the width needs. */
  method LoadRleValue(src: seq<Byte>, past: Byte, at: nat, w: nat) returns (value: U32)
    requires w <= 32 && at + BytesFor(w) <= |src|
    ensures value == RleValue(src, past, at, w)
  {
    hide Stream, Widen, RleBytes, NextByte, Zeros;
    var zero: Byte := Zeros(8);
    var bytes: seq<Byte> := [NextByte(src, past, at),
                             if 8 < w then src[at + 1] else zero,
                             if 16 < w then src[at + 2] else zero,
                             if 24 < w then src[at + 3] else zero];
    LoadedBytes(src, past, at, w, bytes);
    value := Stream(false, bytes);
    ZeroBytesBehind(RleBytes(src, past, at, w));
  }

  lemma LoadedBytes(src: seq<Byte>, past: Byte, at: nat, w: nat, bytes: seq<Byte>)
    requires w <= 32 && at + BytesFor(w) <= |src| && |bytes| == 4 && bytes[0] == NextByte(src, past, at)
    requires forall i :: 0 < i < 4 ==> bytes[i] == if 8 * i < w then src[at + i] else Zeros(8)
    ensures var used := RleBytes(src, past, at, w);
        bytes == used + seq<Byte>(4 - |used|, i => Zeros(8))
  {
    hide Zeros;
    var used := RleBytes(src, past, at, w);
    forall i | 0 < i < 4
      ensures i < |used| <==> 8 * i < w
    {
    }
    forall i | 0 <= i < |used|
      ensures bytes[i] == used[i]
    {
    }
  }

  lemma ZeroBytesBehind(used: seq<Byte>)
    requires |used| <= 4
    ensures Stream(false, used + seq<Byte>(4 - |used|, i => Zeros(8))) == Widen(Stream(false, used), 32)
  {
    var zeros := seq<Byte>(4 - |used|, i => Zeros(8));
    StreamConcat(false, used, zeros);
    assert Stream(false, zeros) == Zeros(8 * |zeros|);
  }

  method DecodeRepeats(value: U32, r: nat, dst: array<U32>, index0: nat) returns (index: nat)
    requires index0 + r <= dst.Length
    modifies dst
    ensures index == index0 + r && Stored(dst[..], old(dst[..]), index0, Columns.Copies(value, r))
  {
    hide Stored;
    ghost var before := dst[..];
    index := index0;
    StoredNone(before, index0);
    assert Columns.Copies(value, 0) == [];
    for j := 0 to r
      invariant index == index0 + j && Stored(dst[..], before, index0, Columns.Copies(value, j))
    {
      ghost var values := dst[..];
      StoredNext(values, before, index0, Columns.Copies(value, j), value);
      assert Columns.Copies(value, j) + [value] == Columns.Copies(value, j + 1);
      dst[index] := value;
      assert dst[..] == values[index := value];
      index := index + 1;
    }
  }

  /** The decoding pass: it stores exactly the values of the stream, up to an error, and leaves the
      rest of the destination alone; without an error it ends at the end of the input. */
  method ConvertPrle(src: seq<Byte>, past: Byte, dst: array<U32>)
    returns (status: Status, available: nat, ghost index: nat)
    requires |src| > 0 && |Parse(src, past).values| <= dst.Length < TWO32
    modifies dst
    ensures status == Parse(src, past).status && index == |Parse(src, past).values|
    ensures dst[..] == Parse(src, past).values + old(dst[..])[index..]
    ensures status.Ok? ==> available == 0
  {
    hide ToNat, RunAt, Stored, RunsFrom, Then, Parse;
    ParseStart(src, past);
    var pos, w := 1, ToNat(src[0]);
    var i := 0;
    index := 0;
    available := |src|;
    if w > 32 { return BitWidthErr, available, index; }
    available := available - 1;
    if available == 0 { return SrcIsShort, available, index; }
    ghost var before, seen := dst[..], [];
    StoredNone(before, 0);
    while pos < |src|
      invariant 1 <= pos <= |src| && available == |src| - pos && i == |seen|
      invariant Parse(src, past) == Then(seen, RunsFrom(src, past, w, pos))
      invariant Stored(dst[..], before, 0, seen)
      decreases |src| - pos
    {
      ghost var run, between := RunAt(src, past, w, pos), dst[..];
      RunValues(src, past, w, pos, seen);
      var ok: bool;
      ok, pos, i := DecodeRun(src, past, w, pos, dst, i);
      StoredMore(dst[..], between, before, 0, seen, run.values);
      seen := seen + run.values;
      available := |src| - pos;
      if !ok {
        index := i;
        StoredAll(dst[..], before, seen);
        return PrleFormatErr, available, index;
      }
    }
    index := i;
    ParseEnd(src, past, w, seen);
    StoredAll(dst[..], before, seen);
    status := Ok;
  }

  lemma ParseStart(src: seq<Byte>, past: Byte)
    requires |src| > 0
    ensures var w := ToNat(src[0]);
      && (w > 32 ==> Parse(src, past) == Parsed(BitWidthErr, []))
      && (w <= 32 && |src| == 1 ==> Parse(src, past) == Parsed(SrcIsShort, []))
      && (w <= 32 && |src| > 1 ==> Parse(src, past) == Then([], RunsFrom(src, past, w, 1)))
  {
    hide ToNat, RunsFrom;
  }

  lemma ParseEnd(src: seq<Byte>, past: Byte, w: nat, seen: seq<U32>)
    requires w <= 32
    ensures Then(seen, RunsFrom(src, past, w, |src|)) == Parsed(Ok, seen)
  {
  }

  lemma RunValues(src: seq<Byte>, past: Byte, w: nat, pos: nat, seen: seq<U32>)
    requires w <= 32 && pos < |src|
    ensures var run := RunAt(src, past, w, pos);
      && |seen| + |run.values| <= |Then(seen, RunsFrom(src, past, w, pos)).values|
      && (run.BadRun? ==> Then(seen, RunsFrom(src, past, w, pos)) == Parsed(PrleFormatErr, seen + run.values))
      && (run.Run? ==>
            Then(seen, RunsFrom(src, past, w, pos)) == Then(seen + run.values, RunsFrom(src, past, w, run.next)))
  {
    hide RunAt;
    var run := RunAt(src, past, w, pos);
    if run.Run? {
      var rest := RunsFrom(src, past, w, run.next).values;
      assert seen + (run.values + rest) == (seen + run.values) + rest;
    }
  }

  lemma StoredAll(values: seq<U32>, before: seq<U32>, vs: seq<U32>)
    requires Stored(values, before, 0, vs)
    ensures values == vs + before[|vs|..]
  {
  }

  // ----- the counter is 32 bits wide -----

  /** How many values the headers from byte `pos` on announce. */
  function Announced(src: seq<Byte>, w: nat, pos: nat): nat
    requires pos <= |src|
    decreases |src| - pos
  {
    if pos == |src| then 0
    else match HeaderAt(src, pos)
      case BadHeader => 0
      case Header(packed, count, next) =>
        var r := ToNat(count);
        var after := next + if packed then Span(r, w) else BytesFor(w);
        (if packed then 8 * r else r) + if after <= |src| then Announced(src, w, after) else 0
  }

  /** A well-formed stream holds the values its headers announce. */
  lemma {:induction false} AnnouncedValues(src: seq<Byte>, past: Byte, w: nat, pos: nat)
    requires w <= 32 && pos <= |src| && RunsFrom(src, past, w, pos).status.Ok?
    ensures |RunsFrom(src, past, w, pos).values| == Announced(src, w, pos)
    decreases |src| - pos
  {
    hide RunAt, Announced, BytesFor, Span;
    AnnouncedNext(src, past, w, pos);
    if pos < |src| {
      AnnouncedValues(src, past, w, RunAt(src, past, w, pos).next);
    }
  }

  lemma AnnouncedNext(src: seq<Byte>, past: Byte, w: nat, pos: nat)
    requires w <= 32 && pos <= |src|
    ensures pos == |src| ==> Announced(src, w, pos) == 0
    ensures pos < |src| && RunAt(src, past, w, pos).Run? ==>
        var run := RunAt(src, past, w, pos);
        Announced(src, w, pos) == |run.values| + Announced(src, w, run.next)
  {
    hide HeaderAt, RleValue, PackedValues, Fit, ToNat;
    if pos < |src| {
      var h := HeaderAt(src, pos);
      if h.Header? && h.packed { FitGroups(|src| - h.next, w, ToNat(h.count)); }
    }
  }

  /** The count equals the number of values exactly when what the headers announce fits the counter. */
  lemma CountIsExact(src: seq<Byte>, past: Byte)
    requires |src| > 0 && Parse(src, past).status.Ok?
    ensures Wrap(|Parse(src, past).values|) == |Parse(src, past).values| <==> Announced(src, ToNat(src[0]), 1) < TWO32
  {
    hide RunsFrom, Announced, ToNat;
    AnnouncedValues(src, past, ToNat(src[0]), 1);
  }

  /** Both passes, as the callers run them: the decoder fills exactly the slots that were counted. */
  method CountThenConvert(src: seq<Byte>, past: Byte) returns (status: Status, dst: array<U32>)
    requires |src| > 0
    requires Parse(src, past).status.Ok? ==> Announced(src, ToNat(src[0]), 1) < TWO32
    ensures status == Parse(src, past).status
    ensures status.Ok? ==> dst[..] == Parse(src, past).values
  {
    hide Parse, Announced, Wrap;
    dst := new U32[0];
    var number;
    status, number := CountElementsPrle(src, past);
    if !status.Ok? { return; }
    CountIsExact(src, past);
    CountFits(src, past);
    dst := new U32[number](i => Zeros(32));
    var left;
    ghost var filled;
    status, left, filled := ConvertPrle(src, past, dst);
  }

  lemma CountFits(src: seq<Byte>, past: Byte)
    requires |src| > 0 && Parse(src, past).status.Ok? && Wrap(|Parse(src, past).values|) == |Parse(src, past).values|
    ensures |Parse(src, past).values| < TWO32
  {
  }

  /** All ones in the low `k` of `n` bits: the number 2^k - 1. */
  function AllOnes(k: nat): nat {
    if k == 0 then 0 else 1 + 2 * AllOnes(k - 1)
  }

  lemma {:induction false} ToNatOnes(n: nat, k: nat)
    requires k <= n
    ensures ToNat(Field(n, 0, k)) == AllOnes(k)
    decreases n
  {
    if n > 0 {
      assert Field(n, 0, k)[1..] == Field(n - 1, 0, if k == 0 then 0 else k - 1);
      ToNatOnes(n - 1, if k == 0 then 0 else k - 1);
    }
  }

  /** The longest run of one repeated 1-bit value: 2^27 - 1 times zero, in five bytes. */
  function LongestRun(): seq<Byte> {
    [Field(8, 1, 8), Field(8, 0, 8), Field(8, 0, 8), Field(8, 0, 7), Zeros(8)]
  }

  function LongestRuns(k: nat): (b: seq<Byte>)
    ensures |b| == 5 * k
  {
    if k == 0 then [] else LongestRun() + LongestRuns(k - 1)
  }

  lemma LongestHeader(src: seq<Byte>, pos: nat)
    requires pos + 5 <= |src| && src[pos..pos + 5] == LongestRun()
    ensures HeaderAt(src, pos) == Header(false, Field(32, 0, 27), pos + 4)
  {
    var b := src[pos..pos + 5];
    assert forall i :: 0 <= i < 5 ==> src[pos + i] == b[i];
    var p3 := VarInt(src, pos + 3, 1);
    assert p3 == Int(src[pos + 3][..7], pos + 4);
    var p2 := VarInt(src, pos + 2, 2);
    assert p2 == Int(src[pos + 2][..7] + p3.bits, pos + 4);
    var p1 := VarInt(src, pos + 1, 3);
    assert p1 == Int(src[pos + 1][..7] + p2.bits, pos + 4);
    var p0 := VarInt(src, pos, 4);
    assert p0 == Int(src[pos][..7] + p1.bits, pos + 4);
    assert p0.bits == Field(28, 1, 28);
    assert Widen(p0.bits[1..], 32) == Field(32, 0, 27);
  }

  lemma LongestRunAt(src: seq<Byte>, past: Byte, pos: nat)
    requires pos + 5 <= |src| && src[pos..pos + 5] == LongestRun()
    ensures var run := RunAt(src, past, 1, pos); run.Run? && run.next == pos + 5 && |run.values| == 134217727
  {
    hide HeaderAt, LongestRun, RleValue, ToNat;
    LongestHeader(src, pos);
    ToNatOnes(32, 27);
    TwentySevenOnes();
  }

  lemma TwentySevenOnes()
    ensures AllOnes(27) == 134217727
  {
    assert AllOnes(3) == 7 && AllOnes(6) == 63 && AllOnes(9) == 511 && AllOnes(12) == 4095;
    assert AllOnes(15) == 32767 && AllOnes(18) == 262143 && AllOnes(21) == 2097151 && AllOnes(24) == 16777215;
  }

  lemma {:induction false} LongestRunsParse(src: seq<Byte>, past: Byte, pos: nat, k: nat)
    requires pos <= |src| && src[pos..] == LongestRuns(k)
    ensures RunsFrom(src, past, 1, pos).status == Ok
    ensures |RunsFrom(src, past, 1, pos).values| == 134217727 * k
    decreases k
  {
    hide RunAt, LongestRun;
    if k > 0 {
      assert src[pos..pos + 5] == src[pos..][..5] == LongestRun();
      LongestRunAt(src, past, pos);
      assert src[pos + 5..] == src[pos..][5..] == LongestRuns(k - 1);
      LongestRunsParse(src, past, pos + 5, k - 1);
    }
  }

  /** 33 longest runs of width 1. */
  lemma ManyLongestRuns(past: Byte) returns (src: seq<Byte>)
    ensures |src| == 166 && Parse(src, past).status.Ok? && |Parse(src, past).values| == 134217727 * 33
  {
    hide ToNat, RunsFrom, LongestRuns, Field;
    var one: Byte := OneHot(8, 0);
    src := [one] + LongestRuns(33);
    assert src[1..] == LongestRuns(33);
    OneIsField();
    ToNatOnes(8, 1);
    assert AllOnes(1) == 1;
    LongestRunsParse(src, past, 1, 33);
  }

  lemma OneIsField()
    ensures OneHot(8, 0) == Field(8, 0, 1)
  {
  }

  /** A stream of 166 bytes whose count is too small: 33 longest runs hold more than 2^32 values. */
  lemma CountCanBeTooSmall(past: Byte)
    ensures exists src: seq<Byte> ::
        && |src| == 166 && Parse(src, past).status.Ok?
        && Wrap(|Parse(src, past).values|) < |Parse(src, past).values|
  {
    hide Parse;
    var src := ManyLongestRuns(past);
  }
}
