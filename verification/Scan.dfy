/** Scanning a packed column: compare every element, store the verdicts. */
module Scan {
  import opened Words
  import opened Numbers
  import opened Streams
  import opened Packing
  import opened BitCursor
  import opened Columns
  import opened Convert
  import opened Copy
  import opened ColumnValues

  datatype Op = Lt | Le | Gt | Ge | Eq | Ne | InRange | NotInRange | OtherOp

  datatype ScanStatus = ScanOk | ScanSrcIsShort | ScanDstIsShort | OperationErr | OutputOverflow

  predicate Matches(op: Op, v: U32, low: U32, high: U32) {
    var x, a, b := ToNat(v), ToNat(low), ToNat(high);
    match op
    case Lt => x < a
    case Le => x <= a
    case Gt => x > a
    case Ge => x >= a
    case Eq => x == a
    case Ne => x != a
    case InRange => x >= a && x <= b
    case NotInRange => x < a || x > b
    case OtherOp => false
  }

  /** The verdict on every value. */
  function Hits(vs: seq<U32>, op: Op, low: U32, high: U32): (m: seq<bool>)
    ensures |m| == |vs|
  {
    seq(|vs|, i requires 0 <= i < |vs| => Matches(op, vs[i], low, high))
  }

  function CorrectParameter(w: nat, p: U32): U32
    requires w <= 32
  {
    And(p, Shr(Field(32, 0, 32), 32 - w))
  }

  /** A parameter wider than the elements is cut to their width. */
  lemma CorrectParameterIsCut(w: nat, p: U32)
    requires w <= 32
    ensures CorrectParameter(w, p) == Widen(p[..w], 32)
  {
  }

  const ONE32: U32 := OneHot(32, 0)

  method OwnCompare(source: seq<U32>, dst: array<U32>, low: U32, high: U32, op: Op) returns (status: ScanStatus)
    requires |source| == dst.Length
    modifies dst
    ensures status == if op.OtherOp? && source != [] then OperationErr else ScanOk
    ensures status.ScanOk? ==> Truth(dst[..]) == Hits(source, op, low, high)
  {
    hide ToNat;
    assert ONE32[0];
    for i := 0 to |source|
      invariant !op.OtherOp? || i == 0
      invariant forall k :: 0 <= k < i ==> !IsZero(dst[k]) == Matches(op, source[k], low, high)
    {
      var x, a, b := ToNat(source[i]), ToNat(low), ToNat(high);
      var result: U32;
      match op {
        case Lt => result := if x < a then ONE32 else Zeros(32);
        case Le => result := if x <= a then ONE32 else Zeros(32);
        case Gt => result := if x > a then ONE32 else Zeros(32);
        case Ge => result := if x >= a then ONE32 else Zeros(32);
        case Eq => result := if x == a then ONE32 else Zeros(32);
        case Ne => result := if x != a then ONE32 else Zeros(32);
        case InRange => result := if x >= a && x <= b then ONE32 else Zeros(32);
        case NotInRange => result := if x < a || x > b then ONE32 else Zeros(32);
        case OtherOp => return OperationErr;
      }
      dst[i] := result;
    }
    status := ScanOk;
  }

  // ----- nominal output: one bit per element -----

  /** The bytes for `n` verdicts, in 32-bit arithmetic: none for the seven largest numbers of elements. */
  function Bytes32(n: nat): nat {
    Wrap(n + 7) / 8
  }

  lemma Bytes32Wraps(n: nat)
    requires n < TWO32
    ensures Bytes32(n) == if n + 7 < TWO32 then BytesFor(n) else 0
  {
    if n + 7 < TWO32 { WrapSmall(n + 7); }
  }

  /** The destination stream after a scan: the verdicts, then what was there before. The padding is cleared
      if the last byte holds at least two verdicts and the number of bytes has not wrapped to zero. */
  function ScanStream(verdicts: seq<bool>, before: seq<bool>): (s: seq<bool>)
    requires 8 * BytesFor(|verdicts|) <= |before|
    ensures |s| == |before|
  {
    var s := verdicts + before[|verdicts|..];
    if |verdicts| % 8 >= 2 && Bytes32(|verdicts|) > 0 then Cleared(s, |verdicts|) else s
  }

  /** Stores one verdict as bit `i`. */
  method StoreResult(result: U32, i: nat, be: bool, dst: array<Byte>)
    requires i < 8 * dst.Length
    modifies dst
    ensures Stream(be, dst[..]) == old(Stream(be, dst[..]))[i := !IsZero(result)]
  {
    hide Stream, At, Masked;
    ghost var before := dst[..];
    var mask: Byte := if be then Shr(HIGH_BIT, i % 8) else Shl(LOW_BIT, i % 8);
    SeatLow(i);
    SeatHigh(i);
    WriteBit(be, before, i, i / 8, mask, !IsZero(result));
    dst[i / 8] := Masked(dst[i / 8], mask, !IsZero(result));
    assert dst[..] == before[i / 8 := Masked(before[i / 8], mask, !IsZero(result))];
  }

  /** Clears the bits behind the last verdict, if the last byte holds at least two. */
  method ClearScanTail(n: nat, be: bool, dst: array<Byte>) returns (end: nat)
    requires n < TWO32 && BytesFor(n) <= dst.Length
    modifies dst
    ensures end == Bytes32(n)
    ensures Stream(be, dst[..])
         == if n % 8 >= 2 && end > 0 then Cleared(old(Stream(be, dst[..])), n) else old(Stream(be, dst[..]))
  {
    hide Stream, Cleared, Dec, Shl, Shr, Not, Bytes32;
    Bytes32Wraps(n);
    end := Bytes32(n);
    var lastBitOffset := n % 8;
    if 1 < lastBitOffset && end > 0 {
      ghost var before := dst[..];
      var mask: Byte := if be then Not(Dec(Shr(HIGH_BIT, lastBitOffset - 1))) else Dec(Shl(LOW_BIT, lastBitOffset));
      TailMask(lastBitOffset - 1);
      LowMask(lastBitOffset);
      ClearStream(be, before, n, And(before[n / 8], mask));
      dst[end - 1] := And(dst[end - 1], mask);
      assert dst[..] == before[n / 8 := And(before[n / 8], mask)];
    }
  }

  lemma LowMask(k: nat)
    requires k < 8
    ensures Dec(Shl(LOW_BIT, k)) == Field(8, 0, k)
  {
    assert Shl(LOW_BIT, k) == OneHot(8, k);
    DecOneHot(8, k);
  }

  lemma FirstVerdicts(verdicts: seq<bool>, s0: seq<bool>)
    ensures s0 == verdicts[..0] + s0[0..] && verdicts[..|verdicts|] == verdicts
  {
  }

  lemma NextVerdict(verdicts: seq<bool>, s0: seq<bool>, i: nat)
    requires i < |verdicts| <= |s0|
    ensures (verdicts[..i] + s0[i..])[i := verdicts[i]] == verdicts[..i + 1] + s0[i + 1..]
  {
  }

  /** All verdicts bit by bit. */
  method StoreVerdicts(results: seq<U32>, be: bool, dst: array<Byte>)
    requires BytesFor(|results|) <= dst.Length
    modifies dst
    ensures Stream(be, dst[..]) == Truth(results) + old(Stream(be, dst[..]))[|results|..]
  {
    hide Stream, IsZero;
    ghost var s0, verdicts := Stream(be, dst[..]), Truth(results);
    FirstVerdicts(verdicts, s0);
    for i := 0 to |results|
      invariant Stream(be, dst[..]) == verdicts[..i] + s0[i..]
    {
      StoreResult(results[i], i, be, dst);
      NextVerdict(verdicts, s0, i);
    }
  }

  /** The verdicts are stored first; then the room is checked, and only then the tail cleared. */
  method StoreBits(results: seq<U32>, be: bool, dst: array<Byte>, availableOut: nat)
    returns (status: ScanStatus, end: nat)
    requires |results| < TWO32 && BytesFor(|results|) <= dst.Length
    modifies dst
    ensures status == if Bytes32(|results|) > availableOut then ScanDstIsShort else ScanOk
    ensures status.ScanOk? ==>
        end == Bytes32(|results|) && Stream(be, dst[..]) == ScanStream(Truth(results), old(Stream(be, dst[..])))
    ensures status.ScanDstIsShort? ==>
        Stream(be, dst[..]) == Truth(results) + old(Stream(be, dst[..]))[|results|..]
  {
    hide Stream, Cleared, Truth, Bytes32;
    end := 0;
    StoreVerdicts(results, be, dst);
    if Bytes32(|results|) > availableOut { return ScanDstIsShort, end; }
    end := ClearScanTail(|results|, be, dst);
    status := ScanOk;
  }

  /** The output is the packed verdicts unless leftover bits share the last byte with one verdict, or with any number of
      them when the number of bytes wraps. */
  lemma ScanPadding(be: bool, verdicts: seq<bool>, bytes: seq<Byte>, before: seq<Byte>)
    requires |verdicts| < TWO32 && BytesFor(|verdicts|) <= |bytes| == |before|
    requires Stream(be, bytes) == ScanStream(verdicts, Stream(be, before))
    ensures bytes == Packed(be, verdicts) + before[BytesFor(|verdicts|)..]
       <==> || (|verdicts| % 8 != 1 && |verdicts| < TWO32 - 7)
            || Cleared(Stream(be, before), |verdicts|) == Stream(be, before)
  {
    hide Stream, Packed, Bytes32;
    Bytes32Wraps(|verdicts|);
    var n, s0 := |verdicts|, Stream(be, before);
    var used := BytesFor(n);
    var s := verdicts + s0[n..];
    if n % 8 == 0 { NothingToClear(s, n); }
    if Stream(be, bytes) == Cleared(s, n) {
      PackedInto(be, bytes, before, verdicts);
    }
    if bytes == Packed(be, verdicts) + before[used..] {
      StreamOfPacked(be, verdicts);
      StreamConcat(be, Packed(be, verdicts), before[used..]);
      StreamDrop(be, before, used);
      assert Stream(be, bytes) == Cleared(s, n);
    }
    SamePadding(verdicts, s0);
  }

  /** For one: a single verdict stored over a byte of ones leaves seven of them. */
  lemma OneVerdictKeepsPadding()
    ensures var before: Byte, after: Byte := Ones(8), [false] + Ones(7);
        && Stream(false, [after]) == ScanStream([false], Stream(false, [before]))
        && [after] != Packed(false, [false])
  {
    var before: Byte, after: Byte := Ones(8), [false] + Ones(7);
    StreamOne(false, before);
    StreamOne(false, after);
    assert PackedByte(false, [false], 0)[1] != after[1];
    assert Packed(false, [false])[0] == PackedByte(false, [false], 0);
  }

  lemma SamePadding(verdicts: seq<bool>, s0: seq<bool>)
    requires 8 * BytesFor(|verdicts|) <= |s0|
    ensures Cleared(verdicts + s0[|verdicts|..], |verdicts|) == verdicts + s0[|verdicts|..]
       <==> Cleared(s0, |verdicts|) == s0
  {
    var n := |verdicts|;
    var s := verdicts + s0[n..];
    assert forall q :: n <= q < |s0| ==> s[q] == s0[q] && Cleared(s, n)[q] == Cleared(s0, n)[q];
    assert forall q :: 0 <= q < n ==> Cleared(s, n)[q] == s[q] && Cleared(s0, n)[q] == s0[q];
  }

  /** The scan of a packed column with nominal output. */
  method ScanColumn(src: seq<Byte>, sBe: bool, w: nat, n: nat, low: U32, high: U32, op: Op, dBe: bool, dst: array<Byte>,
                    availableOut: nat)
    returns (status: ScanStatus, end: nat)
    requires 1 <= w <= 32 && 1 <= n < TWO32 && BytesFor(n) <= dst.Length
    modifies dst
    ensures status ==
            if |src| < BytesFor(Span(n, w)) then ScanSrcIsShort
            else if op.OtherOp? then OperationErr
            else if Bytes32(n) > availableOut then ScanDstIsShort
            else ScanOk
    ensures status.ScanOk? ==>
      && end == Bytes32(n)
      && Stream(dBe, dst[..]) == ScanStream(Verdicts(src, sBe, w, n, op, low, high), old(Stream(dBe, dst[..])))
  {
    hide Stream, Unpack, Values, Hits, Truth, ScanStream, CorrectParameter, BytesFor, Bytes32;
    end := 0;
    if |src| < BytesFor(BitLength(n, w)) { return ScanSrcIsShort, end; }
    EnoughBits(|src|, Span(n, w));
    var extracted := new U32[n](i => Zeros(32));
    var results := new U32[n](i => Zeros(32));
    ConvertTo32u(src, w, n, sBe, extracted);
    assert extracted[..] == Values(Unpack(sBe, src, w, n));
    var correctedLow, correctedHigh := CorrectParameter(w, low), CorrectParameter(w, high);
    status := OwnCompare(extracted[..], results, correctedLow, correctedHigh, op);
    if !status.ScanOk? { return; }
    status, end := StoreBits(results[..], dBe, dst, availableOut);
  }

  lemma EnoughBits(bytes: nat, bits: nat)
    requires BytesFor(bits) <= bytes
    ensures bits <= 8 * bytes
  {
  }

  /** Which elements of a packed column satisfy the predicate, with the parameters cut to their width. */
  function Verdicts(src: seq<Byte>, be: bool, w: nat, n: nat, op: Op, low: U32, high: U32): (m: seq<bool>)
    requires w <= 32 && Span(n, w) <= 8 * |src|
    ensures |m| == n
  {
    Hits(Values(Unpack(be, src, w, n)), op, CorrectParameter(w, low), CorrectParameter(w, high))
  }

  /** A scan in numbers. With x the digit group of element `i` in the number of the source, and a and b the parameters
      modulo 2^w, bit `i` of the output tells whether x is below a, at most a, and so on. */
  lemma ScanInNumbers(src: seq<Byte>, be: bool, w: nat, n: nat, op: Op, low: U32, high: U32, before: seq<bool>, i: nat)
    requires w <= 32 && Span(n, w) <= 8 * |src| && 8 * BytesFor(n) <= |before| && i < n
    ensures i * w + w <= 8 * |src|
    ensures var x := Number(be, src) / Pow2(if be then 8 * |src| - (i * w + w) else i * w) % Pow2(w);
        var a, b := ToNat(low) % Pow2(w), ToNat(high) % Pow2(w);
        var bit := ScanStream(Verdicts(src, be, w, n, op, low, high), before)[i];
        match op
        case Lt => bit <==> x < a
        case Le => bit <==> x <= a
        case Gt => bit <==> x > a
        case Ge => bit <==> x >= a
        case Eq => bit <==> x == a
        case Ne => bit <==> x != a
        case InRange => bit <==> a <= x <= b
        case NotInRange => bit <==> x < a || b < x
        case OtherOp => !bit
  {
    hide ToNat, Pow2, Number, Unpack, Span, CorrectParameter, BytesFor;
    ElementValue(be, src, w, n, i);
    WidenValue(Unpack(be, src, w, n)[i], 32);
    ParameterValue(w, low);
    ParameterValue(w, high);
    VerdictAt(src, be, w, n, op, low, high, i);
    VerdictBit(Verdicts(src, be, w, n, op, low, high), before, i);
    hide Verdicts, ScanStream;
  }

  lemma ParameterValue(w: nat, p: U32)
    requires w <= 32
    ensures ToNat(CorrectParameter(w, p)) == ToNat(p) % Pow2(w)
  {
    hide ToNat, Pow2, CorrectParameter;
    CorrectParameterIsCut(w, p);
    WidenValue(p[..w], 32);
    CutValue(p, w);
  }

  lemma VerdictAt(src: seq<Byte>, be: bool, w: nat, n: nat, op: Op, low: U32, high: U32, i: nat)
    requires w <= 32 && Span(n, w) <= 8 * |src| && i < n
    ensures Verdicts(src, be, w, n, op, low, high)[i]
         == Matches(op, Widen(Unpack(be, src, w, n)[i], 32), CorrectParameter(w, low), CorrectParameter(w, high))
  {
    hide Matches, Unpack, CorrectParameter, Widen;
  }

  /** The verdicts come out as the first bits. */
  lemma VerdictBit(verdicts: seq<bool>, before: seq<bool>, i: nat)
    requires 8 * BytesFor(|verdicts|) <= |before| && i < |verdicts|
    ensures ScanStream(verdicts, before)[i] == verdicts[i]
  {
    hide Bytes32;
  }

  /** The operations come in complementary pairs. */
  lemma Complements(vs: seq<U32>, low: U32, high: U32, i: nat)
    requires i < |vs|
    ensures Hits(vs, Ge, low, high)[i] == !Hits(vs, Lt, low, high)[i]
    ensures Hits(vs, Gt, low, high)[i] == !Hits(vs, Le, low, high)[i]
    ensures Hits(vs, Ne, low, high)[i] == !Hits(vs, Eq, low, high)[i]
    ensures Hits(vs, NotInRange, low, high)[i] == !Hits(vs, InRange, low, high)[i]
    ensures Hits(vs, InRange, low, high)[i] == (Hits(vs, Ge, low, high)[i] && Hits(vs, Le, high, high)[i])
    ensures Hits(vs, Eq, low, high)[i] == (Hits(vs, Ge, low, high)[i] && Hits(vs, Le, low, high)[i])
  {
  }

  /** Below is downward closed: what is smaller than a hit is a hit, and zero is one unless the parameter is zero. */
  lemma BelowIsDownwardClosed(vs: seq<U32>, low: U32, high: U32, i: nat, j: nat)
    requires i < |vs| && j < |vs| && ToNat(vs[i]) <= ToNat(vs[j])
    ensures Hits(vs, Lt, low, high)[j] ==> Hits(vs, Lt, low, high)[i]
    ensures Hits(vs, Le, low, high)[j] ==> Hits(vs, Le, low, high)[i]
    ensures IsZero(vs[i]) ==> Hits(vs, Lt, low, high)[i] == !IsZero(low) && Hits(vs, Le, low, high)[i]
  {
    ZeroValue(vs[i]);
    ZeroValue(low);
  }

  // ----- a scan followed by a select -----

  /** The elements that satisfy the predicate, in order. */
  function Satisfying(es: seq<Word>, op: Op, low: U32, high: U32): seq<Word>
    requires forall i :: 0 <= i < |es| ==> |es[i]| <= 32
  {
    if es == [] then []
    else
      var k := |es| - 1;
      Satisfying(es[..k], op, low, high) + if Matches(op, Widen(es[k], 32), low, high) then [es[k]] else []
  }

  lemma {:induction false} SelectHits(es: seq<Word>, op: Op, low: U32, high: U32)
    requires forall i :: 0 <= i < |es| ==> |es[i]| <= 32
    ensures Select(es, Hits(Values(es), op, low, high)) == Satisfying(es, op, low, high)
    decreases |es|
  {
    hide Matches, Widen;
    if es != [] {
      var k := |es| - 1;
      SelectHits(es[..k], op, low, high);
      assert Values(es)[..k] == Values(es[..k]);
      assert Hits(Values(es), op, low, high)[..k] == Hits(Values(es[..k]), op, low, high);
    }
  }

  /** Using the output of a scan as the mask of a masked copy keeps exactly the elements that satisfy
      the predicate, whatever the bit orders and whatever the padding of the mask. */
  lemma QueryLaw(src: seq<Byte>, sBe: bool, w: nat, n: nat, op: Op, low: U32, high: U32, maskBe: bool, mask: seq<Byte>,
                 before: seq<bool>)
    requires 1 <= w <= 32 && Span(n, w) <= 8 * |src| && BytesFor(n) <= |mask| && |before| == 8 * |mask|
    requires Stream(maskBe, mask) == ScanStream(Verdicts(src, sBe, w, n, op, low, high), before)
    ensures Select(Unpack(sBe, src, w, n), MaskBits(maskBe, mask, n))
         == Satisfying(Unpack(sBe, src, w, n), op, CorrectParameter(w, low), CorrectParameter(w, high))
    ensures Popcount(MaskBits(maskBe, mask, n))
         == |Satisfying(Unpack(sBe, src, w, n), op, CorrectParameter(w, low), CorrectParameter(w, high))|
  {
    hide Stream, Unpack, Values, Hits, Select, Satisfying, CorrectParameter;
    var verdicts := Verdicts(src, sBe, w, n, op, low, high);
    assert MaskBits(maskBe, mask, n) == verdicts;
    SelectHits(Unpack(sBe, src, w, n), op, CorrectParameter(w, low), CorrectParameter(w, high));
    SelectLength(Unpack(sBe, src, w, n), verdicts);
  }

  /** The two steps of a query, one after the other. */
  method ScanThenSelect(src: seq<Byte>, sBe: bool, w: nat, n: nat, low: U32, high: U32, op: Op, maskBe: bool,
                        mask: array<Byte>, dBe: bool, dst: array<Byte>, outputBits: nat)
    returns (status: ScanStatus, end: int)
    requires 1 <= w <= 32 && 1 <= n < TWO32 && BytesFor(Span(n, w)) <= |src| && !op.OtherOp?
    requires n / 8 < mask.Length && outputBits <= 8 * dst.Length && mask != dst
    modifies mask, dst
    ensures var found := Satisfying(Unpack(sBe, src, w, n), op, CorrectParameter(w, low), CorrectParameter(w, high));
      && status == (if Span(|found|, w) <= outputBits then ScanOk else ScanDstIsShort)
      && (status.ScanOk? ==>
            && end == BytesFor(Span(|found|, w))
            && dst[..] == PackElements(dBe, found) + old(dst[..])[end..])
  {
    hide Stream, Unpack, ScanStream, Select, Satisfying, CorrectParameter, PackElements, Verdicts, Popcount, MaskBits,
      Bytes32;
    ghost var before, dst0 := Stream(maskBe, mask[..]), dst[..];
    EnoughBits(|src|, Span(n, w));
    Bytes32Wraps(n);
    var st, maskEnd := ScanColumn(src, sBe, w, n, low, high, op, maskBe, mask, mask.Length);
    QueryLaw(src, sBe, w, n, op, low, high, maskBe, mask[..], before);
    assert dst[..] == dst0;
    var copied, last, left := CopyMasked(sBe, src, maskBe, mask[..], dBe, dst, outputBits, w, n);
    status, end := (if copied.Ok? then ScanOk else ScanDstIsShort), last;
  }
}
