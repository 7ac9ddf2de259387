/** Storing 32-bit values as a packed column of their low `w` bits. */
module Store {
  import opened Words
  import opened Streams
  import opened Packing
  import opened BitCursor
  import opened Copy

  /** The elements that a column of width `w` can hold of the given values: each modulo 2^w. */
  function Truncated(values: seq<U32>, w: nat): (es: seq<Word>)
    requires w <= 32
    ensures |es| == |values| && Uniform(es, w)
  {
    seq(|values|, i requires 0 <= i < |values| => values[i][..w])
  }

  lemma TruncatedNext(values: seq<U32>, w: nat, k: nat)
    requires w <= 32 && k < |values|
    ensures Truncated(values[..k + 1], w) == Truncated(values[..k], w) + [values[k][..w]]
  {
  }

  lemma ValueBit(value: U32, j: nat)
    requires j < 32
    ensures !IsZero(And(value, Shl(OneHot(32, 0), j))) == value[j]
  {
    var t := And(value, Shl(OneHot(32, 0), j));
    assert t[j] == value[j];
    assert forall i :: 0 <= i < 32 && i != j ==> !t[i];
  }

  /** The inner loop: the low `w` bits of a value, bit by bit. */
  method StoreElement(value: U32, dBe: bool, dst: array<Byte>, dPtr0: int, dMask0: Byte, w: nat, ghost dBase: nat)
    returns (dPtr: int, dMask: Byte)
    requires w <= 32 && At(dBe, BitPos(dBe, dBase, w, 0), dPtr0, dMask0) && dBase + w <= 8 * dst.Length
    modifies dst
    ensures At(dBe, BitPos(dBe, dBase, w, w), dPtr, dMask)
    ensures Stream(dBe, dst[..]) == Splice(old(Stream(dBe, dst[..])), dBase, InOrder(dBe, value[..w]))
  {
    hide At, Partial, Stream, Splice, InOrder, BitPos, And, Shl, IsZero;
    ghost var s0, e := Stream(dBe, dst[..]), value[..w];
    dPtr, dMask := dPtr0, dMask0;
    PartialStart(dBe, s0, dBase, e);
    for j := 0 to w
      invariant At(dBe, BitPos(dBe, dBase, w, j), dPtr, dMask)
      invariant Partial(dBe, s0, Stream(dBe, dst[..]), dBase, e, j)
    {
      ValueBit(value, j);
      var sourceBit := !IsZero(And(value, Shl(OneHot(32, 0), j)));
      dPtr, dMask := PutBit(dBe, dst, dPtr, dMask, sourceBit, s0, dBase, e, j);
    }
    PartialDone(dBe, s0, Stream(dBe, dst[..]), dBase, e);
  }

  /** As `Laid`, with the padding behind the last element cleared. */
  ghost predicate LaidClear(be: bool, bytes: seq<Byte>, before: seq<Byte>, es: seq<Word>, w: nat) {
    var a := Span(|es|, w);
    && |bytes| == |before| && Uniform(es, w) && |Flat(be, es)| == a && BytesFor(a) <= |before|
    && Stream(be, bytes) == Cleared(Flat(be, es) + Stream(be, before)[a..], a)
  }

  /** Clearing behind the next element and then writing it keeps the layout. */
  lemma LaidClearNext(be: bool, bytes: seq<Byte>, before: seq<Byte>, es: seq<Word>, w: nat, e: Word, next: seq<Byte>)
    requires LaidClear(be, bytes, before, es, w) && |e| == w && |next| == |before|
    requires BytesFor(Span(|es|, w) + w) <= |before|
    requires Stream(be, next)
          == Splice(Cleared(Stream(be, bytes), Span(|es|, w) + w), Span(|es|, w), InOrder(be, e))
    ensures LaidClear(be, next, before, es + [e], w)
  {
    hide Stream, Splice, InOrder, Cleared, Flat;
    FlatAppend(be, es, e);
    FlatLength(be, es + [e], w);
    SpanNext(|es|, w);
    var front, r, s0 := Flat(be, es), InOrder(be, e), Stream(be, before);
    ClearedNext(front, r, s0);
    assert Stream(be, next) == Cleared(front + r + s0[|front| + |r|..], |front| + |r|);
  }

  lemma ClearedNext(front: seq<bool>, r: seq<bool>, s0: seq<bool>)
    requires 8 * BytesFor(|front| + |r|) <= |s0|
    ensures 8 * BytesFor(|front|) <= |s0|
    ensures Splice(Cleared(Cleared(front + s0[|front|..], |front|), |front| + |r|), |front|, r)
         == Cleared(front + r + s0[|front| + |r|..], |front| + |r|)
  {
    hide Cleared;
    var a, b := |front|, |front| + |r|;
    assert BytesFor(a) <= BytesFor(b);
    var s1, s2 := front + s0[a..], front + r + s0[b..];
    var once := Cleared(s1, a);
    var t := Splice(Cleared(once, b), a, r);
    forall q | 0 <= q < |s0|
      ensures t[q] == Cleared(s2, b)[q]
    {
      ClearedAt(s1, a, q);
      ClearedAt(once, b, q);
      ClearedAt(s2, b, q);
      if q < a {
        assert t[q] == Cleared(once, b)[q] && s1[q] == s2[q];
      } else if q < b {
        assert t[q] == r[q - a] == s2[q];
      } else {
        assert t[q] == Cleared(once, b)[q] && s1[q] == s2[q];
      }
    }
  }

  method StoreNominal(values: seq<U32>, w: nat, be: bool, dst: array<Byte>) returns (elementIndex: nat)
    requires 1 <= w <= 32 && BytesFor(Span(|values|, w)) <= dst.Length
    modifies dst
    ensures elementIndex == |values|
    ensures dst[..] == PackElements(be, Truncated(values, w)) + old(dst[..])[BytesFor(Span(|values|, w))..]
  {
    hide At, Stream, PackElements, Laid, LaidClear, InOrder, Splice, Cleared, Truncated;
    ghost var before := dst[..];
    var n := |values|;
    var dPtr: int, dMask: Byte := 0, LOW_BIT;
    var offset := 0;
    assert values[..n] == values;
    TruncatedNone(w);
    if be {
      LaidClearNone(be, before, w);
      for i := 0 to n
        invariant offset == Span(i, w) && BytesFor(offset) <= dst.Length
        invariant LaidClear(true, dst[..], before, Truncated(values[..i], w), w)
      {
        SpanMono(i, n, w);
        TruncatedNext(values, w, i);
        ghost var laid := dst[..];
        offset := offset + w;
        dPtr, dMask := SeatBig(offset, offset - w, w);
        var last := ClearTailHigh(dst, offset);
        dPtr, dMask := StoreElement(values[i], true, dst, dPtr, dMask, w, offset - w);
        LaidClearNext(true, laid, before, Truncated(values[..i], w), w, values[i][..w], dst[..]);
      }
      LaidClearAll(true, dst[..], before, Truncated(values, w), w);
    } else {
      SeatStart();
      LaidNone(be, before, w);
      for i := 0 to n
        invariant offset == Span(i, w) <= Span(n, w)
        invariant At(false, offset, dPtr, dMask)
        invariant Laid(false, dst[..], before, Truncated(values[..i], w), w)
      {
        SpanMono(i, n, w);
        TruncatedNext(values, w, i);
        ghost var laid := dst[..];
        dPtr, dMask := StoreElement(values[i], false, dst, dPtr, dMask, w, offset);
        LaidNext(false, laid, before, Truncated(values[..i], w), w, values[i][..w], dst[..]);
        offset := offset + w;
      }
      var end := FinishCopy(false, dst, dPtr, dMask, offset, before, Truncated(values, w), w);
    }
    elementIndex := |values|;
  }

  lemma TruncatedNone(w: nat)
    requires w <= 32
    ensures Truncated([], w) == []
  {
  }

  lemma LaidClearNone(be: bool, bytes: seq<Byte>, w: nat)
    ensures LaidClear(be, bytes, bytes, [], w)
  {
    NothingToClear(Stream(be, bytes), 0);
    assert [] + Stream(be, bytes)[0..] == Stream(be, bytes);
  }

  lemma LaidClearAll(be: bool, bytes: seq<Byte>, before: seq<Byte>, es: seq<Word>, w: nat)
    requires LaidClear(be, bytes, before, es, w)
    ensures bytes == PackElements(be, es) + before[BytesFor(Span(|es|, w))..]
  {
    PackedInto(be, bytes, before, Flat(be, es));
  }
}
