/** Bit-packed columns: fixed-width elements laid end to end in a byte buffer.
    Little-endian packing reads bytes and elements from the low bit, big-endian from the high bit. */
module Packing {
  import opened Words
  import opened Streams

  /** Every element has `w` bits (least significant first). */
  ghost predicate Uniform(es: seq<Word>, w: nat) {
    forall i :: 0 <= i < |es| ==> |es[i]| == w
  }

  /** The elements one after the other, each in reading order. */
  function Flat(be: bool, es: seq<Word>): seq<bool> {
    if es == [] then [] else Flat(be, es[..|es| - 1]) + InOrder(be, es[|es| - 1])
  }

  /** The bits taken by `n` elements of width `w`, that is n * w. */
  function Span(n: nat, w: nat): nat {
    if n == 0 then 0 else Span(n - 1, w) + w
  }

  lemma {:induction false} SpanIsProduct(n: nat, w: nat)
    ensures Span(n, w) == n * w
  {
    if n > 0 {
      SpanIsProduct(n - 1, w);
      assert (n - 1) * w == n * w - w;
    }
  }

  lemma {:induction false} SpanMono(i: nat, n: nat, w: nat)
    requires i < n
    ensures Span(i, w) + w <= Span(n, w)
  {
    if i < n - 1 { SpanMono(i, n - 1, w); }
  }

  lemma SpanNext(n: nat, w: nat)
    ensures Span(n + 1, w) == Span(n, w) + w
  {
  }

  /** Element `i` of width `w` in a bit stream. */
  function Elem(be: bool, s: seq<bool>, w: nat, i: nat): (e: Word)
    requires Span(i, w) + w <= |s|
    ensures |e| == w
  {
    InOrder(be, s[Span(i, w)..Span(i, w) + w])
  }

  /** The first `n` elements of width `w` of a bit stream. */
  function Chop(be: bool, s: seq<bool>, w: nat, n: nat): (es: seq<Word>)
    requires Span(n, w) <= |s|
    ensures |es| == n && Uniform(es, w)
  {
    seq(n, i requires 0 <= i < n => (SpanMono(i, n, w); Elem(be, s, w, i)))
  }

  lemma ChopAt(be: bool, s: seq<bool>, w: nat, n: nat, i: nat)
    requires i < n && Span(n, w) <= |s|
    ensures Span(i, w) + w <= |s|
    ensures Chop(be, s, w, n)[i] == InOrder(be, s[Span(i, w)..Span(i, w) + w])
  {
    hide InOrder;
    SpanMono(i, n, w);
  }

  lemma SameSlice(s: seq<bool>, a: nat, p: nat, w: nat)
    requires a + p + w <= |s|
    ensures s[a..][p..p + w] == s[a + p..a + p + w]
  {
  }

  /** How many bytes `k` bits take. */
  function BytesFor(k: nat): nat {
    (k + 7) / 8
  }

  /** The bytes holding the bits `s`, the rest of the last byte zero. */
  function Packed(be: bool, s: seq<bool>): (bytes: seq<Byte>)
    ensures |bytes| == BytesFor(|s|)
  {
    seq(BytesFor(|s|), k requires 0 <= k < BytesFor(|s|) => PackedByte(be, s, k))
  }

  function PackedByte(be: bool, s: seq<bool>, k: nat): Byte {
    InOrder(be, seq(8, j requires 0 <= j < 8 => 8 * k + j < |s| && s[8 * k + j]))
  }

  lemma InOrderTwice(be: bool, w: Word)
    ensures InOrder(be, InOrder(be, w)) == w
  {
  }

  lemma {:induction false} FlatLength(be: bool, es: seq<Word>, w: nat)
    requires Uniform(es, w)
    ensures |Flat(be, es)| == Span(|es|, w)
    decreases |es|
  {
    if es != [] {
      FlatLength(be, es[..|es| - 1], w);
    }
  }

  lemma FlatAppend(be: bool, es: seq<Word>, e: Word)
    ensures Flat(be, es + [e]) == Flat(be, es) + InOrder(be, e)
  {
    assert (es + [e])[..|es|] == es;
  }

  lemma ChopNext(be: bool, s: seq<bool>, w: nat, n: nat)
    requires Span(n, w) + w <= |s|
    ensures Span(n + 1, w) == Span(n, w) + w
    ensures Chop(be, s, w, n + 1) == Chop(be, s, w, n) + [Elem(be, s, w, n)]
  {
  }

  /** Unpacking and laying out again gives the bits back. */
  lemma {:induction false} FlatOfChop(be: bool, s: seq<bool>, w: nat, n: nat)
    requires Span(n, w) <= |s|
    ensures Flat(be, Chop(be, s, w, n)) == s[..Span(n, w)]
    decreases n
  {
    hide Chop, InOrder;
    if n == 0 {
      assert Chop(be, s, w, n) == [];
    } else {
      hide Flat;
      var m := n - 1;
      SpanMono(m, n, w);
      FlatOfChop(be, s, w, m);
      ChopNext(be, s, w, m);
      FlatAppend(be, Chop(be, s, w, m), Elem(be, s, w, m));
      InOrderTwice(be, s[Span(m, w)..Span(m, w) + w]);
    }
  }

  /** Laying out elements and unpacking gives the elements back. */
  lemma {:induction false} ChopOfFlat(be: bool, es: seq<Word>, w: nat, rest: seq<bool>)
    requires Uniform(es, w)
    ensures |Flat(be, es)| == Span(|es|, w)
    ensures Chop(be, Flat(be, es) + rest, w, |es|) == es
    decreases |es|
  {
    hide Chop, InOrder;
    FlatLength(be, es, w);
    if es != [] {
      var m := |es| - 1;
      var front, e := es[..m], es[m];
      assert Uniform(front, w);
      FlatLength(be, front, w);
      var tail := InOrder(be, e) + rest;
      var s := Flat(be, es) + rest;
      assert s == Flat(be, front) + tail;
      ChopOfFlat(be, front, w, tail);
      ChopNext(be, s, w, m);
      assert s[Span(m, w)..Span(m, w) + w] == InOrder(be, e);
      InOrderTwice(be, e);
      assert Elem(be, s, w, m) == e;
      assert es == front + [e];
    }
  }

  // ----- bits and bytes -----

  /** Reading packed bytes gives the bits, then zeros. */
  lemma StreamOfPacked(be: bool, s: seq<bool>)
    ensures |s| <= 8 * BytesFor(|s|)
    ensures Stream(be, Packed(be, s)) == s + Zeros(8 * BytesFor(|s|) - |s|)
  {
    var t := Stream(be, Packed(be, s));
    forall p | 0 <= p < |t|
      ensures t[p] == (p < |s| && s[p])
    {
      assert 8 * (p / 8) + p % 8 == p;
    }
  }

  lemma StreamInjective(be: bool, a: seq<Byte>, b: seq<Byte>)
    requires Stream(be, a) == Stream(be, b)
    ensures a == b
  {
    assert |a| == |b|;
    forall k | 0 <= k < |a|
      ensures a[k] == b[k]
    {
      forall j | 0 <= j < 8
        ensures a[k][j] == b[k][j]
      {
        var p := if be then 8 * k + 7 - j else 8 * k + j;
        assert Stream(be, a)[p] == Stream(be, b)[p];
        assert p / 8 == k;
      }
    }
  }

  /** The bytes of a packed column. */
  function PackElements(be: bool, es: seq<Word>): seq<Byte> {
    Packed(be, Flat(be, es))
  }

  /** A packed column of `n` elements in `bytes`. */
  function Unpack(be: bool, bytes: seq<Byte>, w: nat, n: nat): (es: seq<Word>)
    requires Span(n, w) <= 8 * |bytes|
    ensures |es| == n && Uniform(es, w)
  {
    Chop(be, Stream(be, bytes), w, n)
  }

  /** Round trip of the packed format, in either bit order. */
  lemma UnpackPacked(be: bool, es: seq<Word>, w: nat)
    requires Uniform(es, w)
    ensures Span(|es|, w) <= 8 * |PackElements(be, es)|
    ensures Unpack(be, PackElements(be, es), w, |es|) == es
  {
    FlatLength(be, es, w);
    var s := Flat(be, es);
    StreamOfPacked(be, s);
    ChopOfFlat(be, es, w, Zeros(8 * BytesFor(|s|) - |s|));
  }

  /** Unpacking and packing again keeps the payload bits and clears the padding. */
  lemma PackUnpacked(be: bool, bytes: seq<Byte>, w: nat, n: nat)
    requires Span(n, w) <= 8 * |bytes|
    ensures PackElements(be, Unpack(be, bytes, w, n)) == Packed(be, Stream(be, bytes)[..Span(n, w)])
  {
    FlatOfChop(be, Stream(be, bytes), w, n);
  }
}
