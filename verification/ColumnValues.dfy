/** What a packed column holds, in arithmetic: a buffer is one large number, and every element a digit group of it. */
module ColumnValues {
  import opened Words
  import opened Numbers
  import opened Streams
  import opened Packing

  /** The number in a byte string: low byte first, or high byte first when `be`. */
  function Number(be: bool, bytes: seq<Byte>): nat
    decreases |bytes|
  {
    if bytes == [] then 0
    else if be then Number(be, bytes[..|bytes| - 1]) * 0x100 + ToNat(bytes[|bytes| - 1])
    else ToNat(bytes[0]) + 0x100 * Number(be, bytes[1..])
  }

  /** Two words one above the other. */
  lemma JoinValue(low: Word, high: Word)
    ensures ToNat(low + high) == ToNat(low) + Pow2(|low|) * ToNat(high)
  {
    hide ToNat, Pow2;
    SplitValue(low + high, |low|);
    assert (low + high)[..|low|] == low && (low + high)[|low|..] == high;
  }

  /** The bits of the buffer, as a word, are that number: in reading order low end first, or mirrored when `be`. */
  lemma {:induction false} StreamValue(be: bool, bytes: seq<Byte>)
    ensures ToNat(InOrder(be, Stream(be, bytes))) == Number(be, bytes)
    decreases |bytes|
  {
    hide ToNat, Stream, Pow2;
    if bytes == [] {
      EmptyValue(be, bytes);
    } else if be {
      var k := |bytes| - 1;
      var front, last := bytes[..k], bytes[k];
      StreamValue(be, front);
      assert bytes == front + [last];
      StreamConcat(be, front, [last]);
      StreamOne(be, last);
      RevConcat(Stream(be, front), Rev(last));
      RevRev(last);
      JoinValue(last, Rev(Stream(be, front)));
      PowersOfTwo();
    } else {
      var first, rest := bytes[0], bytes[1..];
      StreamValue(be, rest);
      assert bytes == [first] + rest;
      StreamConcat(be, [first], rest);
      StreamOne(be, first);
      JoinValue(first, Stream(be, rest));
      PowersOfTwo();
    }
  }

  lemma EmptyValue(be: bool, bytes: seq<Byte>)
    requires bytes == []
    ensures ToNat(InOrder(be, Stream(be, bytes))) == 0
  {
    assert InOrder(be, Stream(be, bytes)) == [];
  }

  /** A slice of a word is a quotient cut by a remainder. */
  lemma SliceValue(w: Word, a: nat, k: nat)
    requires a + k <= |w|
    ensures ToNat(w[a..a + k]) == ToNat(w) / Pow2(a) % Pow2(k)
  {
    hide ToNat, Pow2;
    SplitValue(w, a);
    Quotient(ToNat(w[..a]), Pow2(a), ToNat(w[a..]));
    CutValue(w[a..], k);
    assert w[a..][..k] == w[a..a + k];
  }

  lemma Quotient(r: nat, d: nat, q: nat)
    requires r < d
    ensures (r + d * q) / d == q
  {
    var x := r + d * q;
    var p, s := x / d, x % d;
    assert x == d * p + s;
    if p < q { Apart(d, p, q); } else if q < p { Apart(d, q, p); }
  }

  /** Element `i` of a packed column is the number of the buffer divided by the power of two below the element, modulo
      2^w: elements count from the low end, or from the high end when `be`. */
  lemma ElementValue(be: bool, bytes: seq<Byte>, w: nat, n: nat, i: nat)
    requires Span(n, w) <= 8 * |bytes| && i < n
    ensures i * w + w <= 8 * |bytes|
    ensures ToNat(Unpack(be, bytes, w, n)[i])
         == Number(be, bytes) / Pow2(if be then 8 * |bytes| - (i * w + w) else i * w) % Pow2(w)
  {
    hide ToNat, Stream, Pow2, Chop, Span, Number, Unpack;
    SpanMono(i, n, w);
    SpanIsProduct(i, w);
    PlacedValue(be, bytes, w, n, i, Span(i, w));
  }

  lemma PlacedValue(be: bool, bytes: seq<Byte>, w: nat, n: nat, i: nat, a: nat)
    requires Span(n, w) <= 8 * |bytes| && i < n && a == Span(i, w) && a + w <= 8 * |bytes|
    ensures ToNat(Unpack(be, bytes, w, n)[i])
         == Number(be, bytes) / Pow2(if be then 8 * |bytes| - (a + w) else a) % Pow2(w)
  {
    hide ToNat, Stream, Pow2, Chop, Span, Number, Rev;
    var s := Stream(be, bytes);
    ChopAt(be, s, w, n, i);
    StreamValue(be, bytes);
    if be {
      MirroredSlice(s, a, w);
      SliceValue(Rev(s), |s| - (a + w), w);
    } else {
      SliceValue(s, a, w);
    }
  }

  lemma MirroredSlice(s: Word, a: nat, k: nat)
    requires a + k <= |s|
    ensures var b := |s| - (a + k); Rev(s[a..a + k]) == Rev(s)[b..b + k]
  {
    var b := |s| - (a + k);
    var left, right := Rev(s[a..a + k]), Rev(s)[b..b + k];
    forall i | 0 <= i < k
      ensures left[i] == right[i]
    {
      assert left[i] == s[a..a + k][k - 1 - i] == s[a + k - 1 - i];
      assert right[i] == Rev(s)[b + i] == s[|s| - 1 - (b + i)];
    }
  }
}
