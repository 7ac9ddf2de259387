/** Laws that relate the column operations to one another. */
module RoundTrips {
  import opened Words
  import opened Numbers
  import opened Streams
  import opened Packing
  import opened Columns
  import opened Copy
  import opened Store
  import opened Convert

  /** Bytes behind a packed column do not matter. */
  lemma UnpackPrefix(be: bool, bytes: seq<Byte>, rest: seq<Byte>, w: nat, n: nat)
    requires Span(n, w) <= 8 * |bytes|
    ensures Unpack(be, bytes + rest, w, n) == Unpack(be, bytes, w, n)
  {
    hide Stream;
    StreamConcat(be, bytes, rest);
    var s, t := Stream(be, bytes), Stream(be, bytes + rest);
    forall i | 0 <= i < n
      ensures Unpack(be, bytes + rest, w, n)[i] == Unpack(be, bytes, w, n)[i]
    {
      SpanMono(i, n, w);
      assert s[Span(i, w)..Span(i, w) + w] == t[Span(i, w)..Span(i, w) + w];
    }
  }

  /** What has been packed can be unpacked, whatever follows it. */
  lemma UnpackStored(be: bool, es: seq<Word>, w: nat, rest: seq<Byte>)
    requires Uniform(es, w)
    ensures Span(|es|, w) <= 8 * |PackElements(be, es) + rest|
    ensures Unpack(be, PackElements(be, es) + rest, w, |es|) == es
  {
    hide Unpack, PackElements;
    UnpackPacked(be, es, w);
    UnpackPrefix(be, PackElements(be, es), rest, w, |es|);
  }

  // ----- values and elements -----

  /** Elements survive being widened to values and cut again. */
  lemma TruncatedValues(es: seq<Word>, w: nat)
    requires w <= 32 && Uniform(es, w)
    ensures Truncated(Values(es), w) == es
  {
  }

  /** The values that a column of width `w` keeps. */
  function Cut(values: seq<U32>, w: nat): (vs: seq<U32>)
    requires w <= 32
    ensures |vs| == |values|
  {
    Values(Truncated(values, w))
  }

  /** They are the given numbers modulo 2^w. */
  lemma CutIsModulo(values: seq<U32>, w: nat, i: nat)
    requires w <= 32 && i < |values|
    ensures ToNat(Cut(values, w)[i]) == ToNat(values[i]) % Pow2(w)
  {
    hide ToNat, Pow2, Widen;
    WidenValue(values[i][..w], 32);
    CutValue(values[i], w);
  }

  /** Selecting elements and selecting their values is the same. */
  lemma {:induction false} ValuesOfSelect(es: seq<Word>, m: seq<bool>, w: nat)
    requires |es| == |m| && w <= 32 && Uniform(es, w)
    ensures Uniform(Select(es, m), w) && Values(Select(es, m)) == Select(Values(es), m)
    decreases |es|
  {
    hide Widen;
    if es != [] {
      var k := |es| - 1;
      ValuesOfSelect(es[..k], m[..k], w);
      assert Values(es)[..k] == Values(es[..k]);
    }
  }

  /** Expanding elements and expanding their values is the same. */
  lemma {:induction false} ValuesOfExpand(m: seq<bool>, es: seq<Word>, w: nat)
    requires Popcount(m) <= |es| && w <= 32 && Uniform(es, w)
    ensures Uniform(Expand(m, es, Zeros(w)), w)
    ensures Values(Expand(m, es, Zeros(w))) == Expand(m, Values(es), Zeros(32))
    decreases |m|
  {
    if m != [] {
      var k := |m| - 1;
      PopcountPrefix(m, k);
      ValuesOfExpand(m[..k], es, w);
      assert Widen(Zeros(w), 32) == Zeros(32);
    }
  }

  // ----- storing and unpacking -----

  /** Storing values and unpacking them gives every value cut to the width. */
  method StoreThenConvert(values: seq<U32>, w: nat, be: bool, column: array<Byte>, back: array<U32>)
    requires 1 <= w <= 32 && values != [] && |values| <= back.Length && BytesFor(Span(|values|, w)) <= column.Length
    modifies column, back
    ensures back[..] == Cut(values, w) + old(back[..])[|values|..]
  {
    hide PackElements, Unpack, Truncated, Values;
    ghost var back0 := back[..];
    var stored := StoreNominal(values, w, be, column);
    UnpackStored(be, Truncated(values, w), w, old(column[..])[BytesFor(Span(|values|, w))..]);
    assert back[..] == back0;
    ConvertTo32u(column[..], w, |values|, be, back);
  }

  /** Unpacking a column and storing it gives the same payload bits, and zeros behind them. */
  method ConvertThenStore(src: seq<Byte>, w: nat, n: nat, be: bool, copy: array<Byte>)
    requires 1 <= w <= 32 && 1 <= n && BytesFor(Span(n, w)) <= |src| && BytesFor(Span(n, w)) <= copy.Length
    modifies copy
    ensures Span(n, w) <= 8 * |src|
    ensures copy[..] == Packed(be, Stream(be, src)[..Span(n, w)]) + old(copy[..])[BytesFor(Span(n, w))..]
  {
    hide PackElements, Unpack, Truncated, Values, Stream, Packed;
    ghost var copy0 := copy[..];
    var values := new U32[n](i => Zeros(32));
    ConvertTo32u(src, w, n, be, values);
    assert values[..] == Values(Unpack(be, src, w, n));
    TruncatedValues(Unpack(be, src, w, n), w);
    PackUnpacked(be, src, w, n);
    assert copy[..] == copy0;
    var stored := StoreNominal(values[..], w, be, copy);
  }

  /** From any start bit, a direct copy lays out the elements that unpacking to values and storing would lay out. */
  lemma CopyIsConvertThenStore(sBe: bool, src: seq<Byte>, srcBitOffset: nat, dBe: bool, w: nat, n: nat)
    requires 1 <= w <= 32 && srcBitOffset + Span(n, w) <= 8 * |src| && (sBe ==> srcBitOffset + Span(n, w) <= TWO32)
    ensures ReadsInside(sBe, 8 * |src|, srcBitOffset, w, n)
    ensures PackElements(dBe, Read(sBe, Stream(sBe, src), srcBitOffset, w, n))
         == PackElements(dBe, Truncated(Values(Chop(sBe, Stream(sBe, src)[srcBitOffset..], w, n)), w))
  {
    hide PackElements, Stream, Truncated, Values, Chop, Read, ReadsInside;
    ReadIsColumn(sBe, Stream(sBe, src), srcBitOffset, w, n);
    TruncatedValues(Chop(sBe, Stream(sBe, src)[srcBitOffset..], w, n), w);
  }

  /** Run side by side, the direct copy and the unpacker with the packer write the same bytes. */
  method CopyAndConvert(sBe: bool, src: seq<Byte>, dBe: bool, copied: array<Byte>, converted: array<Byte>, w: nat,
                        n: nat)
    requires 1 <= w <= 32 && 1 <= n && BytesFor(Span(n, w)) <= |src| && (sBe ==> Span(n, w) <= TWO32)
    requires copied != converted && copied.Length == converted.Length >= BytesFor(Span(n, w))
    requires copied[..] == converted[..]
    modifies copied, converted
    ensures copied[..] == converted[..]
  {
    hide PackElements, Stream, Truncated, Values, Chop, Read, ReadsInside;
    ghost var before := copied[..];
    CopyIsConvertThenStore(sBe, src, 0, dBe, w, n);
    ghost var s := Stream(sBe, src);
    assert s[0..] == s;
    var end := CopyNominal(sBe, src, 0, dBe, copied, w, n);
    var values := new U32[n](i => Zeros(32));
    ConvertTo32u(src, w, n, sBe, values);
    assert values[..] == Values(Unpack(sBe, src, w, n));
    var stored := StoreNominal(values[..], w, dBe, converted);
  }

  /** Bits behind the elements do not matter to what a copy reads. */
  lemma ReadPrefix(sBe: bool, s: seq<bool>, rest: seq<bool>, w: nat, n: nat)
    requires 1 <= w && ReadsInside(sBe, |s|, 0, w, n)
    ensures ReadsInside(sBe, |s + rest|, 0, w, n)
    ensures Read(sBe, s + rest, 0, w, n) == Read(sBe, s, 0, w, n)
  {
    hide SourceBase;
    forall k | 0 <= k < n
      ensures Read(sBe, s + rest, 0, w, n)[k] == Read(sBe, s, 0, w, n)[k]
    {
      var base := SourceBase(sBe, 0, w, k);
      assert (s + rest)[base..base + w] == s[base..base + w];
    }
  }

  lemma PackInjective(be: bool, a: seq<Word>, b: seq<Word>, w: nat)
    requires Uniform(a, w) && Uniform(b, w) && |a| == |b| && PackElements(be, a) == PackElements(be, b)
    ensures a == b
  {
    hide Unpack, PackElements;
    UnpackPacked(be, a, w);
    UnpackPacked(be, b, w);
  }

  /** What a copy to the other bit order and back gives. One of the two copies has a big-endian source. */
  ghost function ThereAndBack(be: bool, src: seq<Byte>, w: nat, n: nat): seq<Byte>
    requires 1 <= w && Span(n, w) <= 8 * |src| && ReadsInside(true, Span(n, w), 0, w, n)
  {
    var bits := Span(n, w);
    if be then
      InsideMore(bits, 8 * |src|, w, n);
      PackElements(true, Read(true, Stream(true, src), 0, w, n))
    else
      var there := PackElements(true, Unpack(false, src, w, n));
      PackedRoom(true, Unpack(false, src, w, n), w);
      InsideMore(bits, 8 * |there|, w, n);
      PackElements(false, Read(true, Stream(true, there), 0, w, n))
  }

  lemma InsideMore(a: nat, b: nat, w: nat, n: nat)
    requires 1 <= w && a <= b && ReadsInside(true, a, 0, w, n)
    ensures ReadsInside(true, b, 0, w, n)
  {
    hide SourceBase;
  }

  lemma PackedRoom(be: bool, es: seq<Word>, w: nat)
    requires Uniform(es, w)
    ensures |PackElements(be, es)| == BytesFor(Span(|es|, w)) && Span(|es|, w) <= 8 * |PackElements(be, es)|
  {
    FlatLength(be, es, w);
  }

  method CopyThereAndBack(be: bool, src: seq<Byte>, there: array<Byte>, back: array<Byte>, w: nat, n: nat)
    requires 1 <= w && 1 <= n && there != back && ReadsInside(true, Span(n, w), 0, w, n)
    requires Span(n, w) <= 8 * |src| && BytesFor(Span(n, w)) <= there.Length && BytesFor(Span(n, w)) <= back.Length
    modifies there, back
    ensures back[..] == ThereAndBack(be, src, w, n) + old(back[..])[BytesFor(Span(n, w))..]
  {
    hide PackElements, Stream, Chop, Read, ReadsInside;
    ghost var back0, s := back[..], Stream(be, src);
    assert s[0..] == s;
    var end;
    if be {
      InsideMore(Span(n, w), 8 * |src|, w, n);
      end := CopyNominal(true, src, 0, false, there, w, n);
      ghost var es := Read(true, s, 0, w, n);
      UnpackStored(false, es, w, old(there[..])[end..]);
      ghost var t := Stream(false, there[..]);
      assert t[0..] == t;
      ReadIsColumn(false, t, 0, w, n);
      assert back[..] == back0;
      end := CopyNominal(false, there[..], 0, true, back, w, n);
    } else {
      ReadIsColumn(false, s, 0, w, n);
      end := CopyNominal(false, src, 0, true, there, w, n);
      ghost var column := PackElements(true, Unpack(false, src, w, n));
      ghost var rest := old(there[..])[end..];
      PackedRoom(true, Unpack(false, src, w, n), w);
      InsideMore(Span(n, w), 8 * |column|, w, n);
      StreamConcat(true, column, rest);
      ReadPrefix(true, Stream(true, column), Stream(true, rest), w, n);
      assert back[..] == back0;
      end := CopyNominal(true, there[..], 0, false, back, w, n);
    }
  }

  /** The round trip reads inside the buffers and keeps the payload bits of every column exactly when it has at most
      2^32 of them. */
  lemma ThereAndBackKeeps(be: bool, w: nat, n: nat, length: nat)
    requires 1 <= w && 1 <= n && Span(n, w) <= 8 * length
    ensures (&& ReadsInside(true, Span(n, w), 0, w, n)
             && forall src: seq<Byte> | |src| == length ::
                  ThereAndBack(be, src, w, n) == Packed(be, Stream(be, src)[..Span(n, w)]))
       <==> Span(n, w) <= TWO32
  {
    hide ThereAndBack, Packed, Stream, ReadsInside, Span;
    if Span(n, w) <= TWO32 {
      ReadIsColumn(true, Zeros(Span(n, w)), 0, w, n);
      forall src: seq<Byte> | |src| == length
        ensures ThereAndBack(be, src, w, n) == Packed(be, Stream(be, src)[..Span(n, w)])
      {
        ShortColumnKept(be, src, w, n);
      }
    } else if ReadsInside(true, Span(n, w), 0, w, n) {
      var src := LongColumnLost(be, w, n, length);
    }
  }

  lemma ShortColumnKept(be: bool, src: seq<Byte>, w: nat, n: nat)
    requires 1 <= w && Span(n, w) <= 8 * |src| && Span(n, w) <= TWO32 && ReadsInside(true, Span(n, w), 0, w, n)
    ensures ThereAndBack(be, src, w, n) == Packed(be, Stream(be, src)[..Span(n, w)])
  {
    hide PackElements, Packed, Stream, Chop, Read, ReadsInside;
    PackUnpacked(be, src, w, n);
    if be {
      var s := Stream(true, src);
      assert s[0..] == s;
      ReadIsColumn(true, s, 0, w, n);
    } else {
      var es := Unpack(false, src, w, n);
      UnpackPacked(true, es, w);
      var t := Stream(true, PackElements(true, es));
      assert t[0..] == t;
      ReadIsColumn(true, t, 0, w, n);
    }
  }

  lemma LongColumnLost(be: bool, w: nat, n: nat, length: nat) returns (src: seq<Byte>)
    requires 1 <= w && 1 <= n && TWO32 < Span(n, w) <= 8 * length && ReadsInside(true, Span(n, w), 0, w, n)
    ensures |src| == length && ThereAndBack(be, src, w, n) != Packed(be, Stream(be, src)[..Span(n, w)])
  {
    hide PackElements, Packed, Stream, Chop, Read, ReadsInside, SingleSet, Span;
    var bits := Span(n, w);
    if be {
      var s := SingleSet(8 * length, bits - 1);
      src := Packed(true, s);
      StreamOfPacked(true, s);
      assert s + Zeros(0) == s && s[0..] == s;
      InsideMore(bits, 8 * length, w, n);
      WrappedReadIsWrong(0, w, n, 8 * length);
      PackUnpacked(true, src, w, n);
      if PackElements(true, Read(true, s, 0, w, n)) == PackElements(true, Chop(true, s, w, n)) {
        PackInjective(true, Read(true, s, 0, w, n), Chop(true, s, w, n), w);
      }
    } else {
      var room := BytesFor(bits);
      var s := SingleSet(8 * room, bits - 1);
      var es := Chop(true, s, w, n);
      PackedRoom(false, es, w);
      var rest := seq<Byte>(length - room, i => Zeros(8));
      src := PackElements(false, es) + rest;
      UnpackStored(false, es, w, rest);
      SingleColumn(w, n);
      assert s[0..] == s;
      InsideMore(bits, 8 * room, w, n);
      WrappedReadIsWrong(0, w, n, 8 * room);
      PackUnpacked(false, src, w, n);
      if PackElements(false, Read(true, s, 0, w, n)) == PackElements(false, es) {
        PackInjective(false, Read(true, s, 0, w, n), es, w);
      }
    }
  }

  /** The column with one bit set packs to that bit. */
  lemma SingleColumn(w: nat, n: nat)
    requires 1 <= Span(n, w)
    ensures var room := BytesFor(Span(n, w));
        var s := SingleSet(8 * room, Span(n, w) - 1);
        Stream(true, PackElements(true, Chop(true, s, w, n))) == s
  {
    hide Stream, Chop, Span, Packed;
    var bits := Span(n, w);
    var s := SingleSet(8 * BytesFor(bits), bits - 1);
    FlatOfChop(true, s, w, n);
    StreamOfPacked(true, s[..bits]);
    assert s[..bits] + Zeros(8 * BytesFor(bits) - bits) == s;
  }

  // ----- selecting and expanding packed columns -----

  /** Packed select keeps the elements that the element-level select keeps. */
  lemma PackedSelectRefines(sBe: bool, src: seq<Byte>, m: seq<bool>, dBe: bool, w: nat, n: nat, rest: seq<Byte>)
    requires 1 <= w <= 32 && |m| == n && Span(n, w) <= 8 * |src|
    ensures var bytes := PackElements(dBe, Select(Unpack(sBe, src, w, n), m)) + rest;
        && Span(Popcount(m), w) <= 8 * |bytes|
        && Values(Unpack(dBe, bytes, w, Popcount(m))) == Select(Values(Unpack(sBe, src, w, n)), m)
  {
    hide PackElements, Unpack, Values, Select;
    var es := Unpack(sBe, src, w, n);
    ValuesOfSelect(es, m, w);
    SelectLength(es, m);
    UnpackStored(dBe, Select(es, m), w, rest);
  }

  /** Packed expand places the elements as the element-level expand does. */
  lemma PackedExpandRefines(sBe: bool, src: seq<Byte>, m: seq<bool>, dBe: bool, w: nat, rest: seq<Byte>)
    requires 1 <= w <= 32 && Span(Popcount(m), w) <= 8 * |src|
    ensures var bytes := PackElements(dBe, Expand(m, Unpack(sBe, src, w, Popcount(m)), Zeros(w))) + rest;
        && Span(|m|, w) <= 8 * |bytes|
        && Values(Unpack(dBe, bytes, w, |m|)) == Expand(m, Values(Unpack(sBe, src, w, Popcount(m))), Zeros(32))
  {
    hide PackElements, Unpack, Values, Expand;
    var es := Unpack(sBe, src, w, Popcount(m));
    ValuesOfExpand(m, es, w);
    UnpackStored(dBe, Expand(m, es, Zeros(w)), w, rest);
  }

  /** Selecting and expanding with the same mask blanks the unselected elements of the column. */
  method SelectThenExpand(sBe: bool, src: seq<Byte>, maskBe: bool, mask: seq<Byte>, kept: array<Byte>, dBe: bool,
                          dst: array<Byte>, w: nat, n: nat)
    returns (status: Status)
    requires 1 <= w && 1 <= n && Span(n, w) <= 8 * |src| && n / 8 < |mask| && kept != dst
    requires BytesFor(Span(n, w)) <= kept.Length && BytesFor(Span(n, w)) <= dst.Length
    modifies kept, dst
    ensures status == Ok
    ensures dst[..] == PackElements(dBe, Blank(Unpack(sBe, src, w, n), MaskBits(maskBe, mask, n), Zeros(w)))
                     + old(dst[..])[BytesFor(Span(n, w))..]
  {
    hide PackElements, Unpack, Select, Expand, Blank, MaskBits, Popcount, Stream;
    ghost var es, m, dst0 := Unpack(sBe, src, w, n), MaskBits(maskBe, mask, n), dst[..];
    PopcountBound(m);
    SpanLe(Popcount(m), n, w);
    var end, left;
    status, end, left := CopyMasked(sBe, src, maskBe, mask, false, kept, 8 * kept.Length, w, n);
    SelectLength(es, m);
    SelectUniform(es, m, w);
    UnpackStored(false, Select(es, m), w, old(kept[..])[end..]);
    ExpandOfSelect(es, m, Zeros(w));
    assert dst[..] == dst0;
    status, end, left := ExpandMasked(kept[..], maskBe, mask, dBe, dst, kept.Length, w, n);
  }

  /** Expanding and selecting with the same mask restores the elements that were consumed. */
  method ExpandThenSelect(src: seq<Byte>, maskBe: bool, mask: seq<Byte>, spread: array<Byte>, mBe: bool, dBe: bool,
                          dst: array<Byte>, w: nat, n: nat)
    returns (status: Status, consumed: nat)
    requires 1 <= w && 1 <= n && n / 8 < |mask| && spread != dst
    requires BytesFor(Span(n, w)) <= spread.Length && BytesFor(Span(n, w)) <= dst.Length
    modifies spread, dst
    ensures var k := Popcount(MaskBits(maskBe, mask, n));
        && status == (if Span(k, w) <= 8 * |src| then Ok else SrcIsShort)
        && (status.Ok? ==>
              && consumed == BytesFor(Span(k, w)) <= dst.Length
              && dst[..] == PackElements(dBe, Unpack(false, src, w, k)) + old(dst[..])[consumed..])
  {
    hide PackElements, Unpack, Select, Expand, Blank, MaskBits, Popcount, Stream;
    ghost var m, dst0 := MaskBits(maskBe, mask, n), dst[..];
    ghost var k := Popcount(m);
    var end, left, room;
    consumed := 0;
    status, end, left := ExpandMasked(src, maskBe, mask, mBe, spread, |src|, w, n);
    if !status.Ok? { return; }
    consumed := |src| - left;
    ghost var es := Expand(m, Unpack(false, src, w, k), Zeros(w));
    ExpandUniform(m, Unpack(false, src, w, k), w);
    UnpackStored(mBe, es, w, old(spread[..])[end..]);
    SelectOfExpand(m, Unpack(false, src, w, k), Zeros(w));
    assert Unpack(false, src, w, k)[..k] == Unpack(false, src, w, k);
    PopcountBound(m);
    SpanLe(k, n, w);
    assert dst[..] == dst0;
    status, end, room := CopyMasked(mBe, spread[..], maskBe, mask, dBe, dst, 8 * dst.Length, w, n);
  }

  lemma {:induction false} PopcountBound(m: seq<bool>)
    ensures Popcount(m) <= |m|
    decreases |m|
  {
    if m != [] { PopcountBound(m[..|m| - 1]); }
  }

  lemma SpanLe(k: nat, n: nat, w: nat)
    requires k <= n
    ensures Span(k, w) <= Span(n, w)
  {
    if k < n { SpanMono(k, n, w); }
  }

  lemma {:induction false} SelectUniform(es: seq<Word>, m: seq<bool>, w: nat)
    requires |es| == |m| && Uniform(es, w)
    ensures Uniform(Select(es, m), w)
    decreases |es|
  {
    if es != [] { SelectUniform(es[..|es| - 1], m[..|es| - 1], w); }
  }

  lemma {:induction false} ExpandUniform(m: seq<bool>, es: seq<Word>, w: nat)
    requires Popcount(m) <= |es| && Uniform(es, w)
    ensures Uniform(Expand(m, es, Zeros(w)), w)
    decreases |m|
  {
    if m != [] {
      PopcountPrefix(m, |m| - 1);
      ExpandUniform(m[..|m| - 1], es, w);
    }
  }
}
