/** The Parquet hybrid encoding in numbers: what each byte of a stream contributes to the values decoded. */
module PrleValues {
  import opened Words
  import opened Numbers
  import opened Streams
  import opened Packing
  import opened Convert
  import opened ColumnValues
  import Columns
  import opened Prle

  // ----- headers -----

  /** A variable-length integer of exactly `k` bytes stands at `pos`: all but the last are at least 128. */
  predicate IntOf(src: seq<Byte>, pos: nat, k: nat) {
    && 1 <= k && pos + k <= |src| && ToNat(src[pos + k - 1]) < 128
    && forall q :: pos <= q < pos + k - 1 ==> ToNat(src[q]) >= 128
  }

  /** Its number: seven bits of each byte, low end first. */
  function IntNumber(bytes: seq<Byte>): nat {
    if bytes == [] then 0 else ToNat(bytes[0]) % 128 + 128 * IntNumber(bytes[1..])
  }

  lemma SevenBits(b: Byte)
    ensures b[7] <==> ToNat(b) >= 128
    ensures ToNat(b[..7]) == ToNat(b) % 128
  {
    hide ToNat, Pow2;
    SplitValue(b, 7);
    CutValue(b, 7);
    SevenPower();
    assert b[7..] == [b[7]];
    OneBitValue(b[7]);
  }

  lemma SevenPower()
    ensures Pow2(7) == 128
  {
    assert Pow2(4) == 16;
    assert Pow2(7) == 8 * Pow2(4);
  }

  lemma OneBitValue(bit: bool)
    ensures ToNat([bit]) == if bit then 1 else 0
  {
    assert [bit][1..] == [];
  }

  lemma {:induction false} VarIntValue(src: seq<Byte>, pos: nat, room: nat, k: nat)
    requires IntOf(src, pos, k)
    ensures k <= room ==>
        && VarInt(src, pos, room).Int? && VarInt(src, pos, room).next == pos + k
        && ToNat(VarInt(src, pos, room).bits) == IntNumber(src[pos..pos + k])
    ensures k > room ==> VarInt(src, pos, room) == NoInt
    decreases k
  {
    hide ToNat, Pow2;
    SevenBits(src[pos]);
    var bytes := src[pos..pos + k];
    if k == 1 {
      assert bytes == [src[pos]] && bytes[1..] == [];
    } else if room > 0 {
      assert ToNat(src[pos]) >= 128 && IntOf(src, pos + 1, k - 1);
      VarIntValue(src, pos + 1, room - 1, k - 1);
      assert bytes[1..] == src[pos + 1..pos + 1 + (k - 1)];
      var rest := VarInt(src, pos + 1, room - 1);
      if k <= room {
        JoinValue(src[pos][..7], rest.bits);
        SevenPower();
      }
    }
  }

  /** No such integer: the input ends, or four bytes all go on. */
  lemma {:induction false} NoVarInt(src: seq<Byte>, pos: nat, room: nat)
    requires forall k :: 1 <= k <= room ==> !IntOf(src, pos, k)
    ensures VarInt(src, pos, room) == NoInt
    decreases room
  {
    hide ToNat;
    if room > 0 && pos < |src| {
      SevenBits(src[pos]);
      assert !IntOf(src, pos, 1);
      if src[pos][7] {
        var next := pos + 1;
        forall k | 1 <= k <= room - 1
          ensures !IntOf(src, next, k)
        {
          assert !IntOf(src, pos, k + 1);
        }
        NoVarInt(src, next, room - 1);
      }
    }
  }

  /** A header is an integer of at most four bytes: odd for packed groups, even for a repeated value; half of it is the
      count. */
  lemma HeaderInNumbers(src: seq<Byte>, pos: nat, k: nat)
    requires IntOf(src, pos, k) && k <= 4
    ensures var h, n := HeaderAt(src, pos), IntNumber(src[pos..pos + k]);
        h.Header? && h.next == pos + k && (h.packed <==> n % 2 == 1) && ToNat(h.count) == n / 2
  {
    hide ToNat, VarInt, IntNumber;
    VarIntValue(src, pos, 4, k);
    var bits := VarInt(src, pos, 4).bits;
    OneBit(bits);
    WidenValue(bits[1..], 32);
  }

  lemma NoHeader(src: seq<Byte>, pos: nat)
    requires forall k :: 1 <= k <= 4 ==> !IntOf(src, pos, k)
    ensures HeaderAt(src, pos) == BadHeader
  {
    hide VarInt, IntOf;
    NoVarInt(src, pos, 4);
  }

  // ----- runs -----

  /** How many elements of width `w` are whole in `bits` bits, up to `n`. */
  lemma FitIsQuotient(bits: nat, w: nat, n: nat)
    requires w > 0
    ensures Fit(bits, w, n) == if n * w <= bits then n else bits / w
  {
    hide Fit, Span;
    var k := if n * w <= bits then n else bits / w;
    SpanIsProduct(k, w);
    if k != n {
      if n <= k { Apart(w, n, k + 1); }
      assert bits == w * k + bits % w;
    }
    FitExact(bits, w, n, k);
  }

  /** The value repeated by a run is the number of its ceil(w/8) bytes, low byte first. */
  lemma RepeatedValue(src: seq<Byte>, past: Byte, at: nat, w: nat)
    requires 1 <= w <= 32 && at + (w + 7) / 8 <= |src|
    ensures ToNat(RleValue(src, past, at, w)) == Number(false, src[at..at + (w + 7) / 8])
  {
    hide ToNat, Stream, Number, Widen;
    var bytes := src[at..at + (w + 7) / 8];
    StreamValue(false, bytes);
    WidenValue(Stream(false, bytes), 32);
  }

  /** The run at a header that announces `r` repetitions of a value. */
  lemma RepeatedRun(src: seq<Byte>, past: Byte, w: nat, pos: nat, k: nat)
    requires 1 <= w <= 32 && IntOf(src, pos, k) && k <= 4
    requires var n := IntNumber(src[pos..pos + k]); n % 2 == 0 && n / 2 > 0
    ensures var r, at, b := IntNumber(src[pos..pos + k]) / 2, pos + k, (w + 7) / 8;
        var run := RunAt(src, past, w, pos);
        if at + b <= |src| then
          && run.Run? && run.next == at + b && |run.values| == r
          && forall i :: 0 <= i < r ==> ToNat(run.values[i]) == Number(false, src[at..at + b])
        else run == BadRun([])
  {
    hide ToNat, Number, HeaderAt, RleValue, IntNumber, IntOf;
    HeaderInNumbers(src, pos, k);
    var at, b := pos + k, (w + 7) / 8;
    if at + b <= |src| { RepeatedValue(src, past, at, w); }
  }

  /** The run at a header that announces `r` packed groups: 8r values, each a digit group of the number of the bytes
      that follow; it takes r * w of them. If the input ends before, the values that are whole in it, and an error. */
  lemma PackedRunInNumbers(src: seq<Byte>, past: Byte, w: nat, pos: nat, k: nat)
    requires 1 <= w <= 32 && IntOf(src, pos, k) && k <= 4
    requires var n := IntNumber(src[pos..pos + k]); n % 2 == 1 && n / 2 > 0
    ensures var r, at := IntNumber(src[pos..pos + k]) / 2, pos + k;
        var run := RunAt(src, past, w, pos);
        && (if at + r * w <= |src| then run.Run? && run.next == at + r * w && |run.values| == 8 * r
            else run.BadRun? && |run.values| == 8 * (|src| - at) / w)
        && DigitGroups(run.values, Number(false, src[at..]), w)
  {
    hide ToNat, Number, HeaderAt, PackedValues, IntNumber, IntOf, Fit, Pow2, Span;
    HeaderInNumbers(src, pos, k);
    var r, at := IntNumber(src[pos..pos + k]) / 2, pos + k;
    var left := |src| - at;
    SpanIsProduct(r, w);
    FitIsQuotient(8 * left, w, 8 * r);
    EightTimes(r, w, left);
    var m := Fit(8 * left, w, 8 * r);
    forall i | 0 <= i < m
      ensures ToNat(PackedValues(src, at, w, m)[i]) == Number(false, src[at..]) / Pow2(i * w) % Pow2(w)
    {
      PackedValue(src, at, w, m, i);
    }
  }

  /** The values are the digit groups of `w` bits of a number, low end first. */
  ghost predicate DigitGroups(values: seq<U32>, number: nat, w: nat) {
    forall i :: 0 <= i < |values| ==> ToNat(values[i]) == number / Pow2(i * w) % Pow2(w)
  }

  lemma EightTimes(r: nat, w: nat, left: nat)
    ensures 8 * r * w <= 8 * left <==> r * w <= left
  {
    assert 8 * r * w == 8 * (r * w);
  }

  lemma PackedValue(src: seq<Byte>, at: nat, w: nat, m: nat, i: nat)
    requires w <= 32 && at <= |src| && Span(m, w) <= 8 * (|src| - at) && i < m
    ensures ToNat(PackedValues(src, at, w, m)[i]) == Number(false, src[at..]) / Pow2(i * w) % Pow2(w)
  {
    hide ToNat, Number, Pow2, Stream, Chop, Span, Widen;
    TailStream(src, at);
    ElementValue(false, src[at..], w, m, i);
    WidenValue(Unpack(false, src[at..], w, m)[i], 32);
  }

  lemma TailStream(src: seq<Byte>, at: nat)
    requires at <= |src|
    ensures Stream(false, src)[8 * at..] == Stream(false, src[at..])
  {
    hide Stream;
    assert src == src[..at] + src[at..];
    StreamConcat(false, src[..at], src[at..]);
  }

  /** A run with a bad header or a count of zero. */
  lemma EmptyRun(src: seq<Byte>, past: Byte, w: nat, pos: nat)
    requires w <= 32 && pos < |src|
    requires forall k :: 1 <= k <= 4 && IntOf(src, pos, k) ==> IntNumber(src[pos..pos + k]) / 2 == 0
    ensures RunAt(src, past, w, pos) == BadRun([])
  {
    hide ToNat, IntOf, IntNumber, HeaderAt;
    if exists k :: 1 <= k <= 4 && IntOf(src, pos, k) {
      var k :| 1 <= k <= 4 && IntOf(src, pos, k);
      HeaderInNumbers(src, pos, k);
    } else {
      NoHeader(src, pos);
    }
  }

  /** Width zero: packed groups take no bytes and hold zeros; a repeated value takes none either, but is the byte that
      follows, or the one behind the input. */
  lemma ZeroWidthRun(src: seq<Byte>, past: Byte, pos: nat, k: nat)
    requires IntOf(src, pos, k) && k <= 4 && IntNumber(src[pos..pos + k]) / 2 > 0
    ensures var n, at, run := IntNumber(src[pos..pos + k]), pos + k, RunAt(src, past, 0, pos);
        && run.Run? && run.next == at && |run.values| == (if n % 2 == 1 then 8 * (n / 2) else n / 2)
        && forall i :: 0 <= i < |run.values| ==>
             ToNat(run.values[i]) == if n % 2 == 1 then 0 else if at < |src| then ToNat(src[at]) else ToNat(past)
  {
    hide ToNat, HeaderAt, IntNumber, IntOf, Stream, Fit, Span, PackedValues;
    HeaderInNumbers(src, pos, k);
    var n, at := IntNumber(src[pos..pos + k]), pos + k;
    if n % 2 == 1 {
      var r := n / 2;
      SpanIsProduct(r, 0);
      SpanIsProduct(8 * r, 0);
      FitExact(8 * (|src| - at), 0, 8 * r, 8 * r);
      forall i | 0 <= i < 8 * r
        ensures ToNat(PackedValues(src, at, 0, 8 * r)[i]) == 0
      {
        PackedValue(src, at, 0, 8 * r, i);
      }
    } else {
      var b := NextByte(src, past, at);
      StreamOne(false, b);
      WidenValue(b, 32);
    }
  }

  // ----- whole streams -----

  /** The values are those of the runs at the bytes `cuts`, each starting at the value of the same number in
      `places`,
      up to the end of the input or the first bad run. */
  ghost predicate CutInRuns(src: seq<Byte>, past: Byte, w: nat, first: nat, parsed: Parsed, cuts: seq<nat>,
                            places: seq<nat>)
    requires w <= 32
  {
    && |cuts| == |places| > 0 && cuts[0] == first && places[0] == 0
    && (forall i :: 0 <= i < |cuts| - 1 ==>
          RunBetween(src, past, w, parsed.values, cuts[i], cuts[i + 1], places[i], places[i + 1]))
    && LastRun(src, past, w, parsed, cuts[|cuts| - 1], places[|places| - 1])
  }

  ghost predicate RunBetween(src: seq<Byte>, past: Byte, w: nat, values: seq<U32>, pos: nat, next: nat, a: nat, b: nat)
    requires w <= 32
  {
    pos < |src| && a <= b <= |values| && RunAt(src, past, w, pos) == Run(values[a..b], next)
  }

  ghost predicate LastRun(src: seq<Byte>, past: Byte, w: nat, parsed: Parsed, pos: nat, a: nat)
    requires w <= 32
  {
    && pos <= |src| && a <= |parsed.values|
    && if pos == |src| then parsed.status == Ok && a == |parsed.values|
       else parsed.status == PrleFormatErr && RunAt(src, past, w, pos) == BadRun(parsed.values[a..])
  }

  lemma {:induction false} StreamInRuns(src: seq<Byte>, past: Byte, w: nat, pos: nat)
    returns (cuts: seq<nat>, places: seq<nat>)
    requires w <= 32 && pos <= |src|
    ensures CutInRuns(src, past, w, pos, RunsFrom(src, past, w, pos), cuts, places)
    decreases |src| - pos
  {
    hide RunAt;
    cuts, places := [pos], [0];
    if pos < |src| && RunAt(src, past, w, pos).Run? {
      var run := RunAt(src, past, w, pos);
      var rest := RunsFrom(src, past, w, run.next);
      cuts, places := StreamInRuns(src, past, w, run.next);
      hide CutInRuns;
      cuts, places := RunsShift(src, past, w, pos, run, rest, cuts, places);
    }
  }

  lemma RunsShift(src: seq<Byte>, past: Byte, w: nat, pos: nat, run: Run, rest: Parsed, cuts: seq<nat>,
                  places: seq<nat>)
    returns (cuts': seq<nat>, places': seq<nat>)
    requires w <= 32 && pos < |src| && run.Run? && RunAt(src, past, w, pos) == run
    requires CutInRuns(src, past, w, run.next, rest, cuts, places)
    ensures CutInRuns(src, past, w, pos, Then(run.values, rest), cuts', places')
  {
    hide RunAt, RunBetween;
    var k, all := |run.values|, run.values + rest.values;
    cuts' := [pos] + cuts;
    places' := [0] + seq(|places|, i requires 0 <= i < |places| => k + places[i]);
    forall i | 0 <= i < |cuts'| - 1
      ensures RunBetween(src, past, w, all, cuts'[i], cuts'[i + 1], places'[i], places'[i + 1])
    {
      if i == 0 {
        FirstRun(src, past, w, pos, run, rest.values);
      } else {
        RunShifts(src, past, w, run.values, rest.values, cuts[i - 1], cuts[i], places[i - 1], places[i]);
      }
    }
    var a := places[|places| - 1];
    assert all[k + a..] == rest.values[a..];
  }

  lemma FirstRun(src: seq<Byte>, past: Byte, w: nat, pos: nat, run: Run, rest: seq<U32>)
    requires w <= 32 && pos < |src| && run.Run? && RunAt(src, past, w, pos) == run
    ensures RunBetween(src, past, w, run.values + rest, pos, run.next, 0, |run.values|)
  {
    hide RunAt;
    assert (run.values + rest)[0..|run.values|] == run.values;
  }

  lemma RunShifts(src: seq<Byte>, past: Byte, w: nat, front: seq<U32>, values: seq<U32>, pos: nat, next: nat,
                  a: nat, b: nat)
    requires w <= 32 && RunBetween(src, past, w, values, pos, next, a, b)
    ensures RunBetween(src, past, w, front + values, pos, next, |front| + a, |front| + b)
  {
    hide RunAt;
    assert (front + values)[|front| + a..|front| + b] == values[a..b];
  }

  /** The first byte is the element width; above 32 it is refused, and so is a stream of nothing else. The runs start
      at the second byte. */
  lemma ParseInRuns(src: seq<Byte>, past: Byte) returns (cuts: seq<nat>, places: seq<nat>)
    requires |src| > 0
    ensures ToNat(src[0]) > 32 ==> Parse(src, past) == Parsed(BitWidthErr, [])
    ensures ToNat(src[0]) <= 32 && |src| == 1 ==> Parse(src, past) == Parsed(SrcIsShort, [])
    ensures ToNat(src[0]) <= 32 && |src| > 1 ==>
        CutInRuns(src, past, ToNat(src[0]), 1, Parse(src, past), cuts, places)
  {
    hide ToNat, RunsFrom, CutInRuns;
    cuts, places := [], [];
    if ToNat(src[0]) <= 32 {
      cuts, places := StreamInRuns(src, past, ToNat(src[0]), 1);
    }
  }

  // ----- the two kinds of runs agree -----

  /** A repeated run of 8r copies of an element, stored in whole bytes with zero padding, and r packed groups of the
      same element decode to the same values. */
  lemma RepeatedIsPacked(e: Word, r: nat, src: seq<Byte>, pos: nat, k: nat, packed: seq<Byte>, at: nat, j: nat,
                         past: Byte)
    requires 1 <= |e| <= 32 && r > 0
    requires IntOf(src, pos, k) && k <= 4 && IntNumber(src[pos..pos + k]) == 2 * (8 * r)
    requires Packed(false, e) <= src[pos + k..]
    requires IntOf(packed, at, j) && j <= 4 && IntNumber(packed[at..at + j]) == 2 * r + 1
    requires PackElements(false, Columns.Copies(e, 8 * r)) <= packed[at + j..]
    ensures var a, b := RunAt(src, past, |e|, pos), RunAt(packed, past, |e|, at);
        && a.Run? && b.Run? && a.values == b.values == Columns.Copies(Widen(e, 32), 8 * r)
        && a.next == pos + k + (|e| + 7) / 8 && b.next == at + j + r * |e|
  {
    hide ToNat, HeaderAt, IntNumber, IntOf, Stream, Fit, Span, PackedValues, RleValue, Packed, PackElements;
    var w := |e|;
    HeaderInNumbers(src, pos, k);
    HeaderInNumbers(packed, at, j);
    RepeatedElement(e, src, pos + k, past);
    PackedCopies(e, r, packed, at + j);
  }

  lemma RepeatedElement(e: Word, src: seq<Byte>, at: nat, past: Byte)
    requires 1 <= |e| <= 32 && at <= |src| && Packed(false, e) <= src[at..]
    ensures BytesFor(|e|) <= |src| - at && RleValue(src, past, at, |e|) == Widen(e, 32)
  {
    hide Stream, Packed;
    var b := BytesFor(|e|);
    assert src[at..at + b] == Packed(false, e);
    StreamOfPacked(false, e);
    assert Widen(e + Zeros(8 * b - |e|), 32) == Widen(e, 32);
  }

  lemma PackedCopies(e: Word, r: nat, src: seq<Byte>, at: nat)
    requires 1 <= |e| <= 32 && at <= |src| && PackElements(false, Columns.Copies(e, 8 * r)) <= src[at..]
    ensures Span(r, |e|) <= |src| - at && Fit(8 * (|src| - at), |e|, 8 * r) == 8 * r && Span(r, |e|) == r * |e|
    ensures Span(8 * r, |e|) <= 8 * (|src| - at)
    ensures PackedValues(src, at, |e|, 8 * r) == Columns.Copies(Widen(e, 32), 8 * r)
  {
    hide Stream, Fit, Span, Chop, Flat, Packed, Widen;
    var w, es := |e|, Columns.Copies(e, 8 * r);
    var bytes := PackElements(false, es);
    var rest := src[at..][|bytes|..];
    assert src[at..] == bytes + rest;
    FlatLength(false, es, w);
    SpanGroups(r, w);
    SpanIsProduct(r, w);
    StreamOfPacked(false, Flat(false, es));
    FitExact(8 * (|src| - at), w, 8 * r, 8 * r);
    TailStream(src, at);
    StreamConcat(false, bytes, rest);
    assert Zeros(0) == [];
    ChopOfFlat(false, es, w, Stream(false, rest));
    assert Flat(false, es) + [] + Stream(false, rest) == Flat(false, es) + Stream(false, rest);
    assert Values(es) == Columns.Copies(Widen(e, 32), 8 * r);
  }
}
