/** The other output formats of a scan: the indices of the matching elements, in 8, 16 or 32 bits,
    and the argument check that is meant to keep them in range. */
module ScanIndex {
  import opened Words
  import opened Numbers
  import opened Columns
  import opened Scan
  import opened ColumnValues

  datatype Format = F8 | F16 | F32 {
    function Size(): nat {
      match this
      case F8 => 1
      case F16 => 2
      case F32 => 4
    }

    /** The largest index the format can hold. */
    function Max(): nat {
      match this
      case F8 => 0xFF
      case F16 => 0xFFFF
      case F32 => 0xFFFF_FFFF
    }
  }

  /** The validator's test on the output indices. */
  predicate Accepted(fmt: Format, initial: nat, n: nat) {
    initial + n - 1 <= fmt.Max()
  }

  /** The bytes of an index: low byte first, or high byte first when `be`. */
  function IndexBytes(fmt: Format, be: bool, index: nat): (b: seq<Byte>)
    ensures |b| == fmt.Size()
  {
    var w := FromNat(index, 32);
    match fmt
    case F8 => [w[..8]]
    case F16 => if be then [w[8..16], w[..8]] else [w[..8], w[8..16]]
    case F32 => if be then [w[24..], w[16..24], w[8..16], w[..8]] else [w[..8], w[8..16], w[16..24], w[24..]]
  }

  /** The 32-bit indices of the set verdicts, counted from `initial`, in order, as bytes. */
  function IndexList(fmt: Format, be: bool, verdicts: seq<bool>, initial: nat): seq<Byte> {
    if verdicts == [] then []
    else
      var k := |verdicts| - 1;
      IndexList(fmt, be, verdicts[..k], initial) + if verdicts[k] then IndexBytes(fmt, be, Wrap(initial + k)) else []
  }

  /** The numbers that such a list stands for. */
  function Indices(verdicts: seq<bool>, initial: nat): seq<nat> {
    if verdicts == [] then []
    else
      var k := |verdicts| - 1;
      Indices(verdicts[..k], initial) + if verdicts[k] then [Wrap(initial + k)] else []
  }

  function Serialised(fmt: Format, be: bool, indices: seq<nat>): seq<Byte> {
    if indices == [] then []
    else Serialised(fmt, be, indices[..|indices| - 1]) + IndexBytes(fmt, be, indices[|indices| - 1])
  }

  /** Strictly increasing, and indices of matching elements only. */
  ghost predicate IncreasingHits(xs: seq<nat>, verdicts: seq<bool>, initial: nat) {
    && (forall a, b :: 0 <= a < b < |xs| ==> xs[a] < xs[b])
    && (forall a :: 0 <= a < |xs| ==> initial <= xs[a] < initial + |verdicts| && verdicts[xs[a] - initial])
  }

  /** No matching element is missing. */
  ghost predicate AllHits(xs: seq<nat>, verdicts: seq<bool>, initial: nat) {
    forall i :: 0 <= i < |verdicts| && verdicts[i] ==> initial + i in xs
  }

  lemma IncreasingHitsNext(xs: seq<nat>, verdicts: seq<bool>, initial: nat, v: bool)
    requires IncreasingHits(xs, verdicts, initial)
    ensures IncreasingHits(xs + if v then [initial + |verdicts|] else [], verdicts + [v], initial)
  {
  }

  lemma AllHitsNext(xs: seq<nat>, verdicts: seq<bool>, initial: nat, v: bool)
    requires AllHits(xs, verdicts, initial)
    ensures AllHits(xs + if v then [initial + |verdicts|] else [], verdicts + [v], initial)
  {
    var k := |verdicts|;
    var ys := xs + if v then [initial + k] else [];
    forall i | 0 <= i < k + 1 && (verdicts + [v])[i]
      ensures initial + i in ys
    {
      if i < k {
        assert verdicts[i];
      } else {
        assert ys[|xs|] == initial + i;
      }
    }
  }

  lemma IndicesLast(front: seq<bool>, initial: nat, v: bool)
    requires initial + |front| < TWO32
    ensures Indices(front + [v], initial) == Indices(front, initial) + if v then [initial + |front|] else []
  {
    WrapSmall(initial + |front|);
    assert (front + [v])[..|front|] == front;
  }

  lemma NoIndices(initial: nat)
    ensures IncreasingHits(Indices([], initial), [], initial) && AllHits(Indices([], initial), [], initial)
  {
  }

  /** As long as the counter does not wrap, they are strictly increasing, and are `initial + i` for exactly the
      matching `i`. Accepted scans do not wrap it. */
  lemma {:induction false} IndicesAreTheHits(verdicts: seq<bool>, initial: nat)
    requires initial + |verdicts| <= TWO32
    ensures IncreasingHits(Indices(verdicts, initial), verdicts, initial)
    ensures AllHits(Indices(verdicts, initial), verdicts, initial)
    decreases |verdicts|
  {
    hide IncreasingHits, AllHits, Indices;
    if verdicts == [] {
      NoIndices(initial);
    } else {
      var front, v := verdicts[..|verdicts| - 1], verdicts[|verdicts| - 1];
      IndicesAreTheHits(front, initial);
      IndicesLast(front, initial, v);
      IncreasingHitsNext(Indices(front, initial), front, initial, v);
      AllHitsNext(Indices(front, initial), front, initial, v);
      assert verdicts == front + [v];
    }
  }

  lemma {:induction false} ListSerialisesIndices(fmt: Format, be: bool, verdicts: seq<bool>, initial: nat)
    ensures IndexList(fmt, be, verdicts, initial) == Serialised(fmt, be, Indices(verdicts, initial))
    decreases |verdicts|
  {
    hide IndexBytes;
    if verdicts != [] {
      var k := |verdicts| - 1;
      ListSerialisesIndices(fmt, be, verdicts[..k], initial);
      var xs := Indices(verdicts[..k], initial);
      assert (xs + [Wrap(initial + k)])[..|xs|] == xs;
      if !verdicts[k] { assert Indices(verdicts, initial) == xs; }
    }
  }

  /** What is stored of an index is the index modulo 2^8, 2^16 or 2^32: every index that fits is stored exactly. */
  lemma IndexReadsBack(be: bool, index: nat)
    requires index < 0x1_0000_0000
    ensures Number(be, IndexBytes(F8, be, index)) == index % 0x100
    ensures Number(be, IndexBytes(F16, be, index)) == index % 0x1_0000
    ensures Number(be, IndexBytes(F32, be, index)) == index
  {
    hide ToNat, Pow2, FromNat, Number;
    PowersOfTwo();
    FromNatValue(index, 32);
    var w := FromNat(index, 32);
    FourBytes(w);
    ReadOne(be, w[..8]);
    ReadTwo(w[..8], w[8..16]);
    ReadFour(w[..8], w[8..16], w[16..24], w[24..]);
  }

  /** A 32-bit word by its bytes, and its value modulo 2^8 and 2^16. */
  lemma FourBytes(w: U32)
    ensures var a, b, c, d := ToNat(w[..8]), ToNat(w[8..16]), ToNat(w[16..24]), ToNat(w[24..]);
        && ToNat(w) == a + 0x100 * (b + 0x100 * (c + 0x100 * d))
        && a == ToNat(w) % 0x100 && a + 0x100 * b == ToNat(w) % 0x1_0000
  {
    hide ToNat, Pow2;
    PowersOfTwo();
    SplitValue(w, 8);
    SplitValue(w[8..], 8);
    SplitValue(w[16..], 8);
    CutValue(w, 8);
    CutValue(w, 16);
    SplitValue(w[..16], 8);
    assert w[8..][..8] == w[8..16] && w[8..][8..] == w[16..] && w[16..][..8] == w[16..24] && w[16..][8..] == w[24..];
    assert w[..16][..8] == w[..8] && w[..16][8..] == w[8..16];
  }

  /** The limits in numbers. An 8-bit or 16-bit output overflows at a hit whose index is above 255 or 65535, a 32-bit
      output at the index 2^32 - 1, hit or not; the validator admits first indices and numbers of elements that end
      within 2^8, 2^16 or 2^32. */
  lemma IndexLimits(verdicts: seq<bool>, initial: nat, i: nat)
    requires i < |verdicts|
    ensures Overflows(F8, verdicts, initial, i) <==> verdicts[i] && (initial + i) % 0x1_0000_0000 > 255
    ensures Overflows(F16, verdicts, initial, i) <==> verdicts[i] && (initial + i) % 0x1_0000_0000 > 65535
    ensures Overflows(F32, verdicts, initial, i) <==> (initial + i) % 0x1_0000_0000 == 4294967295
    ensures Accepted(F8, initial, |verdicts|) <==> initial + |verdicts| <= 0x100
    ensures Accepted(F16, initial, |verdicts|) <==> initial + |verdicts| <= 0x1_0000
    ensures Accepted(F32, initial, |verdicts|) <==> initial + |verdicts| <= 0x1_0000_0000
  {
  }

  lemma ReadOne(be: bool, x: Byte)
    ensures Number(be, [x]) == ToNat(x)
  {
    assert [x][1..] == [] && [x][..0] == [];
  }

  lemma ReadTwo(x: Byte, y: Byte)
    ensures Number(false, [x, y]) == Number(true, [y, x]) == ToNat(x) + 0x100 * ToNat(y)
  {
    assert [x, y][1..] == [y] && [y, x][..1] == [y];
    assert Number(false, [y]) == ToNat(y) == Number(true, [y]);
  }

  lemma ReadFour(a: Byte, b: Byte, c: Byte, d: Byte)
    ensures Number(false, [a, b, c, d]) == Number(true, [d, c, b, a])
         == ToNat(a) + 0x100 * (ToNat(b) + 0x100 * (ToNat(c) + 0x100 * ToNat(d)))
  {
    hide ToNat;
    assert [a, b, c, d][1..] == [b, c, d] && [b, c, d][1..] == [c, d];
    assert [d, c, b, a][..3] == [d, c, b] && [d, c, b][..2] == [d, c];
    ReadTwo(c, d);
  }

  /** Element `i` makes the store loop report an overflow. */
  predicate Overflows(fmt: Format, verdicts: seq<bool>, initial: nat, i: nat)
    requires i < |verdicts|
  {
    var index := Wrap(initial + i);
    if fmt.F32? then index == 0xFFFF_FFFF else verdicts[i] && index > fmt.Max()
  }

  lemma OverflowsAt(fmt: Format, verdicts: seq<bool>, initial: nat, i: nat)
    requires i < |verdicts| && initial + i < TWO32
    ensures Overflows(fmt, verdicts, initial, i)
       <==> if fmt.F32? then initial + i == 0xFFFF_FFFF else verdicts[i] && initial + i > fmt.Max()
  {
    WrapSmall(initial + i);
  }

  /** Element `i` overflows, none before it did, and there was room up to it: an 8-bit or 16-bit index is tested before
      its room, a 32-bit one after it is stored. */
  ghost predicate OverflowsFirst(fmt: Format, verdicts: seq<bool>, initial: nat, room: nat, i: nat) {
    && i < |verdicts| && Overflows(fmt, verdicts, initial, i)
    && (forall j :: 0 <= j < i ==> !Overflows(fmt, verdicts, initial, j))
    && fmt.Size() * Popcount(verdicts[..if fmt.F32? then i + 1 else i]) <= room
  }

  /** There is no room for element `i`, and no overflow came first. */
  ghost predicate RunsShortFirst(fmt: Format, verdicts: seq<bool>, initial: nat, room: nat, i: nat) {
    && i < |verdicts| && fmt.Size() * Popcount(verdicts[..i + 1]) > room
    && (forall j :: 0 <= j < i ==> !Overflows(fmt, verdicts, initial, j))
    && (fmt.F32? || !Overflows(fmt, verdicts, initial, i))
  }

  /** The two errors exclude each other. */
  lemma OneErrorFirst(fmt: Format, verdicts: seq<bool>, initial: nat, room: nat, i: nat, j: nat)
    requires OverflowsFirst(fmt, verdicts, initial, room, i)
    ensures !RunsShortFirst(fmt, verdicts, initial, room, j)
  {
    hide Overflows, Popcount;
    if j < i {
      PopcountPrefix(verdicts[..i], j + 1);
      assert verdicts[..i][..j + 1] == verdicts[..j + 1];
      PopcountPrefix(verdicts[..i + 1], i);
      assert verdicts[..i + 1][..i] == verdicts[..i];
    }
  }

  /** Stores the index of one verdict. */
  method StoreIndex(fmt: Format, be: bool, verdict: bool, dst: array<Byte>, ptr: nat, index: nat)
    returns (status: ScanStatus, next: nat, nextIndex: nat)
    requires ptr <= dst.Length && index < TWO32
    modifies dst
    ensures next <= dst.Length && dst[..ptr] == old(dst[..ptr])
    ensures status.OutputOverflow? <==>
      if fmt.F32? then index == 0xFFFF_FFFF && (verdict ==> ptr + 4 <= dst.Length) else verdict && index > fmt.Max()
    ensures status.ScanDstIsShort? <==> verdict && ptr + fmt.Size() > dst.Length && (fmt.F32? || index <= fmt.Max())
    ensures status in {ScanOk, OutputOverflow, ScanDstIsShort}
    ensures status.ScanOk? ==>
      && nextIndex == Wrap(index + 1) && next == ptr + (if verdict then fmt.Size() else 0)
      && dst[ptr..next] == if verdict then IndexBytes(fmt, be, index) else []
  {
    next, nextIndex := ptr, index;
    if !fmt.F32? {
      if verdict {
        if index > fmt.Max() { return OutputOverflow, next, nextIndex; }
        if ptr + fmt.Size() > dst.Length { return ScanDstIsShort, next, nextIndex; }
        PutBytes(dst, ptr, IndexBytes(fmt, be, index));
        next := ptr + fmt.Size();
      }
      nextIndex := Wrap(index + 1);
    } else {
      if verdict {
        if ptr + 4 > dst.Length { return ScanDstIsShort, next, nextIndex; }
        PutBytes(dst, ptr, IndexBytes(fmt, be, index));
        next := ptr + 4;
      }
      if index < 0xFFFF_FFFF {
        nextIndex := index + 1;
        WrapSmall(index + 1);
      } else {
        return OutputOverflow, next, nextIndex;
      }
    }
    status := ScanOk;
  }

  method PutBytes(dst: array<Byte>, ptr: nat, bytes: seq<Byte>)
    requires ptr + |bytes| <= dst.Length
    modifies dst
    ensures dst[..] == old(dst[..ptr]) + bytes + old(dst[ptr + |bytes|..])
  {
    forall i | 0 <= i < |bytes| {
      dst[ptr + i] := bytes[i];
    }
  }

  /** The store loop. It succeeds exactly when no element overflows and the list fits. */
  method StoreIndices(fmt: Format, be: bool, verdicts: seq<bool>, initial: nat, dst: array<Byte>)
    returns (status: ScanStatus, end: nat)
    requires initial < TWO32
    modifies dst
    ensures status in {ScanOk, OutputOverflow, ScanDstIsShort} && end <= dst.Length
    ensures status.ScanOk? ==> dst[..end] == IndexList(fmt, be, verdicts, initial)
    ensures status.ScanOk? <==>
        && (forall i :: 0 <= i < |verdicts| ==> !Overflows(fmt, verdicts, initial, i))
        && fmt.Size() * Popcount(verdicts) <= dst.Length
    ensures status.OutputOverflow? ==> exists i :: OverflowsFirst(fmt, verdicts, initial, dst.Length, i)
    ensures status.ScanDstIsShort? ==> exists i :: RunsShortFirst(fmt, verdicts, initial, dst.Length, i)
  {
    hide IndexBytes, Wrap, IndexList, Popcount;
    end := 0;
    ListNone(fmt, be, verdicts, initial);
    ListLength(fmt, be, verdicts, initial);
    WrapSmall(initial);
    var index := initial;
    for i := 0 to |verdicts|
      invariant end <= dst.Length && index == Wrap(initial + i)
      invariant dst[..end] == IndexList(fmt, be, verdicts[..i], initial)
      invariant forall j :: 0 <= j < i ==> !Overflows(fmt, verdicts, initial, j)
    {
      ListNext(fmt, be, verdicts, initial, i);
      ghost var before := dst[..end];
      ghost var ptr := end;
      status, end, index := StoreIndex(fmt, be, verdicts[i], dst, end, index);
      if !status.ScanOk? {
        ListLength(fmt, be, verdicts[..i], initial);
        ListLength(fmt, be, verdicts[..i + 1], initial);
        if status.OutputOverflow? {
          assert Overflows(fmt, verdicts, initial, i);
          assert OverflowsFirst(fmt, verdicts, initial, dst.Length, i);
        } else {
          assert RunsShortFirst(fmt, verdicts, initial, dst.Length, i);
        }
        return;
      }
      assert dst[..end] == before + dst[ptr..end];
      WrapAdd(initial + i, 1);
    }
    assert verdicts[..|verdicts|] == verdicts;
    status := ScanOk;
  }

  lemma ListNone(fmt: Format, be: bool, verdicts: seq<bool>, initial: nat)
    ensures IndexList(fmt, be, verdicts[..0], initial) == []
  {
  }

  lemma ListNext(fmt: Format, be: bool, verdicts: seq<bool>, initial: nat, i: nat)
    requires i < |verdicts|
    ensures IndexList(fmt, be, verdicts[..i + 1], initial)
         == IndexList(fmt, be, verdicts[..i], initial)
          + if verdicts[i] then IndexBytes(fmt, be, Wrap(initial + i)) else []
    ensures |IndexList(fmt, be, verdicts[..i + 1], initial)| <= |IndexList(fmt, be, verdicts, initial)|
  {
    hide IndexBytes;
    assert verdicts[..i + 1][..i] == verdicts[..i];
    ListPrefix(fmt, be, verdicts, initial, i + 1);
  }

  lemma {:induction false} ListPrefix(fmt: Format, be: bool, verdicts: seq<bool>, initial: nat, i: nat)
    requires i <= |verdicts|
    ensures |IndexList(fmt, be, verdicts[..i], initial)| <= |IndexList(fmt, be, verdicts, initial)|
    decreases |verdicts|
  {
    hide IndexBytes;
    if i < |verdicts| {
      var k := |verdicts| - 1;
      ListPrefix(fmt, be, verdicts[..k], initial, i);
      assert verdicts[..k][..i] == verdicts[..i];
    } else {
      assert verdicts[..i] == verdicts;
    }
  }

  lemma {:induction false} ListLength(fmt: Format, be: bool, verdicts: seq<bool>, initial: nat)
    ensures |IndexList(fmt, be, verdicts, initial)| == fmt.Size() * Popcount(verdicts)
    decreases |verdicts|
  {
    hide IndexBytes, Wrap, Format.Size;
    if verdicts != [] {
      var front := verdicts[..|verdicts| - 1];
      ListLength(fmt, be, front, initial);
      OneMore(fmt.Size(), Popcount(front));
    }
  }

  lemma OneMore(a: nat, b: nat)
    ensures a * (b + 1) == a * b + a
  {
  }

  /** What the validator achieves: with 8 or 16 bits no accepted scan overflows; with 32 bits an accepted
      scan overflows exactly when its last index is the largest one. */
  lemma AcceptedScans(fmt: Format, verdicts: seq<bool>, initial: nat)
    requires |verdicts| > 0 && Accepted(fmt, initial, |verdicts|)
    ensures (exists i :: 0 <= i < |verdicts| && Overflows(fmt, verdicts, initial, i))
       <==> fmt.F32? && initial + |verdicts| - 1 == 0xFFFF_FFFF
  {
    hide Overflows;
    forall i | 0 <= i < |verdicts|
      ensures Overflows(fmt, verdicts, initial, i) ==> fmt.F32? && initial + i == 0xFFFF_FFFF
    {
      OverflowsAt(fmt, verdicts, initial, i);
    }
    OverflowsAt(fmt, verdicts, initial, |verdicts| - 1);
    if fmt.F32? && initial + |verdicts| - 1 == 0xFFFF_FFFF {
      assert Overflows(fmt, verdicts, initial, |verdicts| - 1);
    }
  }

  /** Group `k` of the bytes of an index list reads as the index of hit number `k`, cut to the format. */
  lemma ListReadsBack(fmt: Format, be: bool, verdicts: seq<bool>, initial: nat, k: nat)
    requires k < |Indices(verdicts, initial)|
    ensures var list, size := IndexList(fmt, be, verdicts, initial), fmt.Size();
        && size * k + size <= |list|
        && Number(be, list[size * k..size * k + size]) == Indices(verdicts, initial)[k] % Pow2(8 * size)
  {
    hide Indices, IndexList, Number, Pow2, Format.Size, Serialised;
    ListSerialisesIndices(fmt, be, verdicts, initial);
    IndicesAreWords(verdicts, initial);
    SerialisedReadsBack(fmt, be, Indices(verdicts, initial), k);
  }

  lemma {:induction false} IndicesAreWords(verdicts: seq<bool>, initial: nat)
    ensures forall k :: 0 <= k < |Indices(verdicts, initial)| ==> Indices(verdicts, initial)[k] < 0x1_0000_0000
    decreases |verdicts|
  {
    if verdicts != [] { IndicesAreWords(verdicts[..|verdicts| - 1], initial); }
  }

  lemma {:induction false} SerialisedReadsBack(fmt: Format, be: bool, xs: seq<nat>, k: nat)
    requires k < |xs| && forall i :: 0 <= i < |xs| ==> xs[i] < 0x1_0000_0000
    ensures var list, size := Serialised(fmt, be, xs), fmt.Size();
        && size * k + size <= |list| == size * |xs|
        && Number(be, list[size * k..size * k + size]) == xs[k] % Pow2(8 * size)
    decreases |xs|
  {
    hide Serialised, IndexBytes, Number, Pow2, Format.Size;
    var n, size := |xs| - 1, fmt.Size();
    var front, last := xs[..n], xs[n];
    var before, bytes := Serialised(fmt, be, front), IndexBytes(fmt, be, last);
    SerialisedLast(fmt, be, xs);
    OneMore(size, n);
    SerialisedLength(fmt, be, front);
    if k < n {
      Apart(size, k, n);
      SerialisedReadsBack(fmt, be, front, k);
      SamePart(before, before + bytes, size * k, size);
    } else {
      LastPart(before, bytes);
      StoredIndex(fmt, be, last);
    }
  }

  lemma SerialisedLast(fmt: Format, be: bool, xs: seq<nat>)
    requires xs != []
    ensures var n := |xs| - 1; Serialised(fmt, be, xs) == Serialised(fmt, be, xs[..n]) + IndexBytes(fmt, be, xs[n])
  {
  }

  lemma {:induction false} SerialisedLength(fmt: Format, be: bool, xs: seq<nat>)
    ensures |Serialised(fmt, be, xs)| == fmt.Size() * |xs|
    decreases |xs|
  {
    hide IndexBytes, Format.Size;
    if xs != [] {
      SerialisedLength(fmt, be, xs[..|xs| - 1]);
      OneMore(fmt.Size(), |xs| - 1);
    }
  }

  lemma SamePart(a: seq<Byte>, b: seq<Byte>, p: nat, n: nat)
    requires a <= b && p + n <= |a|
    ensures a[p..p + n] == b[p..p + n]
  {
  }

  lemma LastPart(a: seq<Byte>, b: seq<Byte>)
    ensures (a + b)[|a|..|a| + |b|] == b
  {
  }

  lemma StoredIndex(fmt: Format, be: bool, index: nat)
    requires index < 0x1_0000_0000
    ensures Number(be, IndexBytes(fmt, be, index)) == index % Pow2(8 * fmt.Size())
  {
    hide Number, IndexBytes, Pow2;
    PowersOfTwo();
    IndexReadsBack(be, index);
  }
}
