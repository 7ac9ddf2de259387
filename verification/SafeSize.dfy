/** The output buffer size that always suffices for DEFLATE compression. */
module SafeSize {
  const MAX_U32 := 0xFFFF_FFFF
  const MAX_STORED := 65535
  const BLOCK_HEADER := 5
  const FIRST_BLOCK_HEADER := 1
  const OUTPUT_ACCUMULATOR := 32
  const END_OF_BLOCK := 2
  /** The largest source whose safe size fits 32 bits. */
  const LARGEST_SOURCE := 4_294_639_600

  /** Division by 65535 with shifts. */
  function Div65535(x: nat): nat {
    var y := x / 0x1_0000 + x + 1;
    y / 0x1_0000
  }

  function StoredBlockSize(size: nat): nat {
    if size == 0 then
      BLOCK_HEADER - FIRST_BLOCK_HEADER
    else
      var blocks := Div65535(size + MAX_STORED - 1);
      size + blocks * BLOCK_HEADER - FIRST_BLOCK_HEADER
  }

  /** The safe size, or 0 when it does not fit. */
  function SafeBufferSize(size: nat): (r: nat)
    requires size <= MAX_U32
    ensures r <= MAX_U32
  {
    var bytes := StoredBlockSize(size) + FIRST_BLOCK_HEADER + OUTPUT_ACCUMULATOR + END_OF_BLOCK;
    var even := if bytes % 2 != 0 then bytes + 1 else bytes;
    if even > MAX_U32 then 0 else even
  }

  /** The length of a source in stored blocks (section 3.2.4 of RFC 1951): at least one block, each
      with a header byte, two length fields and at most 65535 bytes. */
  function StoredLength(size: nat): nat {
    if size <= 65535 then 5 + size else 5 + 65535 + StoredLength(size - 65535)
  }

  /** The quotient and remainder determine the shifted sum. */
  lemma ShiftedSum(x: nat, q: nat, r: nat)
    requires x == 65535 * q + r && r < 65535
    ensures x / 0x1_0000 == q + (r - q) / 0x1_0000
  {
    assert x == 0x1_0000 * q + (r - q);
  }

  /** For every argument that arises, the shift division is wrong at 0xFFFFFFFF and nowhere else. */
  lemma DivIsWrongOnce(x: nat)
    requires x <= MAX_U32 + MAX_STORED - 1
    ensures Div65535(x) == x / 65535 <==> x != 0xFFFF_FFFF
  {
    var q, r := x / 65535, x % 65535;
    ShiftedSum(x, q, r);
    var f := (r - q) / 0x1_0000;
    assert x / 0x1_0000 + x + 1 == 0x1_0000 * q + (r + 1 + f);
    if q <= 65536 {
      assert f == if r >= q then 0 else -1;
    } else {
      assert q == 65537;
      assert f == if r == 0 then -2 else -1;
    }
  }

  /** A closed form of the stored length: five bytes for each of max(1, ceil(size / 65535)) blocks. */
  lemma {:induction false} StoredLengthClosed(size: nat)
    ensures StoredLength(size) == size + 5 * (if size == 0 then 1 else (size + 65534) / 65535)
  {
    if size > MAX_STORED {
      StoredLengthClosed(size - MAX_STORED);
      assert (size + 65534) / 65535 == (size - MAX_STORED + 65534) / 65535 + 1;
    }
  }

  /** The block size is the stored length without the first header byte, or both are too large for a safe size. */
  lemma BlockSizeIsStored(size: nat)
    requires size <= MAX_U32
    ensures size <= LARGEST_SOURCE ==> StoredBlockSize(size) + FIRST_BLOCK_HEADER == StoredLength(size)
    ensures size > LARGEST_SOURCE ==> StoredBlockSize(size) >= MAX_U32 - OUTPUT_ACCUMULATOR - END_OF_BLOCK - 1
  {
    hide StoredLength, Div65535;
    StoredLengthClosed(size);
    DivIsWrongOnce(size + MAX_STORED - 1);
    if size > LARGEST_SOURCE { QuotientIsLarge(size + MAX_STORED - 1); }
  }

  lemma QuotientIsLarge(x: nat)
    requires LARGEST_SOURCE + MAX_STORED <= x <= MAX_U32 + MAX_STORED - 1
    ensures Div65535(x) >= 65532
  {
  }

  /** The largest source is the last whose stored form fits 32 bits with what is added to it. */
  lemma LargestSourceFits(size: nat)
    ensures StoredLength(size) + 34 < 0xFFFF_FFFF <==> size <= 4_294_639_600
  {
    hide StoredLength;
    StoredLengthClosed(size);
  }

  /** The safe size is the stored form, the accumulator and the end of block, rounded up to even. It is 0 exactly
      when that does not fit; the one wrong quotient falls among those sources. */
  lemma SafeSizeIsExact(size: nat)
    requires size <= MAX_U32
    ensures var exact := StoredLength(size) + 34;
        SafeBufferSize(size) == if size > 4_294_639_600 then 0 else if exact % 2 == 0 then exact else exact + 1
    ensures SafeBufferSize(size) % 2 == 0
    ensures SafeBufferSize(size) == 0 <==> StoredLength(size) + 35 > 0xFFFF_FFFF
  {
    hide StoredLength, StoredBlockSize;
    BlockSizeIsStored(size);
    LargestSourceFits(size);
  }

  lemma {:induction false} StoredLengthGrows(a: nat, b: nat)
    requires a <= b
    ensures StoredLength(a) <= StoredLength(b)
  {
    hide StoredLength;
    StoredLengthClosed(a);
    StoredLengthClosed(b);
  }

  lemma SafeSizeGrows(a: nat, b: nat)
    requires a <= b <= 4_294_639_600
    ensures 0 < SafeBufferSize(a) <= SafeBufferSize(b)
  {
    hide StoredLength, SafeBufferSize;
    SafeSizeIsExact(a);
    SafeSizeIsExact(b);
    StoredLengthGrows(a, b);
  }

  lemma StoredLengthSplits(a: nat, b: nat)
    ensures StoredLength(a + b) <= StoredLength(a) + StoredLength(b)
  {
    hide StoredLength;
    StoredLengthClosed(a);
    StoredLengthClosed(b);
    StoredLengthClosed(a + b);
  }

  function Total(chunks: seq<nat>): nat {
    if chunks == [] then 0 else Total(chunks[..|chunks| - 1]) + chunks[|chunks| - 1]
  }

  function TotalSafe(chunks: seq<nat>): nat
    requires forall i :: 0 <= i < |chunks| ==> chunks[i] <= LARGEST_SOURCE
  {
    if chunks == [] then 0 else TotalSafe(chunks[..|chunks| - 1]) + SafeBufferSize(chunks[|chunks| - 1])
  }

  /** However a source is cut into chunks, the safe sizes of the chunks together hold the stored form of the
      whole, and are at least the safe size of the whole. */
  lemma {:induction false} ChunksCoverTheWhole(chunks: seq<nat>)
    requires chunks != [] && forall i :: 0 <= i < |chunks| ==> chunks[i] <= LARGEST_SOURCE
    ensures var whole := StoredLength(Total(chunks)) + 34; whole + whole % 2 <= TotalSafe(chunks)
    ensures Total(chunks) <= MAX_U32 ==> SafeBufferSize(Total(chunks)) <= TotalSafe(chunks)
    decreases |chunks|
  {
    hide StoredLength, SafeBufferSize;
    var front, last := chunks[..|chunks| - 1], chunks[|chunks| - 1];
    SafeSizeIsExact(last);
    if front != [] {
      ChunksCoverTheWhole(front);
      StoredLengthSplits(Total(front), last);
    }
    if Total(chunks) <= MAX_U32 { SafeSizeIsExact(Total(chunks)); }
  }
}
