/** The bit writer of the DEFLATE compressor: codes are gathered in a 64-bit buffer and leave it
    in whole bytes, eight bytes being stored at a time. */
module BitWriter {
  import opened Words
  import opened Numbers
  import opened Streams
  import opened Packing
  import opened Store

  const SLOP := 8

  datatype WriterStatus = Available | Overflowing

  /** The buffer has no bits set from `n` on. */
  ghost predicate Clean(b: U64, n: nat) {
    n <= 64 && forall i :: n <= i < 64 ==> !b[i]
  }

  /** The eight bytes of a 64-bit word in memory order. */
  function WordBytes(b: U64): (s: seq<Byte>)
    ensures |s| == 8
  {
    seq(8, k requires 0 <= k < 8 => b[8 * k..8 * k + 8])
  }

  lemma {:induction false} WordBytesStream(b: U64, c: nat)
    requires c <= 8
    ensures Stream(false, WordBytes(b)[..c]) == b[..8 * c]
  {
    hide Stream;
    if c == 0 {
      assert WordBytes(b)[..0] == [] && Stream(false, []) == [];
    } else {
      var d := c - 1;
      WordBytesStream(b, d);
      assert WordBytes(b)[..c] == WordBytes(b)[..d] + [b[8 * d..8 * d + 8]];
      StreamConcat(false, WordBytes(b)[..d], [b[8 * d..8 * d + 8]]);
      StreamOne(false, b[8 * d..8 * d + 8]);
      assert b[..8 * c] == b[..8 * d] + b[8 * d..8 * d + 8];
    }
  }

  function Min(a: nat, b: nat): nat {
    if a < b then a else b
  }

  /** Or-ing a code in above the pending bits appends it to them, as far as the buffer reaches. */
  lemma OrAppends(buffer: U64, n: nat, code: U64, len: nat)
    requires n < 64 && Clean(buffer, n) && Clean(code, len)
    ensures Clean(Or(buffer, Shl(code, n)), Min(n + len, 64))
    ensures Or(buffer, Shl(code, n))[..Min(n + len, 64)] == buffer[..n] + code[..Min(len, 64 - n)]
  {
  }

  /** Beside `n` pending bits every code of `len` bits is kept whole exactly when they fit the buffer together. */
  lemma CodesKeptWhole(n: nat, len: nat)
    requires n < 64 && len <= 64
    ensures (forall code: U64 | Clean(code, len) :: code[..Min(len, 64 - n)] == code[..len]) <==> n + len <= 64
  {
    var ones: U64 := Field(64, 0, len);
    assert Clean(ones, len);
  }

  /** Shifting written bits out leaves the others pending. */
  lemma ShiftOut(buffer: U64, n: nat, k: nat)
    requires k <= n && Clean(buffer, n)
    ensures Clean(Shr(buffer, k), n - k) && Shr(buffer, k)[..n - k] == buffer[k..n]
  {
  }

  lemma JoinBits(front: seq<bool>, buffer: U64, k: nat, n: nat)
    requires k <= n <= 64
    ensures (front + buffer[..k]) + buffer[k..n] == front + buffer[..n]
  {
  }

  /** Storing the word at `at` and moving on by `c` bytes appends its first `c` bytes to what was written. */
  lemma StoreAppends(before: seq<Byte>, after: seq<Byte>, at: nat, buffer: U64, c: nat)
    requires at + 8 <= |before| == |after| && c <= 8
    requires after == before[..at] + WordBytes(buffer) + before[at + 8..]
    ensures Stream(false, after[..at + c]) == Stream(false, before[..at]) + buffer[..8 * c]
  {
    hide Stream, WordBytes;
    assert after[..at + c] == before[..at] + WordBytes(buffer)[..c];
    StreamConcat(false, before[..at], WordBytes(buffer)[..c]);
    WordBytesStream(buffer, c);
  }

  lemma PaddedWord(buffer: U64, n: nat)
    requires n < 64 && Clean(buffer, n)
    ensures BytesFor(n) <= 8
    ensures buffer[..8 * BytesFor(n)] == buffer[..n] + Zeros(8 * BytesFor(n) - n)
  {
  }

  lemma IsPacked(bytes: seq<Byte>, s: seq<bool>)
    requires |bytes| == BytesFor(|s|)
    requires Stream(false, bytes) == s + Zeros(8 * BytesFor(|s|) - |s|)
    ensures bytes == Packed(false, s)
  {
    hide Stream, Packed;
    StreamOfPacked(false, s);
    StreamInjective(false, bytes, Packed(false, s));
  }

  /** Storing the word and moving on by as many bytes as its `n` bits take packs those bits behind what was written. */
  lemma FlushedBytes(before: seq<Byte>, after: seq<Byte>, at: nat, buffer: U64, n: nat)
    requires 0 < n < 64 && Clean(buffer, n) && at + 8 <= |before| == |after|
    requires after == before[..at] + WordBytes(buffer) + before[at + 8..]
    ensures at + BytesFor(n) <= |after|
    ensures after[..at + BytesFor(n)] == Packed(false, Stream(false, before[..at]) + buffer[..n])
  {
    hide Stream, WordBytes, Packed, Clean, Zeros;
    var c := BytesFor(n);
    var front, bits := Stream(false, before[..at]), buffer[..n];
    PaddedWord(buffer, n);
    StoreAppends(before, after, at, buffer, c);
    PadBehind(front, bits, at);
    IsPacked(after[..at + c], front + bits);
  }

  lemma PadBehind(front: seq<bool>, bits: seq<bool>, at: nat)
    requires |front| == 8 * at
    ensures var s, c := front + bits, BytesFor(|bits|);
        && BytesFor(|s|) == at + c && 8 * BytesFor(|s|) - |s| == 8 * c - |bits|
        && front + (bits + Zeros(8 * c - |bits|)) == s + Zeros(8 * c - |bits|)
  {
  }

  lemma WholeBytes(bytes: seq<Byte>, buffer: U64)
    ensures bytes == Packed(false, Stream(false, bytes) + buffer[..0])
  {
    hide Stream, Packed;
    var s := Stream(false, bytes);
    assert s + buffer[..0] == s && s + Zeros(0) == s;
    IsPacked(bytes, s);
  }

  lemma AppendCode(written: seq<bool>, pending: seq<bool>, ideal: seq<bool>, code: U64, len: nat, k: nat)
    requires written + pending == ideal && k <= len <= 64
    ensures written + (pending + code[..k]) == ideal + code[..k] <= ideal + code[..len]
    ensures ideal + code[..k] == ideal + code[..len] <==> k == len
  {
    assert code[..k] == code[..len][..k];
    assert |ideal + code[..k]| == |ideal| + k;
  }

  class Writer {
    var buffer: U64
    var bitsInBuffer: nat
    var out: array<Byte>
    var current: nat
    var end: int
    var status: WriterStatus
    /** All the bits that the writer was asked to write into this buffer. */
    ghost var ideal: seq<bool>

    /** The bits that have reached the output, and those still in the buffer. */
    ghost function Written(): seq<bool>
      requires current <= out.Length
      reads this, out
    {
      Stream(false, out[..current])
    }

    ghost function Pending(): seq<bool>
      reads this
    {
      buffer[..Min(bitsInBuffer, 64)]
    }

    ghost predicate Valid()
      reads this, out
    {
      && (status.Available? ==> bitsInBuffer < 64) && Clean(buffer, Min(bitsInBuffer, 64))
      && current <= out.Length && end == out.Length - 8
      && (status.Available? && bitsInBuffer > 0 ==> current <= end)
      && Written() + Pending() <= ideal
      && (status.Available? ==> Written() + Pending() == ideal)
    }

    constructor (out: array<Byte>)
      ensures Valid() && this.out == out && status == Available && ideal == [] && bitsInBuffer == current == 0
    {
      buffer, bitsInBuffer := Zeros(64), 0;
      this.out, current, end := out, 0, out.Length - SLOP;
      status, ideal := Available, [];
    }

    /** The pending bits are carried over into the new buffer. If there are any it must have room for a store. */
    method SetBuffer(buffer_: array<Byte>)
      requires Valid() && bitsInBuffer < 64 && (bitsInBuffer == 0 || buffer_.Length >= 8)
      modifies this
      ensures Valid() && out == buffer_ && current == 0 && status == Available
      ensures bitsInBuffer == old(bitsInBuffer) && ideal == old(Pending())
    {
      current, out := 0, buffer_;
      end := buffer_.Length - SLOP;
      status := Available;
      ideal := Pending();
      assert Stream(false, out[..0]) == [];
    }

    method Init()
      requires Valid()
      modifies this
      ensures Valid() && bitsInBuffer == 0 && ideal == old(Written())
      ensures out == old(out) && current == old(current) && status == old(status)
    {
      buffer, bitsInBuffer := Zeros(64), 0;
      ideal := Written();
    }

    /** One 64-bit store, in the byte order of the machine the library is built for. */
    method StoreWord()
      requires current + 8 <= out.Length
      modifies out
      ensures out[..] == old(out[..current]) + WordBytes(buffer) + old(out[current + 8..])
    {
      var at, bytes := current, WordBytes(buffer);
      forall k | 0 <= k < 8 {
        out[at + k] := bytes[k];
      }
    }

    method FlushBits()
      requires bitsInBuffer < 64 && Clean(buffer, bitsInBuffer) && current + 8 <= out.Length
      modifies this`buffer, this`bitsInBuffer, this`current, out
      ensures bitsInBuffer == old(bitsInBuffer) % 8 && Clean(buffer, bitsInBuffer)
      ensures current == old(current) + old(bitsInBuffer) / 8 <= out.Length
      ensures Written() + Pending() == old(Written() + Pending())
      ensures out[..old(current)] == old(out[..current])
      ensures out[old(current) + 8..] == old(out[current + 8..])
    {
      hide Stream, WordBytes, Shr;
      ghost var before, n := out[..], bitsInBuffer;
      var numberOfBits := bitsInBuffer - bitsInBuffer % 8;
      var completeBytes := numberOfBits / 8;
      assert out[..current] == before[..current];
      StoreWord();
      StoreAppends(before, out[..], current, buffer, completeBytes);
      ShiftOut(buffer, bitsInBuffer, numberOfBits);
      assert out[..][..current + completeBytes] == out[..current + completeBytes];
      JoinBits(Stream(false, before[..current]), buffer, numberOfBits, n);
      bitsInBuffer := bitsInBuffer - numberOfBits;
      current := current + completeBytes;
      buffer := Shr(buffer, numberOfBits);
    }

    /** The code joins the pending bits. */
    method Gather(code: U64, len: nat)
      requires bitsInBuffer < 64 && Clean(buffer, bitsInBuffer) && len <= 64 && Clean(code, len)
      requires current <= out.Length && Written() + Pending() == ideal
      modifies this`buffer, this`bitsInBuffer
      ensures bitsInBuffer == old(bitsInBuffer) + len && Clean(buffer, Min(bitsInBuffer, 64))
      ensures Written() + Pending() == ideal + code[..Min(len, 64 - old(bitsInBuffer))] <= ideal + code[..len]
      ensures Written() + Pending() == ideal + code[..len] <==> bitsInBuffer <= 64
    {
      hide Stream, Or, Shl, Clean;
      OrAppends(buffer, bitsInBuffer, code, len);
      AppendCode(Written(), Pending(), ideal, code, len, Min(len, 64 - bitsInBuffer));
      buffer := Or(buffer, Shl(code, bitsInBuffer));
      bitsInBuffer := bitsInBuffer + len;
    }

    /** Appends the low `len` bits of `code`. A code of up to 56 bits always fits beside the at most
        seven bits that an available writer keeps after a write. Beside more bits, carried over from an earlier
        buffer, its top bits can be lost; the shift of a flush must stay below the width of the buffer. */
    method WriteBits(code: U64, len: nat)
      requires Valid() && len <= 64 && Clean(code, len)
      requires status.Available? ==> bitsInBuffer + len < 64 || current + (bitsInBuffer + len) / 8 >= end
      modifies this`buffer, this`bitsInBuffer, this`current, this`status, this`ideal, out
      ensures Valid() && ideal == old(ideal) + code[..len]
      ensures old(status).Available? ==> status.Available? == (old(current) + (old(bitsInBuffer) + len) / 8 < end)
      ensures status.Available? ==> bitsInBuffer == (old(bitsInBuffer) + len) % 8
      ensures status.Available? ==> current == old(current) + (old(bitsInBuffer) + len) / 8 < end
      ensures old(status).Available? ==>
          Written() + Pending() == old(ideal) + code[..Min(len, 64 - old(bitsInBuffer))]
      ensures old(status).Available? ==> (Written() + Pending() == ideal <==> old(bitsInBuffer) + len <= 64)
      ensures old(status).Overflowing? ==>
          status.Overflowing? && buffer == old(buffer) && bitsInBuffer == old(bitsInBuffer)
      ensures status.Overflowing? ==> current == old(current) && out[..] == old(out[..])
      ensures out[..old(current)] == old(out[..current])
    {
      hide Stream, Clean;
      if status == Available {
        Gather(code, len);
        var completeBytes := bitsInBuffer / 8;
        if current + completeBytes >= end {
          status := Overflowing;
        } else {
          FlushBits();
        }
      }
      ideal := ideal + code[..len];
    }

    /** Completes the last byte with zero bits. */
    method Flush()
      requires Valid()
      modifies this`buffer, this`bitsInBuffer, this`current, this`ideal, out
      ensures Valid()
      ensures old(status).Overflowing? ==>
          && buffer == old(buffer) && bitsInBuffer == old(bitsInBuffer) && current == old(current)
          && ideal == old(ideal) && out[..] == old(out[..])
      ensures old(status).Available? ==>
          && bitsInBuffer == 0 && current == old(current) + BytesFor(old(bitsInBuffer))
          && out[..current] == Packed(false, old(ideal)) && ideal == Written()
      ensures out[..old(current)] == old(out[..current])
    {
      hide Stream, WordBytes, Packed;
      if status == Available {
        ghost var before := out[..];
        assert out[..current] == before[..current];
        if bitsInBuffer != 0 {
          StoreWord();
          FlushedBytes(before, out[..], current, buffer, bitsInBuffer);
          var bytes := (bitsInBuffer + 7) / 8;
          current := current + bytes;
          assert out[..][..current] == out[..current];
        } else {
          WholeBytes(out[..current], buffer);
        }
        buffer, bitsInBuffer := Zeros(64), 0;
        ideal := Written();
      }
    }
  }

  /** For one: beside 63 bits carried over from a full buffer, a code of two bits loses its top bit. */
  method CarriedBitsCrowdOut(writer: Writer, next: array<Byte>, code: U64)
    requires writer.Valid() && writer.bitsInBuffer == 63 && next.Length == 8 && Clean(code, 2)
    modifies writer, next
    ensures writer.Valid() && writer.out == next && writer.ideal == old(writer.Pending()) + code[..2]
    ensures writer.Written() + writer.Pending() == old(writer.Pending()) + code[..1] != writer.ideal
  {
    hide Clean, Stream;
    writer.SetBuffer(next);
    writer.WriteBits(code, 2);
  }

  /** A column written as codes of one width and flushed is the column that the packer stores. */
  method WriteColumn(writer: Writer, values: seq<U32>, w: nat)
    requires writer.Valid() && writer.status.Available? && writer.ideal == [] && w <= 32
    modifies writer, writer.out
    ensures writer.Valid() && writer.out == old(writer.out)
    ensures writer.status.Available? == (values == [] || Span(|values|, w) / 8 < writer.out.Length - 8)
    ensures writer.status.Available? ==> writer.out[..writer.current] == PackElements(false, Truncated(values, w))
  {
    hide Stream, Truncated, Packed, Widen;
    var n := |values|;
    TruncatedNone(w);
    assert values[..n] == values;
    for i := 0 to n
      invariant writer.Valid() && writer.out == old(writer.out)
      invariant writer.ideal == Flat(false, Truncated(values[..i], w))
      invariant writer.status.Available? == (i == 0 || Span(i, w) / 8 < writer.end)
      invariant writer.status.Available? ==>
          8 * writer.current + writer.bitsInBuffer == Span(i, w) && writer.bitsInBuffer < 8
    {
      TruncatedNext(values, w, i);
      FlatAppend(false, Truncated(values[..i], w), values[i][..w]);
      CodeOf(values[i], w);
      writer.WriteBits(Widen(values[i][..w], 64), w);
    }
    writer.Flush();
  }

  lemma CodeOf(value: U32, w: nat)
    requires w <= 32
    ensures var code := Widen(value[..w], 64); Clean(code, w) && code[..w] == value[..w]
  {
  }
}
