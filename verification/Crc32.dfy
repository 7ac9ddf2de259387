/** The CRC-32 reference routine works on the mirror image of the register that section 8 of
    RFC 1952 describes; the two are proved to agree for every polynomial and starting value. */
module Crc32 {
  import opened Words
  import opened Gf2
  import opened Streams

  function ReverseBits8(x: Byte): Byte {
    Rev(x)
  }

  function ReverseBits32(x: U32): U32 {
    var y := Widen(ReverseBits8(Shr(x, 24)[..8]), 32);
    var y := Or(y, Shl(Widen(ReverseBits8(Shr(x, 16)[..8]), 32), 8));
    var y := Or(y, Shl(Widen(ReverseBits8(Shr(x, 8)[..8]), 32), 16));
    Or(y, Shl(Widen(ReverseBits8(x[..8]), 32), 24))
  }

  lemma ReverseBits32IsRev(x: U32)
    ensures ReverseBits32(x) == Rev(x)
  {
    hide Rev, Or, Shl, Shr, Widen;
    var a, b, c, d := x[..8], x[8..16], x[16..24], x[24..];
    ByteOf(x, 24);
    ByteOf(x, 16);
    ByteOf(x, 8);
    OrAbove(Rev(d), Rev(c), 32);
    OrAbove(Rev(d) + Rev(c), Rev(b), 32);
    OrAbove(Rev(d) + Rev(c) + Rev(b), Rev(a), 32);
    WidenFull(Rev(d) + Rev(c) + Rev(b) + Rev(a));
    RevFour(a, b, c, d);
    assert x == a + b + c + d;
  }

  method RefCrc32(buf: seq<Byte>, poly: U32, initCrc: U32) returns (r: U32)
    ensures r == Not(Rev(Serial(poly, Not(initCrc), Stream(false, buf))))
  {
    hide Serial, Stream, TN, Shl, Xor;
    var crc: U32 := Not(initCrc);
    assert Stream(false, buf[..0]) == [];
    SerialNone(poly, crc);
    for i := 0 to |buf|
      invariant crc == Serial(poly, Not(initCrc), Stream(false, buf[..i]))
    {
      AbsorbByte(poly, Not(initCrc), buf, i);
      crc := Xor(crc, Shl(Widen(ReverseBits8(buf[i]), 32), 24));
      ghost var start := crc;
      for j := 0 to 8
        invariant TN(poly, 8 - j, crc) == TN(poly, 8, start)
      {
        TNUnfold(poly, 8 - j, crc);
        crc := if crc[31] then Xor(Shl(crc, 1), poly) else Shl(crc, 1);
      }
      TNUnfold(poly, 0, crc);
    }
    assert buf[..|buf|] == buf;
    ReverseBits32IsRev(crc);
    r := Not(ReverseBits32(crc));
  }

  lemma TNUnfold(poly: U32, n: nat, h: U32)
    ensures TN(poly, n, h) == if n == 0 then h else TN(poly, n - 1, T(poly, h))
  {
  }

  lemma AbsorbByte(poly: U32, start: U32, buf: seq<Byte>, i: nat)
    requires i < |buf|
    ensures Serial(poly, start, Stream(false, buf[..i + 1]))
         == TN(poly, 8, Xor(Serial(poly, start, Stream(false, buf[..i])), Shl(Widen(Rev(buf[i]), 32), 24)))
  {
    hide Serial, Stream, TN, Xor;
    assert buf[..i + 1] == buf[..i] + [buf[i]];
    StreamConcat(false, buf[..i], [buf[i]]);
    StreamOne(false, buf[i]);
    SerialConcat(poly, start, Stream(false, buf[..i]), buf[i]);
    SerialFold(poly, Serial(poly, start, Stream(false, buf[..i])), buf[i]);
    assert AtTop(buf[i], 32) == Shl(Widen(Rev(buf[i]), 32), 24);
  }

  // ----- the CRC of section 8 of RFC 1952 -----

  /** One step of the mirrored register, as in the table generator of the RFC. */
  function R(rpoly: Word, c: Word): (r: Word)
    requires |c| == |rpoly| > 0
    ensures |r| == |c|
  {
    if c[0] then Xor(rpoly, Shr(c, 1)) else Shr(c, 1)
  }

  function RN(rpoly: Word, n: nat, c: Word): (r: Word)
    requires |c| == |rpoly| > 0
    ensures |r| == |c|
    decreases n
  {
    if n == 0 then c else RN(rpoly, n - 1, R(rpoly, c))
  }

  function TableEntry(rpoly: U32, index: Byte): U32 {
    RN(rpoly, 8, Widen(index, 32))
  }

  function UpdateLoop(rpoly: U32, c: U32, buf: seq<Byte>): U32
    decreases |buf|
  {
    if buf == [] then c
    else UpdateLoop(rpoly, Xor(TableEntry(rpoly, Xor(c[..8], buf[0])), Shr(c, 8)), buf[1..])
  }

  /** `update_crc` of the RFC: complement, run over the bytes, complement. */
  function UpdateCrc(rpoly: U32, crc: U32, buf: seq<Byte>): U32 {
    Not(UpdateLoop(rpoly, Not(crc), buf))
  }

  lemma RevStep(poly: Word, h: Word)
    requires |h| == |poly| > 0
    ensures Rev(T(poly, h)) == R(Rev(poly), Rev(h))
  {
    hide Xor;
    RevXor(Shl(h, 1), poly);
    XorComm(Rev(Shl(h, 1)), Rev(poly));
    assert Rev(Shl(h, 1)) == Shr(Rev(h), 1);
  }

  lemma {:induction false} RevSteps(poly: Word, n: nat, h: Word)
    requires |h| == |poly| > 0
    ensures Rev(TN(poly, n, h)) == RN(Rev(poly), n, Rev(h))
    decreases n
  {
    hide Rev, T, R;
    if n > 0 {
      RevStep(poly, h);
      RevSteps(poly, n - 1, T(poly, h));
    }
  }

  /** Looking a byte up in the table is absorbing its eight bits, low bit first. */
  lemma TableStep(poly: U32, s: U32, b: Byte)
    ensures Xor(TableEntry(Rev(poly), Xor(Rev(s)[..8], b)), Shr(Rev(s), 8)) == Rev(Serial(poly, s, b))
  {
    hide TN, RN, Serial, Xor, Rev, AtTop;
    var d := Xor(s, AtTop(b, 32));
    SerialFold(poly, s, b);
    var top: U32, low: U32 := Zeros(24) + d[24..], d[..24] + Zeros(8);
    SplitTop(d);
    TNLinear(poly, 8, top, low);
    TNSmall(poly, 8, low);
    RevSteps(poly, 8, top);
    RevParts(s, b);
    RevXor(TN(poly, 8, top), Shl(low, 8));
  }

  lemma SplitTop(d: U32)
    ensures d == Xor(Zeros(24) + d[24..], d[..24] + Zeros(8))
  {
  }

  lemma RevParts(s: U32, b: Byte)
    ensures var d := Xor(s, AtTop(b, 32));
            && Rev(Zeros(24) + d[24..]) == Widen(Xor(Rev(s)[..8], b), 32)
            && Rev(Shl(d[..24] + Zeros(8), 8)) == Shr(Rev(s), 8)
  {
    var d := Xor(s, AtTop(b, 32));
    var e := Widen(Xor(Rev(s)[..8], b), 32);
    forall i | 0 <= i < 32
      ensures Rev(Zeros(24) + d[24..])[i] == e[i]
    {
    }
  }

  lemma {:induction false} UpdateLoopIsSerial(poly: U32, s: U32, buf: seq<Byte>)
    ensures UpdateLoop(Rev(poly), Rev(s), buf) == Rev(Serial(poly, s, Stream(false, buf)))
    decreases |buf|
  {
    hide Serial, Stream, Xor, TableEntry, Shr;
    if buf == [] {
      assert Stream(false, buf) == [];
      assert Serial(poly, s, []) == s by { SerialNone(poly, s); }
    } else {
      assert buf == [buf[0]] + buf[1..];
      StreamConcat(false, [buf[0]], buf[1..]);
      StreamOne(false, buf[0]);
      SerialConcat(poly, s, buf[0], Stream(false, buf[1..]));
      TableStep(poly, s, buf[0]);
      UpdateLoopIsSerial(poly, Serial(poly, s, buf[0]), buf[1..]);
    }
  }

  lemma SerialNone(poly: U32, s: U32)
    ensures Serial(poly, s, []) == s
  {
  }

  /** What `RefCrc32` returns. */
  function Crc(buf: seq<Byte>, poly: U32, initCrc: U32): U32 {
    Not(Rev(Serial(poly, Not(initCrc), Stream(false, buf))))
  }

  /** It is the RFC's running CRC with the mirrored polynomial, continued from the mirrored start. */
  lemma CrcIsRfc1952(buf: seq<Byte>, poly: U32, initCrc: U32)
    ensures Crc(buf, poly, initCrc) == UpdateCrc(Rev(poly), Rev(initCrc), buf)
  {
    hide Serial, Stream, UpdateLoop;
    UpdateLoopIsSerial(poly, Not(initCrc), buf);
    assert Rev(Not(initCrc)) == Not(Rev(initCrc));
  }

  /** A message may be processed in pieces, feeding back the mirrored result. */
  lemma CrcInPieces(a: seq<Byte>, b: seq<Byte>, poly: U32, initCrc: U32)
    ensures Crc(a + b, poly, initCrc) == Crc(b, poly, ReverseBits32(Crc(a, poly, initCrc)))
  {
    hide Serial, Stream, ReverseBits32;
    StreamConcat(false, a, b);
    SerialConcat(poly, Not(initCrc), Stream(false, a), Stream(false, b));
    var s := Serial(poly, Not(initCrc), Stream(false, a));
    ReverseBits32IsRev(Not(Rev(s)));
    assert Not(Rev(Not(Rev(s)))) == s;
  }
}
