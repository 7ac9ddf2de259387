/** The CRC-64 reference routine: 32-bit word folding over a 96-bit register, proved equal to
    the bit-serial shift register for every length, polynomial and flag setting. */
module Crc64 {
  import opened Words
  import opened Gf2
  import opened Streams

  datatype CrcResult = SizeErr | BadPolynomial | Crc(value: U64)

  // ----- byte and bit reflections -----

  function BitRef8(x: Byte): Byte {
    Rev(x)
  }

  function BitRef32(x: U32): U32 {
    var y := Widen(BitRef8(Shr(x, 24)[..8]), 32);
    var y := Or(Shl(y, 8), Widen(BitRef8(Shr(x, 16)[..8]), 32));
    var y := Or(Shl(y, 8), Widen(BitRef8(Shr(x, 8)[..8]), 32));
    Or(Shl(y, 8), Widen(BitRef8(x[..8]), 32))
  }

  function BitRef64(x: U64): U64 {
    var y := Widen(BitRef32(Shr(x, 32)[..32]), 64);
    Or(Shl(y, 32), Widen(BitRef32(x[..32]), 64))
  }

  function ByteRef32(x: U32): U32 {
    Or(Or(Or(Shr(x, 24), And(Shr(x, 8), Field(32, 8, 16))), And(Shl(x, 8), Field(32, 16, 24))), Shl(x, 24))
  }

  function ByteRef64(x: U64): U64 {
    Or(Shl(Widen(ByteRef32(x[..32]), 64), 32), Widen(ByteRef32(Shr(x, 32)[..32]), 64))
  }

  function BitByteSwap64(x: U64): U64 {
    ByteRef64(BitRef64(x))
  }

  lemma BitRef32Bytes(x: U32)
    ensures BitRef32(x) == Rev(x[..8]) + Rev(x[8..16]) + Rev(x[16..24]) + Rev(x[24..])
  {
    hide Rev, Or, Shl, Shr, Widen;
    var a, b, c, d := Rev(x[..8]), Rev(x[8..16]), Rev(x[16..24]), Rev(x[24..]);
    ByteOf(x, 24);
    ByteOf(x, 16);
    ByteOf(x, 8);
    OrBelow(c, d, 32);
    OrBelow(b, c + d, 32);
    OrBelow(a, b + (c + d), 32);
    WidenFull(a + (b + (c + d)));
    assert a + (b + (c + d)) == a + b + c + d;
  }

  lemma ByteRef32Bytes(x: U32)
    ensures ByteRef32(x) == x[24..] + x[16..24] + x[8..16] + x[..8]
  {
  }

  /** The two byte-wise reflections together reverse a word. */
  lemma Reflect32(x: U32)
    ensures ByteRef32(BitRef32(x)) == BitRef32(ByteRef32(x)) == Rev(x)
  {
    hide ByteRef32, BitRef32, Rev;
    var a, b, c, d := x[..8], x[8..16], x[16..24], x[24..];
    BitRef32Bytes(x);
    ByteRef32Bytes(BitRef32(x));
    Quarters(Rev(a), Rev(b), Rev(c), Rev(d));
    ByteRef32Bytes(x);
    BitRef32Bytes(ByteRef32(x));
    Quarters(d, c, b, a);
    RevFour(a, b, c, d);
    assert x == a + b + c + d;
  }

  lemma Quarters(a: Byte, b: Byte, c: Byte, d: Byte)
    ensures var x := a + b + c + d; x[..8] == a && x[8..16] == b && x[16..24] == c && x[24..] == d
  {
  }

  lemma Reflect64(x: U64)
    ensures BitByteSwap64(x) == Rev(x)
  {
    hide ByteRef32, BitRef32;
    assert Shr(x, 32)[..32] == x[32..];
    var y := BitRef64(x);
    assert y == BitRef32(x[..32]) + BitRef32(x[32..]);
    assert Shr(y, 32)[..32] == y[32..];
    Reflect32(x[..32]);
    Reflect32(x[32..]);
    assert ByteRef64(y) == ByteRef32(y[32..]) + ByteRef32(y[..32]);
  }

  // ----- the 96-bit register -----

  class CrcReg {
    var h32: U32
    var l64: U64

    constructor (h: U32, l: U64)
      ensures h32 == h && l64 == l
    {
      h32, l64 := h, l;
    }
  }

  /** What the register stands for: the 96-bit polynomial modulo x^64 + poly. */
  function RegValue(poly: U64, h: U32, l: U64): U64 {
    Xor(TN(poly, 64, Widen(h, 64)), l)
  }

  method Reduce(poly: U64, n: nat) returns (data: U64)
    ensures data == TN(poly, n, poly)
  {
    data := poly;
    for i := 0 to n
      invariant TN(poly, n - i, data) == TN(poly, n, poly)
    {
      if data[63] {
        data := Xor(Shl(data, 1), poly);
      } else {
        data := Shl(data, 1);
      }
    }
  }

  /** Carry-less product of `x` and `b`, without reduction. */
  function Product(x: Word, b: U64): U64
    decreases |x|
  {
    if x == [] then Zeros(64) else Xor(Scale(x[0], b), Product(x[1..], Shl(b, 1)))
  }

  method Clmul32x32(a0: U64, b0: U64) returns (r: U64)
    ensures r == Product(a0[..32], b0)
  {
    r := Zeros(64);
    var a: U64, b: U64 := a0, b0;
    XorZero(Product(a0[..32], b0));
    for i := 0 to 32
      invariant a[..32 - i] == a0[i..32]
      invariant Xor(r, Product(a[..32 - i], b)) == Product(a0[..32], b0)
    {
      ghost var rest := a[..32 - i];
      XorAssoc(r, Scale(a[0], b), Product(rest[1..], Shl(b, 1)));
      XorZero(r);
      if a[0] {
        r := Xor(r, b);
      }
      a := Shr(a, 1);
      b := Shl(b, 1);
      assert a[..31 - i] == rest[1..];
    }
    XorZero(r);
  }

  method Clmul32x64(res: CrcReg, a: U32, b: U64)
    modifies res
    ensures res.h32 == Product(a, Shr(b, 32))[32..]
    ensures res.l64 == Xor(Product(a, And(b, Field(64, 0, 32))), Shl(Product(a, Shr(b, 32)), 32))
  {
    var x := Widen(a, 64);
    assert x[..32] == a;
    var x1 := Clmul32x32(x, And(b, Field(64, 0, 32)));
    var x2 := Clmul32x32(x, Shr(b, 32));
    res.h32 := Shr(x2, 32)[..32];
    res.l64 := Xor(x1, Shl(x2, 32));
  }

  /** The value of a product held as two overlapping halves: `hi` counts 32 places higher than `lo`. */
  function Halves(poly: U64, hi: U64, lo: U64): U64 {
    RegValue(poly, hi[32..], Xor(lo, Shl(hi, 32)))
  }

  lemma HalvesLinear(poly: U64, hi: U64, lo: U64, hi': U64, lo': U64)
    ensures Halves(poly, Xor(hi, hi'), Xor(lo, lo')) == Xor(Halves(poly, hi, lo), Halves(poly, hi', lo'))
  {
    hide TN, Xor, Shl, Widen;
    WidenXor(hi, hi');
    TNLinear(poly, 64, Widen(hi[32..], 64), Widen(hi'[32..], 64));
    XorShl(hi, hi', 32);
    XorSwap(lo, lo', Shl(hi, 32), Shl(hi', 32));
    XorSwap(TN(poly, 64, Widen(hi[32..], 64)), TN(poly, 64, Widen(hi'[32..], 64)),
            Xor(lo, Shl(hi, 32)), Xor(lo', Shl(hi', 32)));
  }

  lemma WidenXor(a: U64, b: U64)
    ensures Widen(Xor(a, b)[32..], 64) == Xor(Widen(a[32..], 64), Widen(b[32..], 64))
  {
  }

  /** Doubling both halves multiplies the value by x, as long as no top bit is lost. */
  lemma HalvesShl(poly: U64, hi: U64, lo: U64)
    requires !hi[63] && !lo[63]
    ensures Halves(poly, Shl(hi, 1), Shl(lo, 1)) == T(poly, Halves(poly, hi, lo))
  {
    hide TN;
    var h := Widen(hi[32..], 64);
    var l := Xor(lo, Shl(hi, 32));
    CarryOut(poly, hi);
    TNLinear(poly, 64, Scale(hi[31], One(64)), T(poly, h));
    TNScale(poly, 64, hi[31], One(64));
    PolyIsXn(poly);
    TNSucc(poly, 64, h);
    LowHalfShl(poly, hi, lo);
    TLinear(poly, TN(poly, 64, h), l);
    XorSwap(Scale(hi[31], poly), T(poly, TN(poly, 64, h)), Scale(hi[31], poly), T(poly, l));
    XorSelf(Scale(hi[31], poly));
    XorZero(Xor(T(poly, TN(poly, 64, h)), T(poly, l)));
  }

  lemma CarryOut(poly: U64, hi: U64)
    requires !hi[63]
    ensures Widen(Shl(hi, 1)[32..], 64) == Xor(Scale(hi[31], One(64)), T(poly, Widen(hi[32..], 64)))
  {
    var left, right := Widen(Shl(hi, 1)[32..], 64), Xor(Scale(hi[31], One(64)), T(poly, Widen(hi[32..], 64)));
    forall i | 0 <= i < 64
      ensures left[i] == right[i]
    {
    }
  }

  lemma LowHalfShl(poly: U64, hi: U64, lo: U64)
    requires !lo[63]
    ensures Xor(Shl(lo, 1), Shl(Shl(hi, 1), 32)) == Xor(Scale(hi[31], poly), T(poly, Xor(lo, Shl(hi, 32))))
  {
  }

  /** Reducing the two-halves product of `x` and `k` combines the set bits of `x` with powers of x times `k`. */
  lemma {:induction false} ProductReduces(poly: U64, x: Word, hi: U64, lo: U64)
    requires |x| <= 32
    requires forall i :: 64 - |x| <= i < 64 ==> !hi[i] && !lo[i]
    ensures Halves(poly, Product(x, hi), Product(x, lo)) == Combine(poly, x, Halves(poly, hi, lo))
    decreases |x|
  {
    hide Halves, Xor, T, Scale;
    if x == [] {
      HalvesZero(poly);
    } else {
      var hi', lo' := Shl(hi, 1), Shl(lo, 1);
      HalvesShl(poly, hi, lo);
      ProductReduces(poly, x[1..], hi', lo');
      HalvesLinear(poly, Scale(x[0], hi), Scale(x[0], lo), Product(x[1..], hi'), Product(x[1..], lo'));
      HalvesScale(poly, x[0], hi, lo);
    }
  }

  lemma HalvesZero(poly: U64)
    ensures Halves(poly, Zeros(64), Zeros(64)) == Zeros(64)
  {
    TNZero(poly, 64);
    assert Widen(Zeros(64)[32..], 64) == Zeros(64);
    assert Shl(Zeros(64), 32) == Zeros(64);
    XorZero(Zeros(64));
  }

  lemma HalvesScale(poly: U64, bit: bool, hi: U64, lo: U64)
    ensures Halves(poly, Scale(bit, hi), Scale(bit, lo)) == Scale(bit, Halves(poly, hi, lo))
  {
    HalvesZero(poly);
  }

  /** The folding constant: poly * x^32, that is x^96. */
  lemma FoldingConstant(poly: U64)
    ensures TN(poly, 32, poly) == TN(poly, 96, One(64))
  {
    PolyIsXn(poly);
    TNAdd(poly, 64, 32, One(64));
  }

  /** The 96-bit product of a 32-bit word with x^96 stands for the word times x^96. */
  lemma ClmulValue(poly: U64, x: U32, k: U64)
    requires k == TN(poly, 32, poly)
    ensures Halves(poly, Product(x, Shr(k, 32)), Product(x, And(k, Field(64, 0, 32))))
         == TN(poly, 96, Widen(x, 64))
  {
    hide TN, Halves, Product;
    var hi, lo := Shr(k, 32), And(k, Field(64, 0, 32));
    ProductReduces(poly, x, hi, lo);
    SplitValue(poly, k);
    FoldingConstant(poly);
    CombinePower(poly, x, 96);
  }

  lemma ClmulRegValue(poly: U64, x: U32, k: U64, h: U32, l: U64)
    requires k == TN(poly, 32, poly)
    requires h == Product(x, Shr(k, 32))[32..]
    requires l == Xor(Product(x, And(k, Field(64, 0, 32))), Shl(Product(x, Shr(k, 32)), 32))
    ensures RegValue(poly, h, l) == TN(poly, 96, Widen(x, 64))
  {
    hide TN, Xor, Shl, Shr, And, Field, Widen, Product, RegValue;
    ClmulValue(poly, x, k);
  }

  lemma SplitValue(poly: U64, k: U64)
    ensures Halves(poly, Shr(k, 32), And(k, Field(64, 0, 32))) == k
  {
    hide TN;
    assert Widen(Shr(k, 32)[32..], 64) == Zeros(64);
    TNZero(poly, 64);
    assert Xor(And(k, Field(64, 0, 32)), Shl(Shr(k, 32), 32)) == k;
    XorZero(k);
  }

  /** Moving a 64-bit word up by 32 places in the register multiplies it by x^32. */
  lemma ShiftedValue(poly: U64, l: U64)
    ensures RegValue(poly, Shr(l, 32)[..32], Shl(l, 32)) == TN(poly, 32, l)
  {
    hide TN;
    var h := Widen(Shr(l, 32)[..32], 64);
    TNAdd(poly, 32, 32, h);
    TNSmall(poly, 32, h);
    var low := And(l, Field(64, 0, 32));
    TNSmall(poly, 32, low);
    assert Shl(low, 32) == Shl(l, 32);
    assert Xor(Shl(h, 32), low) == l;
    TNLinear(poly, 32, Shl(h, 32), low);
  }

  /** One folding step: the register value is multiplied by x^32 and the word joins at x^96. */
  method ProcDword(k: U64, crcAccum: CrcReg, data: U32, ghost poly: U64)
    requires k == TN(poly, 32, poly)
    modifies crcAccum
    ensures RegValue(poly, crcAccum.h32, crcAccum.l64)
         == TN(poly, 32, Xor(TN(poly, 64, Widen(data, 64)), old(RegValue(poly, crcAccum.h32, crcAccum.l64))))
  {
    hide TN, Xor, Shl, Shr, And, Field, Widen, Product, RegValue;
    ghost var h0, l0 := crcAccum.h32, crcAccum.l64;
    var x := Xor(data, crcAccum.h32);
    var tmp := new CrcReg(Zeros(32), Zeros(64));
    Clmul32x64(tmp, x, k);
    ghost var th, tl := tmp.h32, tmp.l64;
    crcAccum.h32 := Xor(tmp.h32, Shr(crcAccum.l64, 32)[..32]);
    crcAccum.l64 := Xor(tmp.l64, Shl(crcAccum.l64, 32));
    ClmulRegValue(poly, x, k, th, tl);
    FoldValue(poly, data, h0, l0, th, tl);
  }

  lemma FoldValue(poly: U64, data: U32, h: U32, l: U64, th: U32, tl: U64)
    requires RegValue(poly, th, tl) == TN(poly, 96, Widen(Xor(data, h), 64))
    ensures RegValue(poly, Xor(th, Shr(l, 32)[..32]), Xor(tl, Shl(l, 32)))
         == TN(poly, 32, Xor(TN(poly, 64, Widen(data, 64)), RegValue(poly, h, l)))
  {
    hide TN, Xor, Shl, Shr, Widen, RegValue;
    var d, hw := Widen(data, 64), Widen(h, 64);
    RegLinear(poly, th, tl, Shr(l, 32)[..32], Shl(l, 32));
    ShiftedValue(poly, l);
    WidenXor32(data, h);
    TNAdd(poly, 64, 32, Xor(d, hw));
    TNLinear(poly, 64, d, hw);
    TNLinear(poly, 32, Xor(TN(poly, 64, d), TN(poly, 64, hw)), l);
    XorAssoc(TN(poly, 64, d), TN(poly, 64, hw), l);
    assert RegValue(poly, h, l) == Xor(TN(poly, 64, hw), l) by { RegUnfold(poly, h, l); }
  }

  lemma RegUnfold(poly: U64, h: U32, l: U64)
    ensures RegValue(poly, h, l) == Xor(TN(poly, 64, Widen(h, 64)), l)
  {
  }

  lemma WidenXor32(a: U32, b: U32)
    ensures Widen(Xor(a, b), 64) == Xor(Widen(a, 64), Widen(b, 64))
  {
  }

  lemma RegLinear(poly: U64, h: U32, l: U64, h': U32, l': U64)
    ensures RegValue(poly, Xor(h, h'), Xor(l, l')) == Xor(RegValue(poly, h, l), RegValue(poly, h', l'))
  {
    hide TN, Xor, Widen;
    WidenXor32(h, h');
    TNLinear(poly, 64, Widen(h, 64), Widen(h', 64));
    XorSwap(TN(poly, 64, Widen(h, 64)), TN(poly, 64, Widen(h', 64)), l, l');
  }

  // ----- the last bytes -----

  /** Clocking the register `n` times while the bits of `l` enter at the low end, high bit first. */
  function Feed(poly: U64, h: U64, l: U32, n: nat): U64
    decreases n
  {
    if n == 0 then h
    else Feed(poly, Xor(T(poly, h), Scale(l[31], One(64))), Shl(l, 1), n - 1)
  }

  method FinalReduce(poly: U64, h0: U64, l0: U32, n: nat) returns (h: U64)
    ensures h == Feed(poly, h0, l0, n)
  {
    h := h0;
    var l: U32 := l0;
    for i := 0 to n
      invariant Feed(poly, h, l, n - i) == Feed(poly, h0, l0, n)
    {
      FeedStep(poly, h, l);
      var p: U64 := if h[63] then poly else Zeros(64);
      h := Xor(Xor(p, Shl(h, 1)), Widen(Shr(l, 31), 64));
      l := Shl(l, 1);
    }
  }

  lemma FeedStep(poly: U64, h: U64, l: U32)
    ensures Xor(Xor(if h[63] then poly else Zeros(64), Shl(h, 1)), Widen(Shr(l, 31), 64))
         == Xor(T(poly, h), Scale(l[31], One(64)))
  {
    var left := Xor(Xor(if h[63] then poly else Zeros(64), Shl(h, 1)), Widen(Shr(l, 31), 64));
    var right := Xor(T(poly, h), Scale(l[31], One(64)));
    forall i | 0 <= i < 64
      ensures left[i] == right[i]
    {
    }
  }

  /** Once all the low bits have entered, they have been added where they belong. */
  lemma {:induction false} FeedValue(poly: U64, h: U64, u: Word, n: nat)
    requires |u| <= 32 && |u| <= n
    ensures Feed(poly, h, Zeros(32 - |u|) + u, n)
         == TN(poly, n - |u|, Xor(TN(poly, |u|, h), Widen(u, 64)))
    decreases n
  {
    hide T, TN, Xor, Shl, Widen, Zeros, Scale;
    if |u| > 0 {
      var m := |u| - 1;
      var bit := Scale(u[m], One(64));
      FeedInput(u);
      FeedValue(poly, Xor(T(poly, h), bit), u[..m], n - 1);
      TNLinear(poly, m, T(poly, h), bit);
      TNSucc(poly, m, h);
      XorAssoc(TN(poly, m + 1, h), TN(poly, m, bit), Widen(u[..m], 64));
      TopBit(poly, u);
    } else {
      FeedNothing(poly, h, u, n);
    }
  }

  lemma FeedInput(u: Word)
    requires 0 < |u| <= 32
    ensures (Zeros(32 - |u|) + u)[31] == u[|u| - 1]
    ensures Shl(Zeros(32 - |u|) + u, 1) == Zeros(33 - |u|) + u[..|u| - 1]
  {
  }

  lemma TopBit(poly: U64, u: Word)
    requires 0 < |u| <= 32
    ensures Xor(TN(poly, |u| - 1, Scale(u[|u| - 1], One(64))), Widen(u[..|u| - 1], 64)) == Widen(u, 64)
  {
    hide TN;
    TNSmall(poly, |u| - 1, Scale(u[|u| - 1], One(64)));
  }

  lemma {:induction false} FeedNothing(poly: U64, h: U64, u: Word, n: nat)
    requires u == []
    ensures Feed(poly, h, Zeros(32) + u, n) == TN(poly, n, Xor(TN(poly, 0, h), Widen(u, 64)))
    decreases n
  {
    hide T;
    assert Zeros(32) + u == Zeros(32);
    assert Widen(u, 64) == Zeros(64);
    XorZero(h);
    if n > 0 {
      assert Shl(Zeros(32), 1) == Zeros(32);
      XorZero(T(poly, h));
      FeedNothing(poly, T(poly, h), u, n - 1);
      XorZero(T(poly, h));
    }
  }

  /** `b` followed by zero bytes up to `n` bytes. */
  function Padded(b: seq<Byte>, n: nat): (r: seq<Byte>)
    requires |b| <= n
    ensures |r| == n
  {
    b + seq(n - |b|, i => Zeros(8))
  }

  lemma StreamPadded(be: bool, b: seq<Byte>, n: nat)
    requires |b| <= n
    ensures Stream(be, Padded(b, n)) == Stream(be, b) + Zeros(8 * (n - |b|))
  {
    var z := seq<Byte>(n - |b|, i => Zeros(8));
    StreamConcat(be, b, z);
    assert Stream(be, z) == Zeros(8 * (n - |b|));
  }

  /** A little-endian load is the low-bit-first stream of its bytes. Byte swapped and, for the
      big-endian flag, bit reflected, its top bit is the first message bit. */
  lemma MessageWord(bigEnd: bool, b: seq<Byte>)
    requires |b| == 4
    ensures var w := ByteRef32(Stream(false, b));
            (if bigEnd then BitRef32(w) else w) == Rev(Stream(!bigEnd, b))
  {
    hide ByteRef32, BitRef32, Stream, Rev;
    var x: U32 := Stream(false, b);
    if bigEnd {
      Reflect32(x);
    } else {
      StreamFour(false, b);
      StreamFour(true, b);
      ByteRef32Bytes(x);
      Parts(b[0], b[1], b[2], b[3]);
      FourReversed(b[0], b[1], b[2], b[3]);
    }
  }

  lemma Parts(b0: Word, b1: Word, b2: Word, b3: Word)
    requires |b0| == |b1| == |b2| == |b3| == 8
    ensures var x := b0 + b1 + b2 + b3;
            x[24..] == b3 && x[16..24] == b2 && x[8..16] == b1 && x[..8] == b0
  {
  }

  lemma FourReversed(b0: Word, b1: Word, b2: Word, b3: Word)
    ensures Rev(Rev(b0) + Rev(b1) + Rev(b2) + Rev(b3)) == b3 + b2 + b1 + b0
  {
    hide Rev;
    RevConcat(Rev(b0) + Rev(b1) + Rev(b2), Rev(b3));
    RevConcat(Rev(b0) + Rev(b1), Rev(b2));
    RevConcat(Rev(b0), Rev(b1));
    RevRev(b0);
    RevRev(b1);
    RevRev(b2);
    RevRev(b3);
    assert b3 + (b2 + (b1 + b0)) == b3 + b2 + b1 + b0;
  }

  /** Loads the next up to four message bytes, missing ones as zero. */
  method NextWord(src: seq<Byte>, at: nat, avail: nat, bigEnd: bool) returns (data: U32)
    requires at + avail <= |src|
    ensures data == Rev(Stream(!bigEnd, Padded(src[at..at + if avail < 4 then avail else 4], 4)))
  {
    hide ByteRef32, BitRef32, Stream, Padded, Widen, Or, Shl, Rev;
    var count := if avail < 4 then avail else 4;
    ghost var bytes := src[at..at + count];
    if avail < 4 {
      data := Zeros(32);
      NoBytes();
      for idx := 0 to avail
        invariant |Stream(false, bytes[..idx])| <= 24 && data == Widen(Stream(false, bytes[..idx]), 32)
      {
        OrNext(bytes[..idx], bytes[idx]);
        assert bytes[..idx] + [bytes[idx]] == bytes[..idx + 1];
        data := Or(data, Shl(Widen(src[at + idx], 32), 8 * idx));
      }
      assert bytes[..avail] == bytes;
    } else {
      data := Stream(false, src[at..at + 4]);
      WidenFull(data);
    }
    WidenedStream(bytes);
    MessageWord(bigEnd, Padded(bytes, 4));
    data := ByteRef32(data);
    if bigEnd { data := BitRef32(data); }
  }

  lemma NoBytes()
    ensures Zeros(32) == Widen(Stream(false, []), 32)
  {
  }

  lemma WidenedStream(b: seq<Byte>)
    requires |b| <= 4
    ensures Widen(Stream(false, b), 32) == Stream(false, Padded(b, 4))
  {
    StreamPadded(false, b, 4);
  }

  lemma OrNext(b: seq<Byte>, next: Byte)
    requires |b| < 4
    ensures Or(Widen(Stream(false, b), 32), Shl(Widen(next, 32), 8 * |b|))
         == Widen(Stream(false, b + [next]), 32)
  {
    hide Stream;
    StreamConcat(false, b, [next]);
    StreamOne(false, next);
    OrAbove(Stream(false, b), next, 32);
  }

  // ----- the initial value under the inversion flag -----

  /** All bits at or above the lowest set bit of `poly`. */
  function Smeared(poly: U64): U64 {
    seq(64, k requires 0 <= k < 64 => exists j :: 0 <= j <= k && poly[j])
  }

  /** Bit k of `w` tells whether `poly` has a set bit among the `r` positions ending at k. */
  ghost predicate Covers(w: U64, poly: U64, r: nat) {
    forall k :: 0 <= k < 64 ==> w[k] == exists j :: k - r < j <= k && 0 <= j && poly[j]
  }

  lemma CoversDouble(w: U64, poly: U64, r: nat)
    requires r <= 32 && Covers(w, poly, r)
    ensures Covers(Or(w, Shl(w, r)), poly, 2 * r)
  {
    var v := Or(w, Shl(w, r));
    forall k | 0 <= k < 64
      ensures v[k] == exists j :: k - 2 * r < j <= k && 0 <= j && poly[j]
    {
      assert v[k] == (w[k] || (r <= k && w[k - r]));
    }
  }

  method InitialCrc(poly: U64, invert: bool) returns (init: U64)
    ensures init == if invert then Smeared(poly) else Zeros(64)
  {
    init := Zeros(64);
    if invert {
      init := poly;
      assert Covers(init, poly, 1);
      CoversDouble(init, poly, 1);
      init := Or(init, Shl(init, 1));
      CoversDouble(init, poly, 2);
      init := Or(init, Shl(init, 2));
      CoversDouble(init, poly, 4);
      init := Or(init, Shl(init, 4));
      CoversDouble(init, poly, 8);
      init := Or(init, Shl(init, 8));
      CoversDouble(init, poly, 16);
      init := Or(init, Shl(init, 16));
      CoversDouble(init, poly, 32);
      init := Or(init, Shl(init, 32));
      assert forall k :: 0 <= k < 64 ==> init[k] == Smeared(poly)[k];
    }
  }

  // ----- the whole routine -----

  /** The bit-serial CRC of the message, with the two flags. */
  function BitSerialCrc(src: seq<Byte>, poly: U64, bigEnd: bool, invert: bool): U64 {
    var init := if invert then Smeared(poly) else Zeros(64);
    var crc := Xor(Serial(poly, init, Stream(!bigEnd, src)), init);
    if bigEnd then Rev(crc) else crc
  }

  /** Clocking in the low word by 32 steps completes the reduction of the register. */
  lemma HighValue(poly: U64, h: U32, l: U64)
    ensures Xor(TN(poly, 32, l[32..] + h), Widen(l[..32], 64)) == RegValue(poly, h, l)
  {
    hide TN;
    var top, mid := Widen(h, 64), Widen(l[32..], 64);
    assert l[32..] + h == Xor(Shl(top, 32), mid);
    TNLinear(poly, 32, Shl(top, 32), mid);
    TNSmall(poly, 32, top);
    TNAdd(poly, 32, 32, top);
    TNSmall(poly, 32, mid);
    XorAssoc(TN(poly, 64, top), Shl(mid, 32), Widen(l[..32], 64));
    assert Xor(Shl(mid, 32), Widen(l[..32], 64)) == l;
  }

  /** With at least 32 bits to go, clocking the register with the pending message bits added
      ends in the serial state; no division by x^32 is needed. */
  lemma FinishLong(poly: U64, h: U32, l: U64, state: U64, message: seq<bool>)
    requires 32 <= |message| <= 64
    requires RegValue(poly, h, l) == TN(poly, 32, state)
    ensures Feed(poly, Xor(l[32..] + h, AtTop(message, 64)), l[..32], |message|)
         == Serial(poly, state, message)
  {
    hide TN, Xor, Rev, AtTop, Feed, Serial, RegValue, Widen;
    var n := |message|;
    var d: U64 := AtTop(message, 64);
    var high: U64, low := l[32..] + h, l[..32];
    FeedAll(poly, Xor(high, d), low, n);
    TNLinear(poly, 32, high, d);
    HighValue(poly, h, l);
    XorSwap(TN(poly, 32, high), TN(poly, 32, d), Widen(low, 64), Zeros(64));
    XorZero(TN(poly, 32, d));
    XorZero(Widen(low, 64));
    TNLinear(poly, 32, state, d);
    TNAdd(poly, 32, n - 32, Xor(state, d));
    SerialFold(poly, state, message);
  }

  lemma FeedAll(poly: U64, h: U64, l: U32, n: nat)
    requires 32 <= n
    ensures Feed(poly, h, l, n) == TN(poly, n - 32, Xor(TN(poly, 32, h), Widen(l, 64)))
  {
    hide Feed, TN, Xor, Widen;
    FeedValue(poly, h, l, n);
    assert Zeros(0) + l == l;
  }

  /** With nothing folded the low word is empty and any number of bits may remain. */
  lemma FinishShort(poly: U64, state: U64, message: seq<bool>)
    requires |message| <= 64
    ensures Feed(poly, Xor(state, AtTop(message, 64)), Zeros(32), |message|)
         == Serial(poly, state, message)
  {
    hide TN, Xor, Rev, AtTop, Feed, Serial, Widen;
    var d: U64 := AtTop(message, 64);
    SerialFold(poly, state, message);
    FeedZero(poly, Xor(state, d), |message|);
  }

  lemma FeedZero(poly: U64, h: U64, n: nat)
    ensures Feed(poly, h, Zeros(32), n) == TN(poly, n, h)
  {
    FeedNothing(poly, h, [], n);
    assert Zeros(32) + [] == Zeros(32);
    assert Widen([], 64) == Zeros(64);
    XorZero(h);
  }

  /** The register starts as the initial value times x^32 and each folded word advances the serial state. */
  lemma FoldedState(poly: U64, state: U64, word: seq<bool>)
    requires |word| == 32
    ensures TN(poly, 32, Xor(TN(poly, 64, Widen(Rev(word), 64)), TN(poly, 32, state)))
         == TN(poly, 32, Serial(poly, state, word))
  {
    hide TN, Xor, Rev, AtTop, Serial, Shl, Widen;
    var d := Widen(Rev(word), 64);
    SerialFold(poly, state, word);
    TopWord(word);
    TNHalf(poly, Rev(word));
    TNLinear(poly, 32, Shl(d, 32), state);
    XorComm(Shl(d, 32), state);
  }

  lemma TopWord(word: seq<bool>)
    requires |word| == 32
    ensures AtTop(word, 64) == Shl(Widen(Rev(word), 64), 32)
  {
  }

  lemma TNHalf(poly: U64, x: U32)
    ensures TN(poly, 64, Widen(x, 64)) == TN(poly, 32, Shl(Widen(x, 64), 32))
  {
    hide TN;
    TNSmall(poly, 32, Widen(x, 64));
    TNAdd(poly, 32, 32, Widen(x, 64));
  }

  /** The folding loop: all words but the last five to eight bytes. */
  method FoldWords(src: seq<Byte>, poly: U64, polyRed: U64, init: U64, bigEnd: bool, crcAccum: CrcReg) returns (i: nat)
    requires polyRed == TN(poly, 32, poly)
    requires crcAccum.h32 == Shr(init, 32)[..32] && crcAccum.l64 == Shl(init, 32)
    modifies crcAccum
    ensures if |src| <= 8 then i == 0 && crcAccum.h32 == old(crcAccum.h32) && crcAccum.l64 == old(crcAccum.l64)
            else 5 <= |src| - i <= 8
    ensures RegValue(poly, crcAccum.h32, crcAccum.l64)
         == TN(poly, 32, Serial(poly, init, Stream(!bigEnd, src[..i])))
  {
    hide TN, Stream, RegValue, Shr, Shl, Xor, Rev, Widen;
    i := 0;
    ShiftedValue(poly, init);
    assert Stream(!bigEnd, src[..0]) == [];
    if |src| > 8 {
      while i < |src| - 8
        invariant i <= |src| - 5
        invariant RegValue(poly, crcAccum.h32, crcAccum.l64)
               == TN(poly, 32, Serial(poly, init, Stream(!bigEnd, src[..i])))
      {
        var data := NextWord(src, i, 4, bigEnd);
        ProcDword(polyRed, crcAccum, data, poly);
        AbsorbWord(src, i, poly, init, bigEnd, data);
        i := i + 4;
      }
    }
  }

  lemma AbsorbWord(src: seq<Byte>, i: nat, poly: U64, init: U64, bigEnd: bool, data: U32)
    requires i + 4 <= |src|
    requires data == Rev(Stream(!bigEnd, Padded(src[i..i + 4], 4)))
    ensures TN(poly, 32, Xor(TN(poly, 64, Widen(data, 64)),
                             TN(poly, 32, Serial(poly, init, Stream(!bigEnd, src[..i])))))
         == TN(poly, 32, Serial(poly, init, Stream(!bigEnd, src[..i + 4])))
  {
    hide TN, Stream, Xor, Rev, Widen, Serial;
    var b := src[i..i + 4];
    assert Padded(b, 4) == b;
    assert src[..i + 4] == src[..i] + b;
    StreamConcat(!bigEnd, src[..i], b);
    SerialConcat(poly, init, Stream(!bigEnd, src[..i]), Stream(!bigEnd, b));
    FoldedState(poly, Serial(poly, init, Stream(!bigEnd, src[..i])), Stream(!bigEnd, b));
  }

  /** Adds the last one to eight message bytes to the top of the register. */
  method AbsorbTail(src: seq<Byte>, i: nat, bigEnd: bool, high: U64) returns (crcHigh: U64)
    requires i < |src| <= i + 8
    ensures crcHigh == Xor(high, AtTop(Stream(!bigEnd, src[i..]), 64))
  {
    hide Stream, Xor, Rev, AtTop, Widen, Shl, Padded;
    var len := |src| - i;
    var data0 := NextWord(src, i, len, bigEnd);
    crcHigh := Xor(high, Shl(Widen(data0, 64), 32));
    ghost var data1 := Zeros(32);
    if len > 4 {
      var data := NextWord(src, i + 4, len - 4, bigEnd);
      crcHigh := Xor(crcHigh, Widen(data, 64));
      data1 := data;
      TwoWords(src[i..], bigEnd);
      assert src[i..][..4] == src[i..i + 4] && src[i..][4..] == src[i + 4..i + len];
    } else {
      OneWord(src[i..], bigEnd);
      assert src[i..] == src[i..i + len];
    }
    JoinWords(high, data0, data1);
  }

  lemma JoinWords(high: U64, data0: U32, data1: U32)
    ensures Xor(Xor(high, Shl(Widen(data0, 64), 32)), Widen(data1, 64)) == Xor(high, data1 + data0)
    ensures data1 == Zeros(32) ==> Xor(high, Shl(Widen(data0, 64), 32)) == Xor(high, data1 + data0)
  {
  }

  lemma TwoWords(b: seq<Byte>, bigEnd: bool)
    requires 4 < |b| <= 8
    ensures AtTop(Stream(!bigEnd, b), 64)
         == Rev(Stream(!bigEnd, Padded(b[4..], 4))) + Rev(Stream(!bigEnd, Padded(b[..4], 4)))
  {
    hide Stream, Rev;
    StreamPadded(!bigEnd, b, 8);
    assert Padded(b, 8) == Padded(b[..4], 4) + Padded(b[4..], 4);
    StreamConcat(!bigEnd, Padded(b[..4], 4), Padded(b[4..], 4));
    RevConcat(Stream(!bigEnd, Padded(b[..4], 4)), Stream(!bigEnd, Padded(b[4..], 4)));
  }

  lemma OneWord(b: seq<Byte>, bigEnd: bool)
    requires |b| <= 4
    ensures AtTop(Stream(!bigEnd, b), 64)
         == Zeros(32) + Rev(Stream(!bigEnd, Padded(b, 4)))
  {
    hide Stream;
    var m := Stream(!bigEnd, b);
    StreamPadded(!bigEnd, b, 4);
    assert m + Zeros(64 - |m|) == (m + Zeros(32 - |m|)) + Zeros(32);
  }

  method RefCrc64(src: seq<Byte>, poly: U64, bigEnd: bool, invert: bool) returns (r: CrcResult)
    ensures src == [] ==> r == SizeErr
    ensures src != [] && IsZero(poly) ==> r == BadPolynomial
    ensures src != [] && !IsZero(poly) ==> r == Crc(BitSerialCrc(src, poly, bigEnd, invert))
  {
    hide TN, Stream, RegValue, Xor, Rev, AtTop, Widen, Feed, Serial, Smeared, BitByteSwap64;
    if |src| == 0 { return SizeErr; }
    if IsZero(poly) { return BadPolynomial; }
    var polyRed := Reduce(poly, 32);
    var init := InitialCrc(poly, invert);
    var crcAccum := new CrcReg(Shr(init, 32)[..32], Shl(init, 32));
    var i := FoldWords(src, poly, polyRed, init, bigEnd, crcAccum);
    var h, l := crcAccum.h32, crcAccum.l64;
    var crcHigh: U64 := Or(Shl(Widen(h, 64), 32), Shr(l, 32));
    var crcLow: U32 := l[..32];
    var len := |src| - i;
    crcHigh := AbsorbTail(src, i, bigEnd, crcHigh);
    var crc := FinalReduce(poly, crcHigh, crcLow, 8 * len);
    FinishState(src, i, poly, init, bigEnd, h, l);
    crc := Xor(crc, init);
    if bigEnd {
      Reflect64(crc);
      crc := BitByteSwap64(crc);
    }
    r := Crc(crc);
  }

  lemma FinishState(src: seq<Byte>, i: nat, poly: U64, init: U64, bigEnd: bool, h: U32, l: U64)
    requires i < |src| <= i + 8
    requires if i == 0 then h == Shr(init, 32)[..32] && l == Shl(init, 32) else 5 <= |src| - i
    requires RegValue(poly, h, l) == TN(poly, 32, Serial(poly, init, Stream(!bigEnd, src[..i])))
    ensures Feed(poly, Xor(Or(Shl(Widen(h, 64), 32), Shr(l, 32)), AtTop(Stream(!bigEnd, src[i..]), 64)),
                 l[..32], 8 * (|src| - i))
         == Serial(poly, init, Stream(!bigEnd, src))
  {
    hide TN, Stream, RegValue, Xor, Rev, AtTop, Feed, Serial;
    var m := Stream(!bigEnd, src[i..]);
    assert src == src[..i] + src[i..];
    StreamConcat(!bigEnd, src[..i], src[i..]);
    SerialConcat(poly, init, Stream(!bigEnd, src[..i]), m);
    HighWord(h, l);
    if i == 0 {
      assert l[32..] + h == init && l[..32] == Zeros(32);
      assert src[i..] == src;
      FinishShort(poly, init, m);
    } else {
      FinishLong(poly, h, l, Serial(poly, init, Stream(!bigEnd, src[..i])), m);
    }
  }

  lemma HighWord(h: U32, l: U64)
    ensures Or(Shl(Widen(h, 64), 32), Shr(l, 32)) == l[32..] + h
  {
  }

  // ----- consequences for callers -----

  /** A CRC of any width: the inversion flag means all ones before and after. */
  function NarrowCrc(src: seq<Byte>, p: Word, invert: bool): (w: Word)
    requires |p| > 0
    ensures |w| == |p|
  {
    var init := if invert then Ones(|p|) else Zeros(|p|);
    Xor(Serial(p, init, Stream(true, src)), init)
  }

  /** A polynomial with t trailing zeros computes the (64 - t)-bit CRC, left-aligned. */
  lemma NarrowPolynomial(src: seq<Byte>, poly: U64, t: nat, invert: bool)
    requires t < 64 && poly[t] && IsZero(poly[..t])
    ensures BitSerialCrc(src, poly, false, invert) == Zeros(t) + NarrowCrc(src, poly[t..], invert)
  {
    hide Stream, Serial;
    var p := poly[t..];
    assert poly == Zeros(t) + p by { assert poly[..t] == Zeros(t); }
    assert Smeared(poly) == Zeros(t) + Ones(64 - t);
    assert Zeros(64) == Zeros(t) + Zeros(64 - t);
    var init := if invert then Ones(64 - t) else Zeros(64 - t);
    SerialNarrow(t, p, init, Stream(true, src));
    var s := Serial(p, init, Stream(true, src));
    assert Xor(Zeros(t) + s, Zeros(t) + init) == Zeros(t) + Xor(s, init);
  }

  function XorBytes(a: seq<Byte>, b: seq<Byte>): (c: seq<Byte>)
    requires |a| == |b|
    ensures |c| == |a|
  {
    seq(|a|, i requires 0 <= i < |a| => Xor(a[i], b[i]))
  }

  /** Without inversion the CRC is linear over messages of one length. */
  lemma CrcLinear(a: seq<Byte>, b: seq<Byte>, poly: U64, bigEnd: bool)
    requires |a| == |b|
    ensures BitSerialCrc(XorBytes(a, b), poly, bigEnd, false)
         == Xor(BitSerialCrc(a, poly, bigEnd, false), BitSerialCrc(b, poly, bigEnd, false))
  {
    hide Serial;
    var m, n := Stream(!bigEnd, a), Stream(!bigEnd, b);
    assert Stream(!bigEnd, XorBytes(a, b)) == Xor(m, n);
    SerialLinear(poly, Zeros(64), Zeros(64), m, n);
    XorZero(Zeros(64));
    XorZero(Serial(poly, Zeros(64), m));
    XorZero(Serial(poly, Zeros(64), n));
    XorZero(Serial(poly, Zeros(64), Xor(m, n)));
    RevXor(Serial(poly, Zeros(64), m), Serial(poly, Zeros(64), n));
  }

  /** Every byte with its bits in the opposite order. */
  function MirroredBytes(src: seq<Byte>): (r: seq<Byte>)
    ensures |r| == |src|
  {
    seq(|src|, i requires 0 <= i < |src| => Rev(src[i]))
  }

  lemma MirroredStream(src: seq<Byte>)
    ensures Stream(true, MirroredBytes(src)) == Stream(false, src)
  {
  }

  /** The big-endian flag mirrors both ends: the CRC is the mirror of the plain CRC over the mirrored bytes. */
  lemma BigEndianMirrors(src: seq<Byte>, poly: U64, invert: bool)
    ensures BitSerialCrc(src, poly, true, invert) == Rev(BitSerialCrc(MirroredBytes(src), poly, false, invert))
  {
    hide Stream, Serial, Smeared, MirroredBytes, Xor, Rev;
    MirroredStream(src);
  }

  /** It is the CRC of the register that shifts down, with the mirrored polynomial: the message enters low bit first,
      and the inversion flag means ones in the width of the polynomial before and after. */
  lemma BigEndianIsReflected(src: seq<Byte>, poly: U64, t: nat, invert: bool)
    requires t < 64 && poly[t] && IsZero(poly[..t])
    ensures var init: U64 := if invert then Ones(64 - t) + Zeros(t) else Zeros(64);
        BitSerialCrc(src, poly, true, invert) == Xor(ReflectedSerial(Rev(poly), init, Stream(false, src)), init)
  {
    hide Stream, Serial, ReflectedSerial, Xor, Smeared;
    var init := if invert then Smeared(poly) else Zeros(64);
    MirroredStart(poly, t);
    ReflectedIsMirrored(poly, init, Stream(false, src));
    RevXor(Serial(poly, init, Stream(false, src)), init);
  }

  lemma MirroredStart(poly: U64, t: nat)
    requires t < 64 && poly[t] && IsZero(poly[..t])
    ensures Rev(Smeared(poly)) == Ones(64 - t) + Zeros(t) && Rev(Zeros(64)) == Zeros(64)
  {
    assert forall i :: 0 <= i < t ==> !poly[..t][i];
    assert Smeared(poly) == Zeros(t) + Ones(64 - t);
  }

  /** Without inversion the CRC is the remainder of the message polynomial times x^64, divided by x^64 + poly. The
      first bit of the stream is the highest coefficient; the big-endian flag mirrors the remainder. */
  lemma CrcIsRemainder(src: seq<Byte>, poly: U64, bigEnd: bool) returns (q: Word)
    ensures |q| == 8 * |src|
    ensures Divided(poly, Zeros(64) + Rev(Stream(!bigEnd, src)), q,
                    InOrder(bigEnd, BitSerialCrc(src, poly, bigEnd, false)))
  {
    hide Stream, Serial, Divided, Xor, Rev;
    var m := Stream(!bigEnd, src);
    var crc := Serial(poly, Zeros(64), m);
    q := SerialIsRemainder(poly, Zeros(64), m);
    assert |q| == |m| by { DividedLength(poly, m, q, crc); }
    PlainDividend(m);
    XorZero(crc);
    RevRev(crc);
  }

  lemma DividedLength(poly: U64, m: seq<bool>, q: Word, r: Word)
    requires Divided(poly, Dividend(Zeros(64), m), q, r)
    ensures |q| == |m|
  {
  }

  lemma PlainDividend(m: seq<bool>)
    ensures Dividend(Zeros(64), m) == Zeros(64) + Rev(m)
  {
    hide Rev;
    assert Zeros(|m|) + Zeros(64) == Zeros(|m| + 64);
    XorZero(Zeros(64) + Rev(m));
  }

  /** And there is no other: the quotient and the CRC are the only words that divide the message so. */
  lemma CrcIsOnlyRemainder(src: seq<Byte>, poly: U64, bigEnd: bool, q: Word, r: U64)
    requires Divided(poly, Zeros(64) + Rev(Stream(!bigEnd, src)), q, InOrder(bigEnd, r))
    ensures r == BitSerialCrc(src, poly, bigEnd, false)
  {
    hide Stream, Divided, BitSerialCrc, Rev;
    var p := CrcIsRemainder(src, poly, bigEnd);
    var crc := BitSerialCrc(src, poly, bigEnd, false);
    RemainderIsUnique(poly, Zeros(64) + Rev(Stream(!bigEnd, src)), p, InOrder(bigEnd, crc), q, InOrder(bigEnd, r));
    RevRev(r);
    RevRev(crc);
  }
}
