/** The shift register of a CRC of any width as arithmetic modulo a polynomial over GF(2).
    A polynomial of degree below n is an n-bit word; the modulus is x^n + poly. */
module Gf2 {
  import opened Words

  /** One step of the register: multiplication by x. */
  function T(poly: Word, h: Word): (r: Word)
    requires |h| == |poly| > 0
    ensures |r| == |poly|
  {
    if h[|h| - 1] then Xor(Shl(h, 1), poly) else Shl(h, 1)
  }

  /** `n` steps of the register: multiplication by x^n. */
  function TN(poly: Word, n: nat, h: Word): (r: Word)
    requires |h| == |poly| > 0
    ensures |r| == |poly|
    decreases n
  {
    if n == 0 then h else TN(poly, n - 1, T(poly, h))
  }

  /** The bit-serial CRC: the register takes the message bits one at a time. */
  function Serial(poly: Word, state: Word, message: seq<bool>): (r: Word)
    requires |state| == |poly| > 0
    ensures |r| == |poly|
    decreases |message|
  {
    if message == [] then state
    else Serial(poly, SerialStep(poly, state, message[0]), message[1..])
  }

  function SerialStep(poly: Word, state: Word, bit: bool): (r: Word)
    requires |state| == |poly| > 0
    ensures |r| == |poly|
  {
    if state[|state| - 1] != bit then Xor(Shl(state, 1), poly) else Shl(state, 1)
  }

  lemma TLinear(poly: Word, a: Word, b: Word)
    requires |a| == |b| == |poly| > 0
    ensures T(poly, Xor(a, b)) == Xor(T(poly, a), T(poly, b))
  {
    XorShl(a, b, 1);
  }

  lemma {:induction false} TNLinear(poly: Word, n: nat, a: Word, b: Word)
    requires |a| == |b| == |poly| > 0
    ensures TN(poly, n, Xor(a, b)) == Xor(TN(poly, n, a), TN(poly, n, b))
    decreases n
  {
    hide Xor, T;
    if n > 0 {
      TLinear(poly, a, b);
      TNLinear(poly, n - 1, T(poly, a), T(poly, b));
    }
  }

  lemma {:induction false} TNZero(poly: Word, n: nat)
    requires |poly| > 0
    ensures TN(poly, n, Zeros(|poly|)) == Zeros(|poly|)
    decreases n
  {
    if n > 0 {
      assert T(poly, Zeros(|poly|)) == Zeros(|poly|);
      TNZero(poly, n - 1);
    }
  }

  lemma {:induction false} TNAdd(poly: Word, m: nat, n: nat, h: Word)
    requires |h| == |poly| > 0
    ensures TN(poly, m + n, h) == TN(poly, n, TN(poly, m, h))
    decreases m
  {
    hide T;
    if m > 0 { TNAdd(poly, m - 1, n, T(poly, h)); }
  }

  /** While the top bits are clear the register only shifts. */
  lemma {:induction false} TNSmall(poly: Word, n: nat, h: Word)
    requires |h| == |poly| > 0 && n <= |h|
    requires forall i :: |h| - n <= i < |h| ==> !h[i]
    ensures TN(poly, n, h) == Shl(h, n)
    decreases n
  {
    if n > 0 {
      var g := Shl(h, 1);
      TNSmall(poly, n - 1, g);
      ShlAdd(h, 1, n - 1);
    } else {
      assert Shl(h, 0) == h;
    }
  }

  function Scale(bit: bool, w: Word): (r: Word)
    ensures |r| == |w|
  {
    if bit then w else Zeros(|w|)
  }

  function One(n: nat): (w: Word)
    requires n > 0
    ensures |w| == n
  {
    OneHot(n, 0)
  }

  /** x^n modulo the polynomial is the polynomial itself. */
  lemma {:induction false} PolyIsXn(poly: Word)
    requires |poly| > 0
    ensures TN(poly, |poly|, One(|poly|)) == poly
  {
    var n := |poly|;
    TNSmall(poly, n - 1, One(n));
    var h := Shl(One(n), n - 1);
    assert h == OneHot(n, n - 1);
    TNAdd(poly, n - 1, 1, One(n));
    assert TN(poly, 1, h) == TN(poly, 0, T(poly, h)) == T(poly, h);
    assert Shl(h, 1) == Zeros(n);
    XorZero(poly);
  }

  lemma {:induction false} TNScale(poly: Word, n: nat, bit: bool, w: Word)
    requires |w| == |poly| > 0
    ensures TN(poly, n, Scale(bit, w)) == Scale(bit, TN(poly, n, w))
  {
    TNZero(poly, n);
  }

  /** The sum over the set bits i of `x` of `k` times x^i, reduced. */
  function Combine(poly: Word, x: Word, k: Word): (r: Word)
    requires |k| == |poly| > 0
    ensures |r| == |poly|
    decreases |x|
  {
    if x == [] then Zeros(|poly|)
    else Xor(Scale(x[0], k), Combine(poly, x[1..], T(poly, k)))
  }

  lemma WidenStep(poly: Word, x: Word)
    requires 0 < |x| <= |poly|
    ensures Widen(x, |poly|) == Xor(Scale(x[0], One(|poly|)), T(poly, Widen(x[1..], |poly|)))
  {
  }

  lemma TNSucc(poly: Word, n: nat, h: Word)
    requires |h| == |poly| > 0
    ensures TN(poly, n + 1, h) == T(poly, TN(poly, n, h)) == TN(poly, n, T(poly, h))
  {
    TNAdd(poly, n, 1, h);
    assert TN(poly, 1, TN(poly, n, h)) == TN(poly, 0, T(poly, TN(poly, n, h)));
  }

  /** Combining with x^m is multiplication by x^m. */
  lemma {:induction false} CombinePower(poly: Word, x: Word, m: nat)
    requires |x| <= |poly| && |poly| > 0
    ensures Combine(poly, x, TN(poly, m, One(|poly|))) == TN(poly, m, Widen(x, |poly|))
    decreases |x|
  {
    hide Xor, Shl, T, Scale, Widen, One;
    var n := |poly|;
    var one := One(n);
    if x == [] {
      TNZero(poly, m);
      WidenEmpty(n);
    } else {
      var y := Widen(x[1..], n);
      TNSucc(poly, m, one);
      CombinePower(poly, x[1..], m + 1);
      TNSucc(poly, m, y);
      WidenStep(poly, x);
      TNLinear(poly, m, Scale(x[0], one), T(poly, y));
      TNScale(poly, m, x[0], one);
    }
  }

  lemma WidenEmpty(n: nat)
    ensures Widen([], n) == Zeros(n)
  {
  }

  /** The n-bit word whose top bits are the message bits, the first one highest. */
  function AtTop(message: seq<bool>, n: nat): (w: Word)
    requires |message| <= n
    ensures |w| == n
  {
    Rev(message + Zeros(n - |message|))
  }

  /** Absorbing up to n message bits at once: they are xored into the top of the register. */
  lemma {:induction false} SerialFold(poly: Word, state: Word, message: seq<bool>)
    requires |state| == |poly| > 0 && |message| <= |poly|
    ensures Serial(poly, state, message)
         == TN(poly, |message|, Xor(state, AtTop(message, |poly|)))
    decreases |message|
  {
    hide Xor, Shl, T, AtTop, SerialStep;
    if message == [] {
      TopOfEmpty(|poly|);
      XorZero(state);
    } else {
      SerialFoldStep(poly, state, message);
      SerialFold(poly, SerialStep(poly, state, message[0]), message[1..]);
    }
  }

  lemma TopOfEmpty(n: nat)
    ensures AtTop([], n) == Zeros(n)
  {
  }

  lemma AtTopStep(message: seq<bool>, n: nat)
    requires 0 < |message| <= n
    ensures AtTop(message, n)[n - 1] == message[0]
    ensures Shl(AtTop(message, n), 1) == AtTop(message[1..], n)
  {
  }

  lemma SerialFoldStep(poly: Word, state: Word, message: seq<bool>)
    requires |state| == |poly| > 0 && 0 < |message| <= |poly|
    ensures T(poly, Xor(state, AtTop(message, |poly|)))
         == Xor(SerialStep(poly, state, message[0]), AtTop(message[1..], |poly|))
  {
    hide AtTop;
    var n := |poly|;
    var d, d' := AtTop(message, n), AtTop(message[1..], n);
    AtTopStep(message, n);
    XorShl(state, d, 1);
    XorLate(Shl(state, 1), d', poly);
  }

  lemma XorLate(a: Word, b: Word, c: Word)
    requires |a| == |b| == |c|
    ensures Xor(Xor(a, b), c) == Xor(Xor(a, c), b)
  {
  }

  lemma {:induction false} SerialConcat(poly: Word, state: Word, a: seq<bool>, b: seq<bool>)
    requires |state| == |poly| > 0
    ensures Serial(poly, state, a + b) == Serial(poly, Serial(poly, state, a), b)
    decreases |a|
  {
    if a == [] {
      assert a + b == b;
    } else {
      assert (a + b)[0] == a[0] && (a + b)[1..] == a[1..] + b;
      SerialConcat(poly, SerialStep(poly, state, a[0]), a[1..], b);
    }
  }

  /** The CRC is linear in the initial value and the message together. */
  lemma {:induction false} SerialLinear(poly: Word, s: Word, t: Word, m: seq<bool>, n: seq<bool>)
    requires |s| == |t| == |poly| > 0 && |m| == |n|
    ensures Serial(poly, Xor(s, t), Xor(m, n)) == Xor(Serial(poly, s, m), Serial(poly, t, n))
    decreases |m|
  {
    hide SerialStep;
    if m != [] {
      SerialStepLinear(poly, s, t, m[0], n[0]);
      assert Xor(m, n)[1..] == Xor(m[1..], n[1..]);
      SerialLinear(poly, SerialStep(poly, s, m[0]), SerialStep(poly, t, n[0]), m[1..], n[1..]);
    }
  }

  lemma SerialStepLinear(poly: Word, s: Word, t: Word, a: bool, b: bool)
    requires |s| == |t| == |poly| > 0
    ensures SerialStep(poly, Xor(s, t), a != b) == Xor(SerialStep(poly, s, a), SerialStep(poly, t, b))
  {
    var left, right := SerialStep(poly, Xor(s, t), a != b), Xor(SerialStep(poly, s, a), SerialStep(poly, t, b));
    forall i | 0 <= i < |poly|
      ensures left[i] == right[i]
    {
    }
  }

  /** Trailing zeros of the polynomial stay below the register of the narrower CRC. */
  lemma {:induction false} SerialNarrow(t: nat, p: Word, s: Word, m: seq<bool>)
    requires |s| == |p| > 0
    ensures Serial(Zeros(t) + p, Zeros(t) + s, m) == Zeros(t) + Serial(p, s, m)
    decreases |m|
  {
    if m != [] {
      assert SerialStep(Zeros(t) + p, Zeros(t) + s, m[0]) == Zeros(t) + SerialStep(p, s, m[0]);
      SerialNarrow(t, p, SerialStep(p, s, m[0]), m[1..]);
    }
  }

  // ----- the mirrored register -----

  /** The register that takes the message bits at its low end and shifts down. */
  function ReflectedSerial(rpoly: Word, state: Word, message: seq<bool>): (r: Word)
    requires |state| == |rpoly| > 0
    ensures |r| == |rpoly|
    decreases |message|
  {
    if message == [] then state
    else
      var shifted := Shr(state, 1);
      ReflectedSerial(rpoly, if state[0] != message[0] then Xor(shifted, rpoly) else shifted, message[1..])
  }

  /** It is the mirror image of the other one. */
  lemma {:induction false} ReflectedIsMirrored(poly: Word, state: Word, message: seq<bool>)
    requires |state| == |poly| > 0
    ensures Rev(Serial(poly, state, message)) == ReflectedSerial(Rev(poly), Rev(state), message)
    decreases |message|
  {
    hide Xor, Shl, Shr;
    if message != [] {
      MirroredShift(state);
      RevXor(Shl(state, 1), poly);
      ReflectedIsMirrored(poly, SerialStep(poly, state, message[0]), message[1..]);
    }
  }

  lemma MirroredShift(w: Word)
    requires |w| > 0
    ensures Rev(Shl(w, 1)) == Shr(Rev(w), 1) && Rev(w)[0] == w[|w| - 1]
  {
  }

  // ----- the remainder of a division -----

  /** The carry-less product of two polynomials. */
  function Times(q: Word, g: Word): (r: Word)
    ensures |r| == |q| + |g|
  {
    if q == [] then Zeros(|g|)
    else Xor(Scale(q[0], Widen(g, |q| + |g|)), [false] + Times(q[1..], g))
  }

  /** The message polynomial times x^k plus the initial value times x^n: what the register divides. The first
      message bit is the highest coefficient. */
  function Dividend(state: Word, message: seq<bool>): (r: Word)
    ensures |r| == |message| + |state|
  {
    Xor(Zeros(|state|) + Rev(message), Zeros(|message|) + state)
  }

  /** Dividing `a` by x^k + poly leaves the quotient `q` and the remainder `r`. */
  predicate Divided(poly: Word, a: Word, q: Word, r: Word) {
    && |r| == |poly| && |a| == |q| + |poly|
    && Widen(a, |a| + 1) == Xor(Times(q, poly + [true]), Widen(r, |a| + 1))
  }

  /** The register holds the remainder of that division. */
  lemma {:induction false} SerialIsRemainder(poly: Word, state: Word, message: seq<bool>) returns (q: Word)
    requires |state| == |poly| > 0
    ensures Divided(poly, Dividend(state, message), q, Serial(poly, state, message))
    decreases |message|
  {
    hide Times, Serial, Widen, Dividend, SerialStep;
    if message == [] {
      q := [];
      NothingDivided(poly, state);
    } else {
      var m := |message| - 1;
      var front, bit := message[..m], message[m];
      assert message == front + [bit];
      q := SerialIsRemainder(poly, state, front);
      SerialAppend(poly, state, front, bit);
      q := DivideOneMore(poly, state, front, bit, q);
    }
  }

  lemma DivideOneMore(poly: Word, state: Word, front: seq<bool>, bit: bool, p: Word) returns (q: Word)
    requires |state| == |poly| > 0 && Divided(poly, Dividend(state, front), p, Serial(poly, state, front))
    ensures Divided(poly, Dividend(state, front + [bit]), q, SerialStep(poly, Serial(poly, state, front), bit))
  {
    hide Times, Serial, Widen, Dividend, SerialStep, Xor, Scale, OneHot;
    var s, g, k := Serial(poly, state, front), poly + [true], |poly|;
    var n := |p| + k + 2;
    var c := s[k - 1] != bit;
    q := [c] + p;
    DividendAppend(state, front, bit);
    ShiftedSum(Widen(Dividend(state, front), n - 1), Times(p, g), Widen(s, n - 1));
    TimesNext(c, p, g);
    RegisterStep(poly, s, bit, n);
    Regroup([false] + Times(p, g), [false] + Widen(s, n - 1), Scale(bit, OneHot(n, k)), Scale(c, Widen(g, n)),
            Widen(SerialStep(poly, s, bit), n));
  }

  lemma Regroup(t: Word, a: Word, b: Word, u: Word, v: Word)
    requires |t| == |a| == |b| == |u| == |v| && Xor(a, b) == Xor(u, v)
    ensures Xor(Xor(t, a), b) == Xor(Xor(u, t), v)
  {
    hide Xor;
    XorAssoc(t, a, b);
    XorComm(u, t);
    XorAssoc(t, u, v);
  }

  lemma NothingDivided(poly: Word, state: Word)
    requires |state| == |poly| > 0
    ensures Widen(Dividend(state, []), |poly| + 1)
         == Xor(Times([], poly + [true]), Widen(Serial(poly, state, []), |poly| + 1))
  {
    hide Xor, Widen;
    var n := |poly| + 1;
    assert Dividend(state, []) == state by {
      assert Zeros(|state|) + Rev([]) == Zeros(|state|) && Zeros(0) + state == state;
      XorZero(state);
    }
    XorZero(Widen(state, n));
  }

  lemma SerialAppend(poly: Word, state: Word, front: seq<bool>, bit: bool)
    requires |state| == |poly| > 0
    ensures Serial(poly, state, front + [bit]) == SerialStep(poly, Serial(poly, state, front), bit)
  {
    hide Serial, SerialStep;
    SerialConcat(poly, state, front, [bit]);
    SerialOne(poly, Serial(poly, state, front), bit);
  }

  lemma SerialOne(poly: Word, state: Word, bit: bool)
    requires |state| == |poly| > 0
    ensures Serial(poly, state, [bit]) == SerialStep(poly, state, bit)
  {
    hide SerialStep;
    assert [bit][1..] == [];
  }

  /** One more message bit: everything is multiplied by x, and the bit enters as the coefficient of x^k. */
  lemma DividendAppend(state: Word, front: seq<bool>, bit: bool)
    ensures var n := |front| + |state| + 1;
        Widen(Dividend(state, front + [bit]), n + 1)
          == Xor([false] + Widen(Dividend(state, front), n), Scale(bit, OneHot(n + 1, |state|)))
  {
    hide Dividend;
    var n := |front| + |state| + 1;
    var d, e := Dividend(state, front), Dividend(state, front + [bit]);
    var right := Xor([false] + Widen(d, n), Scale(bit, OneHot(n + 1, |state|)));
    forall i | 0 <= i < n + 1
      ensures Widen(e, n + 1)[i] == right[i]
    {
      if i < n { DividendBit(state, front + [bit], i); }
      if 0 < i < n { DividendBit(state, front, i - 1); }
    }
  }

  lemma DividendBit(state: Word, message: seq<bool>, i: nat)
    requires i < |message| + |state|
    ensures var m := |message|;
        Dividend(state, message)[i]
          == ((i >= |state| && message[m - 1 - (i - |state|)]) != (i >= m && state[i - m]))
  {
  }

  lemma ShiftedSum(d: Word, t: Word, s: Word)
    requires |d| == |t| == |s| && d == Xor(t, s)
    ensures [false] + d == Xor([false] + t, [false] + s)
  {
  }

  lemma TimesNext(c: bool, q: Word, g: Word)
    ensures Times([c] + q, g) == Xor(Scale(c, Widen(g, |q| + 1 + |g|)), [false] + Times(q, g))
  {
    hide Xor, Widen, Scale;
    assert ([c] + q)[1..] == q;
  }

  /** The bit that leaves the register decides whether the modulus is subtracted. */
  lemma RegisterStep(poly: Word, s: Word, bit: bool, n: nat)
    requires |s| == |poly| > 0 && n >= |poly| + 2
    ensures var c, k := s[|s| - 1] != bit, |poly|;
        Xor([false] + Widen(s, n - 1), Scale(bit, OneHot(n, k)))
          == Xor(Scale(c, Widen(poly + [true], n)), Widen(SerialStep(poly, s, bit), n))
  {
    var c, k := s[|s| - 1] != bit, |poly|;
    var u := Xor([false] + Widen(s, n - 1), Scale(bit, OneHot(n, k)));
    var v := Xor(Scale(c, Widen(poly + [true], n)), Widen(SerialStep(poly, s, bit), n));
    forall i | 0 <= i < n
      ensures u[i] == v[i]
    {
    }
  }

  /** A product with x^k + poly reaches beyond the first k coefficients unless the other factor is zero. */
  lemma {:induction false} ProductReachesOut(q: Word, poly: Word) returns (top: nat)
    requires !IsZero(q)
    ensures |poly| <= top < |q| + |poly| + 1 && Times(q, poly + [true])[top]
    ensures forall i :: top < i < |q| + |poly| + 1 ==> !Times(q, poly + [true])[i]
    decreases |q|
  {
    hide Times, Xor, Scale, Widen;
    var g, rest := poly + [true], q[1..];
    var t := Times(q, g);
    assert q == [q[0]] + rest;
    TimesNext(q[0], rest, g);
    forall i | 0 <= i < |t|
      ensures t[i] == ((q[0] && i < |g| && g[i]) != (i > 0 && Times(rest, g)[i - 1]))
    {
      LowestTerm(q[0], g, Times(rest, g), i);
    }
    if IsZero(rest) {
      top := |poly|;
      TimesZero(rest, g);
      assert forall i :: 0 < i < |q| ==> q[i] == rest[i - 1];
    } else {
      var below := ProductReachesOut(rest, poly);
      top := below + 1;
    }
  }

  lemma LowestTerm(c: bool, g: Word, t: Word, i: nat)
    requires |g| <= |t| && i < |t| + 1
    ensures Xor(Scale(c, Widen(g, |t| + 1)), [false] + t)[i] == ((c && i < |g| && g[i]) != (i > 0 && t[i - 1]))
  {
  }

  lemma {:induction false} TimesZero(q: Word, g: Word)
    requires IsZero(q)
    ensures Times(q, g) == Zeros(|q| + |g|)
    decreases |q|
  {
    if q != [] { TimesZero(q[1..], g); }
  }

  lemma {:induction false} TimesLinear(p: Word, q: Word, g: Word)
    requires |p| == |q|
    ensures Times(Xor(p, q), g) == Xor(Times(p, g), Times(q, g))
    decreases |p|
  {
    if p != [] {
      TimesLinear(p[1..], q[1..], g);
      assert Xor(p, q)[1..] == Xor(p[1..], q[1..]);
    }
  }

  /** There is only one remainder of `k` bits. */
  lemma RemainderIsUnique(poly: Word, a: Word, p: Word, r: Word, q: Word, s: Word)
    requires Divided(poly, a, p, r) && Divided(poly, a, q, s)
    ensures p == q && r == s
  {
    hide Times, Widen, Xor, IsZero;
    var n := |a| + 1;
    SameDivision(poly, a, p, r, q, s);
    RemaindersDiffer(r, s, n);
    SmallProduct(Xor(p, q), poly, Xor(Widen(r, n), Widen(s, n)));
    SameWords(p, q);
  }

  lemma SameDivision(poly: Word, a: Word, p: Word, r: Word, q: Word, s: Word)
    requires Divided(poly, a, p, r) && Divided(poly, a, q, s)
    ensures Times(Xor(p, q), poly + [true]) == Xor(Widen(r, |a| + 1), Widen(s, |a| + 1))
  {
    hide Times, Widen, Xor;
    TimesLinear(p, q, poly + [true]);
    SameSum(Times(p, poly + [true]), Times(q, poly + [true]), Widen(r, |a| + 1), Widen(s, |a| + 1));
  }

  /** The only multiple of x^k + poly within the first k coefficients is zero. */
  lemma SmallProduct(d: Word, poly: Word, x: Word)
    requires |x| == |d| + |poly| + 1 && Times(d, poly + [true]) == x && IsZero(x[|poly|..])
    ensures IsZero(d) && x == Zeros(|x|)
  {
    hide Times, IsZero;
    if IsZero(d) {
      TimesZero(d, poly + [true]);
    } else {
      var top := ProductReachesOut(d, poly);
      SetAbove(x, |poly|, top);
    }
  }

  lemma SetAbove(x: Word, k: nat, top: nat)
    requires k <= top < |x| && x[top]
    ensures !IsZero(x[k..])
  {
    assert x[k..][top - k];
  }

  lemma SameSum(t: Word, u: Word, r: Word, s: Word)
    requires |t| == |u| == |r| == |s| && Xor(t, r) == Xor(u, s)
    ensures Xor(t, u) == Xor(r, s)
  {
    forall i | 0 <= i < |t|
      ensures Xor(t, u)[i] == Xor(r, s)[i]
    {
      assert Xor(t, r)[i] == Xor(u, s)[i];
    }
  }

  lemma RemaindersDiffer(r: Word, s: Word, n: nat)
    requires |r| == |s| <= n
    ensures IsZero(Xor(Widen(r, n), Widen(s, n))[|r|..])
    ensures Xor(Widen(r, n), Widen(s, n)) == Zeros(n) ==> r == s
  {
    var x := Xor(Widen(r, n), Widen(s, n));
    assert forall i :: 0 <= i < |r| ==> x[i] == (r[i] != s[i]);
  }

  lemma SameWords(p: Word, q: Word)
    requires |p| == |q| && IsZero(Xor(p, q))
    ensures p == q
  {
    forall i | 0 <= i < |p|
      ensures p[i] == q[i]
    {
      assert !Xor(p, q)[i];
    }
  }
}
