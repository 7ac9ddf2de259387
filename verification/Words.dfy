/** Fixed-width machine words. An n-bit unsigned integer is the sequence of its n bits,
    least significant bit first; every C operator on it is given bit by bit. */
module Words {
  type Word = seq<bool>

  type Byte = w: Word | |w| == 8 witness Zeros(8)
  type U32 = w: Word | |w| == 32 witness Zeros(32)
  type U64 = w: Word | |w| == 64 witness Zeros(64)

  function Zeros(n: nat): (w: Word)
    ensures |w| == n
  {
    seq(n, i => false)
  }

  function Ones(n: nat): (w: Word)
    ensures |w| == n
  {
    Field(n, 0, n)
  }

  /** The word `1 << k`. */
  function OneHot(n: nat, k: nat): (w: Word)
    requires k < n
    ensures |w| == n
  {
    seq(n, i => i == k)
  }

  /** The word with ones exactly at positions lo up to (not including) hi. */
  function Field(n: nat, lo: nat, hi: nat): (w: Word)
    ensures |w| == n
  {
    seq(n, i => lo <= i < hi)
  }

  function Xor(a: Word, b: Word): (c: Word)
    requires |a| == |b|
    ensures |c| == |a|
  {
    seq(|a|, i requires 0 <= i < |a| => a[i] != b[i])
  }

  function And(a: Word, b: Word): (c: Word)
    requires |a| == |b|
    ensures |c| == |a|
  {
    seq(|a|, i requires 0 <= i < |a| => a[i] && b[i])
  }

  function Or(a: Word, b: Word): (c: Word)
    requires |a| == |b|
    ensures |c| == |a|
  {
    seq(|a|, i requires 0 <= i < |a| => a[i] || b[i])
  }

  function Not(a: Word): (c: Word)
    ensures |c| == |a|
  {
    seq(|a|, i requires 0 <= i < |a| => !a[i])
  }

  /** `a << k`: the k top bits are lost. */
  function Shl(a: Word, k: nat): (c: Word)
    requires k <= |a|
    ensures |c| == |a|
  {
    Zeros(k) + a[..|a| - k]
  }

  /** `a >> k`. */
  function Shr(a: Word, k: nat): (c: Word)
    requires k <= |a|
    ensures |c| == |a|
  {
    a[k..] + Zeros(k)
  }

  /** A cast to a wider type. */
  function Widen(a: Word, n: nat): (c: Word)
    requires |a| <= n
    ensures |c| == n
  {
    a + Zeros(n - |a|)
  }

  predicate IsZero(a: Word) {
    forall i :: 0 <= i < |a| ==> !a[i]
  }

  /** The bits of `a` in the opposite order. */
  function Rev(a: Word): (c: Word)
    ensures |c| == |a|
  {
    seq(|a|, i requires 0 <= i < |a| => a[|a| - 1 - i])
  }

  // ----- exclusive or is addition in a vector space over GF(2) -----

  lemma XorZero(a: Word)
    ensures Xor(a, Zeros(|a|)) == a && Xor(Zeros(|a|), a) == a
  {
  }

  lemma XorSelf(a: Word)
    ensures Xor(a, a) == Zeros(|a|)
  {
  }

  lemma XorComm(a: Word, b: Word)
    requires |a| == |b|
    ensures Xor(a, b) == Xor(b, a)
  {
  }

  lemma XorAssoc(a: Word, b: Word, c: Word)
    requires |a| == |b| == |c|
    ensures Xor(Xor(a, b), c) == Xor(a, Xor(b, c))
  {
  }

  /** The middle-four exchange that every linearity argument uses. */
  lemma XorSwap(a: Word, b: Word, c: Word, d: Word)
    requires |a| == |b| == |c| == |d|
    ensures Xor(Xor(a, b), Xor(c, d)) == Xor(Xor(a, c), Xor(b, d))
  {
  }

  lemma XorShl(a: Word, b: Word, k: nat)
    requires |a| == |b| && k <= |a|
    ensures Shl(Xor(a, b), k) == Xor(Shl(a, k), Shl(b, k))
  {
  }

  lemma ShlAdd(a: Word, j: nat, k: nat)
    requires j + k <= |a|
    ensures Shl(Shl(a, j), k) == Shl(a, j + k)
  {
  }

  lemma RevRev(a: Word)
    ensures Rev(Rev(a)) == a
  {
  }

  lemma RevConcat(a: Word, b: Word)
    ensures Rev(a + b) == Rev(b) + Rev(a)
  {
  }

  lemma RevXor(a: Word, b: Word)
    requires |a| == |b|
    ensures Rev(Xor(a, b)) == Xor(Rev(a), Rev(b))
  {
  }

  lemma RevFour(a: Word, b: Word, c: Word, d: Word)
    ensures Rev(a + b + c + d) == Rev(d) + Rev(c) + Rev(b) + Rev(a)
  {
    hide Rev;
    RevConcat(a + b + c, d);
    RevConcat(a + b, c);
    RevConcat(a, b);
  }

  // ----- bytes of a word -----

  /** `(uint8_t)(x >> k)`. */
  lemma ByteOf(x: U32, k: nat)
    requires k <= 24
    ensures Shr(x, k)[..8] == x[k..k + 8]
    ensures k == 24 ==> x[k..k + 8] == x[24..]
  {
  }

  /** Or-ing a word in above another one puts them together. */
  lemma OrAbove(p: Word, q: Word, n: nat)
    requires |p| + |q| <= n
    ensures Or(Widen(p, n), Shl(Widen(q, n), |p|)) == Widen(p + q, n)
  {
    var x, y := Or(Widen(p, n), Shl(Widen(q, n), |p|)), Widen(p + q, n);
    forall i | 0 <= i < n
      ensures x[i] == y[i]
    {
      if i < |p| {
        assert !Shl(Widen(q, n), |p|)[i];
      } else {
        assert !Widen(p, n)[i] && Shl(Widen(q, n), |p|)[i] == Widen(q, n)[i - |p|];
      }
    }
  }

  lemma OrBelow(p: Word, q: Word, n: nat)
    requires |p| + |q| <= n
    ensures Or(Shl(Widen(q, n), |p|), Widen(p, n)) == Widen(p + q, n)
  {
    hide Widen, Shl;
    OrAbove(p, q, n);
    OrComm(Widen(p, n), Shl(Widen(q, n), |p|));
  }

  lemma OrComm(a: Word, b: Word)
    requires |a| == |b|
    ensures Or(a, b) == Or(b, a)
  {
  }

  lemma WidenFull(w: Word)
    ensures Widen(w, |w|) == w
  {
  }
}
