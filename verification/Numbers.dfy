/** Words as numbers, and arithmetic of 32-bit counters. */
module Numbers {
  import opened Words

  const TWO32 := 0x1_0000_0000

  /** The number a word stands for. */
  function ToNat(w: Word): nat {
    if w == [] then 0 else (if w[0] then 1 else 0) + 2 * ToNat(w[1..])
  }

  /** The low `k` bits of a number. */
  function FromNat(n: nat, k: nat): (w: Word)
    ensures |w| == k
  {
    if k == 0 then [] else [n % 2 == 1] + FromNat(n / 2, k - 1)
  }

  function Pow2(k: nat): (r: nat)
    ensures r > 0
  {
    if k == 0 then 1 else 2 * Pow2(k - 1)
  }

  lemma {:induction false} SplitValue(w: Word, k: nat)
    requires k <= |w|
    ensures ToNat(w[..k]) < Pow2(k) && ToNat(w) == ToNat(w[..k]) + Pow2(k) * ToNat(w[k..])
    decreases k
  {
    if k == 0 {
      assert w[0..] == w;
    } else {
      var rest, p, q := w[1..], Pow2(k - 1), ToNat(w[k..]);
      SplitValue(rest, k - 1);
      assert rest[..k - 1] == w[..k][1..] && rest[k - 1..] == w[k..];
      Doubled(p, q);
      OneBit(w);
      OneBit(w[..k]);
      hide ToNat;
      assert Pow2(k) == 2 * p;
    }
  }

  lemma OneBit(w: Word)
    requires w != []
    ensures ToNat(w) == (if w[0] then 1 else 0) + 2 * ToNat(w[1..])
  {
  }

  lemma Doubled(a: nat, b: nat)
    ensures 2 * (a * b) == 2 * a * b
  {
  }

  /** Cutting a word to its low `k` bits is taking it modulo 2^k. */
  lemma CutValue(w: Word, k: nat)
    requires k <= |w|
    ensures ToNat(w[..k]) == ToNat(w) % Pow2(k)
  {
    hide ToNat, Pow2;
    SplitValue(w, k);
    Remainder(ToNat(w[..k]), Pow2(k), ToNat(w[k..]));
  }

  lemma Remainder(r: nat, d: nat, q: nat)
    requires r < d
    ensures (r + d * q) % d == r
  {
    var x := r + d * q;
    UniqueRemainder(d, q, r, x / d, x % d);
  }

  lemma UniqueRemainder(d: nat, q: nat, r: nat, p: nat, s: nat)
    requires r < d && s < d && r + d * q == d * p + s
    ensures r == s
  {
    if p < q {
      Apart(d, p, q);
    } else if q < p {
      Apart(d, q, p);
    }
  }

  lemma {:induction false} Apart(d: nat, p: nat, q: nat)
    requires p < q
    ensures d * p + d <= d * q
    decreases q - p
  {
    var t := d * (p + 1);
    assert t == d * p + d;
    if p + 1 < q { Apart(d, p + 1, q); }
  }

  /** Writing a number in `k` bits and reading it gives the number back. */
  lemma {:induction false} FromNatValue(n: nat, k: nat)
    requires n < Pow2(k)
    ensures ToNat(FromNat(n, k)) == n
    decreases k
  {
    if k > 0 {
      FromNatValue(n / 2, k - 1);
      assert FromNat(n, k)[1..] == FromNat(n / 2, k - 1);
    }
  }

  lemma PowersOfTwo()
    ensures Pow2(8) == 0x100 && Pow2(16) == 0x1_0000 && Pow2(32) == TWO32
  {
    assert Pow2(4) == 16;
    assert Pow2(8) == 16 * Pow2(4);
    assert Pow2(12) == 16 * Pow2(8);
    assert Pow2(16) == 16 * Pow2(12);
    assert Pow2(20) == 16 * Pow2(16);
    assert Pow2(24) == 16 * Pow2(20);
    assert Pow2(28) == 16 * Pow2(24);
    assert Pow2(32) == 16 * Pow2(28);
  }

  lemma {:induction false} WidenValue(w: Word, n: nat)
    requires |w| <= n
    ensures ToNat(Widen(w, n)) == ToNat(w)
    decreases n
  {
    if n > 0 {
      if w == [] {
        assert Widen(w, n)[1..] == Widen(w, n - 1);
        WidenValue(w, n - 1);
      } else {
        assert Widen(w, n)[1..] == Widen(w[1..], n - 1);
        WidenValue(w[1..], n - 1);
      }
    }
  }

  lemma {:induction false} ZeroValue(w: Word)
    ensures ToNat(w) == 0 <==> IsZero(w)
  {
    if w != [] {
      ZeroValue(w[1..]);
      assert IsZero(w) <==> !w[0] && IsZero(w[1..]) by {
        if !w[0] && IsZero(w[1..]) {
          assert forall i :: 0 < i < |w| ==> w[i] == w[1..][i - 1];
        }
        if IsZero(w) {
          assert forall i :: 0 <= i < |w| - 1 ==> w[1..][i] == w[i + 1];
        }
      }
    }
  }

  /** Arithmetic of the 32-bit counters. */
  function Wrap(n: nat): (r: nat)
    ensures r < TWO32
  {
    n % TWO32
  }

  lemma WrapAdd(a: nat, b: nat)
    ensures Wrap(Wrap(a) + b) == Wrap(a + b)
  {
    assert a % TWO32 + b == (a + b) - TWO32 * (a / TWO32);
  }

  lemma WrapSmall(n: nat)
    requires n < TWO32
    ensures Wrap(n) == n
  {
  }

  lemma OneMoreMember(few: set<nat>, more: set<nat>, k: nat, hit: bool)
    requires k !in few && forall i: nat :: i in more <==> i in few || (i == k && hit)
    ensures |more| == |few| + if hit then 1 else 0
  {
    assert more == if hit then few + {k} else few;
  }
}
