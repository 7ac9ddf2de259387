/** Element-level meaning of select and expand, and the two loops that define it. */
module Columns {
  import opened Words
  import opened Numbers

  function Popcount(mask: seq<bool>): nat {
    if mask == [] then 0 else Popcount(mask[..|mask| - 1]) + if mask[|mask| - 1] then 1 else 0
  }

  function Copies<X>(x: X, n: nat): (r: seq<X>)
    ensures |r| == n
  {
    seq(n, i => x)
  }

  /** The elements whose mask bit is set, in order. */
  function Select<X>(xs: seq<X>, mask: seq<bool>): seq<X>
    requires |xs| == |mask|
  {
    if xs == [] then []
    else
      var k := |xs| - 1;
      Select(xs[..k], mask[..k]) + if mask[k] then [xs[k]] else []
  }

  /** The elements of `xs` at the set mask bits, in order, and `zero` at the clear ones. */
  function Expand<X>(mask: seq<bool>, xs: seq<X>, zero: X): (r: seq<X>)
    requires Popcount(mask) <= |xs|
    ensures |r| == |mask|
  {
    if mask == [] then []
    else
      var k := |mask| - 1;
      Expand(mask[..k], xs, zero) + [if mask[k] then xs[Popcount(mask[..k])] else zero]
  }

  /** The elements with the unselected ones replaced by `zero`. */
  function Blank<X>(xs: seq<X>, mask: seq<bool>, zero: X): (r: seq<X>)
    requires |xs| == |mask|
    ensures |r| == |xs|
  {
    seq(|xs|, i requires 0 <= i < |xs| => if mask[i] then xs[i] else zero)
  }

  lemma {:induction false} SelectLength<X>(xs: seq<X>, mask: seq<bool>)
    requires |xs| == |mask|
    ensures |Select(xs, mask)| == Popcount(mask)
    decreases |xs|
  {
    if xs != [] {
      var k := |xs| - 1;
      SelectLength(xs[..k], mask[..k]);
    }
  }

  lemma {:induction false} PopcountPrefix(mask: seq<bool>, k: nat)
    requires k <= |mask|
    ensures Popcount(mask[..k]) <= Popcount(mask)
    ensures k < |mask| && mask[k] ==> Popcount(mask[..k]) < Popcount(mask)
    decreases |mask|
  {
    if k < |mask| {
      var n := |mask| - 1;
      PopcountPrefix(mask[..n], k);
      assert mask[..n][..k] == mask[..k];
    } else {
      assert mask[..k] == mask;
    }
  }

  lemma PopcountNext(mask: seq<bool>, k: nat)
    requires k < |mask|
    ensures Popcount(mask[..k + 1]) == Popcount(mask[..k]) + if mask[k] then 1 else 0
  {
    assert mask[..k + 1][..k] == mask[..k];
  }

  /** The population count is the number of set bits. */
  lemma {:induction false} PopcountIsCardinality(mask: seq<bool>)
    ensures Popcount(mask) == |set i: nat | i < |mask| && mask[i]|
    decreases |mask|
  {
    if mask != [] {
      var k := |mask| - 1;
      PopcountIsCardinality(mask[..k]);
      var few, more := set i: nat | i < k && mask[..k][i], set i: nat | i < |mask| && mask[i];
      assert forall i: nat :: i in more <==> i in few || (i == k && mask[k]);
      OneMoreMember(few, more, k, mask[k]);
    }
  }

  /** A selected element comes behind those selected before it. */
  lemma {:induction false} SelectAt<X>(xs: seq<X>, mask: seq<bool>, i: nat)
    requires |xs| == |mask| && i < |mask| && mask[i]
    ensures Popcount(mask[..i]) < |Select(xs, mask)| && Select(xs, mask)[Popcount(mask[..i])] == xs[i]
    decreases |mask|
  {
    var k := |mask| - 1;
    SelectLength(xs[..k], mask[..k]);
    if i < k {
      SelectAt(xs[..k], mask[..k], i);
      assert mask[..k][..i] == mask[..i];
    }
  }

  /** Place `i` of an expansion holds the element numbered by the set bits before it, or zero. */
  lemma {:induction false} ExpandAt<X>(mask: seq<bool>, xs: seq<X>, zero: X, i: nat)
    requires Popcount(mask) <= |xs| && i < |mask|
    ensures mask[i] ==> Popcount(mask[..i]) < |xs| && Expand(mask, xs, zero)[i] == xs[Popcount(mask[..i])]
    ensures !mask[i] ==> Expand(mask, xs, zero)[i] == zero
    decreases |mask|
  {
    var k := |mask| - 1;
    PopcountPrefix(mask, k);
    if i < k {
      ExpandAt(mask[..k], xs, zero, i);
      assert mask[..k][..i] == mask[..i];
    }
  }

  /** Expanding only looks at the first popcount elements. */
  lemma {:induction false} ExpandPrefix<X>(mask: seq<bool>, xs: seq<X>, ys: seq<X>, zero: X)
    requires Popcount(mask) <= |xs| && Popcount(mask) <= |ys|
    requires xs[..Popcount(mask)] == ys[..Popcount(mask)]
    ensures Expand(mask, xs, zero) == Expand(mask, ys, zero)
    decreases |mask|
  {
    if mask != [] {
      var k := |mask| - 1;
      PopcountPrefix(mask, k);
      var p, q := Popcount(mask[..k]), Popcount(mask);
      assert xs[..p] == xs[..q][..p] && ys[..p] == ys[..q][..p];
      ExpandPrefix(mask[..k], xs, ys, zero);
      if mask[k] { assert xs[p] == xs[..q][p] && ys[p] == ys[..q][p]; }
    }
  }

  lemma SelectLast<X>(xs: seq<X>, mask: seq<bool>)
    requires |xs| == |mask| > 0
    ensures var k := |xs| - 1; Select(xs, mask) == Select(xs[..k], mask[..k]) + if mask[k] then [xs[k]] else []
  {
  }

  lemma ExpandLast<X>(mask: seq<bool>, xs: seq<X>, zero: X)
    requires mask != [] && Popcount(mask) <= |xs|
    ensures var k := |mask| - 1;
        Expand(mask, xs, zero) == Expand(mask[..k], xs, zero) + [if mask[k] then xs[Popcount(mask[..k])] else zero]
  {
  }

  lemma BlankLast<X>(xs: seq<X>, mask: seq<bool>, zero: X)
    requires |xs| == |mask| > 0
    ensures var k := |xs| - 1;
        Blank(xs, mask, zero) == Blank(xs[..k], mask[..k], zero) + [if mask[k] then xs[k] else zero]
  {
  }

  /** Expanding what was selected restores the column with the unselected elements blanked. */
  lemma {:induction false} ExpandOfSelect<X>(xs: seq<X>, mask: seq<bool>, zero: X)
    requires |xs| == |mask|
    ensures Popcount(mask) <= |Select(xs, mask)|
    ensures Expand(mask, Select(xs, mask), zero) == Blank(xs, mask, zero)
    decreases |xs|
  {
    SelectLength(xs, mask);
    if xs != [] {
      hide Select, Expand, Blank;
      var k := |xs| - 1;
      var front := Select(xs[..k], mask[..k]);
      SelectLast(xs, mask);
      SelectLength(xs[..k], mask[..k]);
      ExpandLast(mask, Select(xs, mask), zero);
      ExpandOfSelect(xs[..k], mask[..k], zero);
      ExpandPrefix(mask[..k], Select(xs, mask), front, zero);
      BlankLast(xs, mask, zero);
    } else {
      assert mask == [];
    }
  }

  /** Selecting from what was expanded restores the elements that were consumed. */
  lemma {:induction false} SelectOfExpand<X>(mask: seq<bool>, xs: seq<X>, zero: X)
    requires Popcount(mask) <= |xs|
    ensures Select(Expand(mask, xs, zero), mask) == xs[..Popcount(mask)]
    decreases |mask|
  {
    if mask != [] {
      hide Select, Expand;
      var k := |mask| - 1;
      PopcountPrefix(mask, k);
      SelectOfExpand(mask[..k], xs, zero);
      var es := Expand(mask, xs, zero);
      ExpandLast(mask, xs, zero);
      SelectLast(es, mask);
      assert es[..k] == Expand(mask[..k], xs, zero);
    }
  }

  // ----- the loops -----

  datatype Status = Ok | DstIsShort | SrcIsShort

  function Truth(mask: seq<U32>): (r: seq<bool>)
    ensures |r| == |mask|
  {
    seq(|mask|, i requires 0 <= i < |mask| => !IsZero(mask[i]))
  }

  lemma SelectNext<X>(xs: seq<X>, mask: seq<bool>, k: nat)
    requires k < |xs| == |mask|
    ensures Select(xs[..k + 1], mask[..k + 1]) == Select(xs[..k], mask[..k]) + if mask[k] then [xs[k]] else []
  {
    assert xs[..k + 1][..k] == xs[..k] && mask[..k + 1][..k] == mask[..k];
  }

  method OwnSelect(source: seq<U32>, mask: seq<U32>, dst: array<U32>) returns (length: nat)
    requires |source| == |mask| <= dst.Length
    modifies dst
    ensures length == Popcount(Truth(mask)) <= dst.Length
    ensures dst[..length] == Select(source, Truth(mask))
  {
    hide Select, IsZero;
    length := 0;
    ghost var truth := Truth(mask);
    SelectNone(source, truth);
    for i := 0 to |source|
      invariant length <= i && length == Popcount(truth[..i])
      invariant dst[..length] == Select(source[..i], truth[..i])
    {
      hide Popcount;
      PopcountNext(truth, i);
      SelectNext(source, truth, i);
      if !IsZero(mask[i]) {
        dst[length] := source[i];
        length := length + 1;
      }
    }
    assert source[..|source|] == source && truth[..|source|] == truth;
  }

  lemma SelectNone<X>(xs: seq<X>, mask: seq<bool>)
    requires |xs| == |mask|
    ensures Select(xs[..0], mask[..0]) == []
  {
  }

  lemma ExpandNext<X>(mask: seq<bool>, xs: seq<X>, zero: X, k: nat)
    requires k < |mask| && Popcount(mask[..k]) <= Popcount(mask[..k + 1]) <= |xs|
    requires mask[k] ==> Popcount(mask[..k]) < |xs|
    ensures Expand(mask[..k + 1], xs, zero)
         == Expand(mask[..k], xs, zero) + [if mask[k] then xs[Popcount(mask[..k])] else zero]
  {
    assert mask[..k + 1][..k] == mask[..k];
  }

  method OwnExpand(source: seq<U32>, mask: seq<U32>, dst: array<U32>) returns (status: Status)
    requires |mask| <= dst.Length
    modifies dst
    ensures status == if Popcount(Truth(mask)) <= |source| then Ok else SrcIsShort
    ensures status.Ok? ==> dst[..|mask|] == Expand(Truth(mask), source, Zeros(32))
  {
    hide IsZero, Zeros;
    ghost var truth := Truth(mask);
    var elementIndex := 0;
    for i := 0 to |mask|
      invariant elementIndex == Popcount(truth[..i]) <= |source|
      invariant dst[..i] == Expand(truth[..i], source, Zeros(32))
    {
      hide Popcount, Expand;
      PopcountNext(truth, i);
      PopcountPrefix(truth, i + 1);
      if IsZero(mask[i]) {
        dst[i] := Zeros(32);
      } else {
        if |source| <= elementIndex { return SrcIsShort; }
        dst[i] := source[elementIndex];
        elementIndex := elementIndex + 1;
      }
      ExpandNext(truth, source, Zeros(32), i);
    }
    assert truth[..|mask|] == truth;
    return Ok;
  }
}
