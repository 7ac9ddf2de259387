/** Expanding a run-length column: each element of the second source is repeated by its counter.
    Counters of 8 or 16 bits are the repetition counts; 32-bit counters are running totals. */
module ExpandRle {
  import opened Words
  import opened Numbers
  import opened Columns

  datatype RleStatus = RleOk | InvalidCount

  const MAX_REPEAT := 0xFFFF

  function Sum(counts: seq<nat>): nat {
    if counts == [] then 0 else Sum(counts[..|counts| - 1]) + counts[|counts| - 1]
  }

  /** Each element repeated by its count. */
  function Repeat<X>(elements: seq<X>, counts: seq<nat>): (r: seq<X>)
    requires |elements| == |counts|
    ensures |r| == Sum(counts)
  {
    if elements == [] then []
    else
      var k := |elements| - 1;
      Repeat(elements[..k], counts[..k]) + Copies(elements[k], counts[k])
  }

  /** The steps of a sequence of running totals. */
  function Steps(totals: seq<nat>): (counts: seq<nat>)
    requires Ascending(totals)
    ensures |counts| == if totals == [] then 0 else |totals| - 1
  {
    seq(if totals == [] then 0 else |totals| - 1, i requires 0 <= i < |totals| - 1 => totals[i + 1] - totals[i])
  }

  predicate Ascending(totals: seq<nat>) {
    forall i :: 0 <= i < |totals| - 1 ==> totals[i] <= totals[i + 1]
  }

  predicate AllShort(counts: seq<nat>) {
    forall i :: 0 <= i < |counts| ==> counts[i] <= 65535
  }

  /** Repetition `j` of element `k` comes behind all the repetitions of the elements before it. */
  lemma {:induction false} RepeatAt<X>(elements: seq<X>, counts: seq<nat>, k: nat, j: nat)
    requires |elements| == |counts| && k < |counts| && j < counts[k]
    ensures Sum(counts[..k]) + j < Sum(counts) && Repeat(elements, counts)[Sum(counts[..k]) + j] == elements[k]
    decreases |elements|
  {
    var n := |elements| - 1;
    if k < n {
      RepeatAt(elements[..n], counts[..n], k, j);
      assert counts[..n][..k] == counts[..k];
    }
  }

  /** The number of output elements, precomputed from the counters in 32-bit arithmetic. */
  method GetCount(counters: seq<nat>, bitWidth: nat) returns (count: nat)
    requires counters != [] && forall i :: 0 <= i < |counters| ==> counters[i] < TWO32
    ensures count == if bitWidth != 32 then Wrap(Sum(counters)) else counters[|counters| - 1]
  {
    hide Wrap;
    count := 0;
    WrapSmall(0);
    if bitWidth != 32 {
      for i := 0 to |counters|
        invariant count == Wrap(Sum(counters[..i]))
      {
        assert counters[..i + 1][..i] == counters[..i];
        WrapAdd(Sum(counters[..i]), counters[i]);
        count := Wrap(count + counters[i]);
      }
      assert counters[..|counters|] == counters;
    } else {
      count := counters[|counters| - 1];
    }
  }

  /** The repetition count of element `k`, or none if the totals go down or the count is too large. */
  function CountAt(counters: seq<nat>, bitWidth: nat, k: nat): (r: (bool, nat))
    requires k < |counters| && (bitWidth == 32 ==> k + 1 < |counters|)
  {
    if bitWidth != 32 then (counters[k] <= MAX_REPEAT, counters[k])
    else if counters[k + 1] < counters[k] then (false, 0)
    else (counters[k + 1] - counters[k] <= MAX_REPEAT, counters[k + 1] - counters[k])
  }

  /** The repetition counts the counters stand for. */
  function CountsOf(counters: seq<nat>, bitWidth: nat, n: nat): (counts: seq<nat>)
    requires n <= |counters| && (bitWidth == 32 ==> n < |counters|)
    ensures |counts| == n
  {
    seq(n, k requires 0 <= k < n => CountAt(counters, bitWidth, k).1)
  }

  predicate AllValid(counters: seq<nat>, bitWidth: nat, n: nat)
    requires n <= |counters| && (bitWidth == 32 ==> n < |counters|)
  {
    forall k :: 0 <= k < n ==> CountAt(counters, bitWidth, k).0
  }

  /** The inner loop: one element, stopping at the limit. */
  method StoreCopies(element: U32, repetitions: nat, dst: array<U32>, index0: nat, limit: nat)
    returns (ok: bool, index: nat)
    requires index0 <= limit <= dst.Length
    modifies dst
    ensures ok == (index0 + repetitions <= limit)
    ensures ok ==> index == index0 + repetitions
    ensures ok ==> dst[..] == Overwritten(old(dst[..]), index0, element, repetitions)
  {
    hide Overwritten;
    index := index0;
    ghost var before := dst[..];
    NoneOverwritten(before, index0, element);
    for r := 0 to repetitions
      invariant index == index0 + r <= limit
      invariant dst[..] == Overwritten(before, index0, element, r)
    {
      if index >= limit { return false, index; }
      ghost var values := dst[..];
      OneOverwritten(before, index0, element, r);
      dst[index] := element;
      assert dst[..] == values[index := element];
      index := index + 1;
    }
    ok := true;
  }

  /** The values with `n` copies of `x` put at `index`. */
  function Overwritten(values: seq<U32>, index: nat, x: U32, n: nat): (r: seq<U32>)
    requires index + n <= |values|
    ensures |r| == |values|
  {
    values[..index] + Copies(x, n) + values[index + n..]
  }

  lemma NoneOverwritten(values: seq<U32>, index: nat, x: U32)
    requires index <= |values|
    ensures Overwritten(values, index, x, 0) == values
  {
  }

  lemma OneOverwritten(values: seq<U32>, index: nat, x: U32, n: nat)
    requires index + n < |values|
    ensures Overwritten(values, index, x, n)[index + n := x] == Overwritten(values, index, x, n + 1)
  {
  }

  method OwnExpandRle(counters: seq<nat>, elements: seq<U32>, dst: array<U32>, limit: nat, bitWidth: nat)
    returns (status: RleStatus)
    requires |elements| <= |counters| && (bitWidth == 32 ==> |elements| < |counters|) && limit <= dst.Length
    modifies dst
    ensures var counts := CountsOf(counters, bitWidth, |elements|);
      && status == (if AllValid(counters, bitWidth, |elements|) && Sum(counts) <= limit then RleOk else InvalidCount)
      && (status.RleOk? ==> dst[..] == Repeat(elements, counts) + old(dst[..])[Sum(counts)..])
  {
    hide CountAt, CountsOf, AllValid, Overwritten, Repeat, Sum, Filled;
    ghost var before, counts := dst[..], CountsOf(counters, bitWidth, |elements|);
    var destinationIndex := 0;
    FilledNone(before, elements, counts);
    ValidNext(counters, bitWidth, |elements|, 0);
    for k := 0 to |elements|
      invariant AllValid(counters, bitWidth, k)
      invariant destinationIndex == Sum(counts[..k]) <= limit
      invariant Filled(dst[..], before, elements, counts, k)
    {
      SumNext(counts, k);
      ValidNext(counters, bitWidth, |elements|, k);
      var valid, repetitions := CountAt(counters, bitWidth, k).0, CountAt(counters, bitWidth, k).1;
      if !valid { return InvalidCount; }
      ghost var values := dst[..];
      var ok: bool;
      ok, destinationIndex := StoreCopies(elements[k], repetitions, dst, destinationIndex, limit);
      if !ok { return InvalidCount; }
      FilledNext(values, before, elements, counts, k, dst[..]);
    }
    FilledAll(dst[..], before, elements, counts);
    status := RleOk;
  }

  lemma ValidNext(counters: seq<nat>, bitWidth: nat, n: nat, k: nat)
    requires n <= |counters| && (bitWidth == 32 ==> n < |counters|) && k <= n
    ensures AllValid(counters, bitWidth, 0)
    ensures k < n ==> CountsOf(counters, bitWidth, n)[k] == CountAt(counters, bitWidth, k).1
    ensures k < n && AllValid(counters, bitWidth, k) && CountAt(counters, bitWidth, k).0 ==>
              AllValid(counters, bitWidth, k + 1)
    ensures k < n && !CountAt(counters, bitWidth, k).0 ==> !AllValid(counters, bitWidth, n)
  {
    hide CountAt;
  }

  /** The first `k` elements have been stored with their repetitions. */
  ghost predicate Filled(values: seq<U32>, before: seq<U32>, elements: seq<U32>, counts: seq<nat>, k: nat) {
    && k <= |elements| == |counts| && Sum(counts[..k]) <= |before| == |values|
    && values == Repeat(elements[..k], counts[..k]) + before[Sum(counts[..k])..]
  }

  lemma FilledNone(before: seq<U32>, elements: seq<U32>, counts: seq<nat>)
    requires |elements| == |counts|
    ensures Filled(before, before, elements, counts, 0) && Sum(counts[..0]) == 0
  {
  }

  lemma FilledNext(values: seq<U32>, before: seq<U32>, elements: seq<U32>, counts: seq<nat>, k: nat, next: seq<U32>)
    requires Filled(values, before, elements, counts, k) && k < |elements|
    requires Sum(counts[..k]) + counts[k] <= |before|
    requires |values| == |before| && next == Overwritten(values, Sum(counts[..k]), elements[k], counts[k])
    ensures Filled(next, before, elements, counts, k + 1)
  {
    hide Repeat, Sum, Copies;
    SumNext(counts, k);
    RepeatNext(elements, counts, k);
  }

  lemma FilledAll(values: seq<U32>, before: seq<U32>, elements: seq<U32>, counts: seq<nat>)
    requires |elements| == |counts| && Filled(values, before, elements, counts, |elements|)
    ensures counts[..|elements|] == counts && values == Repeat(elements, counts) + before[Sum(counts)..]
  {
    assert elements[..|elements|] == elements && counts[..|elements|] == counts;
  }

  lemma SumNext(counts: seq<nat>, k: nat)
    requires k < |counts|
    ensures Sum(counts[..k + 1]) == Sum(counts[..k]) + counts[k] <= Sum(counts)
  {
    assert counts[..k + 1][..k] == counts[..k];
    SumPrefix(counts, k + 1);
  }

  lemma {:induction false} SumPrefix(counts: seq<nat>, k: nat)
    requires k <= |counts|
    ensures Sum(counts[..k]) <= Sum(counts)
    decreases |counts|
  {
    if k < |counts| {
      SumPrefix(counts[..|counts| - 1], k);
      assert counts[..|counts| - 1][..k] == counts[..k];
    } else {
      assert counts[..k] == counts;
    }
  }

  lemma RepeatNext<X>(elements: seq<X>, counts: seq<nat>, k: nat)
    requires |elements| == |counts| && k < |counts|
    ensures Repeat(elements[..k + 1], counts[..k + 1])
         == Repeat(elements[..k], counts[..k]) + Copies(elements[k], counts[k])
  {
    assert elements[..k + 1][..k] == elements[..k] && counts[..k + 1][..k] == counts[..k];
  }

  // ----- the two forms of the counters -----

  lemma {:induction false} SumOfSteps(totals: seq<nat>)
    requires |totals| > 0 && Ascending(totals)
    ensures totals[0] + Sum(Steps(totals)) == totals[|totals| - 1]
    decreases |totals|
  {
    var k := |totals| - 1;
    if k > 0 {
      var front := totals[..k];
      assert Ascending(front);
      SumOfSteps(front);
      assert Steps(totals)[..k - 1] == Steps(front);
    }
  }

  /** Running totals stand for their steps, and are valid when they ascend by at most 65535. */
  lemma RunningTotals(totals: seq<nat>)
    requires |totals| > 0
    ensures AllValid(totals, 32, |totals| - 1) ==> Ascending(totals) && AllShort(Steps(totals))
    ensures Ascending(totals) && AllShort(Steps(totals)) ==>
      && AllValid(totals, 32, |totals| - 1)
      && CountsOf(totals, 32, |totals| - 1) == Steps(totals) == CountsOf(Steps(totals), 16, |totals| - 1)
      && AllValid(Steps(totals), 16, |totals| - 1)
  {
    var n := |totals| - 1;
    if AllValid(totals, 32, n) {
      forall i | 0 <= i < n
        ensures totals[i] <= totals[i + 1] && totals[i + 1] - totals[i] <= MAX_REPEAT
      {
        assert CountAt(totals, 32, i).0;
      }
    }
    if Ascending(totals) && AllShort(Steps(totals)) {
      forall i | 0 <= i < n
        ensures CountAt(totals, 32, i) == (true, Steps(totals)[i])
      {
        assert Steps(totals)[i] <= MAX_REPEAT;
      }
    }
  }

  /** The precomputed size of running totals is the number of elements produced exactly when they start at zero. */
  lemma TotalsFillExactly(totals: seq<nat>)
    requires |totals| > 0 && AllValid(totals, 32, |totals| - 1)
    ensures totals[|totals| - 1] == Sum(CountsOf(totals, 32, |totals| - 1)) <==> totals[0] == 0
  {
    RunningTotals(totals);
    SumOfSteps(totals);
  }

  /** Counting and expanding, as the callers run them. Plain counts succeed exactly when each is at most 65535 and
      their sum fits 32 bits, and then fill the output. Running totals succeed exactly when they ascend by at most
      65535, and fill the output exactly when they start at zero. */
  method CountThenExpand(counters: seq<nat>, elements: seq<U32>, bitWidth: nat)
    returns (status: RleStatus, dst: array<U32>)
    requires counters != [] && |elements| == |counters| - (if bitWidth == 32 then 1 else 0)
    requires forall i :: 0 <= i < |counters| ==> counters[i] < TWO32
    ensures bitWidth != 32 ==> (status.RleOk? <==> AllShort(counters) && Sum(counters) < 0x1_0000_0000)
    ensures bitWidth != 32 && status.RleOk? ==> dst[..] == Repeat(elements, counters)
    ensures bitWidth == 32 ==> (status.RleOk? <==> Ascending(counters) && AllShort(Steps(counters)))
    ensures bitWidth == 32 && status.RleOk? ==>
        && Repeat(elements, Steps(counters)) <= dst[..]
        && (dst[..] == Repeat(elements, Steps(counters)) <==> counters[0] == 0)
  {
    hide CountAt, CountsOf, AllValid, Repeat, Sum, Steps, Ascending, AllShort;
    var count := GetCount(counters, bitWidth);
    dst := new U32[count](i => Zeros(32));
    if bitWidth == 32 {
      RunningTotals(counters);
      if AllValid(counters, 32, |elements|) {
        SumOfSteps(counters);
        TotalsFillExactly(counters);
      }
    } else {
      PlainCounts(counters, bitWidth);
    }
    status := OwnExpandRle(counters, elements, dst, count, bitWidth);
  }

  lemma PlainCounts(counts: seq<nat>, bitWidth: nat)
    requires bitWidth != 32
    ensures AllValid(counts, bitWidth, |counts|) == AllShort(counts) && CountsOf(counts, bitWidth, |counts|) == counts
  {
    assert forall k :: 0 <= k < |counts| ==> CountAt(counts, bitWidth, k) == (counts[k] <= MAX_REPEAT, counts[k]);
    if AllValid(counts, bitWidth, |counts|) {
      forall k | 0 <= k < |counts|
        ensures counts[k] <= MAX_REPEAT
      {
        assert CountAt(counts, bitWidth, k).0;
      }
    }
  }
}
