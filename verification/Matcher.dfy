/** The high-level deflate match search: hash chains with "good match" and "lazy match" rules.
    Nothing is assumed about what the hash table holds. */
module Matcher {
  import opened Lz77
  import opened Numbers

  const TABLE_SIZE := 4096
  const UNINITIALIZED := 0xFFFF_FFFF
  const HASHED_BYTES := 4

  /** A position in the input, as the tables hold it: a 32-bit number. */
  type Index = n: nat | n < TWO32

  /** What the hash table holds: the newest position for each hash, and for each position the one before it. */
  datatype Tables = Tables(table: seq<Index>, story: seq<Index>)

  predicate Sized(t: Tables) {
    |t.table| == |t.story| == TABLE_SIZE
  }

  datatype Found = Found(length: nat, index: nat, offset: nat, hash: nat, source: nat)

  /** The statistics block: symbol counters and the two hash-table arrays. */
  class Histogram {
    const literalsMatches: array<nat>
    const offsets: array<nat>
    const table: array<Index>
    const story: array<Index>
    const attempts: nat
    const goodMatch: nat
    const lazyMatch: nat
    const hash: seq<Octet> -> nat

    ghost predicate Valid() {
      && literalsMatches.Length == 286 && offsets.Length == 30
      && table.Length == TABLE_SIZE && story.Length == TABLE_SIZE
      && table != story && literalsMatches != offsets
      && literalsMatches as object !in {table as object, story} && offsets as object !in {table as object, story}
    }

    ghost function Contents(): Tables
      reads table, story
    {
      Tables(table[..], story[..])
    }

    function HashOf(bytes: seq<Octet>): (h: nat)
      ensures h < TABLE_SIZE
    {
      hash(bytes) % TABLE_SIZE
    }

    constructor (literalsMatches: array<nat>, offsets: array<nat>, table: array<Index>, story: array<Index>,
                 attempts: nat, goodMatch: nat, lazyMatch: nat, hash: seq<Octet> -> nat)
      ensures this.literalsMatches == literalsMatches && this.offsets == offsets
      ensures this.table == table && this.story == story
      ensures this.attempts == attempts && this.goodMatch == goodMatch
      ensures this.lazyMatch == lazyMatch && this.hash == hash
    {
      this.literalsMatches, this.offsets, this.table, this.story := literalsMatches, offsets, table, story;
      this.attempts, this.goodMatch, this.lazyMatch, this.hash := attempts, goodMatch, lazyMatch, hash;
    }
  }

  /** The length of the longest common run of `src` at `first` and `second` that does not pass
      `upper` and is at most 258; zero unless `first` lies before `second`. */
  ghost predicate IsRun(src: seq<Octet>, first: nat, second: nat, upper: nat, length: nat) {
    if first >= second then length == 0
    else
      && second + length <= upper < |src| && length <= 258
      && (forall i :: second <= i < second + length ==> src[i] == src[i - (second - first)])
      && (length == 258 || second + length == upper || src[first + length] != src[second + length])
  }

  /** There is only one such length. */
  lemma RunIsUnique(src: seq<Octet>, first: nat, second: nat, upper: nat, a: nat, b: nat)
    requires IsRun(src, first, second, upper, a) && IsRun(src, first, second, upper, b)
    ensures a == b
  {
  }

  /** That length as a number. */
  function RunLength(src: seq<Octet>, first: nat, second: nat, upper: nat): (length: nat)
    requires second <= upper < |src|
    ensures IsRun(src, first, second, upper, length)
  {
    if first >= second then 0 else RunFrom(src, first, second, upper, 0)
  }

  function RunFrom(src: seq<Octet>, first: nat, second: nat, upper: nat, k: nat): (length: nat)
    requires first < second && second + k <= upper < |src| && k <= MAX_MATCH
    requires forall i :: second <= i < second + k ==> src[i] == src[i - (second - first)]
    ensures IsRun(src, first, second, upper, length)
    decreases upper - (second + k)
  {
    if src[first + k] == src[second + k] && second + k < upper && k < MAX_MATCH
    then RunFrom(src, first, second, upper, k + 1)
    else k
  }

  method CompareStrings(src: seq<Octet>, first: nat, second: nat, upper: nat) returns (length: nat)
    requires second <= upper < |src|
    ensures IsRun(src, first, second, upper, length) && length == RunLength(src, first, second, upper)
  {
    length := 0;
    if first >= second { return; }
    while src[first + length] == src[second + length] && second + length < upper && length <= 257
      invariant second + length <= upper && length <= MAX_MATCH
      invariant forall i :: second <= i < second + length ==> src[i] == src[i - (second - first)]
    {
      length := length + 1;
    }
    RunIsUnique(src, first, second, upper, length, RunLength(src, first, second, upper));
  }

  /** `seen` follows the history links from `start`. */
  ghost predicate FollowsChain(story: seq<Index>, start: nat, seen: seq<nat>)
    requires |story| == TABLE_SIZE
  {
    && |seen| > 0 && seen[0] == start
    && forall i :: 0 < i < |seen| ==> seen[i] == story[seen[i - 1] % TABLE_SIZE]
  }

  /** The search may go on from `index`: it is set and not too far back. */
  predicate Reachable(index: nat, pos: nat) {
    index != UNINITIALIZED && pos - index <= MAX_DISTANCE
  }

  /** Where a match of positive length points: back by at most 4096, over equal bytes, inside the input. */
  ghost predicate ValidMatch(src: seq<Octet>, upper: nat, m: Found) {
    m.length > 0 ==>
      && 1 <= m.offset <= 4096 && m.index + m.offset == m.source
      && IsRun(src, m.index, m.source, upper, m.length)
  }

  /** `best` is the first longest match among the candidates `seen` of the hash chain from `start`. */
  ghost predicate BestOf(story: seq<Index>, src: seq<Octet>, pos: nat, upper: nat, start: nat, seen: seq<nat>,
                         best: Found)
    requires |story| == TABLE_SIZE && pos <= upper < |src|
  {
    && FollowsChain(story, start, seen)
    && best.source == pos && ValidMatch(src, upper, best)
    && best.length == RunLength(src, best.index, pos, upper)
    && IsFirstLongest(src, pos, upper, seen, best.index, best.length)
  }

  /** No candidate has a longer run, and none before the first `index` has one as long. */
  ghost predicate IsFirstLongest(src: seq<Octet>, pos: nat, upper: nat, seen: seq<nat>, index: nat, length: nat)
    requires pos <= upper < |src|
  {
    && NoneAbove(src, pos, upper, seen, length + 1)
    && exists k :: 0 <= k < |seen| && seen[k] == index && NoneAbove(src, pos, upper, seen[..k], length)
  }

  ghost predicate NoneAbove(src: seq<Octet>, pos: nat, upper: nat, seen: seq<nat>, bound: nat)
    requires pos <= upper < |src|
  {
    forall k :: 0 <= k < |seen| ==> RunLength(src, seen[k], pos, upper) < bound
  }

  /** The match at a candidate; the distance is computed in 32 bits. */
  function At(index: nat, length: nat, hash: nat, pos: nat): Found {
    Found(length, index, (pos - index) % TWO32, hash, pos)
  }

  // ----- the search as a function of the input and the tables -----

  /** The chain from `index` on, at most `left` candidates, with the best match so far. */
  function Walk(t: Tables, src: seq<Octet>, pos: nat, upper: nat, index: nat, left: nat, best: Found): Found
    requires Sized(t) && pos <= upper < |src|
    decreases left
  {
    if index == UNINITIALIZED || left == 0 || pos - index > MAX_DISTANCE then best
    else
      var length := RunLength(src, index, pos, upper);
      var better := if best.length < length then At(index, length, best.hash, pos) else best;
      if best.length < length && length >= MAX_MATCH then better
      else Walk(t, src, pos, upper, t.story[index % TABLE_SIZE], left - 1, better)
  }

  /** The hash of the bytes at `pos`, and the first candidate for it. */
  function HashAt(h: Histogram, src: seq<Octet>, pos: nat): (hash: nat)
    requires pos + HASHED_BYTES <= |src|
    ensures hash < TABLE_SIZE
  {
    h.HashOf(src[pos..pos + HASHED_BYTES])
  }

  /** There is no first candidate, or it is out of the window. */
  predicate NoCandidate(head: nat, pos: nat) {
    head == UNINITIALIZED || (pos - head) % TWO32 > MAX_DISTANCE
  }

  /** How many further candidates are tried after a first one with this run: a quarter if it is good enough. */
  function Depth(h: Histogram, firstRun: nat): nat {
    if firstRun > h.goodMatch then h.attempts / 4 else h.attempts
  }

  function BestMatch(h: Histogram, t: Tables, src: seq<Octet>, pos: nat, upper: nat): Found
    requires Sized(t) && pos + HASHED_BYTES <= |src| && pos <= upper < |src|
  {
    var hash := HashAt(h, src, pos);
    var head := t.table[hash];
    if NoCandidate(head, pos) then At(head, 0, hash, pos)
    else
      var first := RunLength(src, head, pos, upper);
      Walk(t, src, pos, upper, t.story[head % TABLE_SIZE], Depth(h, first), At(head, first, hash, pos))
  }

  lemma FirstCandidate(story: seq<Index>, src: seq<Octet>, pos: nat, upper: nat, start: nat, hash: nat)
    requires |story| == TABLE_SIZE && pos <= upper < |src| && pos < TWO32 && !NoCandidate(start, pos)
    ensures BestOf(story, src, pos, upper, start, [start], At(start, RunLength(src, start, pos, upper), hash, pos))
  {
    hide IsRun, RunLength;
    RunMeans(src, start, pos, upper);
    assert [start][0] == start;
  }

  lemma RunMeans(src: seq<Octet>, c: nat, pos: nat, upper: nat)
    requires pos <= upper < |src|
    ensures IsRun(src, c, pos, upper, RunLength(src, c, pos, upper))
    ensures RunLength(src, c, pos, upper) > 0 ==> c < pos
    ensures RunLength(src, c, pos, upper) <= MAX_MATCH
  {
  }

  lemma NextCandidate(story: seq<Index>, src: seq<Octet>, pos: nat, upper: nat, start: nat, seen: seq<nat>,
                      best: Found, index: nat)
    requires |story| == TABLE_SIZE && pos <= upper < |src| && pos < TWO32
    requires BestOf(story, src, pos, upper, start, seen, best)
    requires index == story[seen[|seen| - 1] % TABLE_SIZE] && pos - index <= MAX_DISTANCE
    ensures var length := RunLength(src, index, pos, upper);
        BestOf(story, src, pos, upper, start, seen + [index],
               if best.length < length then At(index, length, best.hash, pos) else best)
  {
    hide IsRun, RunLength, IsFirstLongest;
    RunMeans(src, index, pos, upper);
    var more := seen + [index];
    assert forall i :: 0 < i < |seen| ==> more[i] == story[more[i - 1] % TABLE_SIZE];
    FirstLongestNext(src, pos, upper, seen, best.index, best.length, index);
  }

  lemma FirstLongestNext(src: seq<Octet>, pos: nat, upper: nat, seen: seq<nat>, best: nat, longest: nat, index: nat)
    requires pos <= upper < |src| && IsFirstLongest(src, pos, upper, seen, best, longest)
    ensures var length := RunLength(src, index, pos, upper);
        if longest < length then IsFirstLongest(src, pos, upper, seen + [index], index, length)
        else IsFirstLongest(src, pos, upper, seen + [index], best, longest)
  {
    hide NoneAbove;
    var more, length := seen + [index], RunLength(src, index, pos, upper);
    OneMoreBelow(src, pos, upper, seen, index, longest, length);
    if longest < length {
      assert more[|seen|] == index && more[..|seen|] == seen;
    } else {
      var k :| 0 <= k < |seen| && seen[k] == best && NoneAbove(src, pos, upper, seen[..k], longest);
      assert more[k] == best && more[..k] == seen[..k];
    }
  }

  lemma OneMoreBelow(src: seq<Octet>, pos: nat, upper: nat, seen: seq<nat>, index: nat, longest: nat, length: nat)
    requires pos <= upper < |src| && length == RunLength(src, index, pos, upper)
    requires NoneAbove(src, pos, upper, seen, longest + 1)
    ensures longest < length ==>
        NoneAbove(src, pos, upper, seen + [index], length + 1) && NoneAbove(src, pos, upper, seen, length)
    ensures length <= longest ==> NoneAbove(src, pos, upper, seen + [index], longest + 1)
  {
    hide RunLength;
  }

  /** The walk extends the candidates tried by at most `left`, and stops short of that only at the end of the chain,
      out of the window or with a match that cannot be improved. */
  lemma {:induction false} WalkIsLongest(t: Tables, src: seq<Octet>, pos: nat, upper: nat, start: nat, seen: seq<nat>,
                                         index: nat, left: nat, best: Found)
    returns (all: seq<nat>)
    requires Sized(t) && pos <= upper < |src| && pos < TWO32
    requires BestOf(t.story, src, pos, upper, start, seen, best)
    requires index == t.story[seen[|seen| - 1] % TABLE_SIZE]
    ensures var found := Walk(t, src, pos, upper, index, left, best);
        && seen <= all && BestOf(t.story, src, pos, upper, start, all, found)
        && |all| <= |seen| + left
        && (|all| < |seen| + left ==>
              found.length == MAX_MATCH || !Reachable(t.story[all[|all| - 1] % TABLE_SIZE], pos))
    decreases left
  {
    hide BestOf, RunLength, IsRun, ValidMatch, IsFirstLongest;
    all := seen;
    if index != UNINITIALIZED && left > 0 && pos - index <= MAX_DISTANCE {
      BestHasChain(t.story, src, pos, upper, start, seen, best);
      NextCandidate(t.story, src, pos, upper, start, seen, best, index);
      RunMeans(src, index, pos, upper);
      all := seen + [index];
      assert all[|all| - 1] == index;
      var length := RunLength(src, index, pos, upper);
      if best.length >= length || length < MAX_MATCH {
        var better := if best.length < length then At(index, length, best.hash, pos) else best;
        all := WalkIsLongest(t, src, pos, upper, start, all, t.story[index % TABLE_SIZE], left - 1, better);
      }
    } else {
      BestHasChain(t.story, src, pos, upper, start, seen, best);
    }
  }

  lemma BestHasChain(story: seq<Index>, src: seq<Octet>, pos: nat, upper: nat, start: nat, seen: seq<nat>, best: Found)
    requires |story| == TABLE_SIZE && pos <= upper < |src| && BestOf(story, src, pos, upper, start, seen, best)
    ensures seen != [] && best.source == pos && ValidMatch(src, upper, best)
  {
  }

  /** The chosen match is valid and the first longest among the candidates tried. None is tried exactly when the head is
      unset or more than 4096 back; otherwise at most the configured attempts and one, a quarter of them if the first
      candidate is a good match, and fewer only at the end of the chain, out of the window or with a match of 258. */
  lemma BestMatchIsLongest(h: Histogram, t: Tables, src: seq<Octet>, pos: nat, upper: nat) returns (seen: seq<nat>)
    requires Sized(t) && pos + HASHED_BYTES <= |src| && pos <= upper < |src| < TWO32
    ensures var best, head := BestMatch(h, t, src, pos, upper), t.table[h.HashOf(src[pos..pos + 4])];
        && best.source == pos && ValidMatch(src, upper, best)
        && (seen == [] <==> head == 0xFFFF_FFFF || (pos - head) % 0x1_0000_0000 > 4096)
        && (seen == [] ==> best.length == 0)
        && (seen != [] ==>
              var depth := if RunLength(src, head, pos, upper) > h.goodMatch then h.attempts / 4 else h.attempts;
              && BestOf(t.story, src, pos, upper, head, seen, best)
              && |seen| <= depth + 1
              && (|seen| <= depth ==>
                    var link := t.story[seen[|seen| - 1] % 4096];
                    best.length == 258 || link == 0xFFFF_FFFF || pos - link > 4096))
  {
    hide BestOf, RunLength, Walk, ValidMatch;
    var hash := HashAt(h, src, pos);
    var head := t.table[hash];
    seen := [];
    if NoCandidate(head, pos) {
      NoMatch(src, upper, At(head, 0, hash, pos));
    } else {
      FirstCandidate(t.story, src, pos, upper, head, hash);
      var first := RunLength(src, head, pos, upper);
      seen := WalkIsLongest(t, src, pos, upper, head, [head], t.story[head % TABLE_SIZE], Depth(h, first),
                            At(head, first, hash, pos));
      BestHasChain(t.story, src, pos, upper, head, seen, BestMatch(h, t, src, pos, upper));
    }
  }

  lemma NoMatch(src: seq<Octet>, upper: nat, m: Found)
    requires m.length == 0
    ensures ValidMatch(src, upper, m)
  {
  }

  method GetBestMatch(h: Histogram, src: seq<Octet>, pos: nat, upper: nat) returns (best: Found)
    requires h.Valid() && pos + HASHED_BYTES <= |src| && pos <= upper < |src| < TWO32
    ensures best == BestMatch(h, h.Contents(), src, pos, upper)
  {
    hide IsRun, RunLength, Walk;
    ghost var t := h.Contents();
    var hashValue := h.HashOf(src[pos..pos + HASHED_BYTES]);
    var index: nat := h.table[hashValue];
    best := At(index, 0, hashValue, pos);
    if index == UNINITIALIZED || best.offset > MAX_DISTANCE { return; }

    var length := CompareStrings(src, index, pos, upper);
    best := At(index, length, hashValue, pos);

    var limit := h.attempts;
    if length > h.goodMatch { limit := limit / 4; }
    index := h.story[index % TABLE_SIZE];
    var attempt := 0;
    ghost var all := Walk(t, src, pos, upper, index, limit, best);
    while index != UNINITIALIZED && attempt < limit
      invariant attempt <= limit && best.hash == hashValue
      invariant all == Walk(t, src, pos, upper, index, limit - attempt, best)
      decreases limit - attempt
    {
      WalkNext(t, src, pos, upper, index, limit - attempt, best);
      if pos - index > MAX_DISTANCE { break; }
      length := CompareStrings(src, index, pos, upper);
      if best.length < length {
        best := At(index, length, hashValue, pos);
        if best.length >= MAX_MATCH { return; }
      }
      index := h.story[index % TABLE_SIZE];
      attempt := attempt + 1;
    }
    WalkNext(t, src, pos, upper, index, limit - attempt, best);
  }

  lemma WalkNext(t: Tables, src: seq<Octet>, pos: nat, upper: nat, index: nat, left: nat, best: Found)
    requires Sized(t) && pos <= upper < |src|
    ensures var found := Walk(t, src, pos, upper, index, left, best);
        if index == UNINITIALIZED || left == 0 || pos - index > MAX_DISTANCE then found == best
        else
          var length := RunLength(src, index, pos, upper);
          if best.length >= length then
            found == Walk(t, src, pos, upper, t.story[index % TABLE_SIZE], left - 1, best)
          else
            var better := At(index, length, best.hash, pos);
            if length >= MAX_MATCH then found == better
            else found == Walk(t, src, pos, upper, t.story[index % TABLE_SIZE], left - 1, better)
  {
    hide RunLength;
  }

  lemma AtMost(src: seq<Octet>, first: nat, second: nat, upper: nat, length: nat)
    requires IsRun(src, first, second, upper, length)
    ensures length <= MAX_MATCH
  {
  }

  // ----- "lazy matching": a match is given up for a longer one starting at the next byte -----

  function LazyFrom(h: Histogram, t: Tables, src: seq<Octet>, upper: nat, current: nat, longest: Found, next: Found)
    : Found
    requires Sized(t) && current <= upper && upper + HASHED_BYTES <= |src|
    decreases upper - current
  {
    if longest.length < next.length && longest.length < h.lazyMatch && current < upper then
      LazyFrom(h, t, src, upper, current + 1, next, BestMatch(h, t, src, current + 1, upper))
    else longest
  }

  function LazyMatch(h: Histogram, t: Tables, src: seq<Octet>, pos: nat, upper: nat): Found
    requires Sized(t) && pos < upper && upper + HASHED_BYTES <= |src|
  {
    LazyFrom(h, t, src, upper, pos + 1, BestMatch(h, t, src, pos, upper), BestMatch(h, t, src, pos + 1, upper))
  }

  /** The best match at `p` is given up for the one at the next byte. */
  predicate GivenUp(h: Histogram, t: Tables, src: seq<Octet>, upper: nat, p: nat)
    requires Sized(t) && p < upper && upper + HASHED_BYTES <= |src|
  {
    var m := BestMatch(h, t, src, p, upper);
    m.length < BestMatch(h, t, src, p + 1, upper).length && m.length < h.lazyMatch
  }

  /** The answer is the best match at the first position from `p` on whose match is not given up, or at the last one
      before the bound. */
  lemma {:induction false} LazyMatchIsFirstKept(h: Histogram, t: Tables, src: seq<Octet>, upper: nat, p: nat)
    returns (n: nat)
    requires Sized(t) && p < upper && upper + HASHED_BYTES <= |src|
    ensures p <= n < upper
    ensures LazyMatch(h, t, src, p, upper) == BestMatch(h, t, src, n, upper)
    ensures forall i :: p <= i < n ==> GivenUp(h, t, src, upper, i)
    ensures n + 1 == upper || !GivenUp(h, t, src, upper, n)
    decreases upper - p
  {
    hide BestMatch;
    n := p;
    if p + 1 < upper && GivenUp(h, t, src, upper, p) {
      n := LazyMatchIsFirstKept(h, t, src, upper, p + 1);
    }
  }

  method GetLazyBestMatch(h: Histogram, src: seq<Octet>, pos: nat, upper: nat) returns (longest: Found)
    requires h.Valid() && pos < upper && upper + HASHED_BYTES <= |src| < TWO32
    ensures longest == LazyMatch(h, h.Contents(), src, pos, upper)
  {
    hide BestMatch;
    ghost var t := h.Contents();
    var current := pos + 1;
    longest := GetBestMatch(h, src, pos, upper);
    var next := GetBestMatch(h, src, current, upper);
    while longest.length < next.length && longest.length < h.lazyMatch && current < upper
      invariant pos < current <= upper
      invariant LazyFrom(h, t, src, upper, current, longest, next) == LazyMatch(h, t, src, pos, upper)
      decreases upper - current
    {
      current := current + 1;
      longest := next;
      next := GetBestMatch(h, src, current, upper);
    }
  }
}
