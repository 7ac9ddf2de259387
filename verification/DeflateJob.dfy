/** The deflate driver: it walks the input once, gathering the statistics of a token stream.
    The tokens are recorded as ghost state; they are proved to be those of a function of the input and the
    hash table, to decode to the input and to be exactly what the counters count. */
module DeflateJob {
  import opened Lz77
  import opened Numbers
  import opened Matcher

  // ----- the run as a function of the input and the tables -----

  /** Enters the position `p` under the hash of its `k` bytes. */
  function Enter(h: Histogram, t: Tables, src: seq<Octet>, p: nat, k: nat): (r: Tables)
    requires Sized(t) && p + k <= |src| && p < TWO32
    ensures Sized(r)
  {
    var hash := h.HashOf(src[p..p + k]);
    Tables(t.table[hash := p], t.story[p % TABLE_SIZE := t.table[hash]])
  }

  /** Enters all positions from `a` to `b`; fewer than four bytes are hashed only in front of `end`. */
  function EnterAll(h: Histogram, t: Tables, src: seq<Octet>, a: nat, b: nat, end: nat): (r: Tables)
    requires Sized(t) && a <= b <= end <= |src| < TWO32
    ensures Sized(r)
    decreases b - a
  {
    if a == b then t
    else
      var k := if end - a < HASHED_BYTES then end - a else HASHED_BYTES;
      EnterAll(h, Enter(h, t, src, a, k), src, a + 1, b, end)
  }

  datatype Driven = Driven(tokens: seq<Token>, tables: Tables)

  /** What the answer `m` of the match finder at `pos` turns into. */
  function Round(src: seq<Octet>, pos: nat, m: Found): seq<Token>
    requires pos <= m.source && pos < |src| && m.source <= |src|
  {
    if m.length >= MIN_MATCH then Literals(src[pos..m.source]) + [Match(m.length, m.offset)]
    else Literals(src[pos..pos + 1])
  }

  function NextPos(pos: nat, m: Found): nat {
    if m.length >= MIN_MATCH then m.source + m.length else pos + 1
  }

  /** The whole run from `pos` on: a match whenever the lazy search finds one that is long enough, else a literal,
      and literals at the end. Every position passed enters the tables before the next search. */
  ghost function Drive(h: Histogram, t: Tables, src: seq<Octet>, pos: nat): (r: Driven)
    requires Sized(t) && pos <= |src| < TWO32
    decreases |src| - pos
  {
    if pos + MIN_MATCH >= |src| then
      Driven(Literals(src[pos..]), EnterAll(h, t, src, pos, |src|, |src|))
    else
      var m := LazyMatch(h, t, src, pos, |src| - MIN_MATCH);
      LazyMatchFits(h, t, src, pos);
      var next := NextPos(pos, m);
      var rest := Drive(h, EnterAll(h, t, src, pos, next, |src|), src, next);
      Driven(Round(src, pos, m) + rest.tokens, rest.tables)
  }

  lemma LazyMatchIsValid(h: Histogram, t: Tables, src: seq<Octet>, pos: nat, upper: nat)
    requires Sized(t) && pos < upper && upper + HASHED_BYTES <= |src| < TWO32
    ensures var m := LazyMatch(h, t, src, pos, upper);
        && pos <= m.source < upper && ValidMatch(src, upper, m) && m.source + m.length <= upper
  {
    hide LazyMatch, BestMatch, RunLength;
    var n := LazyMatchIsFirstKept(h, t, src, upper, pos);
    var seen := BestMatchIsLongest(h, t, src, n, upper);
  }

  lemma LazyMatchFits(h: Histogram, t: Tables, src: seq<Octet>, pos: nat)
    requires Sized(t) && pos + MIN_MATCH < |src| < TWO32
    ensures var m := LazyMatch(h, t, src, pos, |src| - MIN_MATCH);
        pos <= m.source <= |src| && pos < NextPos(pos, m) <= |src|
  {
    hide LazyMatch, ValidMatch;
    LazyMatchIsValid(h, t, src, pos, |src| - MIN_MATCH);
  }

  /** Whatever the tables hold, the tokens decode to exactly the input. */
  lemma {:induction false} DriveDecodes(h: Histogram, t: Tables, src: seq<Octet>, pos: nat, tokens: seq<Token>)
    requires Sized(t) && pos <= |src| < TWO32 && Decode(tokens) == Some(src[..pos])
    ensures Decode(tokens + Drive(h, t, src, pos).tokens) == Some(src)
    decreases |src| - pos
  {
    hide Decode, LazyMatch, EnterAll, ValidMatch, Literals, Round;
    if pos + MIN_MATCH >= |src| {
      LiteralsDecode(tokens, src, pos, |src|);
      assert src[..|src|] == src && src[pos..|src|] == src[pos..];
    } else {
      var m := LazyMatch(h, t, src, pos, |src| - MIN_MATCH);
      LazyMatchFits(h, t, src, pos);
      var next := NextPos(pos, m);
      RoundDecodes(h, t, src, pos, tokens);
      var t' := EnterAll(h, t, src, pos, next, |src|);
      var rest := Drive(h, t', src, next).tokens;
      DriveDecodes(h, t', src, next, tokens + Round(src, pos, m));
      assert tokens + Round(src, pos, m) + rest == tokens + (Round(src, pos, m) + rest);
    }
  }

  lemma RoundDecodes(h: Histogram, t: Tables, src: seq<Octet>, pos: nat, tokens: seq<Token>)
    requires Sized(t) && pos + MIN_MATCH < |src| < TWO32 && Decode(tokens) == Some(src[..pos])
    ensures var m := LazyMatch(h, t, src, pos, |src| - MIN_MATCH);
        && pos <= m.source <= |src| && NextPos(pos, m) <= |src|
        && Decode(tokens + Round(src, pos, m)) == Some(src[..NextPos(pos, m)])
  {
    hide Decode, LazyMatch, ValidMatch, Literals;
    var upper := |src| - MIN_MATCH;
    var m := LazyMatch(h, t, src, pos, upper);
    LazyMatchIsValid(h, t, src, pos, upper);
    if m.length >= MIN_MATCH {
      LiteralsDecode(tokens, src, pos, m.source);
      MatchDecodes(tokens + Literals(src[pos..m.source]), src, upper, m);
      assert tokens + Round(src, pos, m) == tokens + Literals(src[pos..m.source]) + [Match(m.length, m.offset)];
    } else {
      LiteralsDecode(tokens, src, pos, pos + 1);
    }
  }

  // ----- the run without the function: cuts, and the tokens between them -----

  /** Between the cuts `c` and `next`, whose tokens are numbers `a` to `b`: the lazy match at `c`, for the tables with
      every position from `start` to `c` entered, if it has at least four bytes, behind the literals it skipped; or one
      literal. */
  ghost predicate RoundAt(h: Histogram, t: Tables, src: seq<Octet>, start: nat, tokens: seq<Token>,
                          c: nat, next: nat, a: nat, b: nat)
    requires Sized(t) && |src| < TWO32
  {
    && start <= c && c + 4 < |src| && a <= b <= |tokens|
    && var m := LazyMatch(h, EnterAll(h, t, src, start, c, |src|), src, c, |src| - 4);
       if m.length >= 4 then
         && c <= m.source <= |src| && next == m.source + m.length
         && tokens[a..b] == Literals(src[c..m.source]) + [Match(m.length, m.offset)]
       else next == c + 1 && tokens[a..b] == [Literal(src[c])]
  }

  /** The tokens from position `first` on are rounds at the positions `cuts`, each starting at the token of the same
      number in `at`, and literals from the last cut on, which is within four bytes of the end. */
  ghost predicate CutInRounds(h: Histogram, t: Tables, src: seq<Octet>, start: nat, first: nat, tokens: seq<Token>,
                              cuts: seq<nat>, at: seq<nat>)
    requires Sized(t) && |src| < TWO32
  {
    && |cuts| == |at| > 0 && cuts[0] == first && at[0] == 0
    && (forall i :: 0 <= i < |cuts| - 1 ==> RoundAt(h, t, src, start, tokens, cuts[i], cuts[i + 1], at[i], at[i + 1]))
    && LastRound(src, tokens, cuts[|cuts| - 1], at[|at| - 1])
  }

  ghost predicate LastRound(src: seq<Octet>, tokens: seq<Token>, c: nat, a: nat) {
    c <= |src| <= c + 4 && a <= |tokens| && tokens[a..] == Literals(src[c..])
  }

  lemma RoundShifts(h: Histogram, t: Tables, src: seq<Octet>, start: nat, front: seq<Token>, tokens: seq<Token>,
                    c: nat, next: nat, a: nat, b: nat)
    requires Sized(t) && |src| < TWO32 && RoundAt(h, t, src, start, tokens, c, next, a, b)
    ensures RoundAt(h, t, src, start, front + tokens, c, next, |front| + a, |front| + b)
  {
    hide LazyMatch, EnterAll, Literals;
    assert (front + tokens)[|front| + a..|front| + b] == tokens[a..b];
  }

  lemma CutShifts(h: Histogram, t: Tables, src: seq<Octet>, start: nat, pos: nat, next: nat, front: seq<Token>,
                  tokens: seq<Token>, cuts: seq<nat>, at: seq<nat>)
    returns (cuts': seq<nat>, at': seq<nat>)
    requires Sized(t) && |src| < TWO32 && CutInRounds(h, t, src, start, next, tokens, cuts, at)
    requires RoundAt(h, t, src, start, front + tokens, pos, next, 0, |front|)
    ensures CutInRounds(h, t, src, start, pos, front + tokens, cuts', at')
  {
    hide RoundAt, Literals;
    var all := front + tokens;
    cuts' := [pos] + cuts;
    at' := [0] + seq(|at|, i requires 0 <= i < |at| => |front| + at[i]);
    forall i | 0 <= i < |cuts'| - 1
      ensures RoundAt(h, t, src, start, all, cuts'[i], cuts'[i + 1], at'[i], at'[i + 1])
    {
      if i > 0 { RoundShifts(h, t, src, start, front, tokens, cuts[i - 1], cuts[i], at[i - 1], at[i]); }
    }
    assert all[|front| + at[|at| - 1]..] == tokens[at[|at| - 1]..];
  }

  /** The whole run is cut so. */
  lemma {:induction false} DriveInRounds(h: Histogram, t: Tables, src: seq<Octet>, start: nat, pos: nat)
    returns (cuts: seq<nat>, at: seq<nat>)
    requires Sized(t) && start <= pos <= |src| < TWO32
    ensures var run := Drive(h, EnterAll(h, t, src, start, pos, |src|), src, pos);
        && CutInRounds(h, t, src, start, pos, run.tokens, cuts, at)
        && run.tables == EnterAll(h, t, src, start, |src|, |src|)
    decreases |src| - pos
  {
    hide LazyMatch, EnterAll, Literals, CutInRounds;
    var now := EnterAll(h, t, src, start, pos, |src|);
    var run := Drive(h, now, src, pos);
    if pos + MIN_MATCH >= |src| {
      cuts, at := [pos], [0];
      OnlyLiterals(h, t, src, start, pos, run.tokens);
      EnterInPieces(h, t, src, start, pos, |src|, |src|);
    } else {
      var m := LazyMatch(h, now, src, pos, |src| - MIN_MATCH);
      LazyMatchFits(h, now, src, pos);
      var next := NextPos(pos, m);
      EnterInPieces(h, t, src, start, pos, next, |src|);
      var rest := Drive(h, EnterAll(h, t, src, start, next, |src|), src, next);
      cuts, at := DriveInRounds(h, t, src, start, next);
      FirstRound(h, t, src, start, pos, rest.tokens);
      cuts, at := CutShifts(h, t, src, start, pos, next, Round(src, pos, m), rest.tokens, cuts, at);
    }
  }

  lemma OnlyLiterals(h: Histogram, t: Tables, src: seq<Octet>, start: nat, pos: nat, tokens: seq<Token>)
    requires Sized(t) && pos <= |src| < TWO32 && pos + 4 >= |src| && tokens == Literals(src[pos..])
    ensures CutInRounds(h, t, src, start, pos, tokens, [pos], [0])
  {
    hide Literals, RoundAt;
  }

  lemma FirstRound(h: Histogram, t: Tables, src: seq<Octet>, start: nat, pos: nat, rest: seq<Token>)
    requires Sized(t) && start <= pos && pos + 4 < |src| < TWO32
    ensures var m := LazyMatch(h, EnterAll(h, t, src, start, pos, |src|), src, pos, |src| - 4);
        && pos <= m.source <= |src|
        && var front := Round(src, pos, m);
           RoundAt(h, t, src, start, front + rest, pos, NextPos(pos, m), 0, |front|)
  {
    hide LazyMatch, EnterAll;
    var now := EnterAll(h, t, src, start, pos, |src|);
    LazyMatchFits(h, now, src, pos);
    var front := Round(src, pos, LazyMatch(h, now, src, pos, |src| - 4));
    assert (front + rest)[0..|front|] == front;
  }

  /** So every match of at least four bytes that the search finds at a cut is among the tokens. */
  lemma MatchIsTaken(h: Histogram, t: Tables, src: seq<Octet>, start: nat, first: nat, tokens: seq<Token>,
                     cuts: seq<nat>, at: seq<nat>, i: nat)
    requires Sized(t) && |src| < TWO32 && CutInRounds(h, t, src, start, first, tokens, cuts, at) && i + 1 < |cuts|
    ensures start <= cuts[i] && cuts[i] + 4 < |src|
    ensures var m := LazyMatch(h, EnterAll(h, t, src, start, cuts[i], |src|), src, cuts[i], |src| - 4);
        m.length >= 4 ==> Match(m.length, m.offset) in tokens
  {
    hide LazyMatch, EnterAll, Literals;
    assert RoundAt(h, t, src, start, tokens, cuts[i], cuts[i + 1], at[i], at[i + 1]);
    var m := LazyMatch(h, EnterAll(h, t, src, start, cuts[i], |src|), src, cuts[i], |src| - 4);
    if m.length >= 4 {
      var part := tokens[at[i]..at[i + 1]];
      assert part[|part| - 1] == Match(m.length, m.offset);
    }
  }

  // ----- what the tables hold -----

  /** The hash under which position `p` is entered. */
  function KeyAt(h: Histogram, src: seq<Octet>, p: nat, end: nat): nat
    requires p <= end <= |src|
  {
    h.HashOf(src[p..if end - p < 4 then end else p + 4])
  }

  /** After entering the positions from `a` to `b`, the head for a hash is the last of them with that hash, or the old
      head if there is none. */
  lemma {:induction false} HeadIsNewest(h: Histogram, t: Tables, src: seq<Octet>, a: nat, b: nat, end: nat, hash: nat)
    requires Sized(t) && a <= b <= end <= |src| < TWO32 && hash < 4096
    ensures var head := EnterAll(h, t, src, a, b, end).table[hash];
        if exists p :: a <= p < b && KeyAt(h, src, p, end) == hash
        then && a <= head < b && KeyAt(h, src, head, end) == hash
             && forall p :: head < p < b ==> KeyAt(h, src, p, end) != hash
        else head == t.table[hash]
    decreases b - a
  {
    hide KeyAt;
    if a < b {
      var t' := Entered(h, t, src, a, b, end);
      HeadIsNewest(h, t', src, a + 1, b, end, hash);
    }
  }

  /** The first position entered, on its own. */
  lemma Entered(h: Histogram, t: Tables, src: seq<Octet>, a: nat, b: nat, end: nat) returns (t': Tables)
    requires Sized(t) && a < b <= end <= |src| < TWO32
    ensures Sized(t') && KeyAt(h, src, a, end) < 4096
    ensures EnterAll(h, t, src, a, b, end) == EnterAll(h, t', src, a + 1, b, end)
    ensures t'.table == t.table[KeyAt(h, src, a, end) := a]
    ensures t'.story == t.story[a % 4096 := t.table[KeyAt(h, src, a, end)]]
  {
    var k := if end - a < HASHED_BYTES then end - a else HASHED_BYTES;
    t' := Enter(h, t, src, a, k);
  }

  /** The link of a position that is not overwritten is the head that its hash had before; every slot that no position
      falls in keeps its link. */
  lemma {:induction false} LinkIsFormerHead(h: Histogram, t: Tables, src: seq<Octet>, a: nat, b: nat, end: nat, p: nat)
    requires Sized(t) && a <= b <= end <= |src| < TWO32 && p < |src|
    ensures a <= p < b <= p + 4096 ==>
        KeyAt(h, src, p, end) < 4096
        && EnterAll(h, t, src, a, b, end).story[p % 4096] == EnterAll(h, t, src, a, p, end).table[KeyAt(h, src, p, end)]
    ensures b <= p < a + 4096 ==> EnterAll(h, t, src, a, b, end).story[p % 4096] == t.story[p % 4096]
    decreases b - a
  {
    hide KeyAt, EnterAll;
    if a < b {
      var t' := Entered(h, t, src, a, b, end);
      if a < p {
        if p < a + 4096 { SlotsDiffer(a, p); }
        LinkIsFormerHead(h, t', src, a + 1, b, end, p);
        if p < b { var t'' := Entered(h, t, src, a, p, end); }
      } else if a == p && b <= p + 4096 {
        OtherSlots(h, t', src, a + 1, b, end, p);
        NoneEntered(h, t, src, a, end);
      }
    } else {
      NoneEntered(h, t, src, a, end);
    }
  }

  lemma NoneEntered(h: Histogram, t: Tables, src: seq<Octet>, a: nat, end: nat)
    requires Sized(t) && a <= end <= |src| < TWO32
    ensures EnterAll(h, t, src, a, a, end) == t
  {
  }

  lemma SlotsDiffer(p: nat, q: nat)
    requires p < q < p + 4096
    ensures p % 4096 != q % 4096
  {
  }

  lemma {:induction false} OtherSlots(h: Histogram, t: Tables, src: seq<Octet>, a: nat, b: nat, end: nat, p: nat)
    requires Sized(t) && p < a <= b <= end <= |src| < TWO32 && b <= p + 4096
    ensures EnterAll(h, t, src, a, b, end).story[p % 4096] == t.story[p % 4096]
    decreases b - a
  {
    hide KeyAt, EnterAll;
    if a < b {
      var t' := Entered(h, t, src, a, b, end);
      SlotsDiffer(p, a);
      OtherSlots(h, t', src, a + 1, b, end, p);
    } else {
      NoneEntered(h, t, src, a, end);
    }
  }

  lemma {:induction false} LiteralsDecode(tokens: seq<Token>, src: seq<Octet>, p: nat, q: nat)
    requires p <= q <= |src| && Decode(tokens) == Some(src[..p])
    ensures Decode(tokens + Literals(src[p..q])) == Some(src[..q])
    decreases q - p
  {
    hide Decode;
    if p == q {
      assert tokens + Literals(src[p..q]) == tokens;
    } else {
      LiteralDecodes(tokens, src, p);
      LiteralsDecode(tokens + [Literal(src[p])], src, p + 1, q);
      assert tokens + [Literal(src[p])] + Literals(src[p + 1..q]) == tokens + Literals(src[p..q]);
    }
  }

  class Job {
    const src: seq<Octet>
    const h: Histogram
    var current: nat
    var bytesRead: nat
    ghost var tokens: seq<Token>
    ghost const literals0: seq<nat>
    ghost const offsets0: seq<nat>

    /** Everything before the current position is accounted for. */
    ghost predicate Valid()
      reads this, h.literalsMatches, h.offsets
    {
      && Sound() && h.Valid()
      && Decode(tokens) == Some(src[..current])
      && Counted()
    }

    ghost predicate Sound()
      reads this
    {
      && |src| < TWO32 && current <= |src| && bytesRead == current && WellFormed(tokens)
    }

    /** The counters have grown by the number of tokens with each symbol. */
    ghost predicate Counted()
      requires WellFormed(tokens)
      reads this, h.literalsMatches, h.offsets
    {
      && h.literalsMatches.Length == |literals0| == 286 && h.offsets.Length == |offsets0| == 30
      && (forall s :: 0 <= s < 286 ==> h.literalsMatches[s] == literals0[s] + SymbolCount(tokens, s))
      && (forall s :: 0 <= s < 30 ==> h.offsets[s] == offsets0[s] + DistanceCount(tokens, s))
    }

    /** Starts on a new input, with the counters as they are. */
    constructor (source: seq<Octet>, histogram: Histogram)
      requires histogram.Valid() && |source| < TWO32
      ensures src == source && h == histogram
      ensures current == 0 && bytesRead == 0 && tokens == []
      ensures literals0 == histogram.literalsMatches[..] && offsets0 == histogram.offsets[..]
      ensures Valid()
    {
      src, h := source, histogram;
      current, bytesRead, tokens := 0, 0, [];
      literals0, offsets0 := histogram.literalsMatches[..], histogram.offsets[..];
    }

    method SwitchToNext(range: nat)
      modifies this`current, this`bytesRead
      ensures current == old(current) + range && bytesRead == old(bytesRead) + range
    {
      current := current + range;
      bytesRead := bytesRead + range;
    }

    method HashTableUpdate(newIndex: Index, hashValue: nat)
      requires h.Valid() && hashValue < TABLE_SIZE
      modifies h.table, h.story
      ensures h.table[..] == old(h.table[..])[hashValue := newIndex]
      ensures h.story[..] == old(h.story[..])[newIndex % TABLE_SIZE := old(h.table[hashValue])]
    {
      var currentIndex := h.table[hashValue];
      h.table[hashValue] := newIndex;
      h.story[newIndex % TABLE_SIZE] := currentIndex;
    }

    /** Hashes the next `hashedBytes` bytes and enters the current position. */
    method EnterPosition(hashedBytes: nat)
      requires h.Valid() && current + hashedBytes <= |src| && current < TWO32
      modifies h.table, h.story
      ensures h.Contents() == Enter(h, old(h.Contents()), src, current, hashedBytes)
    {
      var hashValue := h.HashOf(src[current..current + hashedBytes]);
      HashTableUpdate(current, hashValue);
    }

    /** The step both literal loops share: count the byte, enter it in the hash table, move on. */
    method TakeLiteral(hashedBytes: nat)
      requires Valid() && current < |src| && current + hashedBytes <= |src|
      modifies this`current, this`bytesRead, this`tokens, h.table, h.story, h.literalsMatches
      ensures Valid() && current == old(current) + 1
      ensures tokens == old(tokens) + [Literal(src[old(current)])]
      ensures h.Contents() == Enter(h, old(h.Contents()), src, old(current), hashedBytes)
    {
      hide Enter, Decode, SymbolCount, DistanceCount, WellFormed;
      var octet := src[current];
      h.literalsMatches[octet] := h.literalsMatches[octet] + 1;
      EnterPosition(hashedBytes);
      SwitchToNext(1);
      tokens := tokens + [Literal(octet)];
      LiteralDecodes(old(tokens), src, old(current));
      LiteralCounts(old(tokens), octet);
    }

    method ProcessLiterals(upper: nat, safe: bool)
      requires Valid() && upper <= |src| && (safe || upper + HASHED_BYTES <= |src| + 1)
      modifies this`current, this`bytesRead, this`tokens, h.table, h.story, h.literalsMatches
      ensures Valid()
      ensures current == if old(current) < upper then upper else old(current)
      ensures old(current) <= upper ==>
        && tokens == old(tokens) + Literals(src[old(current)..upper])
        && h.Contents() == EnterAll(h, old(h.Contents()), src, old(current), upper, if safe then upper else |src|)
      ensures old(current) > upper ==> tokens == old(tokens) && h.Contents() == old(h.Contents())
    {
      hide Decode, SymbolCount, DistanceCount, WellFormed, Literals, Enter;
      ghost var start, t := current, h.Contents();
      ghost var end := if safe then upper else |src|;
      NoLiterals(src, start);
      if safe {
        while current < upper
          invariant Valid() && start <= current && (current <= upper || current == start)
          invariant tokens == old(tokens) + Literals(src[start..current])
          invariant start <= upper ==>
              EnterAll(h, h.Contents(), src, current, upper, end) == EnterAll(h, t, src, start, upper, end)
          invariant start > upper ==> h.Contents() == t
        {
          LiteralsAppend(src, start, current);
          TakeLiteral(if upper - current < HASHED_BYTES then upper - current else HASHED_BYTES);
        }
      } else {
        while current < upper
          invariant Valid() && start <= current && (current <= upper || current == start)
          invariant tokens == old(tokens) + Literals(src[start..current])
          invariant start <= upper ==>
              EnterAll(h, h.Contents(), src, current, upper, end) == EnterAll(h, t, src, start, upper, end)
          invariant start > upper ==> h.Contents() == t
        {
          LiteralsAppend(src, start, current);
          TakeLiteral(HASHED_BYTES);
        }
      }
    }

    /** Enters the bytes covered by a match in the hash table. */
    method UpdateMissedLiterals(upper: nat)
      requires h.Valid() && |src| < TWO32 && current <= upper && upper + HASHED_BYTES <= |src| + 1
      modifies this`current, this`bytesRead, h.table, h.story
      ensures current == upper && bytesRead == old(bytesRead) + (upper - old(current))
      ensures h.Contents() == EnterAll(h, old(h.Contents()), src, old(current), upper, |src|)
    {
      hide Enter;
      ghost var start, t := current, h.Contents();
      while current < upper
        invariant start <= current <= upper && bytesRead - current == old(bytesRead - current)
        invariant EnterAll(h, h.Contents(), src, current, upper, |src|) == EnterAll(h, t, src, start, upper, |src|)
      {
        EnterPosition(HASHED_BYTES);
        SwitchToNext(1);
      }
    }

    method HistogramUpdateMatch(length: nat, offset: nat)
      requires h.Valid() && 3 <= length && LengthSymbol(length) < 286
      requires 1 <= offset <= MAX_DISTANCE && DistanceSymbol(offset) < 30
      modifies h.literalsMatches, h.offsets
      ensures var s := LengthSymbol(length);
              h.literalsMatches[..] == old(h.literalsMatches[..])[s := old(h.literalsMatches[s]) + 1]
      ensures var s := DistanceSymbol(offset);
              h.offsets[..] == old(h.offsets[..])[s := old(h.offsets[s]) + 1]
    {
      h.literalsMatches[LengthSymbol(length)] := h.literalsMatches[LengthSymbol(length)] + 1;
      h.offsets[DistanceSymbol(offset)] := h.offsets[DistanceSymbol(offset)] + 1;
    }

    method ProcessMatch(m: Found, ghost upper: nat)
      requires Valid() && upper + HASHED_BYTES <= |src| && current <= m.source <= upper
      requires m.length >= MIN_MATCH && ValidMatch(src, upper, m)
      modifies this`current, this`bytesRead, this`tokens, h.table, h.story, h.literalsMatches, h.offsets
      ensures Valid() && current == m.source + m.length
      ensures tokens == old(tokens) + Literals(src[old(current)..m.source]) + [Match(m.length, m.offset)]
      ensures h.Contents() == EnterAll(h, old(h.Contents()), src, old(current), current, |src|)
    {
      hide Decode, IsRun, SymbolCount, DistanceCount, LengthSymbol, DistanceSymbol, Literals, EnterAll;
      ghost var t := h.Contents();
      ProcessLiterals(m.source, false);
      ghost var before := tokens;
      MatchDecodes(before, src, upper, m);
      AtMost(src, m.index, m.source, upper, m.length);
      MatchCounts(before, m.length, m.offset);
      var next := current + m.length;
      HistogramUpdateMatch(m.length, m.offset);
      tokens := tokens + [Match(m.length, m.offset)];
      UpdateMissedLiterals(next);
      EnterInPieces(h, t, src, old(current), m.source, next, |src|);
    }

    /** One round of the main loop. */
    method TakeRound(upper: nat)
      requires Valid() && current < upper && upper + MIN_MATCH == |src|
      modifies this`current, this`bytesRead, this`tokens, h.table, h.story, h.literalsMatches, h.offsets
      ensures Valid() && old(current) < current
      ensures Drive(h, old(h.Contents()), src, old(current)).tables == Drive(h, h.Contents(), src, current).tables
      ensures old(tokens) + Drive(h, old(h.Contents()), src, old(current)).tokens
           == tokens + Drive(h, h.Contents(), src, current).tokens
    {
      hide Decode, IsRun, SymbolCount, DistanceCount, WellFormed, Literals, EnterAll, LazyMatch;
      ghost var t, pos := h.Contents(), current;
      var m := GetLazyBestMatch(h, src, current, upper);
      LazyMatchIsValid(h, t, src, current, upper);
      if m.length >= MIN_MATCH {
        ProcessMatch(m, upper);
      } else {
        ProcessLiterals(current + 1, false);
      }
      ghost var rest := Drive(h, h.Contents(), src, current).tokens;
      assert old(tokens) + (Round(src, pos, m) + rest) == tokens + rest;
    }

    /** The whole run, with the match finder and the handlers of the high-level statistics pass. */
    method Perform()
      requires Valid()
      modifies this`current, this`bytesRead, this`tokens, h.table, h.story, h.literalsMatches, h.offsets
      ensures Valid() && current == bytesRead == |src|
      ensures Decode(tokens) == Some(src) && TotalLength(tokens) == |src|
      ensures var run := Drive(h, old(h.Contents()), src, old(current));
          tokens == old(tokens) + run.tokens && h.Contents() == run.tables
      ensures h.Contents() == EnterAll(h, old(h.Contents()), src, old(current), |src|, |src|)
      ensures exists cuts, at :: CutInRounds(h, old(h.Contents()), src, old(current), old(current),
                                             tokens[|old(tokens)|..], cuts, at)
      ensures forall s :: 0 <= s < 286 ==> h.literalsMatches[s] == literals0[s] + |Coded(tokens, s)|
      ensures forall s :: 0 <= s < 30 ==> h.offsets[s] == offsets0[s] + |DistanceCoded(tokens, s)|
    {
      hide Decode, IsRun, SymbolCount, DistanceCount, WellFormed, Literals, EnterAll, LazyMatch, CutInRounds, Coded,
        DistanceCoded;
      var upper := |src| - MIN_MATCH;
      ghost var t, start, before := h.Contents(), current, tokens;
      while current < upper
        invariant Valid()
        invariant Drive(h, h.Contents(), src, current).tables == Drive(h, t, src, start).tables
        invariant tokens + Drive(h, h.Contents(), src, current).tokens == before + Drive(h, t, src, start).tokens
        decreases |src| - current
      {
        TakeRound(upper);
      }
      ProcessLiterals(|src|, true);
      assert src[..|src|] == src;
      DecodedLength(tokens);
      RunInRounds(h, t, src, start, before, tokens);
      forall s: nat {
        CountsAreOccurrences(tokens, s);
      }
    }
  }

  lemma RunInRounds(h: Histogram, t: Tables, src: seq<Octet>, start: nat, before: seq<Token>, tokens: seq<Token>)
    requires Sized(t) && start <= |src| < TWO32 && tokens == before + Drive(h, t, src, start).tokens
    ensures Drive(h, t, src, start).tables == EnterAll(h, t, src, start, |src|, |src|)
    ensures exists cuts, at :: CutInRounds(h, t, src, start, start, tokens[|before|..], cuts, at)
  {
    hide Drive, CutInRounds;
    var cuts, at := DriveInRounds(h, t, src, start, start);
    assert EnterAll(h, t, src, start, start, |src|) == t;
    assert tokens[|before|..] == Drive(h, t, src, start).tokens;
  }

  lemma {:induction false} EnterInPieces(h: Histogram, t: Tables, src: seq<Octet>, a: nat, b: nat, c: nat, end: nat)
    requires Sized(t) && a <= b <= c <= end <= |src| < TWO32
    ensures EnterAll(h, EnterAll(h, t, src, a, b, end), src, b, c, end) == EnterAll(h, t, src, a, c, end)
    decreases b - a
  {
    if a < b {
      var k := if end - a < HASHED_BYTES then end - a else HASHED_BYTES;
      EnterInPieces(h, Enter(h, t, src, a, k), src, a + 1, b, c, end);
    }
  }

  lemma MatchDecodes(tokens: seq<Token>, src: seq<Octet>, upper: nat, m: Found)
    requires upper < |src| && m.length > 0 && ValidMatch(src, upper, m)
    requires Decode(tokens) == Some(src[..m.source])
    ensures m.source + m.length <= upper
    ensures Decode(tokens + [Match(m.length, m.offset)]) == Some(src[..m.source + m.length])
  {
    CopyBackRepeats(src, m.source, m.offset, m.length);
    DecodeAppend(tokens, Match(m.length, m.offset), src[..m.source]);
  }

  lemma MatchCounts(tokens: seq<Token>, length: nat, offset: nat)
    requires WellFormed(tokens) && MIN_MATCH <= length <= MAX_MATCH && 1 <= offset <= MAX_DISTANCE
    ensures var more := tokens + [Match(length, offset)];
            && WellFormed(more)
            && (forall s: nat :: SymbolCount(more, s) == SymbolCount(tokens, s) + Hit(LengthSymbol(length) == s))
            && (forall s: nat :: DistanceCount(more, s) == DistanceCount(tokens, s) + Hit(DistanceSymbol(offset) == s))
    ensures LengthSymbol(length) < 286 && DistanceSymbol(offset) < 30
  {
    forall s: nat {
      CountsAppend(tokens, Match(length, offset), s);
    }
  }

  lemma NoLiterals(src: seq<Octet>, p: nat)
    requires p <= |src|
    ensures Literals(src[p..p]) == []
  {
  }

  lemma LiteralDecodes(tokens: seq<Token>, src: seq<Octet>, p: nat)
    requires p < |src| && Decode(tokens) == Some(src[..p])
    ensures Decode(tokens + [Literal(src[p])]) == Some(src[..p + 1])
  {
    DecodeAppend(tokens, Literal(src[p]), src[..p]);
    assert src[..p] + [src[p]] == src[..p + 1];
  }

  lemma LiteralCounts(tokens: seq<Token>, octet: Octet)
    requires WellFormed(tokens)
    ensures var more := tokens + [Literal(octet)];
            && WellFormed(more)
            && (forall s: nat :: SymbolCount(more, s) == SymbolCount(tokens, s) + Hit(octet == s))
            && (forall s: nat :: DistanceCount(more, s) == DistanceCount(tokens, s))
  {
    forall s: nat {
      CountsAppend(tokens, Literal(octet), s);
    }
  }
}
