/** The meaning of a literal/match token stream, after section 3.2.3 of RFC 1951, and the
    symbols under which the statistics count each token. */
module Lz77 {
  import opened Numbers

  type Octet = n: nat | n < 256

  datatype Option<+X> = None | Some(value: X)

  datatype Token = Literal(octet: Octet) | Match(length: nat, distance: nat)

  const MIN_MATCH := 4
  const MAX_MATCH := 258
  const MAX_DISTANCE := 4096

  /** A copy of `length` bytes from `distance` back, byte after byte: it may overlap itself. */
  function CopyBack(out: seq<Octet>, distance: nat, length: nat): (r: seq<Octet>)
    requires 1 <= distance <= |out|
    ensures |r| == |out| + length
    decreases length
  {
    if length == 0 then out
    else CopyBack(out + [out[|out| - distance]], distance, length - 1)
  }

  function Apply(out: seq<Octet>, t: Token): Option<seq<Octet>> {
    match t
    case Literal(octet) => Some(out + [octet])
    case Match(length, distance) =>
      if 1 <= distance <= |out| then Some(CopyBack(out, distance, length)) else None
  }

  function Decode(tokens: seq<Token>): Option<seq<Octet>> {
    if tokens == [] then Some([])
    else match Decode(tokens[..|tokens| - 1])
      case None => None
      case Some(out) => Apply(out, tokens[|tokens| - 1])
  }

  /** One literal per byte. */
  function Literals(bytes: seq<Octet>): seq<Token> {
    seq(|bytes|, i requires 0 <= i < |bytes| => Literal(bytes[i]))
  }

  lemma LiteralsAppend(src: seq<Octet>, a: nat, b: nat)
    requires a <= b < |src|
    ensures Literals(src[a..b]) + [Literal(src[b])] == Literals(src[a..b + 1])
  {
  }

  function TokenLength(t: Token): nat {
    match t
    case Literal(_) => 1
    case Match(length, _) => length
  }

  function TotalLength(tokens: seq<Token>): nat {
    if tokens == [] then 0
    else TotalLength(tokens[..|tokens| - 1]) + TokenLength(tokens[|tokens| - 1])
  }

  /** Every match is one the deflate format can express and the search may produce. */
  ghost predicate WellFormed(tokens: seq<Token>) {
    forall i :: 0 <= i < |tokens| && tokens[i].Match? ==>
      MIN_MATCH <= tokens[i].length <= MAX_MATCH && 1 <= tokens[i].distance <= MAX_DISTANCE
  }

  lemma {:induction false} DecodeAppend(tokens: seq<Token>, t: Token, out: seq<Octet>)
    requires Decode(tokens) == Some(out)
    ensures Decode(tokens + [t]) == Apply(out, t)
  {
    assert (tokens + [t])[..|tokens|] == tokens;
  }

  /** Repeated source bytes are reproduced by the copy. */
  lemma {:induction false} CopyBackRepeats(src: seq<Octet>, p: nat, distance: nat, length: nat)
    requires 1 <= distance <= p && p + length <= |src|
    requires forall i :: p <= i < p + length ==> src[i] == src[i - distance]
    ensures CopyBack(src[..p], distance, length) == src[..p + length]
    decreases length
  {
    if length > 0 {
      assert src[..p] + [src[p - distance]] == src[..p + 1];
      CopyBackRepeats(src, p + 1, distance, length - 1);
    }
  }

  /** A decodable stream produces as many bytes as its tokens stand for. */
  lemma {:induction false} DecodedLength(tokens: seq<Token>)
    requires Decode(tokens).Some?
    ensures |Decode(tokens).value| == TotalLength(tokens)
    decreases |tokens|
  {
    if tokens != [] { DecodedLength(tokens[..|tokens| - 1]); }
  }

  // ----- symbols -----

  function LengthSymbol(length: nat): nat
    requires length >= 3
  {
    if length < 11 then 257 + length - 3
    else if length < 19 then 261 + (length - 3) / 2
    else if length < 35 then 265 + (length - 3) / 4
    else if length < 67 then 269 + (length - 3) / 8
    else if length < 131 then 273 + (length - 3) / 16
    else if length < 258 then 277 + (length - 3) / 32
    else 285
  }

  function DistanceSymbol(distance: nat): nat
    requires 1 <= distance <= 32768
  {
    if distance <= 2 then distance - 1
    else if distance <= 4 then distance - 1
    else if distance <= 8 then 2 + (distance - 1) / 2
    else if distance <= 16 then 4 + (distance - 1) / 4
    else if distance <= 32 then 6 + (distance - 1) / 8
    else if distance <= 64 then 8 + (distance - 1) / 16
    else if distance <= 128 then 10 + (distance - 1) / 32
    else if distance <= 256 then 12 + (distance - 1) / 64
    else if distance <= 512 then 14 + (distance - 1) / 128
    else if distance <= 1024 then 16 + (distance - 1) / 256
    else if distance <= 2048 then 18 + (distance - 1) / 512
    else if distance <= 4096 then 20 + (distance - 1) / 1024
    else if distance <= 8192 then 22 + (distance - 1) / 2048
    else if distance <= 16384 then 24 + (distance - 1) / 4096
    else 26 + (distance - 1) / 8192
  }

  /** First length of each symbol from 257 on, from the table in section 3.2.5 of RFC 1951. */
  const LENGTH_BASE: seq<nat> :=
    [3, 4, 5, 6, 7, 8, 9, 10, 11, 13, 15, 17, 19, 23, 27, 31, 35, 43, 51, 59, 67, 83, 99, 115,
     131, 163, 195, 227, 258]

  /** First distance of each distance symbol, from the same section. */
  const DISTANCE_BASE: seq<nat> :=
    [1, 2, 3, 4, 5, 7, 9, 13, 17, 25, 33, 49, 65, 97, 129, 193, 257, 385, 513, 769, 1025, 1537,
     2049, 3073, 4097, 6145, 8193, 12289, 16385, 24577]

  /** Row `s` of a table of first values holds `v`. */
  predicate InRow(base: seq<nat>, s: nat, v: nat) {
    s < |base| && base[s] <= v && (s + 1 < |base| ==> v < base[s + 1])
  }

  /** Every value from the first one on falls in some row. */
  lemma {:induction false} SomeRow(base: seq<nat>, v: nat) returns (row: nat)
    requires base != [] && base[0] <= v
    ensures InRow(base, row, v)
    decreases |base|
  {
    row := |base| - 1;
    if v < base[row] {
      row := SomeRow(base[..row], v);
    }
  }

  lemma LengthRow(length: nat, row: nat)
    requires 3 <= length <= 258 && InRow(LENGTH_BASE, row, length)
    ensures LengthSymbol(length) == 257 + row
  {
    if row < 16 { ShortLengthRow(length, row); } else { LongLengthRow(length, row); }
  }

  lemma ShortLengthRow(length: nat, row: nat)
    requires row < 16 && InRow(LENGTH_BASE, row, length)
    ensures length >= 3 && LengthSymbol(length) == 257 + row
  {
  }

  lemma LongLengthRow(length: nat, row: nat)
    requires 16 <= row && length <= 258 && InRow(LENGTH_BASE, row, length)
    ensures length >= 3 && LengthSymbol(length) == 257 + row
  {
  }

  lemma DistanceRow(distance: nat, row: nat)
    requires distance <= 32768 && InRow(DISTANCE_BASE, row, distance)
    ensures distance >= 1 && DistanceSymbol(distance) == row
  {
    if row < 12 { ShortDistanceRow(distance, row); }
    else if row < 22 { MiddleDistanceRow(distance, row); }
    else { LongDistanceRow(distance, row); }
  }

  lemma ShortDistanceRow(distance: nat, row: nat)
    requires row < 12 && InRow(DISTANCE_BASE, row, distance)
    ensures 1 <= distance <= 32768 && DistanceSymbol(distance) == row
  {
  }

  lemma MiddleDistanceRow(distance: nat, row: nat)
    requires 12 <= row < 22 && InRow(DISTANCE_BASE, row, distance)
    ensures 1 <= distance <= 32768 && DistanceSymbol(distance) == row
  {
  }

  lemma LongDistanceRow(distance: nat, row: nat)
    requires 22 <= row && distance <= 32768 && InRow(DISTANCE_BASE, row, distance)
    ensures 1 <= distance && DistanceSymbol(distance) == row
  {
  }

  /** The length symbol is the row of the RFC's table that the length falls in. */
  lemma LengthSymbolIsRfc1951(length: nat)
    requires 3 <= length <= 258
    ensures 257 <= LengthSymbol(length) && InRow(LENGTH_BASE, LengthSymbol(length) - 257, length)
  {
    hide LengthSymbol, InRow;
    var row := SomeRow(LENGTH_BASE, length);
    LengthRow(length, row);
  }

  lemma DistanceSymbolIsRfc1951(distance: nat)
    requires 1 <= distance <= 32768
    ensures InRow(DISTANCE_BASE, DistanceSymbol(distance), distance)
  {
    hide DistanceSymbol, InRow;
    var row := SomeRow(DISTANCE_BASE, distance);
    DistanceRow(distance, row);
  }

  function TokenSymbol(t: Token): nat
    requires t.Match? ==> t.length >= 3
  {
    match t
    case Literal(octet) => octet
    case Match(length, _) => LengthSymbol(length)
  }

  function Hit(b: bool): nat {
    if b then 1 else 0
  }

  /** How often a literal/length symbol occurs. */
  ghost function SymbolCount(tokens: seq<Token>, symbol: nat): nat
    requires WellFormed(tokens)
  {
    if tokens == [] then 0
    else SymbolCount(tokens[..|tokens| - 1], symbol) + Hit(TokenSymbol(tokens[|tokens| - 1]) == symbol)
  }

  predicate HasDistance(t: Token, symbol: nat) {
    t.Match? && 1 <= t.distance <= 32768 && DistanceSymbol(t.distance) == symbol
  }

  /** How often a distance symbol occurs. */
  function DistanceCount(tokens: seq<Token>, symbol: nat): nat {
    if tokens == [] then 0
    else DistanceCount(tokens[..|tokens| - 1], symbol) + Hit(HasDistance(tokens[|tokens| - 1], symbol))
  }

  lemma CountsAppend(tokens: seq<Token>, t: Token, symbol: nat)
    requires WellFormed(tokens)
    requires t.Match? ==> MIN_MATCH <= t.length <= MAX_MATCH && 1 <= t.distance <= MAX_DISTANCE
    ensures WellFormed(tokens + [t])
    ensures SymbolCount(tokens + [t], symbol) == SymbolCount(tokens, symbol) + Hit(TokenSymbol(t) == symbol)
    ensures DistanceCount(tokens + [t], symbol) == DistanceCount(tokens, symbol) + Hit(HasDistance(t, symbol))
  {
    assert (tokens + [t])[..|tokens|] == tokens;
  }

  // ----- the counts as numbers of occurrences -----

  /** The token is coded with this literal/length symbol, by the tables of the RFC: a literal by its value, a match by
      the row of its length; 256 ends a block and codes neither. */
  predicate CodedBy(t: Token, symbol: nat) {
    match t
    case Literal(octet) => symbol < 256 && octet == symbol
    case Match(length, _) => symbol > 256 && InRow(LENGTH_BASE, symbol - 257, length)
  }

  predicate DistanceCodedBy(t: Token, symbol: nat) {
    t.Match? && InRow(DISTANCE_BASE, symbol, t.distance)
  }

  lemma SymbolIsCode(t: Token, symbol: nat)
    requires t.Match? ==> MIN_MATCH <= t.length <= MAX_MATCH && 1 <= t.distance <= MAX_DISTANCE
    ensures TokenSymbol(t) == symbol <==> CodedBy(t, symbol)
    ensures HasDistance(t, symbol) <==> DistanceCodedBy(t, symbol)
  {
    hide LengthSymbol, DistanceSymbol, InRow;
    if t.Match? {
      LengthSymbolIsRfc1951(t.length);
      DistanceSymbolIsRfc1951(t.distance);
      if symbol > 256 && InRow(LENGTH_BASE, symbol - 257, t.length) { LengthRow(t.length, symbol - 257); }
      if InRow(DISTANCE_BASE, symbol, t.distance) { DistanceRow(t.distance, symbol); }
    }
  }

  /** Which tokens are coded with the symbol. */
  function Coded(tokens: seq<Token>, symbol: nat): set<nat> {
    set i: nat | i < |tokens| && CodedBy(tokens[i], symbol)
  }

  function DistanceCoded(tokens: seq<Token>, symbol: nat): set<nat> {
    set i: nat | i < |tokens| && DistanceCodedBy(tokens[i], symbol)
  }

  /** Each count is the number of tokens coded with the symbol. */
  lemma {:induction false} CountsAreOccurrences(tokens: seq<Token>, symbol: nat)
    requires WellFormed(tokens)
    ensures SymbolCount(tokens, symbol) == |Coded(tokens, symbol)|
    ensures DistanceCount(tokens, symbol) == |DistanceCoded(tokens, symbol)|
    decreases |tokens|
  {
    hide Coded, DistanceCoded, CodedBy, DistanceCodedBy, TokenSymbol, HasDistance;
    if tokens == [] {
      NoneCoded(symbol);
    } else {
      CountsAreOccurrences(tokens[..|tokens| - 1], symbol);
      SymbolIsCode(tokens[|tokens| - 1], symbol);
      OneMoreCoded(tokens, symbol);
      OneMoreDistance(tokens, symbol);
    }
  }

  lemma NoneCoded(symbol: nat)
    ensures Coded([], symbol) == {} && DistanceCoded([], symbol) == {}
  {
  }

  lemma OneMoreCoded(tokens: seq<Token>, symbol: nat)
    requires tokens != []
    ensures var k := |tokens| - 1;
        |Coded(tokens, symbol)| == |Coded(tokens[..k], symbol)| + Hit(CodedBy(tokens[k], symbol))
  {
    hide CodedBy;
    var k := |tokens| - 1;
    var few, more := Coded(tokens[..k], symbol), Coded(tokens, symbol);
    forall i: nat
      ensures i in more <==> i in few || (i == k && CodedBy(tokens[k], symbol))
    {
      if i < k { assert tokens[..k][i] == tokens[i]; }
    }
    OneMoreMember(few, more, k, CodedBy(tokens[k], symbol));
  }

  lemma OneMoreDistance(tokens: seq<Token>, symbol: nat)
    requires tokens != []
    ensures var k := |tokens| - 1;
        |DistanceCoded(tokens, symbol)|
          == |DistanceCoded(tokens[..k], symbol)| + Hit(DistanceCodedBy(tokens[k], symbol))
  {
    hide DistanceCodedBy;
    var k := |tokens| - 1;
    var few, more := DistanceCoded(tokens[..k], symbol), DistanceCoded(tokens, symbol);
    forall i: nat
      ensures i in more <==> i in few || (i == k && DistanceCodedBy(tokens[k], symbol))
    {
      if i < k { assert tokens[..k][i] == tokens[i]; }
    }
    OneMoreMember(few, more, k, DistanceCodedBy(tokens[k], symbol));
  }
}
