/** Byte buffers read as bit streams. */
module Streams {
  import opened Words

  /** Bit `k` of a byte in reading order: from the low end, or from the high end when `be`. */
  function Pick(be: bool, b: Byte, k: nat): bool
    requires k < 8
  {
    if be then b[7 - k] else b[k]
  }

  /** The bits of a buffer in reading order, byte after byte. */
  function Stream(be: bool, bytes: seq<Byte>): (s: seq<bool>)
    ensures |s| == 8 * |bytes|
  {
    seq(8 * |bytes|, p requires 0 <= p < 8 * |bytes| => Pick(be, bytes[p / 8], p % 8))
  }

  function InOrder(be: bool, w: Word): (r: Word)
    ensures |r| == |w|
  {
    if be then Rev(w) else w
  }

  lemma StreamConcat(be: bool, a: seq<Byte>, b: seq<Byte>)
    ensures Stream(be, a + b) == Stream(be, a) + Stream(be, b)
  {
    var s := Stream(be, a) + Stream(be, b);
    forall p | 0 <= p < |s|
      ensures Stream(be, a + b)[p] == s[p]
    {
      if p >= 8 * |a| {
        var q := p - 8 * |a|;
        assert q / 8 == p / 8 - |a| && q % 8 == p % 8;
      }
    }
  }

  lemma StreamOne(be: bool, b: Byte)
    ensures Stream(be, [b]) == InOrder(be, b)
  {
  }

  lemma StreamFour(be: bool, b: seq<Byte>)
    requires |b| == 4
    ensures Stream(be, b) == InOrder(be, b[0]) + InOrder(be, b[1]) + InOrder(be, b[2]) + InOrder(be, b[3])
  {
    hide Stream, InOrder;
    assert b == [b[0]] + [b[1]] + [b[2]] + [b[3]];
    StreamConcat(be, [b[0]] + [b[1]] + [b[2]], [b[3]]);
    StreamConcat(be, [b[0]] + [b[1]], [b[2]]);
    StreamConcat(be, [b[0]], [b[1]]);
    forall i | 0 <= i < 4
      ensures Stream(be, [b[i]]) == InOrder(be, b[i])
    {
      StreamOne(be, b[i]);
    }
  }
}
