/** Facts about sequences that the codecs' proofs share. */
module Sequences {

  /** Concatenation is associative. */
  lemma Associative<T>(a: seq<T>, b: seq<T>, c: seq<T>)
    ensures (a + b) + c == a + (b + c)
  {
  }

  /** The front |a| elements of (a + b) + c are a, and the others are b + c. */
  lemma SplitConcat<T>(a: seq<T>, b: seq<T>, c: seq<T>)
    ensures ((a + b) + c)[..|a|] == a && ((a + b) + c)[|a|..] == b + c
  {
  }

  /**
   * Two writes through a chained cursor: writing x at c0 and then y where the
   * first write ended leaves the buffer as if x + y had been written at c0.
   */
  lemma ChainWrites<T>(before: seq<T>, mid: seq<T>, after: seq<T>, c0: nat, x: seq<T>, y: seq<T>)
    requires c0 + |x| + |y| <= |before|
    requires mid == before[..c0] + x + before[c0 + |x|..]
    requires after == mid[..c0 + |x|] + y + mid[c0 + |x| + |y|..]
    ensures after == before[..c0] + (x + y) + before[c0 + |x| + |y|..]
  {
    var c1 := c0 + |x|;
    assert mid[..c1] == before[..c0] + x;
    assert mid[c1 + |y|..] == before[c1 + |y|..];
  }
}
