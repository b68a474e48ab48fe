/** GREASE policy of a ClientHello template (hello-template/src/grease.rs). */
module Grease {
  import opened Bytes
  import Ja3

  /** `GreaseMode`: a fixed pair, a random draw, or no GREASE at all. */
  datatype GreaseMode = Fixed(x: uint16, y: uint16) | Random | None

  /** `rand_grease_pair`: a placeholder that always yields the first two
      reserved GREASE codepoints. */
  function RandGreasePair(): (uint16, uint16)
  {
    (0x0a0a, 0x1a1a)
  }

  /** `get_grease_pairs`: the pair of GREASE codepoints a mode selects;
      `(0, 0)` is the "omit" sentinel. */
  function GetGreasePairs(mode: GreaseMode): (p: (uint16, uint16))
    ensures mode.Fixed? ==> p == (mode.x, mode.y)
    ensures mode.None? ==> p == (0, 0) && !Ja3.IsGrease(p.0) && !Ja3.IsGrease(p.1)
    ensures mode.Random? ==> Ja3.IsGrease(p.0) && Ja3.IsGrease(p.1) && p.0 != p.1
  {
    match mode
    case Fixed(x, y) => (x, y)
    case Random => RandGreasePair()
    case None => (0, 0)
  }

  /** The `Random` pair is two distinct standard GREASE codepoints, and the
      sentinel of `None` can never be mistaken for a `Random` draw. */
  lemma RandomPairIsGrease()
    ensures Ja3.IsGrease(RandGreasePair().0) && Ja3.IsGrease(RandGreasePair().1)
    ensures RandGreasePair().0 != RandGreasePair().1
    ensures GetGreasePairs(Random) != GetGreasePairs(None)
  {
  }
}
