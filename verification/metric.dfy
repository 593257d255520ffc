/** The distance the duplicate search uses between two fingerprints: the
    Hamming distance of 64-bit words, summed over corresponding components. */
module Metric {

  /** One fingerprint component: an unsigned 64-bit word. */
  type U64 = x: int | 0 <= x < 0x1_0000_0000_0000_0000

  /** The number of bit positions at which `a` and `b` differ, i.e. the
      population count of `a xor b`, taken bit by bit from the low end. */
  function BitDiff(a: nat, b: nat): nat
    decreases a + b
  {
    if a == 0 && b == 0 then 0
    else (if a % 2 == b % 2 then 0 else 1) + BitDiff(a / 2, b / 2)
  }

  lemma {:induction false} BitDiffSymmetric(a: nat, b: nat)
    ensures BitDiff(a, b) == BitDiff(b, a)
    decreases a + b
  {
    if a != 0 || b != 0 {
      BitDiffSymmetric(a / 2, b / 2);
    }
  }

  lemma {:induction false} BitDiffSelf(a: nat)
    ensures BitDiff(a, a) == 0
    decreases a
  {
    if a != 0 {
      BitDiffSelf(a / 2);
    }
  }

  /** Sum of component-wise Hamming distances. Fingerprints of one hash kind
      have equal length; should the lengths differ, the extra components of
      the longer one are ignored. */
  function Distance(p: seq<U64>, q: seq<U64>): nat
    decreases |p|
  {
    if |p| == 0 || |q| == 0 then 0
    else BitDiff(p[0], q[0]) + Distance(p[1..], q[1..])
  }

  lemma {:induction false} DistanceSymmetric(p: seq<U64>, q: seq<U64>)
    ensures Distance(p, q) == Distance(q, p)
    decreases |p|
  {
    if |p| != 0 && |q| != 0 {
      BitDiffSymmetric(p[0], q[0]);
      DistanceSymmetric(p[1..], q[1..]);
    }
  }

  lemma {:induction false} DistanceSelf(p: seq<U64>)
    ensures Distance(p, p) == 0
    decreases |p|
  {
    if |p| != 0 {
      BitDiffSelf(p[0]);
      DistanceSelf(p[1..]);
    }
  }
}
