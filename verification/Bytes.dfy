/** Machine bytes. */
module Bytes {
  type byte = x: int | 0 <= x < 256

  /** Two memories that agree outside a range. */
  ghost predicate ChangedWithin(m: seq<byte>, m': seq<byte>, lo: nat, hi: nat) {
    |m'| == |m| && forall i :: 0 <= i < |m| && !(lo <= i < hi) ==> m'[i] == m[i]
  }
}
