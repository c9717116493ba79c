/** Allocation bitmaps: first-fit search for a run of clear bits (pintos/src/lib/kernel/bitmap.c),
    as the page allocator and the disk free map use them. */
module Bitmap {
  import opened Options

  /** cnt bits from start, all inside the map and all equal to value. */
  predicate RunOf(bits: seq<bool>, start: nat, cnt: nat, value: bool) {
    start + cnt <= |bits| && forall i :: start <= i < start + cnt ==> bits[i] == value
  }

  function SetRun(bits: seq<bool>, start: nat, cnt: nat, value: bool): (r: seq<bool>)
    requires start + cnt <= |bits|
    ensures |r| == |bits|
    ensures forall i :: 0 <= i < |bits| ==> r[i] == if start <= i < start + cnt then value else bits[i]
  {
    bits[..start] + seq(cnt, i => value) + bits[start + cnt..]
  }

  /** The first run of cnt clear bits, if there is one. */
  ghost predicate FirstFit(bits: seq<bool>, cnt: nat, r: Option<nat>) {
    match r
    case Some(i) => RunOf(bits, i, cnt, false) && forall j :: 0 <= j < i ==> !RunOf(bits, j, cnt, false)
    case None => forall j: nat :: !RunOf(bits, j, cnt, false)
  }

  class BitMap {
    var bits: seq<bool>

    constructor (size: nat)
      ensures bits == seq(size, i => false)
    {
      bits := seq(size, i => false);
    }

    /** `bitmap_contains` with the search value negated: are all cnt bits from start equal to value? */
    method All(start: nat, cnt: nat, value: bool) returns (r: bool)
      requires start + cnt <= |bits|
      ensures r <==> RunOf(bits, start, cnt, value)
    {
      for i := 0 to cnt
        invariant RunOf(bits, start, i, value)
      {
        if bits[start + i] != value { return false; }
      }
      r := true;
    }

    method SetMultiple(start: nat, cnt: nat, value: bool)
      requires start + cnt <= |bits|
      modifies this
      ensures bits == SetRun(old(bits), start, cnt, value)
    {
      for i := 0 to cnt
        invariant |bits| == |old(bits)|
        invariant bits == SetRun(old(bits), start, i, value)
      {
        bits := bits[start + i := value];
      }
    }

    /** `bitmap_scan_and_flip (b, 0, cnt, false)`. */
    method ScanAndFlip(cnt: nat) returns (r: Option<nat>)
      modifies this
      ensures FirstFit(old(bits), cnt, r)
      ensures bits == if r.Some? then SetRun(old(bits), r.value, cnt, true) else old(bits)
    {
      if cnt <= |bits| {
        var last := |bits| - cnt;
        for i := 0 to last + 1
          invariant bits == old(bits)
          invariant forall j :: 0 <= j < i ==> !RunOf(bits, j, cnt, false)
        {
          var free := All(i, cnt, false);
          if free {
            SetMultiple(i, cnt, true);
            return Some(i);
          }
        }
      }
      r := None;
    }
  }
}
