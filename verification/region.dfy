/** An account's data as a plain byte region, and the slice operations the
    programs apply to it: range views that panic past the end, and
    `copy_from_slice`, which panics unless both sides have the same length. */
module Region {

  import opened Bytes
  import opened Results

  type Region = seq<byte>

  /** `&data[lo..hi]`: the bytes of the range, or a panic when it leaves the region. */
  function Slice(region: Region, lo: nat, hi: nat): (r: Result<seq<byte>>)
    ensures r.Success? <==> lo <= hi <= |region|
    ensures r.Failure? ==> r.error == IndexOutOfBounds
    ensures r.Success? ==> |r.value| == hi - lo
    ensures r.Success? ==> forall i :: 0 <= i < hi - lo ==> r.value[i] == region[lo + i]
  {
    if lo <= hi <= |region| then Success(region[lo..hi]) else Failure(IndexOutOfBounds)
  }

  /** The region with `bytes` laid over it from offset `lo`, every other byte kept. */
  function Splice(region: Region, lo: nat, bytes: seq<byte>): (r: Region)
    requires lo + |bytes| <= |region|
    ensures |r| == |region|
    ensures forall i :: 0 <= i < |r| ==>
              r[i] == if lo <= i < lo + |bytes| then bytes[i - lo] else region[i]
    ensures r[..lo] == region[..lo]
    ensures r[lo..lo + |bytes|] == bytes
    ensures r[lo + |bytes|..] == region[lo + |bytes|..]
  {
    var r := region[..lo] + bytes + region[lo + |bytes|..];
    assert r[..lo] == region[..lo];
    assert r[lo..lo + |bytes|] == bytes;
    r
  }

  /** `data[lo..hi].copy_from_slice(src)`: the range must exist and `src` must fill it exactly. */
  function CopyFromSlice(region: Region, lo: nat, hi: nat, src: seq<byte>): (r: Result<Region>)
    ensures r.Success? <==> lo <= hi <= |region| && |src| == hi - lo
    ensures r.Failure? ==> r.error == (if lo <= hi <= |region| then LengthMismatch else IndexOutOfBounds)
    ensures r.Success? ==> |r.value| == |region|
    ensures r.Success? ==> r.value[..lo] == region[..lo]
    ensures r.Success? ==> r.value[lo..hi] == src
    ensures r.Success? ==> r.value[hi..] == region[hi..]
  {
    var dst :- Slice(region, lo, hi);
    if |dst| != |src| then Failure(LengthMismatch)
    else
      var r := Splice(region, lo, src);
      assert r[..lo] == region[..lo];
      assert r[lo..hi] == src;
      assert r[hi..] == region[hi..];
      Success(r)
  }

  /** A later overlay of the same range hides an earlier one completely. */
  lemma SpliceTwice(region: Region, lo: nat, a: seq<byte>, b: seq<byte>)
    requires lo + |a| <= |region| && |a| == |b|
    ensures Splice(Splice(region, lo, a), lo, b) == Splice(region, lo, b)
  {
  }
}
