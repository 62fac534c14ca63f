/** The byte counter of the download loop: a 64-bit unsigned total that
    saturates instead of wrapping, fed one chunk length at a time. */
module Progress {

  const U64_MAX: int := 0xFFFF_FFFF_FFFF_FFFF

  newtype u64 = x: int | 0 <= x <= U64_MAX

  /** `u64::saturating_add`. */
  function SaturatingAdd(a: u64, b: u64): u64
  {
    if a as int + b as int > U64_MAX then U64_MAX as u64 else (a as int + b as int) as u64
  }

  /** The counter after the given chunks, folded from the first chunk on. */
  function SaturatingTotal(chunkLens: seq<u64>): u64
  {
    if chunkLens == [] then 0
    else SaturatingAdd(SaturatingTotal(chunkLens[..|chunkLens| - 1]), chunkLens[|chunkLens| - 1])
  }

  /** The exact number of bytes received, without any width limit. */
  function Sum(chunkLens: seq<u64>): int
  {
    if chunkLens == [] then 0
    else Sum(chunkLens[..|chunkLens| - 1]) + chunkLens[|chunkLens| - 1] as int
  }

  function Min(a: int, b: int): int
  {
    if a <= b then a else b
  }

  /** The saturating counter is the true byte count, capped at the largest u64. */
  lemma {:induction false} SaturatingTotalIsCappedSum(chunkLens: seq<u64>)
    ensures SaturatingTotal(chunkLens) as int == Min(Sum(chunkLens), U64_MAX)
  {
    if chunkLens != [] {
      var front := chunkLens[..|chunkLens| - 1];
      SaturatingTotalIsCappedSum(front);
      SumNonNegative(front);
    }
  }

  lemma {:induction false} SumNonNegative(chunkLens: seq<u64>)
    ensures Sum(chunkLens) >= 0
  {
    if chunkLens != [] {
      SumNonNegative(chunkLens[..|chunkLens| - 1]);
    }
  }

  /** Receiving more chunks never lowers the counter. */
  lemma {:induction false} SaturatingTotalMonotone(chunkLens: seq<u64>, k: nat)
    requires k <= |chunkLens|
    ensures SaturatingTotal(chunkLens[..k]) <= SaturatingTotal(chunkLens)
  {
    if k < |chunkLens| {
      var front := chunkLens[..|chunkLens| - 1];
      assert chunkLens[..k] == front[..k];
      SaturatingTotalMonotone(front, k);
    } else {
      assert chunkLens[..k] == chunkLens;
    }
  }

  /** The `while let Some(chunk)` loop of `download_version`: the counter
      after each chunk, and the positions handed to the progress bar. */
  method TrackProgress(chunkLens: seq<u64>) returns (downloaded: u64, positions: seq<u64>)
    ensures downloaded == SaturatingTotal(chunkLens)
    ensures downloaded as int == Min(Sum(chunkLens), U64_MAX)
    ensures |positions| == |chunkLens|
    ensures forall i :: 0 <= i < |positions| ==> positions[i] == SaturatingTotal(chunkLens[..i + 1])
    ensures forall i, j :: 0 <= i <= j < |positions| ==> positions[i] <= positions[j]
  {
    downloaded := 0;
    positions := [];
    var k := 0;
    while k < |chunkLens|
      invariant 0 <= k <= |chunkLens|
      invariant downloaded == SaturatingTotal(chunkLens[..k])
      invariant |positions| == k
      invariant forall i :: 0 <= i < k ==> positions[i] == SaturatingTotal(chunkLens[..i + 1])
      invariant forall i :: 0 <= i < k ==> positions[i] <= downloaded
      invariant forall i, j :: 0 <= i <= j < k ==> positions[i] <= positions[j]
    {
      assert chunkLens[..k + 1][..k] == chunkLens[..k];
      downloaded := SaturatingAdd(downloaded, chunkLens[k]);
      positions := positions + [downloaded];
      k := k + 1;
    }
    assert chunkLens[..k] == chunkLens;
    SaturatingTotalIsCappedSum(chunkLens);
  }
}
