/** `detect_steganography`: the naive check that flags an image whose mean
    sample value exceeds 128. Over integer samples the mean comparison is the
    comparison of the sum with 128 times the count. */
module Stego {

  /** The brightness above which the heuristic flags an image. */
  const MeanThreshold: int := 128

  function Sum(samples: seq<int>): int
  {
    if samples == [] then 0 else samples[0] + Sum(samples[1..])
  }

  /** The arithmetic mean (`ndarray.mean`); an empty array has none. */
  function Mean(samples: seq<int>): (m: real)
    requires |samples| > 0
    ensures m * |samples| as real == Sum(samples) as real
  {
    Sum(samples) as real / |samples| as real
  }

  /** The heuristic: all samples of the image, in whatever layout
      `np.array(img)` gives, flattened. An empty array's mean is NaN in
      numpy, and NaN > 128 is false. */
  function DetectSteganography(samples: seq<int>): (flagged: bool)
    ensures flagged <==> |samples| > 0 && Mean(samples) > MeanThreshold as real
  {
    MeanAboveIffSumAbove(samples);
    Sum(samples) > MeanThreshold * |samples|
  }

  /** Comparing the mean with a threshold is comparing the sum with the
      threshold times the count. */
  lemma MeanAboveIffSumAbove(samples: seq<int>)
    ensures |samples| > 0 ==>
      (Mean(samples) > MeanThreshold as real <==> Sum(samples) > MeanThreshold * |samples|)
    ensures |samples| == 0 ==> !(Sum(samples) > MeanThreshold * |samples|)
  {
    if |samples| > 0 {
      var s, n := Sum(samples) as real, |samples| as real;
      var t := MeanThreshold as real;
      assert (s / n > t) <==> (s > t * n) by {
        assert s / n * n == s;
        if s / n > t {
          assert s / n * n > t * n;
        } else {
          assert s / n * n <= t * n;
        }
      }
    }
  }

  /** A sequence of `n` copies of `v` sums to `n * v`. */
  lemma {:induction false} SumConstant(samples: seq<int>, v: int)
    requires forall i :: 0 <= i < |samples| ==> samples[i] == v
    ensures Sum(samples) == |samples| * v
  {
    if samples != [] {
      SumConstant(samples[1..], v);
    }
  }

  /** An all-black image is clear and a non-empty all-white image is
      flagged: the heuristic judges brightness, not hidden content. */
  lemma BlackClearWhiteFlagged(black: seq<int>, white: seq<int>)
    requires forall i :: 0 <= i < |black| ==> black[i] == 0
    requires |white| > 0 && forall i :: 0 <= i < |white| ==> white[i] == 255
    ensures !DetectSteganography(black)
    ensures DetectSteganography(white)
  {
    SumConstant(black, 0);
    SumConstant(white, 255);
  }

  /** The flag depends only on the multiset of samples: permuting the
      pixels does not change it. */
  lemma {:induction false} SumPermutation(a: seq<int>, b: seq<int>)
    requires multiset(a) == multiset(b)
    ensures Sum(a) == Sum(b)
    decreases |a|
  {
    if a == [] {
      assert |b| == |multiset(b)| == 0;
    } else {
      assert a[0] in multiset(b);
      var k :| 0 <= k < |b| && b[k] == a[0];
      var b' := b[..k] + b[k + 1..];
      RemoveAt(b, k);
      assert a == [a[0]] + a[1..];
      assert multiset(a[1..]) == multiset(a) - multiset{a[0]};
      SumPermutation(a[1..], b');
    }
  }

  /** Taking out the sample at `k` takes it out of the multiset and of the
      sum. */
  lemma RemoveAt(b: seq<int>, k: nat)
    requires k < |b|
    ensures multiset(b[..k] + b[k + 1..]) == multiset(b) - multiset{b[k]}
    ensures Sum(b) == b[k] + Sum(b[..k] + b[k + 1..])
  {
    RemoveAtMultiset(b, k);
    RemoveAtSum(b, k);
  }

  lemma RemoveAtMultiset(b: seq<int>, k: nat)
    requires k < |b|
    ensures multiset(b[..k] + b[k + 1..]) == multiset(b) - multiset{b[k]}
  {
    assert b == b[..k] + [b[k]] + b[k + 1..];
  }

  lemma RemoveAtSum(b: seq<int>, k: nat)
    requires k < |b|
    ensures Sum(b) == b[k] + Sum(b[..k] + b[k + 1..])
  {
    var front, mid, back := b[..k], [b[k]] + b[k + 1..], b[k + 1..];
    assert b == front + mid;
    SumSplit(front, mid);
    SumSplit(front, back);
    assert mid[1..] == back;
    assert Sum(mid) == b[k] + Sum(back);
  }

  lemma {:induction false} SumSplit(a: seq<int>, b: seq<int>)
    ensures Sum(a + b) == Sum(a) + Sum(b)
    decreases |a|
  {
    if a == [] {
      assert a + b == b;
    } else {
      SumSplit(a[1..], b);
      assert (a + b)[0] == a[0];
      assert (a + b)[1..] == a[1..] + b;
    }
  }

  /** The text `check_steganography` shows. */
  function StegoMessage(flagged: bool): (msg: string)
    ensures msg == "Steganography detected!" <==> flagged
  {
    if flagged then "Steganography detected!" else "No steganography detected."
  }
}
