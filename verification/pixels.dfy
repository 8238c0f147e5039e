/** The white-pixel measurement of `count_white_pixels`: an already-decoded
    RGB image, the pixels counted as white, the share of white rounded to
    hundredths of a percent, and the four concentration bands of
    `analyze_white_pixels`. */
module PixelCounter {
  import opened Results

  /** One 8-bit colour channel, as an RGB-converted image delivers it. */
  type Channel = x: int | 0 <= x < 256

  datatype Pixel = Pixel(r: Channel, g: Channel, b: Channel)

  /** A channel must exceed this value for the pixel to count as white. */
  const WhiteThreshold: int := 240

  predicate IsWhite(p: Pixel) {
    p.r > WhiteThreshold && p.g > WhiteThreshold && p.b > WhiteThreshold
  }

  /** The number of white pixels, counted over the image in order. */
  function WhiteCount(pixels: seq<Pixel>): (n: nat)
    ensures n <= |pixels|
  {
    if |pixels| == 0 then 0
    else WhiteCount(pixels[..|pixels| - 1]) + (if IsWhite(pixels[|pixels| - 1]) then 1 else 0)
  }

  /** Every pixel is counted exactly when every pixel is white. */
  lemma {:induction false} AllCountedIffAllWhite(pixels: seq<Pixel>)
    ensures WhiteCount(pixels) == |pixels| <==> forall i :: 0 <= i < |pixels| ==> IsWhite(pixels[i])
  {
    if |pixels| > 0 {
      var init := pixels[..|pixels| - 1];
      AllCountedIffAllWhite(init);
      assert forall i :: 0 <= i < |init| ==> init[i] == pixels[i];
    }
  }

  /** Nothing is counted exactly when no pixel is white. */
  lemma {:induction false} NoneCountedIffNoneWhite(pixels: seq<Pixel>)
    ensures WhiteCount(pixels) == 0 <==> forall i :: 0 <= i < |pixels| ==> !IsWhite(pixels[i])
  {
    if |pixels| > 0 {
      var init := pixels[..|pixels| - 1];
      NoneCountedIffNoneWhite(init);
      assert forall i :: 0 <= i < |init| ==> init[i] == pixels[i];
    }
  }

  /** The positions of the white pixels: an independent description of what
      is counted. */
  function WhitePositions(pixels: seq<Pixel>): set<nat> {
    set i: nat | i < |pixels| && IsWhite(pixels[i])
  }

  /** The count is the number of white positions. */
  lemma {:induction false} WhiteCountIsPositions(pixels: seq<Pixel>)
    ensures WhiteCount(pixels) == |WhitePositions(pixels)|
  {
    if |pixels| > 0 {
      var n := |pixels| - 1;
      var init := pixels[..n];
      WhiteCountIsPositions(init);
      if IsWhite(pixels[n]) {
        assert WhitePositions(pixels) == WhitePositions(init) + {n};
      } else {
        assert WhitePositions(pixels) == WhitePositions(init);
      }
    }
  }

  /** Counting splits over a split image. */
  lemma {:induction false} WhiteCountAppend(a: seq<Pixel>, b: seq<Pixel>)
    ensures WhiteCount(a + b) == WhiteCount(a) + WhiteCount(b)
  {
    if |b| > 0 {
      var n := |b| - 1;
      assert (a + b)[..|a + b| - 1] == a + b[..n];
      WhiteCountAppend(a, b[..n]);
    } else {
      assert a + b == a;
    }
  }

  lemma RemovePixelMultiset(b: seq<Pixel>, k: nat)
    requires k < |b|
    ensures multiset(b[..k] + b[k + 1..]) == multiset(b) - multiset{b[k]}
  {
    var l, r := b[..k], b[k + 1..];
    assert b == l + [b[k]] + r;
    assert multiset(b) == multiset(l) + multiset{b[k]} + multiset(r);
  }

  lemma WhiteCountSingle(p: Pixel)
    ensures WhiteCount([p]) == if IsWhite(p) then 1 else 0
  {
    assert [p][..0] == [];
  }

  lemma WhiteCountMiddle(l: seq<Pixel>, p: Pixel, r: seq<Pixel>)
    ensures WhiteCount(l + [p] + r) == WhiteCount(l + r) + if IsWhite(p) then 1 else 0
  {
    assert l + [p] + r == l + ([p] + r);
    WhiteCountAppend(l, [p] + r);
    WhiteCountAppend([p], r);
    WhiteCountAppend(l, r);
    WhiteCountSingle(p);
  }

  /** Taking one pixel out of an image takes it out of the count. */
  lemma RemovePixel(b: seq<Pixel>, k: nat)
    requires k < |b|
    ensures WhiteCount(b) == WhiteCount(b[..k] + b[k + 1..]) + (if IsWhite(b[k]) then 1 else 0)
  {
    SliceAround(b, k);
    WhiteCountMiddle(b[..k], b[k], b[k + 1..]);
  }

  lemma SliceAround(b: seq<Pixel>, k: nat)
    requires k < |b|
    ensures b == b[..k] + [b[k]] + b[k + 1..]
  {
  }

  /** The count does not depend on the order in which pixels are read. */
  lemma {:induction false} WhiteCountPermutation(a: seq<Pixel>, b: seq<Pixel>)
    requires multiset(a) == multiset(b)
    ensures WhiteCount(a) == WhiteCount(b)
    decreases |a|
  {
    if |a| > 0 {
      var n := |a| - 1;
      var p := a[n];
      assert p in multiset(b);
      var k :| 0 <= k < |b| && b[k] == p;
      RemovePixelMultiset(a, n);
      RemovePixelMultiset(b, k);
      RemovePixel(a, n);
      RemovePixel(b, k);
      assert a[..n] + a[n + 1..] == a[..n];
      WhiteCountPermutation(a[..n], b[..k] + b[k + 1..]);
    } else {
      assert |b| == |multiset(b)| == 0;
    }
  }

  /** The count as a loop over the image, as the generator in the service
      walks it from the first pixel. */
  method CountWhitePixels(pixels: seq<Pixel>) returns (white: nat)
    ensures white == WhiteCount(pixels)
    ensures white == |WhitePositions(pixels)|
  {
    white := 0;
    var i := 0;
    while i < |pixels|
      invariant 0 <= i <= |pixels|
      invariant white == WhiteCount(pixels[..i])
    {
      assert pixels[..i + 1][..i] == pixels[..i];
      if IsWhite(pixels[i]) {
        white := white + 1;
      }
      i := i + 1;
    }
    assert pixels[..i] == pixels;
    WhiteCountIsPositions(pixels);
  }

  /** `num / den` rounded to the nearest integer, an exact half going to the
      even neighbour, as Python's `round` does. */
  function RoundHalfEven(num: nat, den: nat): (q: nat)
    requires den > 0
    ensures 2 * (q * den - num) <= den && 2 * (num - q * den) <= den
    ensures 2 * (q * den - num) == den || 2 * (num - q * den) == den ==> q % 2 == 0
  {
    var q0, rem := num / den, num % den;
    assert num == q0 * den + rem;
    assert (q0 + 1) * den == q0 * den + den;
    if 2 * rem > den then q0 + 1
    else if 2 * rem < den then q0
    else if q0 % 2 == 0 then q0
    else q0 + 1
  }

  /** The two conditions of the rounding contract single out one integer. */
  lemma RoundingUnique(num: nat, den: nat, q: nat)
    requires den > 0
    requires 2 * (q * den - num) <= den && 2 * (num - q * den) <= den
    requires 2 * (q * den - num) == den || 2 * (num - q * den) == den ==> q % 2 == 0
    ensures q == RoundHalfEven(num, den)
  {
    var r := RoundHalfEven(num, den);
    var k: int := q - r;
    assert q * den - r * den == k * den by {
      Distribute(q, r, den);
    }
    MulBounds(k, den);
  }

  lemma Distribute(q: int, r: int, den: int)
    ensures q * den - r * den == (q - r) * den
  {
  }

  /** A multiple of `den` other than -den, 0 and den is at least 2 * den away from 0. */
  lemma MulBounds(k: int, den: nat)
    requires den > 0
    ensures k >= 2 ==> k * den >= 2 * den
    ensures k <= -2 ==> k * den + 2 * den <= 0
    ensures k == 1 ==> k * den == den
    ensures k == -1 ==> k * den + den == 0
  {
    if k >= 2 {
      MulMonotone(2, k, den);
    } else if k <= -2 {
      MulMonotone(2, -k, den);
      assert k * den == -((-k) * den);
    }
  }

  lemma MulMonotone(a: nat, b: nat, c: nat)
    requires a <= b
    ensures a * c <= b * c
  {
  }

  /** Rounding never reverses the order of two numerators. */
  lemma RoundingMonotone(a: nat, b: nat, den: nat)
    requires den > 0 && a <= b
    ensures RoundHalfEven(a, den) <= RoundHalfEven(b, den)
  {
    DivMonotone(a, b, den);
    if a / den == b / den {
      assert a % den <= b % den;
    }
  }

  lemma DivMonotone(a: nat, b: nat, den: nat)
    requires den > 0 && a <= b
    ensures a / den <= b / den
  {
    var qa, qb := a / den, b / den;
    assert a == qa * den + a % den && b == qb * den + b % den;
    assert (qb + 1) * den == qb * den + den;
    if qa > qb {
      MulMonotone(qb + 1, qa, den);
      assert false;
    }
  }

  /** `round(white / total * 100, 2)` in hundredths of a percent. */
  function Percentage(white: nat, total: nat): (h: nat)
    requires total > 0 && white <= total
    ensures h <= 10000
    ensures white == total ==> h == 10000
    ensures white == 0 ==> h == 0
  {
    RoundingUnique(10000 * total, total, 10000);
    RoundingMonotone(10000 * white, 10000 * total, total);
    RoundHalfEven(10000 * white, total)
  }

  /** A larger white count never shows a smaller percentage. */
  lemma PercentageMonotone(w1: nat, w2: nat, total: nat)
    requires 0 < total && w1 <= w2 <= total
    ensures Percentage(w1, total) <= Percentage(w2, total)
  {
    RoundingMonotone(10000 * w1, 10000 * w2, total);
  }

  /** The measurement of one image. */
  datatype PixelStats = PixelStats(whitePixelCount: nat, totalPixels: nat, percentage: nat)

  /** An image without pixels: the percentage divides by zero and the
      service answers with an error. */
  datatype ImageError = EmptyImage

  function Measure(pixels: seq<Pixel>): (r: Result<PixelStats, ImageError>)
    ensures r.Err? <==> |pixels| == 0
    ensures r.Ok? ==> r.value.totalPixels == |pixels|
    ensures r.Ok? ==> r.value.whitePixelCount <= r.value.totalPixels
    ensures r.Ok? ==> r.value.percentage <= 10000
  {
    if |pixels| == 0 then Err(EmptyImage)
    else
      var white := WhiteCount(pixels);
      Ok(PixelStats(white, |pixels|, Percentage(white, |pixels|)))
  }

  /** A measurement counts exactly the white positions and rounds their share. */
  lemma MeasureCountsWhite(pixels: seq<Pixel>)
    requires |pixels| > 0
    ensures Measure(pixels).Ok?
    ensures Measure(pixels).value.whitePixelCount == |WhitePositions(pixels)|
    ensures var s := Measure(pixels).value;
      2 * (s.percentage * s.totalPixels - 10000 * s.whitePixelCount) <= s.totalPixels
      && 2 * (10000 * s.whitePixelCount - s.percentage * s.totalPixels) <= s.totalPixels
  {
    WhiteCountIsPositions(pixels);
  }

  /** An image of white pixels only is 100% white. */
  lemma AllWhiteImage(pixels: seq<Pixel>)
    requires |pixels| > 0 && forall i :: 0 <= i < |pixels| ==> IsWhite(pixels[i])
    ensures Measure(pixels) == Ok(PixelStats(|pixels|, |pixels|, 10000))
  {
    AllCountedIffAllWhite(pixels);
  }

  /** An image without white pixels is 0% white. */
  lemma NoWhiteImage(pixels: seq<Pixel>)
    requires |pixels| > 0 && forall i :: 0 <= i < |pixels| ==> !IsWhite(pixels[i])
    ensures Measure(pixels) == Ok(PixelStats(0, |pixels|, 0))
  {
    NoneCountedIffNoneWhite(pixels);
  }

  /** A channel at exactly the threshold keeps the pixel from being white. */
  lemma ThresholdIsStrict(p: Pixel)
    requires p.r == WhiteThreshold || p.g == WhiteThreshold || p.b == WhiteThreshold
    ensures !IsWhite(p)
  {
  }

  /** The concentration bands of the white-pixel verdict. */
  datatype Band = Minimal | Low | Moderate | High

  /** Position of a band from least to most white. */
  function BandRank(b: Band): nat {
    match b
    case Minimal => 0
    case Low => 1
    case Moderate => 2
    case High => 3
  }

  /** The percentage, in hundredths, that a band's share must exceed. */
  function BandFloor(b: Band): int {
    match b
    case Minimal => -1
    case Low => 500
    case Moderate => 2000
    case High => 5000
  }

  /** The band of a percentage given in hundredths, checked from the top
      with strict comparisons against 50, 20 and 5 percent. */
  function Classify(h: int): (b: Band)
    ensures h >= 0 ==> BandFloor(b) < h
    ensures forall c :: BandRank(c) > BandRank(b) ==> h <= BandFloor(c)
  {
    if h > 5000 then High
    else if h > 2000 then Moderate
    else if h > 500 then Low
    else Minimal
  }

  /** A percentage lies in exactly one band: above that band's floor and
      at or below the floor of every higher band. */
  lemma BandsPartition(h: int, b: Band)
    requires h >= 0
    ensures Classify(h) == b <==>
      BandFloor(b) < h && forall c :: BandRank(c) > BandRank(b) ==> h <= BandFloor(c)
  {
  }

  /** A percentage at a threshold falls into the lower band. */
  lemma ThresholdsAreStrict()
    ensures Classify(5000) == Moderate && Classify(5001) == High
    ensures Classify(2000) == Low && Classify(2001) == Moderate
    ensures Classify(500) == Minimal && Classify(501) == Low
  {
  }

  /** A whiter image never falls into a lower band. */
  lemma ClassifyMonotone(h1: int, h2: int)
    requires h1 <= h2
    ensures BandRank(Classify(h1)) <= BandRank(Classify(h2))
  {
  }

  /** A 50 x 50 image of pure white: every pixel counted, 100.0%, High. */
  lemma WhiteSquare(pixels: seq<Pixel>)
    requires pixels == seq(50 * 50, _ => Pixel(255, 255, 255))
    ensures Measure(pixels) == Ok(PixelStats(2500, 2500, 10000))
    ensures Classify(Measure(pixels).value.percentage) == High
  {
    AllWhiteImage(pixels);
  }

  /** A 200 x 150 image of mid grey: nothing counted, 0.0%, Minimal. */
  lemma GreyImage(pixels: seq<Pixel>)
    requires pixels == seq(200 * 150, _ => Pixel(128, 128, 128))
    ensures Measure(pixels) == Ok(PixelStats(0, 30000, 0))
    ensures Classify(Measure(pixels).value.percentage) == Minimal
  {
    NoWhiteImage(pixels);
  }

  /** Pixels at the threshold do not count, one step above do. */
  lemma ThresholdImage(pixels: seq<Pixel>)
    requires pixels == [Pixel(240, 240, 240), Pixel(241, 241, 241), Pixel(255, 240, 255), Pixel(241, 255, 241)]
    ensures Measure(pixels) == Ok(PixelStats(2, 4, 5000))
    ensures Classify(Measure(pixels).value.percentage) == Moderate
  {
    assert pixels[..1][..0] == [];
    assert WhiteCount(pixels[..1]) == 0;
    assert pixels[..2][..1] == pixels[..1];
    assert WhiteCount(pixels[..2]) == 1;
    assert pixels[..3][..2] == pixels[..2];
    assert WhiteCount(pixels[..3]) == 1;
    assert WhiteCount(pixels) == 2;
    RoundingUnique(10000 * 2, 4, 5000);
  }
}
