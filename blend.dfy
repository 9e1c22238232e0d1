/**
 * `merge_images` (project.py:21-39): the right image is resampled to the
 * left image's size when the sizes differ, then every channel of every
 * pixel, alpha included, becomes `l * a + r * (1 - a)` with `a = pct / 100`,
 * clipped to [0, 255] and truncated to an 8-bit integer.
 *
 * Arithmetic is exact (`real`), where the source computes in float32.
 */
module Blend {

  /** One 8-bit unsigned channel value (numpy `uint8`). */
  type Byte = x: int | 0 <= x < 256

  /** An RGBA pixel, as `convert('RGBA')` produces it. */
  datatype Pixel = Pixel(r: Byte, g: Byte, b: Byte, a: Byte)

  /** A decoded image: `height` rows of `width` pixels each. */
  datatype Image = Image(width: nat, height: nat, rows: seq<seq<Pixel>>)

  /** The image's row count and every row's length agree with its size. */
  predicate Valid(img: Image) {
    |img.rows| == img.height && forall i :: 0 <= i < |img.rows| ==> |img.rows[i]| == img.width
  }

  /** PIL's `a.size == b.size`: the same (width, height). */
  predicate SameSize(a: Image, b: Image) {
    a.width == b.width && a.height == b.height
  }

  /** Channel `c` of a pixel, in the order R, G, B, A. */
  function Channel(p: Pixel, c: nat): Byte
    requires c < 4
  {
    if c == 0 then p.r else if c == 1 then p.g else if c == 2 then p.b else p.a
  }

  /**
   * What `resize(size, LANCZOS)` is relied upon for: whatever the kernel
   * computes, the result has exactly the requested size.
   */
  ghost predicate IsResampler(resample: (Image, nat, nat) -> Image) {
    forall img: Image, w: nat, h: nat {:trigger resample(img, w, h)} ::
      Valid(img) ==> Valid(resample(img, w, h)) && resample(img, w, h).width == w && resample(img, w, h).height == h
  }

  /** project.py:26-27: the right image, resampled to the left size only when the sizes differ. */
  function MatchSize(left: Image, right: Image, resample: (Image, nat, nat) -> Image): (r: Image)
    requires Valid(right) && IsResampler(resample)
    ensures Valid(r) && SameSize(r, left)
    ensures SameSize(right, left) ==> r == right
    ensures !SameSize(right, left) ==> r == resample(right, left.width, left.height)
  {
    if !SameSize(right, left) then resample(right, left.width, left.height) else right
  }

  /** `alpha = float(left_pct) / 100.0` */
  function Alpha(pct: int): (a: real)
    ensures 0 <= pct <= 100 ==> 0.0 <= a <= 1.0
    ensures pct == 100 ==> a == 1.0
    ensures pct == 0 ==> a == 0.0
  {
    pct as real / 100.0
  }

  /** `np.clip(x, 0, 255)` */
  function Clip(x: real): (r: real)
    ensures 0.0 <= r <= 255.0
    ensures 0.0 <= x <= 255.0 ==> r == x
    ensures x < 0.0 ==> r == 0.0
    ensures x > 255.0 ==> r == 255.0
  {
    if x < 0.0 then 0.0 else if x > 255.0 then 255.0 else x
  }

  /** `.astype(np.uint8)` after the clip: truncation, which on [0, 255] is the floor. */
  function ToByte(x: real): (b: Byte)
    ensures b as real <= Clip(x) < b as real + 1.0
  {
    Clip(x).Floor
  }

  /** `left_arr * alpha + right_arr * (1.0 - alpha)` for one channel value. */
  function Mix(l: Byte, r: Byte, pct: int): (v: real)
    ensures pct == 100 ==> v == l as real
    ensures pct == 0 ==> v == r as real
  {
    l as real * Alpha(pct) + r as real * (1.0 - Alpha(pct))
  }

  /** project.py:33-34 for one channel: the weighted sum, clipped and truncated. */
  function MixChannel(l: Byte, r: Byte, pct: int): (out: Byte)
    ensures var v := l as real * Alpha(pct) + r as real * (1.0 - Alpha(pct));
            out as real <= Clip(v) < out as real + 1.0
  {
    ToByte(Mix(l, r, pct))
  }

  /** The same mix on all four channels; alpha is not treated specially. */
  function MixPixel(l: Pixel, r: Pixel, pct: int): (out: Pixel)
    ensures forall c :: 0 <= c < 4 ==> Channel(out, c) == MixChannel(Channel(l, c), Channel(r, c), pct)
  {
    Pixel(MixChannel(l.r, r.r, pct), MixChannel(l.g, r.g, pct),
          MixChannel(l.b, r.b, pct), MixChannel(l.a, r.a, pct))
  }

  /** Pixel-wise mix of two images of the same size. */
  function MixImages(left: Image, right: Image, pct: int): (out: Image)
    requires Valid(left) && Valid(right) && SameSize(right, left)
    ensures Valid(out) && SameSize(out, left)
    ensures forall i, j :: 0 <= i < out.height && 0 <= j < out.width ==>
              out.rows[i][j] == MixPixel(left.rows[i][j], right.rows[i][j], pct)
  {
    Image(left.width, left.height,
          seq(left.height, i requires 0 <= i < left.height =>
            seq(left.width, j requires 0 <= j < left.width =>
              MixPixel(left.rows[i][j], right.rows[i][j], pct))))
  }

  /** `merge_images` on decoded RGBA images (the timing it also returns is left out). */
  function MergeImages(left: Image, right: Image, pct: int, resample: (Image, nat, nat) -> Image): (out: Image)
    requires Valid(left) && Valid(right) && IsResampler(resample)
    ensures Valid(out) && SameSize(out, left)
  {
    MixImages(left, MatchSize(left, right, resample), pct)
  }

  // Properties of one channel

  /** At pct = 100 the left value passes through; at pct = 0 the right one. */
  lemma MixChannelEndpoints(l: Byte, r: Byte)
    ensures MixChannel(l, r, 100) == l
    ensures MixChannel(l, r, 0) == r
  {
    assert Alpha(100) == 1.0 && Alpha(0) == 0.0;
  }

  /** A product of two non-negative reals is non-negative. */
  lemma MulNonNegative(x: real, y: real)
    requires x >= 0.0 && y >= 0.0
    ensures x * y >= 0.0
  {
  }

  /** For a ratio in [0, 100] the weighted sum lies between the two inputs. */
  lemma MixBetween(l: Byte, r: Byte, pct: int)
    requires 0 <= pct <= 100
    ensures l <= r ==> l as real <= Mix(l, r, pct) <= r as real
    ensures r <= l ==> r as real <= Mix(l, r, pct) <= l as real
  {
    var a := Alpha(pct);
    var v := Mix(l, r, pct);
    var d := r as real - l as real;
    assert v == l as real + d * (1.0 - a);
    assert v == r as real - d * a;
    if l <= r {
      MulNonNegative(d, 1.0 - a);
      MulNonNegative(d, a);
    } else {
      MulNonNegative(-d, 1.0 - a);
      MulNonNegative(-d, a);
    }
  }

  /** For a ratio in [0, 100] no clipping happens and the result lies between the two inputs. */
  lemma MixChannelBetween(l: Byte, r: Byte, pct: int)
    requires 0 <= pct <= 100
    ensures Clip(Mix(l, r, pct)) == Mix(l, r, pct)
    ensures l <= r ==> l <= MixChannel(l, r, pct) <= r
    ensures r <= l ==> r <= MixChannel(l, r, pct) <= l
  {
    MixBetween(l, r, pct);
    var out := MixChannel(l, r, pct);
    assert out as real <= Mix(l, r, pct) < out as real + 1.0;
  }

  /** The weighted sum is symmetric under swapping inputs and complementing the ratio. */
  lemma MixSwap(l: Byte, r: Byte, pct: int)
    ensures Mix(l, r, pct) == Mix(r, l, 100 - pct)
  {
    var a := Alpha(pct);
    assert Alpha(100 - pct) == 1.0 - a;
    assert 1.0 - (1.0 - a) == a;
  }

  /** Swapping the inputs and the ratio with its complement gives the same channel. */
  lemma MixChannelSwap(l: Byte, r: Byte, pct: int)
    ensures MixChannel(l, r, pct) == MixChannel(r, l, 100 - pct)
  {
    MixSwap(l, r, pct);
  }

  /** Equal inputs blend to themselves at every ratio in [0, 100]. */
  lemma MixChannelSame(x: Byte, pct: int)
    requires 0 <= pct <= 100
    ensures MixChannel(x, x, pct) == x
  {
    MixChannelBetween(x, x, pct);
  }

  /** Full red over none at 50 percent truncates 127.5 to 127. */
  lemma MixChannelHalf()
    ensures MixChannel(255, 0, 50) == 127
    ensures MixChannel(0, 255, 50) == 127
  {
    assert Alpha(50) == 0.5;
  }

  // Properties of whole images

  /** Every output channel is the clipped, truncated linear mix of the corresponding input channels. */
  lemma MergeImagesChannels(left: Image, right: Image, pct: int, resample: (Image, nat, nat) -> Image,
                            i: nat, j: nat, c: nat)
    requires Valid(left) && Valid(right) && IsResampler(resample)
    requires i < left.height && j < left.width && c < 4
    ensures var out := MergeImages(left, right, pct, resample);
            var l := Channel(left.rows[i][j], c) as real;
            var r := Channel(MatchSize(left, right, resample).rows[i][j], c) as real;
            var v := l * Alpha(pct) + r * (1.0 - Alpha(pct));
            var o := Channel(out.rows[i][j], c);
            0 <= o <= 255 && o as real <= Clip(v) < o as real + 1.0
  {
  }

  /** Two images that agree pixel by pixel are equal. */
  lemma ImageExt(a: Image, b: Image)
    requires Valid(a) && Valid(b) && SameSize(a, b)
    requires forall i, j :: 0 <= i < a.height && 0 <= j < a.width ==> a.rows[i][j] == b.rows[i][j]
    ensures a == b
  {
    forall i | 0 <= i < a.height ensures a.rows[i] == b.rows[i] {
      assert forall j :: 0 <= j < a.width ==> a.rows[i][j] == b.rows[i][j];
    }
  }

  /** At pct = 100 the blend is the left image itself. */
  lemma MergeImagesAllLeft(left: Image, right: Image, resample: (Image, nat, nat) -> Image)
    requires Valid(left) && Valid(right) && IsResampler(resample)
    ensures MergeImages(left, right, 100, resample) == left
  {
    var out := MergeImages(left, right, 100, resample);
    var rs := MatchSize(left, right, resample);
    forall i, j | 0 <= i < left.height && 0 <= j < left.width ensures out.rows[i][j] == left.rows[i][j] {
      var p, q := left.rows[i][j], rs.rows[i][j];
      MixChannelEndpoints(p.r, q.r);
      MixChannelEndpoints(p.g, q.g);
      MixChannelEndpoints(p.b, q.b);
      MixChannelEndpoints(p.a, q.a);
    }
    ImageExt(out, left);
  }

  /** At pct = 0 the blend is the right image after size matching. */
  lemma MergeImagesAllRight(left: Image, right: Image, resample: (Image, nat, nat) -> Image)
    requires Valid(left) && Valid(right) && IsResampler(resample)
    ensures MergeImages(left, right, 0, resample) == MatchSize(left, right, resample)
    ensures SameSize(right, left) ==> MergeImages(left, right, 0, resample) == right
  {
    var out := MergeImages(left, right, 0, resample);
    var rs := MatchSize(left, right, resample);
    forall i, j | 0 <= i < left.height && 0 <= j < left.width ensures out.rows[i][j] == rs.rows[i][j] {
      var p, q := left.rows[i][j], rs.rows[i][j];
      MixChannelEndpoints(p.r, q.r);
      MixChannelEndpoints(p.g, q.g);
      MixChannelEndpoints(p.b, q.b);
      MixChannelEndpoints(p.a, q.a);
    }
    ImageExt(out, rs);
  }

  /** For images of one size, swapping them and complementing the ratio gives the same blend. */
  lemma MergeImagesSwap(left: Image, right: Image, pct: int, resample: (Image, nat, nat) -> Image)
    requires Valid(left) && Valid(right) && IsResampler(resample) && SameSize(left, right)
    ensures MergeImages(left, right, pct, resample) == MergeImages(right, left, 100 - pct, resample)
  {
    var out := MergeImages(left, right, pct, resample);
    var out' := MergeImages(right, left, 100 - pct, resample);
    forall i, j | 0 <= i < left.height && 0 <= j < left.width ensures out.rows[i][j] == out'.rows[i][j] {
      var p, q := left.rows[i][j], right.rows[i][j];
      MixChannelSwap(p.r, q.r, pct);
      MixChannelSwap(p.g, q.g, pct);
      MixChannelSwap(p.b, q.b, pct);
      MixChannelSwap(p.a, q.a, pct);
    }
    ImageExt(out, out');
  }

  /** A `width` by `height` image filled with one pixel. */
  function Solid(width: nat, height: nat, p: Pixel): (img: Image)
    ensures Valid(img) && img.width == width && img.height == height
    ensures forall i, j :: 0 <= i < height && 0 <= j < width ==> img.rows[i][j] == p
  {
    Image(width, height, seq(height, _ => seq(width, _ => p)))
  }

  /** Opaque red and opaque blue of one size at 50 percent give (127, 0, 127, 255) everywhere. */
  lemma MergeRedBlue(width: nat, height: nat, resample: (Image, nat, nat) -> Image)
    requires IsResampler(resample)
    ensures MergeImages(Solid(width, height, Pixel(255, 0, 0, 255)), Solid(width, height, Pixel(0, 0, 255, 255)), 50, resample)
         == Solid(width, height, Pixel(127, 0, 127, 255))
  {
    var red, blue := Solid(width, height, Pixel(255, 0, 0, 255)), Solid(width, height, Pixel(0, 0, 255, 255));
    var out := MergeImages(red, blue, 50, resample);
    MixChannelHalf();
    MixChannelSame(0, 50);
    MixChannelSame(255, 50);
    assert MixPixel(Pixel(255, 0, 0, 255), Pixel(0, 0, 255, 255), 50) == Pixel(127, 0, 127, 255);
    ImageExt(out, Solid(width, height, Pixel(127, 0, 127, 255)));
  }
}
