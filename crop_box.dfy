/** The centre crop that brings a source image to the display's aspect
    ratio before it is resized to the display's resolution. */
module CropBox {
  import opened Wrappers

  /** The display's resolution; the aspect ratio is 800/480 = 5/3. */
  const TargetW: nat := 800
  const TargetH: nat := 480

  datatype Box = Box(left: int, top: int, right: int, bottom: int)

  /** `width / height` with a zero height raises; nothing else does. */
  datatype CropError = ZeroHeight

  /** width / height > 800 / 480, compared exactly. */
  predicate TooWide(width: nat, height: nat)
    ensures height > 0 ==>
      (TooWide(width, height) <==> (width as real) / (height as real) > (TargetW as real) / (TargetH as real))
  {
    var wr, hr := width as real, height as real;
    assert height > 0 ==> (wr / hr) * hr == wr;
    width * TargetH > TargetW * height
  }

  lemma DivBounds(n: nat, d: nat)
    requires d > 0
    ensures d * (n / d) <= n < d * (n / d) + d
  {
  }

  /** round(800/480 * h): the integer nearest 5h/3. The fraction of 5h/3 is
      0, 1/3 or 2/3, never 1/2, so no tie-breaking rule is ever needed. */
  function RoundedWidth(h: nat): (r: nat)
    ensures -2 <= 6 * r - 10 * h <= 2
  {
    var r := (10 * h + 3) / 6;
    assert 6 * r <= 10 * h + 3 < 6 * r + 6 by {
      DivBounds(10 * h + 3, 6);
    }
    // 6r - 10h is even, so it cannot reach 3 or -3
    assert 6 * r - 10 * h == 2 * (3 * r - 5 * h);
    r
  }

  /** round(w / (800/480)): the integer nearest 3w/5. The fraction of 3w/5 is
      a multiple of 1/5, never 1/2. */
  function RoundedHeight(w: nat): (r: nat)
    ensures -4 <= 10 * r - 6 * w <= 4
  {
    var r := (6 * w + 5) / 10;
    assert 10 * r <= 6 * w + 5 < 10 * r + 10 by {
      DivBounds(6 * w + 5, 10);
    }
    // 10r - 6w is even, so it cannot reach 5 or -5
    assert 10 * r - 6 * w == 2 * (5 * r - 3 * w);
    r
  }

  /** The box (left, top, right, bottom) of the largest centred region of the
      800:480 shape, up to rounding, that fits in a width x height source. */
  function CenterCropBox(width: nat, height: nat): (r: Result<Box, CropError>)
    ensures r.Err? <==> height == 0
    ensures r.Ok? ==>
      var b := r.value;
      0 <= b.left <= b.right <= width && 0 <= b.top <= b.bottom <= height
    ensures r.Ok? && TooWide(width, height) ==>
      var b := r.value;
      b.top == 0 && b.bottom == height && b.right - b.left == RoundedWidth(height)
    ensures r.Ok? && !TooWide(width, height) ==>
      var b := r.value;
      b.left == 0 && b.right == width && b.bottom - b.top == RoundedHeight(width)
    // centred by floor division: the right (bottom) margin equals the left
    // (top) margin or exceeds it by one
    ensures r.Ok? ==>
      var b := r.value;
      0 <= (width - b.right) - b.left <= 1 && 0 <= (height - b.bottom) - b.top <= 1
    // the 5:3 shape, as closely as whole pixels allow
    ensures r.Ok? ==>
      var b := r.value;
      -2 <= 3 * (b.right - b.left) - 5 * (b.bottom - b.top) <= 2
  {
    if height == 0 then Err(ZeroHeight)
    else
      var (newW, newH) :=
        if TooWide(width, height) then (RoundedWidth(height), height)
        else (width, RoundedHeight(width));
      var left := (width - newW) / 2;
      var top := (height - newH) / 2;
      Ok(Box(left, top, left + newW, top + newH))
  }

  /** A source that already has the display's shape is kept whole. */
  lemma {:induction false} CropOfTargetShape(k: nat)
    requires k > 0
    ensures CenterCropBox(5 * k, 3 * k) == Ok(Box(0, 0, 5 * k, 3 * k))
  {
    assert !TooWide(5 * k, 3 * k);
    assert RoundedHeight(5 * k) == 3 * k;
  }

  /** Worked cases: the target shape, a too-wide source, a too-tall source,
      and a zero height. */
  lemma CropExamples()
    ensures CenterCropBox(800, 480) == Ok(Box(0, 0, 800, 480))
    ensures CenterCropBox(1600, 480) == Ok(Box(400, 0, 1200, 480))
    ensures CenterCropBox(800, 960) == Ok(Box(0, 240, 800, 720))
    ensures CenterCropBox(640, 0) == Err(ZeroHeight)
  {
  }
}
