/** The in-place JJN pass over a 2-D buffer, and the wrapper that converts an
    8-bit image to the working buffer and back. Both are proved to compute
    the value-level pass `DitherSpec.Dither`. */
module JarvisDither {
  import opened DitherSpec

  newtype byte = x: int | 0 <= x < 256

  /** The contents of a buffer, row by row. */
  ghost function Contents(a: array2<real>): (g: Grid)
    reads a
    ensures IsGrid(g, a.Length0, a.Length1)
    ensures forall i, j :: 0 <= i < a.Length0 && 0 <= j < a.Length1 ==> g[i][j] == a[i, j]
  {
    seq(a.Length0, i requires 0 <= i < a.Length0 reads a =>
      seq(a.Length1, j requires 0 <= j < a.Length1 reads a => a[i, j]))
  }

  /** Two grids of the same shape with the same cells are equal. */
  lemma GridsEqual(g: Grid, r: Grid, h: nat, w: nat)
    requires IsGrid(g, h, w) && IsGrid(r, h, w)
    requires forall i, j :: 0 <= i < h && 0 <= j < w ==> g[i][j] == r[i][j]
    ensures g == r
  {
    forall i | 0 <= i < h
      ensures g[i] == r[i]
    {
      assert forall j :: 0 <= j < w ==> g[i][j] == r[i][j];
    }
  }

  /** The two taps on the current line. */
  method SpreadSameLine(a: array2<real>, h: nat, w: nat, y: nat, x: nat, error: real)
    requires h == a.Length0 && w == a.Length1 && y < h && x < w
    modifies a
    ensures forall i, j :: 0 <= i < h && 0 <= j < w ==>
      a[i, j] == old(a[i, j]) + (if i == y then Share(error, 0, j - x) else 0.0)
  {
    if x + 1 < w {
      a[y, x + 1] := a[y, x + 1] + error * 7.0 / 48.0;
    }
    if x + 2 < w {
      a[y, x + 2] := a[y, x + 2] + error * 5.0 / 48.0;
    }
  }

  /** The five taps on the next line, if there is one. */
  method SpreadNextLine(a: array2<real>, h: nat, w: nat, y: nat, x: nat, error: real)
    requires h == a.Length0 && w == a.Length1 && y < h && x < w
    modifies a
    ensures forall i, j :: 0 <= i < h && 0 <= j < w ==>
      a[i, j] == old(a[i, j]) + (if i == y + 1 then Share(error, 1, j - x) else 0.0)
  {
    if y + 1 < h {
      if x - 2 >= 0 {
        a[y + 1, x - 2] := a[y + 1, x - 2] + error * 3.0 / 48.0;
      }
      if x - 1 >= 0 {
        a[y + 1, x - 1] := a[y + 1, x - 1] + error * 5.0 / 48.0;
      }
      a[y + 1, x] := a[y + 1, x] + error * 7.0 / 48.0;
      if x + 1 < w {
        a[y + 1, x + 1] := a[y + 1, x + 1] + error * 5.0 / 48.0;
      }
      if x + 2 < w {
        a[y + 1, x + 2] := a[y + 1, x + 2] + error * 3.0 / 48.0;
      }
    }
  }

  /** The five taps two lines down, if that line exists. */
  method SpreadLinePlusTwo(a: array2<real>, h: nat, w: nat, y: nat, x: nat, error: real)
    requires h == a.Length0 && w == a.Length1 && y < h && x < w
    modifies a
    ensures forall i, j :: 0 <= i < h && 0 <= j < w ==>
      a[i, j] == old(a[i, j]) + (if i == y + 2 then Share(error, 2, j - x) else 0.0)
  {
    if y + 2 < h {
      if x - 2 >= 0 {
        a[y + 2, x - 2] := a[y + 2, x - 2] + error * 1.0 / 48.0;
      }
      if x - 1 >= 0 {
        a[y + 2, x - 1] := a[y + 2, x - 1] + error * 3.0 / 48.0;
      }
      a[y + 2, x] := a[y + 2, x] + error * 5.0 / 48.0;
      if x + 1 < w {
        a[y + 2, x + 1] := a[y + 2, x + 1] + error * 3.0 / 48.0;
      }
      if x + 2 < w {
        a[y + 2, x + 2] := a[y + 2, x + 2] + error * 1.0 / 48.0;
      }
    }
  }

  /** Visit cell (y, x): clamp, threshold, write back, spread the error. */
  method VisitCell(a: array2<real>, h: nat, w: nat, y: nat, x: nat)
    requires h == a.Length0 && w == a.Length1 && y < h && x < w
    modifies a
    ensures Contents(a) == Step(old(Contents(a)), h, w, y, x)
  {
    ghost var before := Contents(a);
    var oldPixel := Clamp(a[y, x]);
    var newPixel := Threshold(oldPixel);
    var error := oldPixel - newPixel;
    a[y, x] := newPixel;
    assert newPixel == Quantize(before[y][x]) && error == Error(before[y][x]);
    label Quantized:
    SpreadSameLine(a, h, w, y, x, error);
    label SameLineDone:
    SpreadNextLine(a, h, w, y, x, error);
    label NextLineDone:
    SpreadLinePlusTwo(a, h, w, y, x, error);
    forall i, j | 0 <= i < h && 0 <= j < w
      ensures a[i, j] == Step(before, h, w, y, x)[i][j]
    {
      assert old@Quantized(a[i, j]) == if i == y && j == x then newPixel else before[i][j];
      assert old@SameLineDone(a[i, j]) == old@Quantized(a[i, j]) + (if i == y then Share(error, 0, j - x) else 0.0);
      assert old@NextLineDone(a[i, j]) == old@SameLineDone(a[i, j]) + (if i == y + 1 then Share(error, 1, j - x) else 0.0);
      assert a[i, j] == old@NextLineDone(a[i, j]) + (if i == y + 2 then Share(error, 2, j - x) else 0.0);
      if i < y || i > y + 2 {
        assert WeightAt(i - y, j - x) == 0;
      }
      assert a[i, j] == old@Quantized(a[i, j]) + Share(error, i - y, j - x);
      StepCell(before, h, w, y, x, i, j);
    }
    GridsEqual(Contents(a), Step(before, h, w, y, x), h, w);
  }

  /** One raster-order pass over the h x w buffer, in place. */
  method JarvisDitherCore(a: array2<real>, h: nat, w: nat)
    requires h == a.Length0 && w == a.Length1
    modifies a
    ensures Contents(a) == Dither(old(Contents(a)), h, w)
    ensures AllBinary(Contents(a), h, w)
  {
    ghost var g := Contents(a);
    for y := 0 to h
      invariant Contents(a) == RunRows(g, h, w, y)
    {
      for x := 0 to w
        invariant Contents(a) == StateAt(g, h, w, y, x)
      {
        VisitCell(a, h, w, y, x);
      }
    }
    DitherBinary(g, h, w);
  }

  /** The 8-bit image as exact reals (the float32 working buffer). */
  ghost function Widened(img: array2<byte>): (g: Grid)
    reads img
    ensures IsGrid(g, img.Length0, img.Length1)
    ensures forall i, j :: 0 <= i < img.Length0 && 0 <= j < img.Length1 ==> g[i][j] == img[i, j] as real
  {
    seq(img.Length0, i requires 0 <= i < img.Length0 reads img =>
      seq(img.Length1, j requires 0 <= j < img.Length1 reads img => img[i, j] as real))
  }

  /** Conversion back to 8 bits: truncation, which is exact on 0.0 and 255.0. */
  function Narrow(v: real): (b: byte)
    requires 0.0 <= v < 256.0
    ensures b as real <= v < b as real + 1.0
  {
    v.Floor as byte
  }

  /** `img_array.astype(np.float32)`: a fresh working buffer holding the image. */
  method Widen(img: array2<byte>) returns (arr: array2<real>)
    ensures fresh(arr) && arr.Length0 == img.Length0 && arr.Length1 == img.Length1
    ensures Contents(arr) == Widened(img)
  {
    var h, w := img.Length0, img.Length1;
    arr := new real[h, w]((i, j) requires 0 <= i < h && 0 <= j < w reads img => img[i, j] as real);
    GridsEqual(Contents(arr), Widened(img), h, w);
  }

  /** `arr.astype(np.uint8)` on a buffer whose cells are all 0 or 255. */
  method NarrowAll(arr: array2<real>) returns (out: array2<byte>)
    requires AllBinary(Contents(arr), arr.Length0, arr.Length1)
    ensures fresh(out) && out.Length0 == arr.Length0 && out.Length1 == arr.Length1
    ensures forall i, j :: 0 <= i < out.Length0 && 0 <= j < out.Length1 ==>
      out[i, j] as real == arr[i, j] && (out[i, j] == 0 || out[i, j] == 255)
  {
    var h, w := arr.Length0, arr.Length1;
    assert forall i, j :: 0 <= i < h && 0 <= j < w ==> IsBinary(arr[i, j]) by {
      forall i, j | 0 <= i < h && 0 <= j < w
        ensures IsBinary(arr[i, j])
      {
        assert Contents(arr)[i][j] == arr[i, j];
      }
    }
    out := new byte[h, w]((i, j) requires 0 <= i < h && 0 <= j < w && IsBinary(arr[i, j]) reads arr =>
      Narrow(arr[i, j]));
  }

  /** Grayscale image -> dithered image of the same shape whose every pixel is
      0 or 255, equal to the JJN pass over the image's values. */
  method JarvisDitherImage(img: array2<byte>) returns (out: array2<byte>)
    ensures fresh(out) && out.Length0 == img.Length0 && out.Length1 == img.Length1
    ensures forall i, j :: 0 <= i < out.Length0 && 0 <= j < out.Length1 ==>
      out[i, j] as real == Dither(Widened(img), img.Length0, img.Length1)[i][j]
    ensures forall i, j :: 0 <= i < out.Length0 && 0 <= j < out.Length1 ==>
      out[i, j] == 0 || out[i, j] == 255
  {
    ghost var d := Dither(Widened(img), img.Length0, img.Length1);
    var arr := Widen(img);
    JarvisDitherCore(arr, arr.Length0, arr.Length1);
    assert Contents(arr) == d;
    out := NarrowAll(arr);
    forall i, j | 0 <= i < out.Length0 && 0 <= j < out.Length1
      ensures out[i, j] as real == d[i][j]
    {
      assert arr[i, j] == Contents(arr)[i][j];
    }
    assert d == Dither(Widened(img), img.Length0, img.Length1);
  }
}
