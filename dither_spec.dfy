/** The Jarvis–Judice–Ninke error-diffusion pass, stated on values.

    A buffer is a sequence of rows of exact reals (standing in for the float32
    working buffer). `Step` is what one visit of cell (y, x) does to the whole
    buffer; `StateAt` is the buffer at the moment (y, x) is visited in raster
    order; `Dither` is the buffer after the last cell. The in-place method in
    module JarvisDither is proved to compute exactly `Dither`.
 */
module DitherSpec {

  type Grid = seq<seq<real>>

  /** g has h rows of w cells each. */
  predicate IsGrid(g: Grid, h: nat, w: nat)
  {
    |g| == h && forall i :: 0 <= i < h ==> |g[i]| == w
  }

  /** The two values a dithered cell may hold. */
  predicate IsBinary(v: real)
  {
    v == 0.0 || v == 255.0
  }

  predicate AllBinary(g: Grid, h: nat, w: nat)
    requires IsGrid(g, h, w)
  {
    forall i, j :: 0 <= i < h && 0 <= j < w ==> IsBinary(g[i][j])
  }

  /** (i, j) comes strictly before (y, x) in row-major order. */
  predicate Before(i: int, j: int, y: int, x: int)
  {
    i < y || (i == y && j < x)
  }

  /** The accumulated value, clamped to [0, 255]. */
  function Clamp(v: real): (c: real)
    ensures 0.0 <= c <= 255.0
    ensures 0.0 <= v <= 255.0 ==> c == v
    ensures v < 0.0 ==> c == 0.0
    ensures v > 255.0 ==> c == 255.0
  {
    if v < 0.0 then 0.0 else if v > 255.0 then 255.0 else v
  }

  /** The fixed threshold at 128. */
  function Threshold(c: real): (q: real)
    ensures IsBinary(q)
    ensures q == 255.0 <==> c >= 128.0
  {
    if c >= 128.0 then 255.0 else 0.0
  }

  /** The value a visited cell is set to. */
  function Quantize(v: real): (q: real)
    ensures IsBinary(q)
    ensures IsBinary(v) ==> q == v
  {
    Threshold(Clamp(v))
  }

  /** The quantisation error that is spread to the neighbours. */
  function Error(v: real): (e: real)
    ensures -127.0 <= e < 128.0
    ensures Quantize(v) + e == Clamp(v)
    ensures IsBinary(v) ==> e == 0.0
  {
    Clamp(v) - Quantize(v)
  }

  /** Weight, in 48ths, of the kernel tap at row offset dy and column offset dx;
      0 for every offset that is not one of the twelve taps. */
  function WeightAt(dy: int, dx: int): (wt: nat)
    ensures wt > 0 ==> 0 <= dy <= 2 && -2 <= dx <= 2 && Before(0, 0, dy, dx)
  {
    if dy == 0 then
      (if dx == 1 then 7 else if dx == 2 then 5 else 0)
    else if dy == 1 then
      (if dx == -2 then 3 else if dx == -1 then 5 else if dx == 0 then 7
       else if dx == 1 then 5 else if dx == 2 then 3 else 0)
    else if dy == 2 then
      (if dx == -2 then 1 else if dx == -1 then 3 else if dx == 0 then 5
       else if dx == 1 then 3 else if dx == 2 then 1 else 0)
    else 0
  }

  /** The share of error e that the tap at offset (dy, dx) receives: its
      weight in 48ths of e. Written weight by weight, so that each share is a
      constant multiple of e. */
  function Share(e: real, dy: int, dx: int): (s: real)
    ensures WeightAt(dy, dx) == 0 || e == 0.0 ==> s == 0.0
  {
    var k := WeightAt(dy, dx);
    if k == 1 then e * 1.0 / 48.0
    else if k == 3 then e * 3.0 / 48.0
    else if k == 5 then e * 5.0 / 48.0
    else if k == 7 then e * 7.0 / 48.0
    else 0.0
  }

  /** A share is the tap's weight, in 48ths, times the error. */
  lemma ShareIsWeighted(e: real, dy: int, dx: int)
    ensures Share(e, dy, dx) == e * (WeightAt(dy, dx) as real) / 48.0
  {
  }

  /** One visit of cell (y, x): the cell gets its quantised value and every
      in-bounds tap of the kernel gets its share of the error. Taps past an
      edge have no cell to land in, so their share is dropped. */
  function Step(g: Grid, h: nat, w: nat, y: nat, x: nat): (r: Grid)
    requires IsGrid(g, h, w) && y < h && x < w
    ensures IsGrid(r, h, w)
    ensures r[y][x] == Quantize(g[y][x])
    ensures forall i, j :: 0 <= i < h && 0 <= j < w && Before(i, j, y, x) ==> r[i][j] == g[i][j]
  {
    var e := Error(g[y][x]);
    var r := seq(h, i requires 0 <= i < h =>
      seq(w, j requires 0 <= j < w =>
        if i == y && j == x then Quantize(g[y][x])
        else g[i][j] + Share(e, i - y, j - x)));
    assert forall i, j :: 0 <= i < h && 0 <= j < w && Before(i, j, y, x) ==> Share(e, i - y, j - x) == 0.0;
    r
  }

  /** Row y after its first x cells have been visited, starting from g. */
  function RunRow(g: Grid, h: nat, w: nat, y: nat, x: nat): (r: Grid)
    requires IsGrid(g, h, w) && y < h && x <= w
    ensures IsGrid(r, h, w)
    decreases x
  {
    if x == 0 then g else Step(RunRow(g, h, w, y, x - 1), h, w, y, x - 1)
  }

  /** The buffer after its first y rows have been visited. */
  function RunRows(g: Grid, h: nat, w: nat, y: nat): (r: Grid)
    requires IsGrid(g, h, w) && y <= h
    ensures IsGrid(r, h, w)
    decreases y
  {
    if y == 0 then g else RunRow(RunRows(g, h, w, y - 1), h, w, y - 1, w)
  }

  /** The buffer at the moment cell (y, x) is visited (x == w: row y is done). */
  function StateAt(g: Grid, h: nat, w: nat, y: nat, x: nat): (r: Grid)
    requires IsGrid(g, h, w) && y < h && x <= w
    ensures IsGrid(r, h, w)
  {
    RunRow(RunRows(g, h, w, y), h, w, y, x)
  }

  /** The whole raster-order pass. */
  function Dither(g: Grid, h: nat, w: nat): (r: Grid)
    requires IsGrid(g, h, w)
    ensures IsGrid(r, h, w)
  {
    RunRows(g, h, w, h)
  }

  // ---------------------------------------------------------------------
  // What a single visit touches

  /** Only (y, x) itself and in-bounds cells strictly after it can change,
      and of those only the cells the kernel reaches. */
  lemma StepTouches(g: Grid, h: nat, w: nat, y: nat, x: nat, i: nat, j: nat)
    requires IsGrid(g, h, w) && y < h && x < w && i < h && j < w
    requires Step(g, h, w, y, x)[i][j] != g[i][j]
    ensures (i == y && j == x) || (Before(y, x, i, j) && i <= y + 2 && x - 2 <= j <= x + 2)
  {
    if !(i == y && j == x) {
      assert Share(Error(g[y][x]), i - y, j - x) != 0.0;
    }
  }

  /** The value of one cell after a visit. */
  lemma StepCell(g: Grid, h: nat, w: nat, y: nat, x: nat, i: nat, j: nat)
    requires IsGrid(g, h, w) && y < h && x < w && i < h && j < w
    ensures Step(g, h, w, y, x)[i][j]
         == if i == y && j == x then Quantize(g[y][x])
            else g[i][j] + Share(Error(g[y][x]), i - y, j - x)
  {
  }

  /** An in-bounds tap receives exactly its share of the error. */
  lemma StepTap(g: Grid, h: nat, w: nat, y: nat, x: nat, dy: nat, dx: int)
    requires IsGrid(g, h, w) && y < h && x < w
    requires WeightAt(dy, dx) > 0 && y + dy < h && 0 <= x + dx < w
    ensures Step(g, h, w, y, x)[y + dy][x + dx]
         == g[y + dy][x + dx] + Share(Error(g[y][x]), dy, dx)
  {
  }

  /** Visiting a cell that already holds 0 or 255 changes nothing. */
  lemma StepBinaryIdentity(g: Grid, h: nat, w: nat, y: nat, x: nat)
    requires IsGrid(g, h, w) && y < h && x < w && IsBinary(g[y][x])
    ensures Step(g, h, w, y, x) == g
  {
    var r := Step(g, h, w, y, x);
    forall i | 0 <= i < h
      ensures r[i] == g[i]
    {
      assert |r[i]| == |g[i]|;
      forall j | 0 <= j < w
        ensures r[i][j] == g[i][j]
      {
        assert Share(Error(g[y][x]), i - y, j - x) == 0.0;
      }
    }
  }

  // ---------------------------------------------------------------------
  // Raster-order invariant: visited cells are final

  /** Visiting (y, x - 1) leaves every cell before it as it was. */
  lemma OneMoreCellKeeps(g: Grid, h: nat, w: nat, y: nat, x: nat, i: nat, j: nat)
    requires IsGrid(g, h, w) && y < h && 0 < x <= w && i < h && j < w && Before(i, j, y, x - 1)
    ensures RunRow(g, h, w, y, x)[i][j] == RunRow(g, h, w, y, x - 1)[i][j]
  {
    var prev := RunRow(g, h, w, y, x - 1);
    assert RunRow(g, h, w, y, x) == Step(prev, h, w, y, x - 1);
  }

  /** Within row y, cells before (y, x) are not changed by visiting (y, x) .. (y, x' - 1). */
  lemma {:induction false} RowFrozen(g: Grid, h: nat, w: nat, y: nat, x: nat, x': nat, i: nat, j: nat)
    requires IsGrid(g, h, w) && y < h && x <= x' <= w && i < h && j < w && Before(i, j, y, x)
    ensures RunRow(g, h, w, y, x')[i][j] == RunRow(g, h, w, y, x)[i][j]
    decreases x'
  {
    if x' > x {
      RowFrozen(g, h, w, y, x, x' - 1, i, j);
      OneMoreCellKeeps(g, h, w, y, x', i, j);
    }
  }

  /** A pass over row y leaves the rows above it as they were. */
  lemma OneMoreRowKeeps(g: Grid, h: nat, w: nat, y: nat, i: nat, j: nat)
    requires IsGrid(g, h, w) && y < h && i < y && j < w
    ensures RunRows(g, h, w, y + 1)[i][j] == RunRows(g, h, w, y)[i][j]
  {
    var prev := RunRows(g, h, w, y);
    assert RunRows(g, h, w, y + 1) == RunRow(prev, h, w, y, w);
    RowFrozen(prev, h, w, y, 0, w, i, j);
  }

  /** Rows before y are not changed by visiting rows y .. y' - 1. */
  lemma {:induction false} RowsFrozen(g: Grid, h: nat, w: nat, y: nat, y': nat, i: nat, j: nat)
    requires IsGrid(g, h, w) && y <= y' <= h && i < y && j < w
    ensures RunRows(g, h, w, y')[i][j] == RunRows(g, h, w, y)[i][j]
    decreases y'
  {
    if y' > y {
      RowsFrozen(g, h, w, y, y' - 1, i, j);
      OneMoreRowKeeps(g, h, w, y' - 1, i, j);
    }
  }

  /** Every cell of row y before column x holds 0 or 255 once (y, x) is reached. */
  lemma {:induction false} RowVisitedBinary(g: Grid, h: nat, w: nat, y: nat, x: nat, j: nat)
    requires IsGrid(g, h, w) && y < h && x <= w && j < x
    ensures IsBinary(RunRow(g, h, w, y, x)[y][j])
    decreases x
  {
    if j < x - 1 {
      RowVisitedBinary(g, h, w, y, x - 1, j);
    }
  }

  /** Every cell of the first y rows holds 0 or 255 once row y is reached. */
  lemma {:induction false} RowsVisitedBinary(g: Grid, h: nat, w: nat, y: nat, i: nat, j: nat)
    requires IsGrid(g, h, w) && y <= h && i < y && j < w
    ensures IsBinary(RunRows(g, h, w, y)[i][j])
    decreases y
  {
    var prev := RunRows(g, h, w, y - 1);
    if i < y - 1 {
      RowsVisitedBinary(g, h, w, y - 1, i, j);
      RowFrozen(prev, h, w, y - 1, 0, w, i, j);
    } else {
      RowVisitedBinary(prev, h, w, y - 1, w, j);
    }
  }

  /** When (y, x) is visited, every cell before it already holds 0 or 255,
      and that value is the one it keeps to the end of the pass. */
  lemma VisitedAreFinal(g: Grid, h: nat, w: nat, y: nat, x: nat, i: nat, j: nat)
    requires IsGrid(g, h, w) && y < h && x <= w && i < h && j < w && Before(i, j, y, x)
    ensures IsBinary(StateAt(g, h, w, y, x)[i][j])
    ensures Dither(g, h, w)[i][j] == StateAt(g, h, w, y, x)[i][j]
  {
    VisitedBinary(g, h, w, y, x, i, j);
    VisitedKept(g, h, w, y, x, i, j);
  }

  /** A cell before (y, x) holds 0 or 255 once (y, x) is reached. */
  lemma VisitedBinary(g: Grid, h: nat, w: nat, y: nat, x: nat, i: nat, j: nat)
    requires IsGrid(g, h, w) && y < h && x <= w && i < h && j < w && Before(i, j, y, x)
    ensures IsBinary(StateAt(g, h, w, y, x)[i][j])
  {
    var rows := RunRows(g, h, w, y);
    assert StateAt(g, h, w, y, x) == RunRow(rows, h, w, y, x);
    if i < y {
      RowsVisitedBinary(g, h, w, y, i, j);
      RowFrozen(rows, h, w, y, 0, x, i, j);
    } else {
      RowVisitedBinary(rows, h, w, y, x, j);
    }
  }

  /** A cell before (y, x) keeps the value it has when (y, x) is reached. */
  lemma VisitedKept(g: Grid, h: nat, w: nat, y: nat, x: nat, i: nat, j: nat)
    requires IsGrid(g, h, w) && y < h && x <= w && i < h && j < w && Before(i, j, y, x)
    ensures Dither(g, h, w)[i][j] == StateAt(g, h, w, y, x)[i][j]
  {
    RowCompletionKeeps(g, h, w, y, x, i, j);
    RowsFrozen(g, h, w, y + 1, h, i, j);
    assert Dither(g, h, w) == RunRows(g, h, w, h);
  }

  /** Finishing row y keeps every cell before (y, x) as it was at (y, x). */
  lemma RowCompletionKeeps(g: Grid, h: nat, w: nat, y: nat, x: nat, i: nat, j: nat)
    requires IsGrid(g, h, w) && y < h && x <= w && i < h && j < w && Before(i, j, y, x)
    ensures RunRows(g, h, w, y + 1)[i][j] == StateAt(g, h, w, y, x)[i][j]
  {
    var rows := RunRows(g, h, w, y);
    assert StateAt(g, h, w, y, x) == RunRow(rows, h, w, y, x);
    assert RunRows(g, h, w, y + 1) == RunRow(rows, h, w, y, w);
    RowFrozen(rows, h, w, y, x, w, i, j);
  }


  // ---------------------------------------------------------------------
  // Properties of the whole pass

  /** Every cell of the result is exactly 0 or 255. */
  lemma DitherBinary(g: Grid, h: nat, w: nat)
    requires IsGrid(g, h, w)
    ensures AllBinary(Dither(g, h, w), h, w)
  {
    forall i, j | 0 <= i < h && 0 <= j < w
      ensures IsBinary(Dither(g, h, w)[i][j])
    {
      RowsVisitedBinary(g, h, w, h, i, j);
    }
  }

  /** The final value of (y, x) is the threshold of its clamped accumulated
      value at the moment it was visited: 255 iff that value is >= 128. */
  lemma DitherThreshold(g: Grid, h: nat, w: nat, y: nat, x: nat)
    requires IsGrid(g, h, w) && y < h && x < w
    ensures Dither(g, h, w)[y][x] == Quantize(StateAt(g, h, w, y, x)[y][x])
    ensures Dither(g, h, w)[y][x] == 255.0 <==> Clamp(StateAt(g, h, w, y, x)[y][x]) >= 128.0
  {
    VisitedAreFinal(g, h, w, y, x + 1, y, x);
  }

  /** Once (y, x) has been visited, no later visit writes to it. */
  lemma NeverWrittenAgain(g: Grid, h: nat, w: nat, y: nat, x: nat, y': nat, x': nat)
    requires IsGrid(g, h, w) && y < h && x < w && y' < h && x' <= w
    requires Before(y, x, y', x')
    ensures StateAt(g, h, w, y', x')[y][x] == Dither(g, h, w)[y][x]
  {
    VisitedAreFinal(g, h, w, y', x', y, x);
  }

  // ---------------------------------------------------------------------
  // Buffers that are already black and white

  /** A row scan over a black-and-white buffer changes nothing. */
  lemma {:induction false} RowBinaryIdentity(g: Grid, h: nat, w: nat, y: nat, x: nat)
    requires IsGrid(g, h, w) && y < h && x <= w && AllBinary(g, h, w)
    ensures RunRow(g, h, w, y, x) == g
    decreases x
  {
    if x > 0 {
      RowBinaryIdentity(g, h, w, y, x - 1);
      OneMoreCellIdentity(g, h, w, y, x);
    }
  }

  /** A visit that finds the buffer black and white leaves it so. */
  lemma OneMoreCellIdentity(g: Grid, h: nat, w: nat, y: nat, x: nat)
    requires IsGrid(g, h, w) && y < h && 0 < x <= w && AllBinary(g, h, w)
    requires RunRow(g, h, w, y, x - 1) == g
    ensures RunRow(g, h, w, y, x) == g
  {
    assert RunRow(g, h, w, y, x) == Step(RunRow(g, h, w, y, x - 1), h, w, y, x - 1);
    assert IsBinary(g[y][x - 1]);
    StepBinaryIdentity(g, h, w, y, x - 1);
  }

  /** Scanning rows of a black-and-white buffer changes nothing. */
  lemma {:induction false} RowsBinaryIdentity(g: Grid, h: nat, w: nat, y: nat)
    requires IsGrid(g, h, w) && y <= h && AllBinary(g, h, w)
    ensures RunRows(g, h, w, y) == g
    decreases y
  {
    if y > 0 {
      RowsBinaryIdentity(g, h, w, y - 1);
      OneMoreRowIdentity(g, h, w, y);
    }
  }

  /** A pass over a row of a black-and-white buffer leaves it so. */
  lemma OneMoreRowIdentity(g: Grid, h: nat, w: nat, y: nat)
    requires IsGrid(g, h, w) && 0 < y <= h && AllBinary(g, h, w)
    requires RunRows(g, h, w, y - 1) == g
    ensures RunRows(g, h, w, y) == g
  {
    assert RunRows(g, h, w, y) == RunRow(RunRows(g, h, w, y - 1), h, w, y - 1, w);
    RowBinaryIdentity(g, h, w, y - 1, w);
  }


  /** A buffer whose cells are all 0 or 255 comes back unchanged: every error is 0. */
  lemma DitherBinaryFixpoint(g: Grid, h: nat, w: nat)
    requires IsGrid(g, h, w) && AllBinary(g, h, w)
    ensures Dither(g, h, w) == g
  {
    RowsBinaryIdentity(g, h, w, h);
  }

  /** Dithering a dithered buffer is a no-op. */
  lemma DitherIdempotent(g: Grid, h: nat, w: nat)
    requires IsGrid(g, h, w)
    ensures Dither(Dither(g, h, w), h, w) == Dither(g, h, w)
  {
    DitherBinary(g, h, w);
    DitherBinaryFixpoint(Dither(g, h, w), h, w);
  }

  /** The h x w buffer every cell of which is v. */
  function Uniform(h: nat, w: nat, v: real): (g: Grid)
    ensures IsGrid(g, h, w)
    ensures forall i, j :: 0 <= i < h && 0 <= j < w ==> g[i][j] == v
  {
    seq(h, _ => seq(w, _ => v))
  }

  /** All-white stays all-white and all-black stays all-black. */
  lemma DitherUniformExtremes(h: nat, w: nat)
    ensures Dither(Uniform(h, w, 255.0), h, w) == Uniform(h, w, 255.0)
    ensures Dither(Uniform(h, w, 0.0), h, w) == Uniform(h, w, 0.0)
  {
    DitherBinaryFixpoint(Uniform(h, w, 255.0), h, w);
    DitherBinaryFixpoint(Uniform(h, w, 0.0), h, w);
  }

  // ---------------------------------------------------------------------
  // Where the error goes: kernel weights and edge clipping

  /** Sum of the first n cells of a row. */
  function RowTotal(r: seq<real>, n: nat): real
    requires n <= |r|
    decreases n
  {
    if n == 0 then 0.0 else RowTotal(r, n - 1) + r[n - 1]
  }

  /** Sum of all cells in the first m rows. */
  function GridTotal(g: Grid, h: nat, w: nat, m: nat): real
    requires IsGrid(g, h, w) && m <= h
    decreases m
  {
    if m == 0 then 0.0 else GridTotal(g, h, w, m - 1) + RowTotal(g[m - 1], w)
  }

  /** The error shares received by columns 0 .. n - 1 of the row at offset dy. */
  function RowShares(e: real, dy: int, x: nat, n: nat): real
    decreases n
  {
    if n == 0 then 0.0 else RowShares(e, dy, x, n - 1) + Share(e, dy, n - 1 - x)
  }

  /** The error shares received by rows 0 .. m - 1. */
  function BufferShares(e: real, y: nat, x: nat, w: nat, m: nat): real
    decreases m
  {
    if m == 0 then 0.0 else BufferShares(e, y, x, w, m - 1) + RowShares(e, m - 1 - y, x, w)
  }

  /** A tap's share of e if its column c lies in 0 .. n - 1, else 0. */
  function ClipShare(e: real, dy: int, dx: int, c: int, n: nat): real
  {
    if 0 <= c < n then Share(e, dy, dx) else 0.0
  }

  lemma {:induction false} RowSharesClosed(e: real, dy: int, x: nat, n: nat)
    ensures RowShares(e, dy, x, n)
         == ClipShare(e, dy, -2, x - 2, n) + ClipShare(e, dy, -1, x - 1, n) + ClipShare(e, dy, 0, x, n)
          + ClipShare(e, dy, 1, x + 1, n) + ClipShare(e, dy, 2, x + 2, n)
    decreases n
  {
    if n > 0 {
      RowSharesClosed(e, dy, x, n - 1);
    }
  }

  lemma {:induction false} BufferSharesClosed(e: real, y: nat, x: nat, w: nat, m: nat)
    ensures BufferShares(e, y, x, w, m)
         == (if y < m then RowShares(e, 0, x, w) else 0.0)
          + (if y + 1 < m then RowShares(e, 1, x, w) else 0.0)
          + (if y + 2 < m then RowShares(e, 2, x, w) else 0.0)
    decreases m
  {
    if m > 0 {
      BufferSharesClosed(e, y, x, w, m - 1);
      var dy := m - 1 - y;
      if dy < 0 || dy > 2 {
        RowSharesClosed(e, dy, x, w);
      }
    }
  }

  lemma {:induction false} RowStepTotal(g: Grid, h: nat, w: nat, y: nat, x: nat, i: nat, n: nat)
    requires IsGrid(g, h, w) && y < h && x < w && i < h && n <= w
    ensures RowTotal(Step(g, h, w, y, x)[i], n)
         == RowTotal(g[i], n)
          + (if i == y && x < n then Quantize(g[y][x]) - g[y][x] else 0.0)
          + RowShares(Error(g[y][x]), i - y, x, n)
    decreases n
  {
    if n > 0 {
      RowStepTotal(g, h, w, y, x, i, n - 1);
      StepCell(g, h, w, y, x, i, n - 1);
    }
  }

  lemma {:induction false} GridStepTotal(g: Grid, h: nat, w: nat, y: nat, x: nat, m: nat)
    requires IsGrid(g, h, w) && y < h && x < w && m <= h
    ensures GridTotal(Step(g, h, w, y, x), h, w, m)
         == GridTotal(g, h, w, m)
          + (if y < m then Quantize(g[y][x]) - g[y][x] else 0.0)
          + BufferShares(Error(g[y][x]), y, x, w, m)
    decreases m
  {
    if m > 0 {
      GridStepTotal(g, h, w, y, x, m - 1);
      RowStepTotal(g, h, w, y, x, m - 1, w);
    }
  }

  /** The part of error e that a visit of (y, x) passes on to cells inside
      the h x w buffer. */
  function PassedShare(e: real, h: nat, w: nat, y: nat, x: nat): real
  {
    BufferShares(e, y, x, w, h)
  }

  /** The shares each of the three kernel rows receives, with u = e / 48. */
  lemma RowSharesExplicit(e: real, x: nat, w: nat)
    requires x < w
    ensures var u := e / 48.0;
      RowShares(e, 0, x, w) == (if x + 1 < w then 7.0 * u else 0.0) + (if x + 2 < w then 5.0 * u else 0.0)
    ensures var u := e / 48.0;
      RowShares(e, 1, x, w)
        == (if 2 <= x then 3.0 * u else 0.0) + (if 1 <= x then 5.0 * u else 0.0) + 7.0 * u
         + (if x + 1 < w then 5.0 * u else 0.0) + (if x + 2 < w then 3.0 * u else 0.0)
    ensures var u := e / 48.0;
      RowShares(e, 2, x, w)
        == (if 2 <= x then 1.0 * u else 0.0) + (if 1 <= x then 3.0 * u else 0.0) + 5.0 * u
         + (if x + 1 < w then 3.0 * u else 0.0) + (if x + 2 < w then 1.0 * u else 0.0)
  {
    RowSharesClosed(e, 0, x, w);
    RowSharesClosed(e, 1, x, w);
    RowSharesClosed(e, 2, x, w);
  }

  /** The sum of the in-bounds taps of the three rows, as plain arithmetic:
      between 0 and e, and all of e exactly when all twelve taps are in. */
  lemma InsideSum(e: real, h: nat, w: nat, y: nat, x: nat, r0: real, r1: real, r2: real, p: real)
    requires y < h && x < w
    requires var u := e / 48.0;
      r0 == (if x + 1 < w then 7.0 * u else 0.0) + (if x + 2 < w then 5.0 * u else 0.0)
    requires var u := e / 48.0;
      r1 == (if 2 <= x then 3.0 * u else 0.0) + (if 1 <= x then 5.0 * u else 0.0) + 7.0 * u
          + (if x + 1 < w then 5.0 * u else 0.0) + (if x + 2 < w then 3.0 * u else 0.0)
    requires var u := e / 48.0;
      r2 == (if 2 <= x then 1.0 * u else 0.0) + (if 1 <= x then 3.0 * u else 0.0) + 5.0 * u
          + (if x + 1 < w then 3.0 * u else 0.0) + (if x + 2 < w then 1.0 * u else 0.0)
    requires p == r0 + (if y + 1 < h then r1 else 0.0) + (if y + 2 < h then r2 else 0.0)
    ensures e >= 0.0 ==> 0.0 <= p <= e
    ensures e <= 0.0 ==> e <= p <= 0.0
    ensures e != 0.0 ==> (p == e <==> (y + 2 < h && 2 <= x && x + 2 < w))
  {
  }

  /** The twelve shares add up to the whole error, and a visit passes on all
      of it exactly when every tap lands inside the buffer: two rows below and
      two columns to either side. Anywhere else some share is dropped; no share
      is ever redirected, so what is passed on never exceeds the error. */
  lemma PassedShareInterior(e: real, h: nat, w: nat, y: nat, x: nat)
    requires y < h && x < w
    ensures e >= 0.0 ==> 0.0 <= PassedShare(e, h, w, y, x) <= e
    ensures e <= 0.0 ==> e <= PassedShare(e, h, w, y, x) <= 0.0
    ensures e != 0.0 ==> (PassedShare(e, h, w, y, x) == e <==> (y + 2 < h && 2 <= x && x + 2 < w))
  {
    BufferSharesClosed(e, y, x, w, h);
    RowSharesExplicit(e, x, w);
    InsideSum(e, h, w, y, x, RowShares(e, 0, x, w), RowShares(e, 1, x, w), RowShares(e, 2, x, w),
              PassedShare(e, h, w, y, x));
  }

  /** A visit changes the buffer's total by what quantising the cell changed
      plus the shares of the error that landed inside the buffer. */
  lemma StepTotal(g: Grid, h: nat, w: nat, y: nat, x: nat)
    requires IsGrid(g, h, w) && y < h && x < w
    ensures GridTotal(Step(g, h, w, y, x), h, w, h)
         == GridTotal(g, h, w, h) + (Quantize(g[y][x]) - g[y][x]) + PassedShare(Error(g[y][x]), h, w, y, x)
  {
    GridStepTotal(g, h, w, y, x, h);
  }

  /** An interior visit passes on exactly its error, so the total intensity
      of the buffer changes only by the clamping of the visited cell. */
  lemma InteriorStepConserves(g: Grid, h: nat, w: nat, y: nat, x: nat)
    requires IsGrid(g, h, w) && y + 2 < h && 2 <= x && x + 2 < w
    ensures PassedShare(Error(g[y][x]), h, w, y, x) == Error(g[y][x])
    ensures GridTotal(Step(g, h, w, y, x), h, w, h) == GridTotal(g, h, w, h) + Clamp(g[y][x]) - g[y][x]
    ensures 0.0 <= g[y][x] <= 255.0 ==> GridTotal(Step(g, h, w, y, x), h, w, h) == GridTotal(g, h, w, h)
  {
    var e := Error(g[y][x]);
    PassedShareInterior(e, h, w, y, x);
    StepTotal(g, h, w, y, x);
  }
}
