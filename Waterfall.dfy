/** The waterfall buffer of `plot()`: loading a flat sample vector into rows of
    `channels` samples, blanking RFI-contaminated channels, and the dedispersion
    loop that rolls one column at a time along the time axis. */
module Waterfall {
  import opened Samples

  /** A waterfall as a sequence of rows (integrations) of samples (channels). */
  type Grid = seq<seq<Sample>>

  /** The first integrations of every recording are dropped as warm-up. */
  const WarmupRows: nat := 3

  predicate Rectangular(g: Grid, cols: nat) {
    forall r :: 0 <= r < |g| ==> |g[r]| == cols
  }

  function Min(a: int, b: int): int { if a <= b then a else b }

  /** Two rectangular grids with the same cells are equal. */
  lemma GridsEqual(a: Grid, b: Grid, cols: nat)
    requires |a| == |b| && Rectangular(a, cols) && Rectangular(b, cols)
    requires forall r, c :: 0 <= r < |a| && 0 <= c < cols ==> a[r][c] == b[r][c]
    ensures a == b
  {
    forall r | 0 <= r < |a|
      ensures a[r] == b[r]
    {
    }
  }

  // ---------------------------------------------------------------- loading

  /** `s.reshape(rows, cols)` of a flat, row-major sample vector. */
  function Reshape(s: seq<Sample>, rows: nat, cols: nat): (g: Grid)
    requires |s| == rows * cols
    ensures |g| == rows && Rectangular(g, cols)
    decreases rows
  {
    if rows == 0 then []
    else
      MulSucc(rows - 1, cols);
      [s[..cols]] + Reshape(s[cols..], rows - 1, cols)
  }

  /** Row r, column c of the reshaped buffer is flat sample r * cols + c. */
  lemma {:induction false} ReshapeCell(s: seq<Sample>, rows: nat, cols: nat, r: nat, c: nat)
    requires |s| == rows * cols && r < rows && c < cols
    ensures r * cols + c < |s| && Reshape(s, rows, cols)[r][c] == s[r * cols + c]
    decreases r
  {
    MulSucc(rows - 1, cols);
    if r > 0 {
      MulSucc(r - 1, cols);
      ReshapeCell(s[cols..], rows - 1, cols, r - 1, c);
    }
  }

  lemma MulSucc(a: int, n: int)
    ensures (a + 1) * n == a * n + n
  {
  }

  /** `np.fromfile(...).reshape(-1, channels)[3:, :]`: channels == 0 already
      fails computing the accumulation bin count, a size that is not a multiple
      of a positive channel count fails the reshape, and a recording of at
      most three rows leaves an empty buffer. */
  function Load(samples: seq<Sample>, channels: int): (res: Result<Grid>)
    ensures channels == 0 <==> res == Err(ZeroDivisionError)
    ensures res == Err(ValueError) <==> channels != 0 && (channels < 0 || |samples| % channels != 0)
    ensures res.Ok? ==> channels > 0 && Rectangular(res.value, channels)
    ensures res.Ok? ==> |res.value| == (if |samples| / channels > WarmupRows then |samples| / channels - WarmupRows else 0)
  {
    if channels == 0 then Err(ZeroDivisionError)
    else if channels < 0 || |samples| % channels != 0 then Err(ValueError)
    else
      var all := Reshape(samples, |samples| / channels, channels);
      Ok(if |all| <= WarmupRows then [] else all[WarmupRows..])
  }

  /** Row r, column c of the loaded buffer is flat sample (r + 3) * channels + c:
      the warm-up rows are the first 3 * channels samples. */
  lemma LoadCells(samples: seq<Sample>, channels: int)
    requires Load(samples, channels).Ok?
    ensures var g := Load(samples, channels).value;
      forall r, c :: 0 <= r < |g| && 0 <= c < channels ==>
        (r + WarmupRows) * channels + c < |samples| && g[r][c] == samples[(r + WarmupRows) * channels + c]
  {
    var rows := |samples| / channels;
    var g := Load(samples, channels).value;
    forall r, c | 0 <= r < |g| && 0 <= c < channels
      ensures (r + WarmupRows) * channels + c < |samples| && g[r][c] == samples[(r + WarmupRows) * channels + c]
    {
      ReshapeCell(samples, rows, channels, r + WarmupRows, c);
    }
  }

  /** The contents of a 2-D buffer, row by row. */
  ghost function Cells(w: array2<Sample>): (g: Grid)
    reads w
    ensures |g| == w.Length0 && Rectangular(g, w.Length1)
    ensures forall r, c :: 0 <= r < w.Length0 && 0 <= c < w.Length1 ==> g[r][c] == w[r, c]
  {
    seq(w.Length0, r requires 0 <= r < w.Length0 reads w =>
      seq(w.Length1, c requires 0 <= c < w.Length1 reads w => w[r, c]))
  }

  /** The buffer numpy allocates for a loaded waterfall. */
  method NewWaterfall(g: Grid, cols: nat) returns (w: array2<Sample>)
    requires Rectangular(g, cols)
    ensures fresh(w) && w.Length0 == |g| && w.Length1 == cols
    ensures Cells(w) == g
  {
    w := new Sample[|g|, cols]((r, c) requires 0 <= r < |g| && 0 <= c < cols => g[r][c]);
    GridsEqual(Cells(w), g, cols);
  }

  // ----------------------------------------------------------- RFI blanking

  /** Python column index i, with negative indices counting from the end,
      names column c for some i in lo .. stop-1. */
  predicate Hit(c: int, lo: int, stop: int, cols: int) {
    (lo <= c < stop) || (lo <= c - cols < stop)
  }

  /** Every index of `range(lo, hi)` is a valid column index of a buffer with
      `cols` columns, so the blanking loop raises nothing. */
  predicate BlankFits(lo: int, hi: int, cols: nat) {
    hi <= lo || (0 <= lo + cols && hi <= cols)
  }

  /** The index at which `for i in range(lo, hi)` over the columns stops: hi,
      or the first index that raises IndexError. */
  function BlankStop(lo: int, hi: int, cols: nat): int {
    if hi <= lo || lo + cols < 0 then lo
    else if hi > cols then (if lo >= cols then lo else cols)
    else hi
  }

  /** The waterfall with every column named by an index in lo .. stop-1 set to NaN. */
  function Blanked(g: Grid, cols: nat, lo: int, stop: int): (h: Grid)
    requires Rectangular(g, cols)
    ensures |h| == |g| && Rectangular(h, cols)
  {
    seq(|g|, r requires 0 <= r < |g| =>
      seq(cols, c requires 0 <= c < cols => if Hit(c, lo, stop, cols) then NaN else g[r][c]))
  }

  /** When 0 <= lo <= hi <= cols, blanking sets exactly columns lo .. hi-1 to
      NaN in every row, leaves every other cell alone and raises nothing. */
  lemma BlankedExactly(g: Grid, cols: nat, lo: int, hi: int)
    requires Rectangular(g, cols) && 0 <= lo <= hi <= cols
    ensures BlankFits(lo, hi, cols) && BlankStop(lo, hi, cols) == hi
    ensures var h := Blanked(g, cols, lo, hi);
      |h| == |g| && Rectangular(h, cols) &&
      forall r, c :: 0 <= r < |g| && 0 <= c < cols ==> h[r][c] == (if lo <= c < hi then NaN else g[r][c])
  {
  }

  /** Blanking the same columns twice gives the buffer blanking once gives. */
  lemma BlankedIdempotent(g: Grid, cols: nat, lo: int, stop: int)
    requires Rectangular(g, cols)
    ensures Blanked(Blanked(g, cols, lo, stop), cols, lo, stop) == Blanked(g, cols, lo, stop)
  {
    var h := Blanked(g, cols, lo, stop);
    GridsEqual(Blanked(h, cols, lo, stop), h, cols);
  }

  /** The loop `for i in range(lo, hi): waterfall[:, i] = np.nan`. */
  method BlankChannels(w: array2<Sample>, lo: int, hi: int) returns (res: Outcome)
    modifies w
    ensures res == (if BlankFits(lo, hi, w.Length1) then Pass else Fail(IndexError))
    ensures Cells(w) == Blanked(old(Cells(w)), w.Length1, lo, BlankStop(lo, hi, w.Length1))
  {
    var cols := w.Length1;
    var i := lo;
    while i < hi
      invariant lo <= i && (hi <= lo ==> i == lo) && (lo < hi ==> i <= hi)
      invariant i == lo || (0 <= lo + cols && i <= cols)
      invariant forall r, c :: 0 <= r < w.Length0 && 0 <= c < cols ==>
                  w[r, c] == if Hit(c, lo, i, cols) then NaN else old(w[r, c])
    {
      if i + cols < 0 || i >= cols {
        res := Fail(IndexError);
        GridsEqual(Cells(w), Blanked(old(Cells(w)), cols, lo, i), cols);
        return;
      }
      var c := if i < 0 then i + cols else i;
      forall r | 0 <= r < w.Length0 {
        w[r, c] := NaN;
      }
      i := i + 1;
    }
    res := Pass;
    GridsEqual(Cells(w), Blanked(old(Cells(w)), cols, lo, i), cols);
  }

  // ----------------------------------------------------------- dedispersion

  /** Column col of the waterfall, top to bottom. */
  function Column(g: Grid, cols: nat, col: nat): (s: seq<Sample>)
    requires Rectangular(g, cols) && col < cols
  {
    seq(|g|, r requires 0 <= r < |g| => g[r][col])
  }

  /** x reduced modulo n > 0 into 0 .. n-1, as Python's `%` and numpy's roll
      offset compute it (WrapIsMod); recursive, so that the roll lemmas below
      reason about it through their arithmetic helpers only. */
  function Wrap(x: int, n: int): (y: int)
    requires n > 0
    ensures 0 <= y < n
    decreases if x < 0 then 1 else 0, if x < 0 then -x else x
  {
    if x < 0 then Wrap(x + n, n)
    else if x >= n then Wrap(x - n, n)
    else x
  }

  /** Euclidean division has one quotient and one remainder. */
  lemma ModUnique(z: int, n: int, d: int, m: int)
    requires n > 0 && z == n * d + m && 0 <= m < n
    ensures z % n == m
  {
    var q := z / n;
    assert z == n * q + z % n;
    if d > q {
      assert n * d == n * q + n * (d - q);
      MulAtLeast(n, d - q);
    } else if d < q {
      assert n * q == n * d + n * (q - d);
      MulAtLeast(n, q - d);
    }
  }

  lemma {:induction false} MulAtLeast(n: nat, k: int)
    requires k >= 1
    ensures n * k >= n
    decreases k
  {
    if k > 1 {
      MulAtLeast(n, k - 1);
      assert n * k == n * (k - 1) + n;
    }
  }

  lemma ModPlusN(x: int, n: int)
    requires n > 0
    ensures (x + n) % n == x % n
  {
    var q := x / n;
    assert x == n * q + x % n;
    assert x + n == n * (q + 1) + x % n;
    ModUnique(x + n, n, q + 1, x % n);
  }

  /** Wrap is the remainder of Euclidean division, Python's `%` for n > 0. */
  lemma {:induction false} WrapIsMod(x: int, n: int)
    requires n > 0
    ensures Wrap(x, n) == x % n
    decreases if x < 0 then 1 else 0, if x < 0 then -x else x
  {
    if x < 0 {
      WrapIsMod(x + n, n);
      ModPlusN(x, n);
    } else if x >= n {
      WrapIsMod(x - n, n);
      ModPlusN(x - n, n);
    } else {
      ModUnique(x, n, 0, x);
    }
  }

  /** Adding n does not change the remainder. */
  lemma WrapPlusN(x: int, n: int)
    requires n > 0
    ensures Wrap(x + n, n) == Wrap(x, n)
  {
  }

  /** Reducing an intermediate sum does not change the final remainder. */
  lemma {:induction false} WrapAddWrap(x: int, y: int, n: int)
    requires n > 0
    ensures Wrap(Wrap(x, n) + y, n) == Wrap(x + y, n)
    decreases if x < 0 then 1 else 0, if x < 0 then -x else x
  {
    if x < 0 {
      WrapAddWrap(x + n, y, n);
      WrapPlusN(x + y, n);
    } else if x >= n {
      WrapAddWrap(x - n, y, n);
      WrapPlusN(x - n + y, n);
    }
  }

  /** Adding a multiple of n does not change the remainder. */
  lemma WrapOfMultiple(x: int, k: int, n: int)
    requires n > 0 && Wrap(k, n) == 0
    ensures Wrap(x + k, n) == Wrap(x, n)
  {
    WrapAddWrap(k, x, n);
    assert Wrap(Wrap(k, n) + x, n) == Wrap(x, n);
  }

  /** Wrapping a value already in range leaves it alone. */
  lemma WrapInRange(x: int, n: int)
    requires 0 <= x < n
    ensures Wrap(x, n) == x
  {
  }

  /** `waterfall[:, col] = np.roll(waterfall[:, col], -k)`. */
  function RollColumn(g: Grid, cols: nat, col: nat, k: int): (h: Grid)
    requires Rectangular(g, cols) && col < cols
    ensures |h| == |g| && Rectangular(h, cols)
  {
    seq(|g|, r requires 0 <= r < |g| => g[r][col := g[Wrap(r + k, |g|)][col]])
  }

  /** Rolling column col by k moves old row (r + k) mod rows of that column to
      row r and leaves every other column unchanged. */
  lemma RollColumnCells(g: Grid, cols: nat, col: nat, k: int)
    requires Rectangular(g, cols) && col < cols
    ensures var h := RollColumn(g, cols, col, k);
      forall r, c :: 0 <= r < |g| && 0 <= c < cols ==>
        h[r][c] == (if c == col then g[Wrap(r + k, |g|)][col] else g[r][c])
  {
  }

  /** Rolling by a multiple of the row count is the identity. */
  lemma RollColumnByMultiple(g: Grid, cols: nat, col: nat, k: int)
    requires Rectangular(g, cols) && col < cols
    requires |g| == 0 || k % |g| == 0
    ensures RollColumn(g, cols, col, k) == g
  {
    var h := RollColumn(g, cols, col, k);
    forall r | 0 <= r < |g|
      ensures h[r] == g[r]
    {
      WrapIsMod(k, |g|);
      WrapOfMultiple(r, k, |g|);
      WrapInRange(r, |g|);
    }
  }

  /** Rolling by a and then by b is rolling by their sum. */
  lemma RollColumnCompose(g: Grid, cols: nat, col: nat, a: int, b: int)
    requires Rectangular(g, cols) && col < cols
    ensures RollColumn(RollColumn(g, cols, col, a), cols, col, b) == RollColumn(g, cols, col, a + b)
  {
    var h1 := RollColumn(g, cols, col, a);
    var h2 := RollColumn(h1, cols, col, b);
    var h := RollColumn(g, cols, col, a + b);
    forall r | 0 <= r < |g|
      ensures h2[r] == h[r]
    {
      WrapAddWrap(r + b, a, |g|);
      assert r + b + a == r + (a + b);
    }
  }

  /** Rolling by -k undoes rolling by k. */
  lemma RollColumnInverse(g: Grid, cols: nat, col: nat, k: int)
    requires Rectangular(g, cols) && col < cols
    ensures RollColumn(RollColumn(g, cols, col, k), cols, col, -k) == g
  {
    RollColumnCompose(g, cols, col, k, -k);
    if |g| > 0 {
      ModUnique(k + -k, |g|, 0, 0);
    }
    RollColumnByMultiple(g, cols, col, k + -k);
  }

  /** The rolled column is a rotation of the old one, so it holds the same
      multiset of samples. */
  lemma RollColumnPermutes(g: Grid, cols: nat, col: nat, k: int)
    requires Rectangular(g, cols) && col < cols
    ensures multiset(Column(RollColumn(g, cols, col, k), cols, col)) == multiset(Column(g, cols, col))
  {
    var n := |g|;
    if n > 0 {
      var before := Column(g, cols, col);
      var after := Column(RollColumn(g, cols, col, k), cols, col);
      var j := Wrap(k, n);
      forall r | 0 <= r < n
        ensures after[r] == (before[j..] + before[..j])[r]
      {
        WrapAddWrap(k, r, n);
        assert r + k == k + r;
        if r < n - j {
          WrapInRange(j + r, n);
        } else {
          WrapInRange(j + r - n, n);
        }
      }
      assert after == before[j..] + before[..j];
      assert before == before[..j] + before[j..];
    }
  }

  /** `waterfall[:, col] = np.roll(waterfall[:, col], -k)`; an index past the
      last column raises IndexError and changes nothing. */
  method Shift(w: array2<Sample>, col: nat, k: int) returns (ok: bool)
    modifies w
    ensures ok <==> col < w.Length1
    ensures ok ==> Cells(w) == RollColumn(old(Cells(w)), w.Length1, col, k)
    ensures !ok ==> Cells(w) == old(Cells(w))
  {
    if col >= w.Length1 {
      return false;
    }
    var rows := w.Length0;
    var column := seq(rows, r requires 0 <= r < rows reads w => w[r, col]);
    forall r | 0 <= r < rows {
      w[r, col] := column[Wrap(r + k, rows)];
    }
    RolledCells(w, old(Cells(w)), col, k);
    return true;
  }

  /** A buffer whose column col holds the rows of `before` rolled by k, and
      whose other columns are those of `before`, is RollColumn of `before`. */
  lemma RolledCells(w: array2<Sample>, before: Grid, col: nat, k: int)
    requires |before| == w.Length0 && Rectangular(before, w.Length1) && col < w.Length1
    requires forall r :: 0 <= r < w.Length0 ==> w[r, col] == before[Wrap(r + k, w.Length0)][col]
    requires forall r, c :: 0 <= r < w.Length0 && 0 <= c < w.Length1 && c != col ==> w[r, c] == before[r][c]
    ensures Cells(w) == RollColumn(before, w.Length1, col, k)
  {
    RollColumnCells(before, w.Length1, col, k);
    GridsEqual(Cells(w), RollColumn(before, w.Length1, col, k), w.Length1);
  }

  /** The waterfall after the first `done` iterations of the dedispersion loop:
      iteration t rolls column t by shifts[t]. */
  function Dedispersed(g: Grid, cols: nat, shifts: seq<int>, done: nat): (h: Grid)
    requires Rectangular(g, cols) && done <= cols && done <= |shifts|
    ensures |h| == |g| && Rectangular(h, cols)
  {
    if done == 0 then g
    else RollColumn(Dedispersed(g, cols, shifts, done - 1), cols, done - 1, shifts[done - 1])
  }

  /** After `done` iterations, column c < done holds the old column rolled by
      shifts[c] and every later column is untouched: iteration t changes only
      column t. By induction on the iterations: iteration done - 1 rolls
      column done - 1, reading that column where the earlier iterations left
      it untouched. */
  lemma {:induction false} DedispersedCell(g: Grid, cols: nat, shifts: seq<int>, done: nat, r: nat, c: nat)
    requires Rectangular(g, cols) && done <= cols && done <= |shifts| && r < |g| && c < cols
    ensures Dedispersed(g, cols, shifts, done)[r][c] == (if c < done then g[Wrap(r + shifts[c], |g|)][c] else g[r][c])
  {
    if done > 0 {
      var prev := Dedispersed(g, cols, shifts, done - 1);
      var src := Wrap(r + shifts[done - 1], |g|);
      DedispersedCell(g, cols, shifts, done - 1, r, c);
      DedispersedCell(g, cols, shifts, done - 1, src, done - 1);
      RollColumnCells(prev, cols, done - 1, shifts[done - 1]);
    }
  }

  /** How the dedispersion block ends for dm != 0: `subs == 0` divides by zero
      computing the frequency step, and more rows than columns runs the loop
      into a column index that does not exist. */
  function DedispersionOutcome(rows: nat, cols: nat): Outcome {
    if rows == 0 then Fail(ZeroDivisionError)
    else if rows > cols then Fail(IndexError)
    else Pass
  }

  /** `if dm != 0: for t_bin in range(subs): shift(t_bin, n)`, with the shift
      count of each iteration given in `shifts`. */
  method Dedisperse(w: array2<Sample>, dm: real, shifts: seq<int>) returns (res: Outcome)
    requires |shifts| == w.Length0
    modifies w
    ensures dm == 0.0 ==> res == Pass && Cells(w) == old(Cells(w))
    ensures dm != 0.0 ==> res == DedispersionOutcome(w.Length0, w.Length1)
    ensures dm != 0.0 ==> Cells(w) == Dedispersed(old(Cells(w)), w.Length1, shifts, Min(w.Length0, w.Length1))
  {
    if dm == 0.0 {
      return Pass;
    }
    var subs := w.Length0;
    if subs == 0 {
      return Fail(ZeroDivisionError);
    }
    var tBin := 0;
    while tBin < subs
      invariant 0 <= tBin <= subs && tBin <= w.Length1
      invariant Cells(w) == Dedispersed(old(Cells(w)), w.Length1, shifts, tBin)
    {
      var ok := Shift(w, tBin, shifts[tBin]);
      if !ok {
        return Fail(IndexError);
      }
      tBin := tBin + 1;
    }
    return Pass;
  }
}
