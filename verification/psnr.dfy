/** The fidelity comparator `calculate_psnr` (app.py:45-53), reduced to the
    branch that matters for correctness: the mean squared difference of the
    two pixel arrays is zero, and the result is +inf, exactly when the
    arrays agree everywhere. The finite value 20 * log10(255 / sqrt(mse)) is
    floating point and is supplied as the parameter `db`. */
module Psnr {
  import opened Base

  datatype Rgb = Rgb(r: byte, g: byte, b: byte)

  /** What a decoded image looks like as a numpy array of shape
      (height, width, 3): at least one row and one column, every row the
      same width. */
  predicate Rectangular(rows: seq<seq<Rgb>>)
  {
    |rows| > 0 && |rows[0]| > 0 && forall i :: 0 <= i < |rows| ==> |rows[i]| == |rows[0]|
  }

  type Image = rows: seq<seq<Rgb>> | Rectangular(rows) witness [[Rgb(0, 0, 0)]]

  function Height(img: Image): nat { |img| }

  function Width(img: Image): nat { |img[0]| }

  predicate SameShape(a: Image, b: Image)
  {
    Height(a) == Height(b) && Width(a) == Width(b)
  }

  lemma SquareIsZeroOnlyAtZero(x: int)
    ensures x * x >= 0
    ensures x * x == 0 <==> x == 0
  {
  }

  /** Sum over the three channels of the squared difference of two pixels,
      computed without overflow (the source casts to float32 first). */
  function SquaredError(p: Rgb, q: Rgb): (d: nat)
    ensures d == 0 <==> p == q
  {
    var dr, dg, db := p.r as int - q.r as int, p.g as int - q.g as int, p.b as int - q.b as int;
    SquareIsZeroOnlyAtZero(dr);
    SquareIsZeroOnlyAtZero(dg);
    SquareIsZeroOnlyAtZero(db);
    dr * dr + dg * dg + db * db
  }

  // numpy broadcasting of `original - generated`, one axis at a time: two
  // sizes combine when they are equal or when either is 1, and the result
  // takes the larger size.

  predicate AxisCompatible(m: nat, n: nat) { m == n || m == 1 || n == 1 }

  function AxisSize(m: nat, n: nat): nat { if m == 1 then n else m }

  /** `img` can be read at every cell of an h x w grid under broadcasting. */
  predicate Spans(img: Image, h: nat, w: nat)
  {
    (Height(img) == h || Height(img) == 1) && (Width(img) == w || Width(img) == 1)
  }

  /** The pixel that broadcasting puts at cell (i, j) of the h x w grid. */
  function At(img: Image, h: nat, w: nat, i: nat, j: nat): Rgb
    requires Spans(img, h, w) && i < h && j < w
  {
    img[if Height(img) == 1 then 0 else i][if Width(img) == 1 then 0 else j]
  }

  /** Sum of squared errors over the first n cells of row i. */
  function RowError(a: Image, b: Image, h: nat, w: nat, i: nat, n: nat): nat
    requires Spans(a, h, w) && Spans(b, h, w) && i < h && n <= w
  {
    if n == 0 then 0
    else RowError(a, b, h, w, i, n - 1) + SquaredError(At(a, h, w, i, n - 1), At(b, h, w, i, n - 1))
  }

  /** Sum of squared errors over the first m rows of the grid. */
  function GridError(a: Image, b: Image, h: nat, w: nat, m: nat): nat
    requires Spans(a, h, w) && Spans(b, h, w) && m <= h
  {
    if m == 0 then 0
    else GridError(a, b, h, w, m - 1) + RowError(a, b, h, w, m - 1, w)
  }

  /** The two images show the same pixel at every cell of the h x w grid. */
  predicate AgreeOn(a: Image, b: Image, h: nat, w: nat)
    requires Spans(a, h, w) && Spans(b, h, w)
  {
    forall i, j :: 0 <= i < h && 0 <= j < w ==> At(a, h, w, i, j) == At(b, h, w, i, j)
  }

  lemma {:induction false} RowErrorZero(a: Image, b: Image, h: nat, w: nat, i: nat, n: nat)
    requires Spans(a, h, w) && Spans(b, h, w) && i < h && n <= w
    ensures RowError(a, b, h, w, i, n) == 0 <==>
            forall j :: 0 <= j < n ==> At(a, h, w, i, j) == At(b, h, w, i, j)
  {
    if n > 0 {
      RowErrorZero(a, b, h, w, i, n - 1);
    }
  }

  lemma {:induction false} GridErrorZero(a: Image, b: Image, h: nat, w: nat, m: nat)
    requires Spans(a, h, w) && Spans(b, h, w) && m <= h
    ensures GridError(a, b, h, w, m) == 0 <==>
            forall i, j :: 0 <= i < m && 0 <= j < w ==> At(a, h, w, i, j) == At(b, h, w, i, j)
  {
    if m > 0 {
      GridErrorZero(a, b, h, w, m - 1);
      RowErrorZero(a, b, h, w, m - 1, w);
    }
  }

  /** app.py:48-53 once the difference array has shape (h, w, 3): +inf when
      the mean of the squared differences is 0, otherwise `db` of it. */
  function ScoreOver(a: Image, b: Image, h: nat, w: nat, db: real -> real): (s: Score)
    requires Spans(a, h, w) && Spans(b, h, w) && h > 0 && w > 0
    ensures s == Inf <==> AgreeOn(a, b, h, w)
  {
    var mse := GridError(a, b, h, w, h) as real / (3 * h * w) as real;
    GridErrorZero(a, b, h, w, h);
    if mse == 0.0 then Inf else Finite(db(mse))
  }

  /** calculate_psnr as written: the subtraction broadcasts, so it fails
      (numpy raises) only when an axis is incompatible, and otherwise it is
      +inf exactly when the two images agree on every cell of the
      broadcast grid. */
  function CalculatePsnrAsWritten(original: Image, generated: Image, db: real -> real): (r: Option<Score>)
    ensures r.Some? <==>
            AxisCompatible(Height(original), Height(generated)) &&
            AxisCompatible(Width(original), Width(generated))
    ensures r.Some? ==>
              (r.value == Inf <==>
               AgreeOn(original, generated, AxisSize(Height(original), Height(generated)), AxisSize(Width(original), Width(generated))))
  {
    if !AxisCompatible(Height(original), Height(generated)) || !AxisCompatible(Width(original), Width(generated)) then
      None
    else
      var h, w := AxisSize(Height(original), Height(generated)), AxisSize(Width(original), Width(generated));
      Some(ScoreOver(original, generated, h, w, db))
  }

  /** A reference whose two rows are both black, and a one-pixel black
      submission: broadcasting stretches the submission over the
      reference, so the program reports an exact match between two images
      that differ. */
  lemma BroadcastFalseMatch(db: real -> real)
    ensures var reference: Image, submitted: Image := [[Rgb(0, 0, 0)], [Rgb(0, 0, 0)]], [[Rgb(0, 0, 0)]];
            reference != submitted &&
            CalculatePsnrAsWritten(reference, submitted, db) == Some(Inf) &&
            CalculatePsnr(reference, submitted, db) == None
  {
  }

  /** calculate_psnr with the shape check the comparison needs: images of
      different shapes are not compared. On images of the same shape it
      is exactly the code as written. */
  function CalculatePsnr(original: Image, generated: Image, db: real -> real): (r: Option<Score>)
    ensures r.Some? <==> SameShape(original, generated)
    ensures SameShape(original, generated) ==> r == CalculatePsnrAsWritten(original, generated, db)
  {
    if !SameShape(original, generated) then None
    else Some(ScoreOver(original, generated, Height(original), Width(original), db))
  }

  /** At equal shapes, broadcasting reads each image at the cell itself. */
  lemma AgreeOnIsEquality(a: Image, b: Image)
    requires SameShape(a, b)
    ensures AgreeOn(a, b, Height(a), Width(a)) <==> a == b
  {
    var h, w := Height(a), Width(a);
    if AgreeOn(a, b, h, w) {
      forall i | 0 <= i < h
        ensures a[i] == b[i]
      {
        forall j | 0 <= j < w
          ensures a[i][j] == b[i][j]
        {
          assert At(a, h, w, i, j) == At(b, h, w, i, j);
        }
      }
    }
  }

  /** The exact-match branch (app.py:48-50): the comparator returns +inf
      precisely for two identical images. */
  lemma ExactMatchIffIdentical(original: Image, generated: Image, db: real -> real)
    ensures CalculatePsnr(original, generated, db) == Some(Inf) <==> original == generated
  {
    if SameShape(original, generated) {
      AgreeOnIsEquality(original, generated);
    }
  }
}
