/**
  `permute` and `unpermute` of export_state_dict_checkpoint.py: they reorder
  the rows of a `dim x dim` attention weight inside each head's block of
  `dim / n_heads` rows, converting between the two ways the rotary halves of
  a head can be laid out. The elements are never inspected, so a matrix is a
  sequence of rows over an arbitrary element type.

  With `hd = dim / n_heads` and `half = hd / 2`:
    permute   reads `view(n_heads, half, 2, dim)`, swaps the middle axes and
              reshapes, so input row  h*hd + 2*i + j  lands on output row
              h*hd + j*half + i;
    unpermute reads `view(n_heads, 2, half, dim)` and does the reverse.
 */
module HeadPermutation {

  /** A 2-D tensor as the sequence of its rows. */
  type Matrix<T> = seq<seq<T>>

  predicate IsSquare<T>(w: Matrix<T>, dim: nat) {
    |w| == dim && forall r :: 0 <= r < |w| ==> |w[r]| == dim
  }

  /**
    The shapes under which both views exist: `n_heads` divides `dim` and the
    head dimension `dim // n_heads` splits into two equal halves.
   */
  predicate ValidHeads(nHeads: int, dim: int) {
    nHeads > 0 && dim >= 0 && dim % nHeads == 0 && (dim / nHeads) % 2 == 0
  }

  // ---------------------------------------------------------------------
  // Arithmetic
  // ---------------------------------------------------------------------

  lemma MulAtLeast(k: int, d: int)
    requires k >= 1 && d >= 0
    ensures k * d >= d
    decreases k
  {
    if k > 1 {
      MulAtLeast(k - 1, d);
      assert k * d == (k - 1) * d + d;
    }
  }

  lemma Distributes(x: int, q: int, d: int)
    ensures (x - q) * d == x * d - q * d
  {
  }

  /** Division with remainder is unique. */
  lemma DivModUnique(a: int, d: int, x: int, y: int)
    requires d > 0 && 0 <= y < d && a == x * d + y
    ensures a / d == x && a % d == y
  {
    var q, r := a / d, a % d;
    assert a == q * d + r;
    Distributes(x, q, d);
    Distributes(q, x, d);
    if x - q > 0 {
      MulAtLeast(x - q, d);
    } else if x - q < 0 {
      MulAtLeast(q - x, d);
    }
  }

  /** The head dimension `dim / nHeads` multiplies back to `dim`. */
  lemma HeadLayout(nHeads: nat, dim: nat)
    requires ValidHeads(nHeads, dim)
    ensures dim == nHeads * (dim / nHeads)
    ensures dim > 0 ==> dim / nHeads > 0
  {
  }

  /** A row's head block lies inside the matrix. */
  lemma BlockInside(o: nat, hd: nat, nHeads: nat)
    requires hd > 0 && o < nHeads * hd
    ensures o / hd < nHeads
    ensures o - o % hd + hd <= nHeads * hd
  {
    var h := o / hd;
    assert o == h * hd + o % hd;
    if h >= nHeads {
      if h > nHeads {
        MulAtLeast(h - nHeads, hd);
      }
      Distributes(h, nHeads, hd);
    }
    MulAtLeast(nHeads - h, hd);
    Distributes(nHeads, h, hd);
  }

  // ---------------------------------------------------------------------
  // Row index maps
  // ---------------------------------------------------------------------

  /** A position in a head is in its first or its second half. */
  lemma SplitHalf(q: nat, half: nat)
    requires 0 < half && q < 2 * half
    ensures q < half ==> q / half == 0 && q % half == q
    ensures q >= half ==> q / half == 1 && q % half == q - half
  {
    if q < half {
      DivModUnique(q, half, 0, q);
    } else {
      DivModUnique(q, half, 1, q - half);
    }
  }

  /** Within a head: `permute`'s output position `j*half + i` reads input position `2*i + j`. */
  function PermutedFrom(q: nat, half: nat): (p: nat)
    requires 0 < half && q < 2 * half
    ensures p < 2 * half
  {
    SplitHalf(q, half);
    2 * (q % half) + q / half
  }

  /** Within a head: `unpermute`'s output position `2*i + j` reads input position `j*half + i`. */
  function UnpermutedFrom(p: nat, half: nat): (q: nat)
    requires 0 < half && p < 2 * half
    ensures q < 2 * half
  {
    (p % 2) * half + p / 2
  }

  /** Moving to offset `x` within the block of row `o` stays in that block. */
  lemma BlockOffset(o: nat, hd: nat, x: nat)
    requires 0 < hd && x < hd
    ensures o % hd <= o
    ensures (o - o % hd + x) / hd == o / hd && (o - o % hd + x) % hd == x
  {
    var q, r := o / hd, o % hd;
    assert o == q * hd + r;
    DivModUnique(q * hd + x, hd, q, x);
  }

  /** Within a matrix with heads of `hd` rows: the input row that `permute` puts at output row `o`. */
  function PermuteSourceIn(o: nat, hd: nat): (s: nat)
    requires hd > 0 && hd % 2 == 0
    ensures s / hd == o / hd
    ensures s % hd == PermutedFrom(o % hd, hd / 2)
  {
    var x := PermutedFrom(o % hd, hd / 2);
    BlockOffset(o, hd, x);
    o - o % hd + x
  }

  /** Within a matrix with heads of `hd` rows: the input row that `unpermute` puts at output row `o`. */
  function UnpermuteSourceIn(o: nat, hd: nat): (s: nat)
    requires hd > 0 && hd % 2 == 0
    ensures s / hd == o / hd
    ensures s % hd == UnpermutedFrom(o % hd, hd / 2)
  {
    var x := UnpermutedFrom(o % hd, hd / 2);
    BlockOffset(o, hd, x);
    o - o % hd + x
  }

  /** A row index in the same head block as a row of the matrix is a row of the matrix. */
  lemma SameBlockInside(s: nat, o: nat, nHeads: nat, dim: nat)
    requires ValidHeads(nHeads, dim) && o < dim
    requires dim / nHeads > 0 && s / (dim / nHeads) == o / (dim / nHeads)
    ensures s < dim
  {
    var hd := dim / nHeads;
    HeadLayout(nHeads, dim);
    BlockInside(o, hd, nHeads);
    DivModUnique(s, hd, s / hd, s % hd);
  }

  /** The input row that `permute` puts at output row `o`. */
  function PermuteSource(o: nat, nHeads: nat, dim: nat): (s: nat)
    requires ValidHeads(nHeads, dim) && o < dim
    ensures s < dim
  {
    HeadLayout(nHeads, dim);
    var s := PermuteSourceIn(o, dim / nHeads);
    SameBlockInside(s, o, nHeads, dim);
    s
  }

  /** The input row that `unpermute` puts at output row `o`. */
  function UnpermuteSource(o: nat, nHeads: nat, dim: nat): (s: nat)
    requires ValidHeads(nHeads, dim) && o < dim
    ensures s < dim
  {
    HeadLayout(nHeads, dim);
    var s := UnpermuteSourceIn(o, dim / nHeads);
    SameBlockInside(s, o, nHeads, dim);
    s
  }

  // ---------------------------------------------------------------------
  // permute / unpermute
  // ---------------------------------------------------------------------

  function Permute<T>(w: Matrix<T>, nHeads: nat, dim: nat): (r: Matrix<T>)
    requires ValidHeads(nHeads, dim) && IsSquare(w, dim)
    ensures IsSquare(r, dim)
  {
    seq(dim, o requires 0 <= o < dim => w[PermuteSource(o, nHeads, dim)])
  }

  function Unpermute<T>(w: Matrix<T>, nHeads: nat, dim: nat): (r: Matrix<T>)
    requires ValidHeads(nHeads, dim) && IsSquare(w, dim)
    ensures IsSquare(r, dim)
  {
    seq(dim, o requires 0 <= o < dim => w[UnpermuteSource(o, nHeads, dim)])
  }

  // ---------------------------------------------------------------------
  // Properties
  // ---------------------------------------------------------------------

  /** The two within-head maps undo each other. */
  lemma WithinHeadInverse(q: nat, half: nat)
    requires 0 < half && q < 2 * half
    ensures UnpermutedFrom(PermutedFrom(q, half), half) == q
    ensures PermutedFrom(UnpermutedFrom(q, half), half) == q
  {
    BlockInside(q, half, 2);
    var p := PermutedFrom(q, half);
    DivModUnique(p, 2, q % half, q / half);
    DivModUnique(q, half, q / half, q % half);
    var u := UnpermutedFrom(q, half);
    if q % 2 == 0 {
      DivModUnique(u, half, 0, q / 2);
    } else {
      DivModUnique(u, half, 1, q / 2);
    }
  }

  /** Row by row, `unpermute` reads back exactly the row `permute` moved, and vice versa. */
  lemma SourcesInverse(o: nat, nHeads: nat, dim: nat)
    requires ValidHeads(nHeads, dim) && o < dim
    ensures PermuteSource(UnpermuteSource(o, nHeads, dim), nHeads, dim) == o
    ensures UnpermuteSource(PermuteSource(o, nHeads, dim), nHeads, dim) == o
  {
    HeadLayout(nHeads, dim);
    var hd := dim / nHeads;
    var q := o % hd;
    WithinHeadInverse(q, hd / 2);
  }

  /** `unpermute` undoes `permute`. */
  lemma UnpermutePermute<T>(w: Matrix<T>, nHeads: nat, dim: nat)
    requires ValidHeads(nHeads, dim) && IsSquare(w, dim)
    ensures Unpermute(Permute(w, nHeads, dim), nHeads, dim) == w
  {
    var r := Unpermute(Permute(w, nHeads, dim), nHeads, dim);
    forall o | 0 <= o < dim
      ensures r[o] == w[o]
    {
      SourcesInverse(o, nHeads, dim);
    }
  }

  /** `permute` undoes `unpermute`. */
  lemma PermuteUnpermute<T>(w: Matrix<T>, nHeads: nat, dim: nat)
    requires ValidHeads(nHeads, dim) && IsSquare(w, dim)
    ensures Permute(Unpermute(w, nHeads, dim), nHeads, dim) == w
  {
    var r := Permute(Unpermute(w, nHeads, dim), nHeads, dim);
    forall o | 0 <= o < dim
      ensures r[o] == w[o]
    {
      SourcesInverse(o, nHeads, dim);
    }
  }

  /** Row `h*hd + j*half + i` of a head-major `hd`-row layout, `h < nHeads`, lies in head `h`. */
  lemma Coordinates(nHeads: nat, dim: nat, h: nat, j: nat, i: nat)
    requires ValidHeads(nHeads, dim)
    requires h < nHeads && j < 2 && i < dim / nHeads / 2
    ensures var hd := dim / nHeads;
      var o := h * hd + j * (hd / 2) + i;
      o < dim && o / hd == h && o % hd == j * (hd / 2) + i
  {
    HeadLayout(nHeads, dim);
    var hd := dim / nHeads;
    var x := j * (hd / 2) + i;
    assert x < hd by {
      if j == 1 {
        assert x == hd / 2 + i;
      }
    }
    DivModUnique(h * hd + x, hd, h, x);
    MulAtLeast(nHeads - h, hd);
    Distributes(nHeads, h, hd);
  }

  /**
    `permute` in the coordinates of the source's `view(n_heads, half, 2, dim)
    .transpose(1, 2)`: input row `h*hd + 2*i + j` becomes output row
    `h*hd + j*half + i`, whole, within the same head.
   */
  lemma PermuteMovesRow<T>(w: Matrix<T>, nHeads: nat, dim: nat, h: nat, i: nat, j: nat)
    requires ValidHeads(nHeads, dim) && IsSquare(w, dim)
    requires h < nHeads && i < dim / nHeads / 2 && j < 2
    ensures var hd := dim / nHeads;
      && h * hd + j * (hd / 2) + i < dim
      && h * hd + 2 * i + j < dim
      && Permute(w, nHeads, dim)[h * hd + j * (hd / 2) + i] == w[h * hd + 2 * i + j]
  {
    var hd := dim / nHeads;
    var half := hd / 2;
    Coordinates(nHeads, dim, h, j, i);
    var x := j * half + i;
    if j == 0 {
      DivModUnique(x, half, 0, i);
    } else {
      DivModUnique(x, half, 1, i);
    }
    assert PermuteSource(h * hd + x, nHeads, dim) == h * hd + 2 * i + j;
  }

  /**
    `unpermute` in the coordinates of the source's `view(n_heads, 2, half, dim)
    .transpose(1, 2)`: input row `h*hd + j*half + i` becomes output row
    `h*hd + 2*i + j`, whole, within the same head.
   */
  lemma UnpermuteMovesRow<T>(w: Matrix<T>, nHeads: nat, dim: nat, h: nat, i: nat, j: nat)
    requires ValidHeads(nHeads, dim) && IsSquare(w, dim)
    requires h < nHeads && i < dim / nHeads / 2 && j < 2
    ensures var hd := dim / nHeads;
      && h * hd + j * (hd / 2) + i < dim
      && h * hd + 2 * i + j < dim
      && Unpermute(w, nHeads, dim)[h * hd + 2 * i + j] == w[h * hd + j * (hd / 2) + i]
  {
    PermuteMovesRow(Unpermute(w, nHeads, dim), nHeads, dim, h, i, j);
    PermuteUnpermute(w, nHeads, dim);
  }
}
