/**
 * Dense occupancy grids as the heatmap saver sees them.
 *
 * An occupancy-grid message carries its cells as one flat, row-major list
 * (`info.height` rows of `info.width` cells). The saver turns that list into
 * a height x width array, derives a 0/1 free-space mask from the base map and
 * multiplies every incoming grid by that mask, cell by cell. Cells are
 * mathematical integers here: the message's int8 values (-1 unknown, 0 free,
 * up to 100 occupied) and the products of those values with 0 or 1 all fit.
 */
module Grid {

  /** numpy's reshape fails when the flat length is not height * width. */
  datatype ReshapeError = ShapeMismatch(length: nat, height: nat, width: nat)

  datatype Result<T> = Ok(value: T) | Err(error: ReshapeError)

  /** `g` has exactly `height` rows of `width` cells each. */
  predicate IsGrid(g: seq<seq<int>>, height: nat, width: nat)
  {
    |g| == height && forall i :: 0 <= i < height ==> |g[i]| == width
  }

  /** Every cell of `g` is 0 or 1. */
  predicate IsBinary(g: seq<seq<int>>)
  {
    forall i, j :: 0 <= i < |g| && 0 <= j < |g[i]| ==> g[i][j] == 0 || g[i][j] == 1
  }

  /** The rows of `g` laid end to end: the flat, row-major list a grid is sent as. */
  function Flatten(g: seq<seq<int>>): (data: seq<int>)
  {
    if |g| == 0 then [] else g[0] + Flatten(g[1..])
  }

  /**
   * Cuts a flat row-major list into `height` rows of `width` cells: the first
   * `width` values form row 0, the rest is cut the same way.
   */
  function Rows(data: seq<int>, height: nat, width: nat): (g: seq<seq<int>>)
    requires |data| == height * width
    ensures IsGrid(g, height, width)
    ensures Flatten(g) == data
    decreases height
  {
    if height == 0 then []
    else
      var g := [data[..width]] + Rows(data[width..], height - 1, width);
      assert g[1..] == Rows(data[width..], height - 1, width);
      g
  }

  /**
   * `np.array(data).reshape((height, width))`: the grid of `height` rows of
   * `width` cells whose rows laid end to end are `data`, or an error when the
   * length does not fit the shape.
   */
  function Reshape(data: seq<int>, height: nat, width: nat): (r: Result<seq<seq<int>>>)
    ensures r.Ok? <==> |data| == height * width
    ensures r.Err? ==> r.error == ShapeMismatch(|data|, height, width)
    ensures r.Ok? ==> IsGrid(r.value, height, width) && Flatten(r.value) == data
  {
    if |data| != height * width then Err(ShapeMismatch(|data|, height, width))
    else Ok(Rows(data, height, width))
  }

  /** A grid of `height` rows of `width` cells flattens to `height * width` values. */
  lemma {:induction false} FlattenLength(g: seq<seq<int>>, height: nat, width: nat)
    requires IsGrid(g, height, width)
    ensures |Flatten(g)| == height * width
    decreases height
  {
    if height > 0 {
      FlattenLength(g[1..], height - 1, width);
    }
  }

  /** Removing the first row of a `k`-row layout leaves `k - 1` rows of `width` cells. */
  lemma RowStart(k: nat, width: nat)
    requires k > 0
    ensures k * width == (k - 1) * width + width
  {
  }

  /**
   * Row-major layout: cell (i, j) of a grid is entry `i * width + j` of its
   * flat list. With Reshape this is numpy's reading of a reshaped message.
   */
  lemma {:induction false} RowMajorCell(g: seq<seq<int>>, height: nat, width: nat, i: nat, j: nat)
    requires IsGrid(g, height, width)
    requires i < height && j < width
    ensures i * width + j < |Flatten(g)| && g[i][j] == Flatten(g)[i * width + j]
    decreases i
  {
    FlattenLength(g, height, width);
    if i > 0 {
      RowStart(i, width);
      RowMajorCell(g[1..], height - 1, width, i - 1, j);
    }
  }

  /** `.astype(bool)`: a cell is true exactly when its value is nonzero. */
  function ToBool(g: seq<seq<int>>): (b: seq<seq<bool>>)
    ensures |b| == |g| && forall i :: 0 <= i < |g| ==> |b[i]| == |g[i]|
  {
    seq(|g|, i requires 0 <= i < |g| => seq(|g[i]|, j requires 0 <= j < |g[i]| => g[i][j] != 0))
  }

  /** `(~b).astype(int)`: a cell is 1 where `b` is false and 0 where it is true. */
  function NegateToInt(b: seq<seq<bool>>): (g: seq<seq<int>>)
    ensures |g| == |b| && forall i :: 0 <= i < |b| ==> |g[i]| == |b[i]|
    ensures IsBinary(g)
  {
    seq(|b|, i requires 0 <= i < |b| => seq(|b[i]|, j requires 0 <= j < |b[i]| => if b[i][j] then 0 else 1))
  }

  /** The free-space mask of a base map: `(~base.astype(bool)).astype(int)`. */
  function FreeMask(base: seq<seq<int>>): seq<seq<int>>
  {
    NegateToInt(ToBool(base))
  }

  /** `data * mask` on two arrays of the same shape: the cell-by-cell product. */
  function Multiply(data: seq<seq<int>>, mask: seq<seq<int>>, height: nat, width: nat): (g: seq<seq<int>>)
    requires IsGrid(data, height, width) && IsGrid(mask, height, width)
    ensures IsGrid(g, height, width)
  {
    seq(height, i requires 0 <= i < height => seq(width, j requires 0 <= j < width => data[i][j] * mask[i][j]))
  }

  /**
   * A mask cell is 1 exactly where the base map is free (value 0) and 0 for
   * every other value, unknown (-1) and occupied alike.
   */
  lemma FreeMaskCells(base: seq<seq<int>>, height: nat, width: nat)
    requires IsGrid(base, height, width)
    ensures IsGrid(FreeMask(base), height, width) && IsBinary(FreeMask(base))
    ensures forall i, j :: 0 <= i < height && 0 <= j < width ==>
      (FreeMask(base)[i][j] == 1 <==> base[i][j] == 0) &&
      (FreeMask(base)[i][j] == 0 <==> base[i][j] != 0)
  {
  }

  /**
   * Masking an incoming grid with the free-space mask of a base map keeps the
   * incoming value on free base cells and zeroes every other cell, so a nonzero
   * masked cell is always a free cell of the base map.
   */
  lemma MaskedCells(data: seq<seq<int>>, base: seq<seq<int>>, height: nat, width: nat)
    requires IsGrid(data, height, width) && IsGrid(base, height, width)
    ensures IsGrid(FreeMask(base), height, width)
    ensures forall i, j :: 0 <= i < height && 0 <= j < width ==>
      Multiply(data, FreeMask(base), height, width)[i][j] == (if base[i][j] == 0 then data[i][j] else 0)
    ensures forall i, j :: 0 <= i < height && 0 <= j < width ==>
      (Multiply(data, FreeMask(base), height, width)[i][j] != 0 <==> base[i][j] == 0 && data[i][j] != 0)
  {
    FreeMaskCells(base, height, width);
  }
}
