/**
 * The heatmap saver: it derives a free-space mask from the base map once,
 * posts that mask's CSR pattern, and then, for every costmap update, masks
 * the update and posts only the CSR pattern of the result (which cells are
 * nonzero, row by row), never the cell values.
 *
 * The HTTP posts are represented by the bodies the saver builds: the base
 * body is kept in a field, an update body is the result of SaveHeatmap.
 */
module CostmapSaver {
  import opened Grid
  import opened Csr

  /** The body posted once at start-up: the base map's free-space pattern. */
  datatype MaskBody = MaskBody(name: string, width: nat, height: nat, indices: seq<int>, indptr: seq<int>)

  /** The body posted for each costmap update; `date` is the caller's timestamp. */
  datatype UpdateBody = UpdateBody(date: string, indices: seq<int>, indptr: seq<int>)

  class HeatmapSaver {
    const width: nat
    const height: nat
    const size: (nat, nat)
    /** The dense 0/1 free-space mask every update is multiplied by. */
    const mask: seq<seq<int>>
    /** The body posted for the base mask during construction. */
    const baseBody: MaskBody

    /**
     * The state construction establishes: `size` is (height, width), the mask
     * is a height x width grid of zeros and ones, and the posted base body
     * names the shape and carries exactly the CSR pattern of that mask.
     */
    ghost predicate Valid()
    {
      size == (height, width) &&
      IsGrid(mask, height, width) && IsBinary(mask) &&
      baseBody.name == "base_mask" && baseBody.width == width && baseBody.height == height &&
      baseBody.indices == FromDense(mask, width).indices &&
      baseBody.indptr == FromDense(mask, width).indptr
    }

    /**
     * Reads the base map (`mapData` in row-major order), builds the
     * free-space mask step by step (reshape, nonzero test, negation, CSR
     * encoding), and then fixes the shape, the posted base body and the mask
     * converted back to a dense grid. All five fields are constants: nothing
     * changes them after construction.
     */
    constructor (mapWidth: nat, mapHeight: nat, mapData: seq<int>)
      requires |mapData| == mapHeight * mapWidth
      ensures Valid()
      ensures width == mapWidth && height == mapHeight
      ensures Reshape(mapData, mapHeight, mapWidth).Ok?
      ensures forall i, j :: 0 <= i < mapHeight && 0 <= j < mapWidth ==>
        (mask[i][j] == 1 <==> Reshape(mapData, mapHeight, mapWidth).value[i][j] == 0) &&
        (mask[i][j] == 0 <==> Reshape(mapData, mapHeight, mapWidth).value[i][j] != 0)
    {
      var grid := Reshape(mapData, mapHeight, mapWidth).value;
      var occupied := ToBool(grid);
      var free := NegateToInt(occupied);
      FreeMaskCells(grid, mapHeight, mapWidth);
      var csr := FromDense(free, mapWidth);
      DenseRoundTrip(free, mapWidth);
      width := mapWidth;
      height := mapHeight;
      size := (mapHeight, mapWidth);
      baseBody := MaskBody("base_mask", mapWidth, mapHeight, csr.indices, csr.indptr);
      mask := ToDense(csr, mapHeight, mapWidth);
    }

    /**
     * Handles one costmap update given as row-major `msgData`. A length that
     * does not fit the map's shape is a reshape error; otherwise the body
     * carries `date` and a well-formed CSR pattern whose stored cells are
     * exactly the cells that are free in the base map and nonzero in the
     * update. The saver's state is only read.
     */
    function SaveHeatmap(msgData: seq<int>, date: string): (r: Result<UpdateBody>)
      requires Valid()
      ensures r.Err? <==> |msgData| != height * width
      ensures r.Err? ==> r.error == ShapeMismatch(|msgData|, height, width)
      ensures r.Ok? ==> r.value.date == date
      ensures r.Ok? ==> PatternWellFormed(r.value.indices, r.value.indptr, height, width)
      ensures r.Ok? ==> forall i, j :: 0 <= i < height && 0 <= j < width ==>
        ((i, j) in StoredCells(r.value.indices, r.value.indptr, height, width) <==>
         mask[i][j] == 1 && Reshape(msgData, height, width).value[i][j] != 0)
    {
      match Reshape(msgData, size.0, size.1)
      case Err(e) => Err(e)
      case Ok(data) =>
        var csr := FromDense(Multiply(data, mask, height, width), width);
        MaskedPattern(data, mask, height, width);
        Ok(UpdateBody(date, csr.indices, csr.indptr))
    }
  }

  /**
   * The CSR pattern of an update multiplied by a 0/1 mask is well formed and
   * stores exactly the cells where the mask is 1 and the update is nonzero.
   */
  lemma MaskedPattern(data: seq<seq<int>>, mask: seq<seq<int>>, height: nat, width: nat)
    requires IsGrid(data, height, width) && IsGrid(mask, height, width) && IsBinary(mask)
    ensures PatternWellFormed(FromDense(Multiply(data, mask, height, width), width).indices,
                              FromDense(Multiply(data, mask, height, width), width).indptr, height, width)
    ensures forall i, j :: 0 <= i < height && 0 <= j < width ==>
      ((i, j) in StoredCells(FromDense(Multiply(data, mask, height, width), width).indices,
                             FromDense(Multiply(data, mask, height, width), width).indptr, height, width)
       <==> mask[i][j] == 1 && data[i][j] != 0)
  {
    var masked := Multiply(data, mask, height, width);
    PatternIsNonzeroCells(masked, width);
    forall i, j | 0 <= i < height && 0 <= j < width
      ensures (i, j) in NonzeroCells(masked) <==> mask[i][j] == 1 && data[i][j] != 0
    {
      assert masked[i][j] == data[i][j] * mask[i][j];
    }
  }

  /**
   * The posted base body marks exactly the mask's free cells: decoding its
   * pattern gives the set of cells where the mask is 1.
   */
  lemma BaseBodyIsFreeSpace(s: HeatmapSaver)
    requires s.Valid()
    ensures PatternWellFormed(s.baseBody.indices, s.baseBody.indptr, s.height, s.width)
    ensures forall i, j :: 0 <= i < s.height && 0 <= j < s.width ==>
      ((i, j) in StoredCells(s.baseBody.indices, s.baseBody.indptr, s.height, s.width) <==> s.mask[i][j] == 1)
  {
    PatternIsNonzeroCells(s.mask, s.width);
    forall i, j | 0 <= i < s.height && 0 <= j < s.width
      ensures (i, j) in NonzeroCells(s.mask) <==> s.mask[i][j] == 1
    {
      assert s.mask[i][j] == 0 || s.mask[i][j] == 1;
    }
  }

  /**
   * An update body depends only on where the masked update is nonzero: two
   * updates whose masked grids have the same nonzero cells give the same
   * `indices` and `indptr`, whatever their values.
   */
  lemma SameCellsSameBody(s: HeatmapSaver, data1: seq<int>, data2: seq<int>, date: string)
    requires s.Valid()
    requires |data1| == s.height * s.width && |data2| == s.height * s.width
    requires NonzeroCells(Multiply(Reshape(data1, s.height, s.width).value, s.mask, s.height, s.width)) ==
             NonzeroCells(Multiply(Reshape(data2, s.height, s.width).value, s.mask, s.height, s.width))
    ensures s.SaveHeatmap(data1, date) == s.SaveHeatmap(data2, date)
  {
    var g1 := Multiply(Reshape(data1, s.height, s.width).value, s.mask, s.height, s.width);
    var g2 := Multiply(Reshape(data2, s.height, s.width).value, s.mask, s.height, s.width);
    SameCellsSamePattern(g1, g2, s.width);
  }
}
