# Heatmap saver: masked costmaps as CSR sparsity patterns

This project models the core of the THMHO NGSI converter's `HeatmapSaver`, a
ROS node. The node forwards costmap updates to a storage service.

At start-up it reads the base occupancy map. That map arrives as a flat
row-major list of `height * width` cells: -1 is unknown, 0 is free and values
up to 100 are occupied. The node reshapes the list into a grid and builds a
0/1 free-space mask from it. A mask cell is 1 exactly where the base map is 0.
The node posts the mask's compressed-sparse-row (CSR) pattern (`indices`,
`indptr`) and keeps the mask as a dense grid.

For every costmap update, the node reshapes the update to the base map's
shape and multiplies it cell by cell with the mask. It posts only the CSR
pattern of the product, together with a date: which cells are nonzero, row
by row. The cell values are not sent.

The model has three modules:

- `Grid` (`grid.dfy`): reshaping a flat list, the free-space mask and the
  cell-by-cell product.
- `Csr` (`csr.dfy`): the dense-to-CSR construction (`csr_matrix` of a dense
  array) written out explicitly, with zeros dropped and columns ascending in
  each row, plus `toarray`. It proves the pattern's structure and that the
  stored cells are exactly the nonzero cells. It also proves the round trip
  in both directions: grid to CSR to grid, and canonical CSR to grid to CSR.
- `CostmapSaver` (`heatmap_saver.dfy`): the `HeatmapSaver` class. Its
  constructor builds the mask step by step. Its `SaveHeatmap` function
  builds the update body from the saver's state. `width`, `height`, `size`,
  `mask` and the base body are constants set by the constructor, so in the
  model every update uses the mask fixed at construction. The source does
  not guarantee this ordering; see `SaveHeatmap` under "## Left out".

## Model

| member | source | states |
|---|---|---|
| `Grid.Rows` | thmho_ngsi_converter_bringup/scripts/costmap_saver.py:23 | cuts a list of length height*width into height rows of width cells whose concatenation is the list |
| `Grid.Reshape` | thmho_ngsi_converter_bringup/scripts/costmap_saver.py:22-23 | succeeds exactly when the length is height*width, giving the height x width grid whose rows concatenate to the data; otherwise a shape-mismatch error carrying length and shape |
| `Grid.RowMajorCell` | thmho_ngsi_converter_bringup/scripts/costmap_saver.py:23 | row-major layout: cell (i, j) of a height x width grid is entry i*width + j of its flat list, and that index is in range |
| `Grid.FlattenLength` | thmho_ngsi_converter_bringup/scripts/costmap_saver.py:42 | a height x width grid flattens to exactly height*width values |
| `Grid.ToBool` | thmho_ngsi_converter_bringup/scripts/costmap_saver.py:23 | `.astype(bool)` keeps the grid's shape (cell meaning stated by FreeMaskCells) |
| `Grid.NegateToInt` | thmho_ngsi_converter_bringup/scripts/costmap_saver.py:24 | `(~b).astype(int)` keeps the shape and yields only 0 and 1 |
| `Grid.Multiply` | thmho_ngsi_converter_bringup/scripts/costmap_saver.py:44 | the product of two height x width grids is height x width (cell meaning stated by MaskedCells) |
| `Grid.FreeMaskCells` | thmho_ngsi_converter_bringup/scripts/costmap_saver.py:23-24 | the mask `FreeMask(base)` (`ToBool` then `NegateToInt`) is a 0/1 grid of the base map's shape; a cell is 1 iff the base cell is 0, and 0 iff it is nonzero (unknown -1 and occupied alike) |
| `Grid.MaskedCells` | thmho_ngsi_converter_bringup/scripts/costmap_saver.py:44 | a masked cell equals the update's value where the base cell is free and 0 elsewhere, so it is nonzero iff the base cell is free and the update's cell is nonzero |
| `Csr.NonzeroColumns` | thmho_ngsi_converter_bringup/scripts/costmap_saver.py:25 | the columns stored for one row are strictly increasing, lie in [0, width), and contain c iff the row's cell c is nonzero |
| `Csr.FromDense` | thmho_ngsi_converter_bringup/scripts/costmap_saver.py:25 | `indptr` has one entry per row plus one, starts at 0 and ends at the number of stored cells; `data` and `indices` have equal length |
| `Csr.ToDense` | thmho_ngsi_converter_bringup/scripts/costmap_saver.py:34 | `toarray()` yields a grid of the matrix's shape (its contents stated by DenseRoundTrip) |
| `Csr.FromDenseRows` | thmho_ngsi_converter_bringup/scripts/costmap_saver.py:25 | the matrix built from a grid is well formed and stores no zero; row r stores exactly row r's nonzero columns, ascending, with their values |
| `Csr.AppendRow` | thmho_ngsi_converter_bringup/scripts/costmap_saver.py:44 | `Append`, one row step of `csr_matrix`: storing one more row keeps a canonical matrix canonical, leaves earlier rows unchanged and stores the new row's nonzero cells |
| `Csr.AppendIndptr` | thmho_ngsi_converter_bringup/scripts/costmap_saver.py:30-31 | after one more row, `indptr` still starts at 0, is non-decreasing and ends at `len(indices)` |
| `Csr.LookupStored` | thmho_ngsi_converter_bringup/scripts/costmap_saver.py:34 | `Lookup`, `toarray`'s read of one cell: in a row with strictly increasing columns, densifying a stored column yields its stored value |
| `Csr.LookupUnstored` | thmho_ngsi_converter_bringup/scripts/costmap_saver.py:34 | `Lookup`: densifying a column with nothing stored yields 0 |
| `Csr.AscendingUnique` | thmho_ngsi_converter_bringup/scripts/costmap_saver.py:48 | two strictly increasing column lists with the same members are equal, so a row's `indices` slice is fixed by its set of columns |
| `Csr.DenseRow` | thmho_ngsi_converter_bringup/scripts/costmap_saver.py:25-34 | one row densified from its nonzero columns and their values is the original row |
| `Csr.DenseRoundTrip` | thmho_ngsi_converter_bringup/scripts/costmap_saver.py:25-34 | `csr_matrix(g).toarray() == g` for every grid g |
| `Csr.DenseRowOfCanonical` | thmho_ngsi_converter_bringup/scripts/costmap_saver.py:34 | row r of a canonical matrix's dense form has exactly the stored columns as nonzero columns, holding the stored values |
| `Csr.CanonicalRoundTrip` | thmho_ngsi_converter_bringup/scripts/costmap_saver.py:25-34 | every canonical CSR matrix (no stored zero, ascending columns) is `csr_matrix` of its own `toarray()`, so the encoding is one-to-one |
| `Csr.RowsDetermine` | thmho_ngsi_converter_bringup/scripts/costmap_saver.py:30-31 | two well-formed matrices storing the same columns and values in every row are equal |
| `Csr.PatternIsNonzeroCells` | thmho_ngsi_converter_bringup/scripts/costmap_saver.py:44-49 | the `indices`/`indptr` pattern built from a grid is well formed (`indptr` length height+1, from 0, non-decreasing, ending at `len(indices)`; columns in [0, width), strictly increasing per row) and decodes to exactly the grid's nonzero cells |
| `Csr.SameCellsSamePattern` | thmho_ngsi_converter_bringup/scripts/costmap_saver.py:46-50 | two grids of one shape with the same nonzero cells get identical `indices` and `indptr`, whatever their values |
| `CostmapSaver.HeatmapSaver.constructor` | thmho_ngsi_converter_bringup/scripts/costmap_saver.py:20-34 | keeps width, height and size = (height, width); the dense mask is 1 exactly on the free cells of the reshaped base map and 0 on the others; the base body is named `base_mask`, carries the shape and the mask's CSR pattern |
| `CostmapSaver.HeatmapSaver.SaveHeatmap` | thmho_ngsi_converter_bringup/scripts/costmap_saver.py:36-50 | a reshape error iff the update's length is not height*width; otherwise a body with the given date and a well-formed pattern whose stored cells are exactly the cells free in the mask and nonzero in the update; the saver's state is only read |
| `CostmapSaver.MaskedPattern` | thmho_ngsi_converter_bringup/scripts/costmap_saver.py:44-49 | the CSR pattern of an update multiplied by a 0/1 mask is well formed and stores exactly the cells where the mask is 1 and the update is nonzero |
| `CostmapSaver.BaseBodyIsFreeSpace` | thmho_ngsi_converter_bringup/scripts/costmap_saver.py:25-31 | the posted base body is a well-formed pattern that marks exactly the cells where the mask is 1 |
| `CostmapSaver.SameCellsSameBody` | thmho_ngsi_converter_bringup/scripts/costmap_saver.py:44-50 | two updates whose masked grids have the same nonzero cells produce the same update body for the same date |

## Left out

- ROS plumbing is not modelled: the topic subscription, `wait_for_message` on `/map` with its 100 s timeout, `init_node`, `spin` and the 5 s sleep. They are I/O and process lifecycle.
- CostmapSaver.HeatmapSaver.SaveHeatmap: assumes construction has finished before the first update, through `requires Valid()`. The source does not guarantee this. It subscribes to the costmap topic at costmap_saver.py:17-18, before it waits for `/map` (line 19) and before it sets `size` and `mask` (lines 20-34). rospy runs callbacks on their own threads. An update that arrives before line 22 fails at line 42, outside the `try`, because `size` does not exist yet. One that arrives after line 22 has set `size` but before line 23 has first bound `mask` passes line 42 and then fails at line 44 with an AttributeError, which the `except` at line 53 catches and prints, so nothing is posted. One that arrives between lines 23 and 24 is multiplied by the bool array, which is true on the non-free cells. One that arrives between lines 25 and 34 is multiplied by a `csr_matrix`, for which `*` is a matrix product. The model does not capture updates during construction.
- The two HTTP posts and the endpoint URL are not modelled; they are network I/O. The base body is kept in the field `baseBody`, and an update body is the result of `SaveHeatmap`.
- `datetime.now().isoformat()` is a clock; the date is a parameter of `SaveHeatmap`. The `print` logging is left out.
- The `except Exception` around masking and posting is left out. Once construction has finished, it only catches failures of the HTTP call or of scipy, which the model does not have. During construction it can also catch the missing `mask` described under `SaveHeatmap` above.
- CostmapSaver.HeatmapSaver.constructor: requires the base map's length to be height*width. In the source a mismatch raises an uncaught reshape error during construction, and the node never starts. `SaveHeatmap` models its own mismatch as an `Err` result. There, the reshape happens outside the `try`, so the error escapes the callback.
- In the source, `self.mask` is rebound four times: to a bool array, then an int array, then a CSR matrix, then a dense array. The model holds the intermediate values in local variables and stores only the final dense mask in the field.
- The update message's own `info.width`/`info.height` are ignored; the source ignores them too and reshapes to the base map's size.
- numpy dtypes (int8 message values, bool and int arrays) are not modelled; cells are mathematical integers. No value used here overflows.
- `Csr.ToDense`: reads the first stored entry of a column, where scipy's `toarray` sums duplicate entries. The two agree on every well-formed matrix, whose columns strictly increase within each row.
- The CSR `data` array is modelled, because `toarray()` on the mask uses it. It never appears in a posted body.
