# ni-osrm: a verified model of the travel-matrix core

The ni-osrm script builds travel-time matrices between the census zones of Northern Ireland. It writes the zone centroids in the point format of a routing engine (OSRM), reads back the duration matrices the engine computed, and then checks which zones are nearest to a maternity unit. This project models the three pure parts of `osrm.py` and proves what they do.

- **Point formatter** (`points.dfy`, module `PointFormat`). A table of zone centroids becomes the one-line point list the routing engine reads: `x,y` for each zone, with zones separated by `;`. There is no header, no zone code and no trailing `;`. The CSV writer ends every row, the last included, with `;`, and the script then cuts off the last character. The model follows exactly those two steps.
- **Matrix reshaper** (`matrix.dfy`, module `MatrixReshape`). The engine's durations matrix (row *i* holds the times from origin *i*) becomes a flat table of `(durations, to, from)` rows, one step per table operation:
  1. explode the per-origin lists;
  2. number each cell within its origin with a running count;
  3. inner-join the destination position, then the origin position, against the zone list;
  4. drop the positional columns.

  The main lemma, `ReshapeIsComprehension`, shows this pipeline equals a direct comprehension over the matrix cells. Soundness, completeness, counting and layout are proved about that comprehension.
- **Nearest-eligible selector** (`nearest.dfy`, module `NearestSelect`). The same code appears twice, once for Small Areas and once for Data Zones. It keeps the rows whose destination is eligible, sorts them by duration and keeps the first row of each origin. The result is proved to be, for every origin with an eligible row, one eligible row of least duration. This holds for every sorted arrangement, so the choice among ties is left open.

`sort_values('durations')` (osrm.py:109) uses the library's default sort, which is not stable, so which of several equally near rows is kept is not determined. The model follows the code:
- `AnySortSelects` covers every sorted permutation.
- `SelectionsAgreeUpToTies` shows that all such selections agree on the origins and the durations.

## Model

| member | source | states |
|---|---|---|
| PointFormat.Record | osrm.py:31 | a row's record is its x, one `,`, and its y, with no other delimiter and nothing to quote; the zone code is not part of it |
| PointFormat.ToCsv | osrm.py:31 | the CSV buffer is empty exactly when the table is, and otherwise ends in the row terminator `;` |
| PointFormat.CsvDelimiterCounts | osrm.py:31 | the buffer holds exactly one `;` and one `,` per row, because coordinates hold neither |
| PointFormat.ToCsvIsJoinPlusTerminator | osrm.py:31 | the buffer of a non-empty table is its records joined by `;`, followed by one final `;` |
| PointFormat.CodesNotWritten | osrm.py:31 | the zone codes (the index) are not written: two tables with the same coordinates give the same text |
| PointFormat.CsvIgnoresCodes | osrm.py:31 | the CSV buffer depends only on the coordinates, row by row |
| PointFormat.RecordEnds | osrm.py:31 | an `x,y` record is never empty and has `;` at neither end |
| PointFormat.RecordFields | osrm.py:31 | a record holds no `;` and splits on `,` into exactly its x and y |
| PointFormat.PlainHasNoDelimiters | osrm.py:31 | a rendered coordinate contains neither `;` nor `,` |
| PointFormat.DropLast | osrm.py:33 | `buf[:-1]` is the buffer minus its last character, and empty for an empty buffer |
| PointFormat.CreatePoints | osrm.py:30-33 | empty table gives empty text; otherwise the text neither starts nor ends with `;`, holds one `;` fewer than rows and one `,` per row |
| PointFormat.DroppedTerminatorCounts | osrm.py:31-33 | cutting the last character removes exactly one `;` and no `,` |
| PointFormat.LastRecordChars | osrm.py:31-33 | after the cut, the text is non-empty and has `;` at neither end |
| PointFormat.PointsAreJoinedRecords | osrm.py:30-33 | the written text is the records, in table order, joined by `;` with no trailing delimiter |
| PointFormat.SplitPoints | osrm.py:30-33 | splitting the text on `;` gives one field per row in table order, and each field splits on `,` into that row's x and y |
| MatrixReshape.Padded | osrm.py:36 | `explode` writes one cell per duration of an origin's list, in order, and a single NaN for an empty list |
| MatrixReshape.ExplodeFrom | osrm.py:36-37 | after `explode` and `reset_index` every row's origin is a row position ≥ i of the matrix, and every origin from i on has at least one row |
| MatrixReshape.CumCount | osrm.py:38 | `groupby('from').cumcount()` gives one count per entry |
| MatrixReshape.CumCountFirst | osrm.py:38 | an entry's count is at most its position, and zero exactly at the first occurrence of its key |
| MatrixReshape.AddTo | osrm.py:38 | adding the destination column keeps one entry per exploded row |
| MatrixReshape.CumCountBlock | osrm.py:38 | the running count numbers a block of one origin 0, 1, …, and restarts for the next origin |
| MatrixReshape.AddToBlock | osrm.py:38 | numbering one origin's block followed by other origins gives the block its indices and leaves the rest unchanged |
| MatrixReshape.AddToExplode | osrm.py:36-38 | from origin i on, the destination position of each cell is its index within its origin's list |
| MatrixReshape.DestinationIsIndexInRow | osrm.py:36-38 | over the whole matrix, the destination position is the cell's index in its origin's list |
| MatrixReshape.JoinOnTo | osrm.py:39 | the inner join on destination position keeps only rows whose position names a zone, and gives them that zone's code |
| MatrixReshape.JoinOnToAppend | osrm.py:39 | the destination join acts row by row, so it distributes over concatenation |
| MatrixReshape.JoinOnToKeepsAll | osrm.py:39 | rows whose destination positions all name zones are all kept, in order, with their codes |
| MatrixReshape.JoinOnToDropsAll | osrm.py:39 | rows whose destination positions are all past the zone list are all dropped |
| MatrixReshape.JoinOnFrom | osrm.py:40 | the inner join on origin position keeps only rows whose origin names a zone, gives them that code, and invents no row |
| MatrixReshape.JoinOnFromAppend | osrm.py:40 | the origin join distributes over concatenation |
| MatrixReshape.JoinOnFromKeepsAll | osrm.py:40 | rows whose origins all name zones are all kept, in order, with their codes |
| MatrixReshape.JoinOnFromDropsAll | osrm.py:40 | rows whose origins are all past the zone list are all dropped |
| MatrixReshape.ExpectedFromPastReference | osrm.py:40 | origins past the end of the zone list contribute no rows |
| MatrixReshape.DropPositions | osrm.py:41 | the projection keeps one output row per joined row |
| MatrixReshape.DropPositionsAppend | osrm.py:41 | the projection distributes over concatenation |
| MatrixReshape.ResolveAppend | osrm.py:39-41 | joins plus projection distribute over concatenation |
| MatrixReshape.ResolveRow | osrm.py:39-41 | one origin's numbered cells resolve to that origin's rows of the comprehension |
| MatrixReshape.ResolvePositionedFrom | osrm.py:39-41 | from origin i on, the numbered cells resolve to the comprehension from i on |
| MatrixReshape.ExpectedRow | osrm.py:35-41 | the reference rows of origin i: none when i names no zone, otherwise one per cell up to the length of the zone list |
| MatrixReshape.ReshapeIsComprehension | osrm.py:35-41 | the whole pipeline equals the comprehension: for each cell (i, j), in matrix order, the row (m[i][j], zone j, zone i) when both positions name zones, and nothing otherwise |
| MatrixReshape.GetMatrix | osrm.py:35-41 | the reshaper equals the reference comprehension; every output row names two zones of the list, and there are at most as many rows as pairs of zones |
| MatrixReshape.ExpectedFromBound | osrm.py:39-40 | from origin i on, there are at most as many rows as the remaining origins times the number of zones |
| MatrixReshape.ExpectedBound | osrm.py:35-41 | the output has at most (number of zones)² rows, whatever the shape of the matrix |
| MatrixReshape.ExpectedFromSound | osrm.py:39-41 | every row from origin i on comes from a cell of origin ≥ i whose two positions name zones |
| MatrixReshape.ExpectedSound | osrm.py:35-41 | every output row is what some cell of the exploded matrix resolves to |
| MatrixReshape.ExpectedFromComplete | osrm.py:39-41 | every in-range cell of origin ≥ i appears among the rows from origin i on |
| MatrixReshape.ExpectedComplete | osrm.py:35-41 | every cell whose origin and destination positions both name zones gives an output row |
| MatrixReshape.ExpectedFromRectangularLength | osrm.py:35-41 | for a full matrix, origin i on gives (remaining origins) × (zones) rows |
| MatrixReshape.ExpectedFromRectangular | osrm.py:35-41 | for a full matrix, the row for cell (r, c) sits at offset (r − i)·n + c from origin i on |
| MatrixReshape.ExpectedRectangularLength | osrm.py:35-41 | a full matrix with one row and column per zone gives |m|·n rows |
| MatrixReshape.ExpectedRectangularAt | osrm.py:35-41 | in that case row i·n + j is (m[i][j], zone j, zone i): the matrix in row-major order |
| MatrixReshape.ExpectedFromCountsKeptCells | osrm.py:39-41 | from origin i on, the number of rows is the number of kept cells |
| MatrixReshape.KeptCellsSplit | osrm.py:39-41 | the kept cells from origin lo on are lo's prefix plus, disjointly, those of later origins |
| MatrixReshape.ExpectedCountsKeptCells | osrm.py:35-41 | exactly one output row per cell whose two positions both name zones |
| MatrixReshape.TwoZoneExample | osrm.py:35-41 | zones A, B and matrix [[1,2],[3,4]] give (1,A,A), (2,B,A), (3,A,B), (4,B,B) |
| MatrixReshape.TwoZoneExpected | osrm.py:35-41 | the comprehension for that example is those four rows |
| NearestSelect.NoLater | osrm.py:109 | the sort order on durations: numbers ascending, NaN after every number, nothing after NaN |
| NearestSelect.NoLaterOrder | osrm.py:109 | the duration order, with NaN last, is a total preorder, and mutual ties are equal durations |
| NearestSelect.Eligible | osrm.py:108 | `isin` keeps no more rows than it is given, and every kept row has an eligible destination |
| NearestSelect.EligibleCounts | osrm.py:108 | `isin` keeps each eligible row exactly as often as it occurs, and nothing else |
| NearestSelect.Insert | osrm.py:109 | inserting into a sorted table keeps it sorted, adds exactly the one row and nothing else |
| NearestSelect.SortedLowerBound | osrm.py:109 | a row no later than the head of a sorted table is no later than all its rows |
| NearestSelect.InsertedLowerBound | osrm.py:109 | the head of a sorted table is no later than any row of its tail with a later row inserted |
| NearestSelect.PrependSorted | osrm.py:109 | a row no later than every row of a sorted table may be put in front of it |
| NearestSelect.SortByDuration | osrm.py:109 | `sort_values('durations')` gives a sorted permutation of its input |
| NearestSelect.FirstPerOrigin | osrm.py:109 | `groupby('from').head(1)` has one entry per origin present, and that entry is the origin's first row |
| NearestSelect.SortedMembers | osrm.py:108-109 | a rearrangement of the filtered rows holds exactly the eligible rows |
| NearestSelect.HeadIsLeast | osrm.py:109 | in a sorted table, an origin's first row is no later than any row of that origin |
| NearestSelect.AnySortSelects | osrm.py:108-109 | for every sorted arrangement of the eligible rows, taking the first row per origin is a nearest selection |
| NearestSelect.Nearest | osrm.py:108-109 | exactly the origins with an eligible row are selected, and each gets one of its own eligible rows of least duration |
| NearestSelect.SelectionsAgreeUpToTies | osrm.py:108-109 | any two nearest selections agree on the origins and on the durations; they differ only among equally near destinations |
| NearestSelect.NearestOfReshaped | osrm.py:114-115 | applied to a reshaped matrix, every selected origin and destination is a zone of the list, and the destination is eligible |
| NearestSelect.TwoOriginExample | osrm.py:108-109 | origins X, Y with X→P 5, X→Q 3, Y→P 7 and eligible {P, Q} select X→Q (3) and Y→P (7) |
| NearestSelect.ExampleAllEligible | osrm.py:108 | in that example every row passes the filter |
| NearestSelect.ExampleSorted | osrm.py:109 | in that example the sort gives X→Q, X→P, Y→P |
| NearestSelect.ExampleSortedTail | osrm.py:109 | the sort of the last two example rows leaves them in place |
| NearestSelect.ExampleFirst | osrm.py:109 | in that example the first row per origin is X→Q and Y→P |

## Left out

- Downloading and caching (`download_file_if_not_exists` and the fetches at osrm.py:44-46 and 76): network and file I/O.
- Reading the routing engine's JSON file and the CSV/GeoJSON inputs: the matrix is a parameter `seq<seq<D>>` and the centroid table a `seq<Centroid>`.
- Writing the point file (the `open`/`write` at osrm.py:32-33): the model returns the text that is written.
- Coordinate reprojection with pyproj (osrm.py:47, 51, 63): floating-point geodesy, a foreign library.
- Number formatting: coordinates are strings as the CSV writer renders them, with no delimiter and nothing to quote (`Coord`). CSV quoting is not modelled, because such strings never need it.
- Regular-expression patching of the postcode file (osrm.py:77-84), and the hospital table with its postcode merge (osrm.py:87-105): data preparation outside the three cores. The set of eligible destinations is a parameter.
- Concatenating the matrices and writing them out (osrm.py:73), and the boundary merges and plots (osrm.py:110-111, 116-117): I/O and plotting.
- SortByDuration: the library's default sort is not stable, so the model uses a stable insertion sort as one admissible order. `AnySortSelects` proves the result for every sorted arrangement.
- FirstPerOrigin: the order of the grouped result's rows (by origin key) is not modelled; the result is a map from origin to row.
- JoinOnTo: the row order of the inner merges follows the left table, as the table library documents for its current versions. Older versions could order the rows differently.
- JoinOnFrom: the `_x`/`_y` suffixing and renaming of the code column (osrm.py:41) is modelled by naming the fields `toCode` and `fromCode`. The `codecol` parameter itself is not modelled.
- Padded: the NaN that exploding an empty list writes is modelled as `Missing`. A `null` inside a non-empty list is carried as an ordinary value of type `D`.
- NoLater: durations are exact reals; floating-point NaN inside a list is not modelled, and `Missing` (sorted last) stands for it.
