# Resilience indicators: a Dafny model of the pipeline's core logic

The resilience repository turns street-level LiDAR captures of individual
addresses (UPRNs) into per-address rasters and feature classes. It then
aggregates those and other open data to LSOA (Lower Layer Super Output
Area) indicator tables. Most of the code is glue around ArcPy, Open3D,
numpy and pandas. Between those calls sits sequential, index- and
string-based logic, and this project models that logic and proves what it
promises.

- **Address registry** (`registry.dfy`, `centroids.dfy`, `solar.dfy`):
  - loading geocodes and accepting geocode rows;
  - keying point-cloud and image files by the UPRN folder above their timestamp folder, last match winning;
  - merging the ICP-aligned and centre point-cloud maps, with ICP first;
  - the set of addresses to process;
  - the centroid CSV;
  - the solar tool's copy-and-translate step and its failure list.
- **Pixel-to-point georeferencing** (`projection.dfy`):
  - the projection shared by the thermal, reflectance and NDVI tools: valid-range filter, optional mask, clamped angle lookup, range in millimetres, origin offset on x and y only, row-major order;
  - the thermal copy, which ignores its mask (see Findings).
- **Per-address rasters**:
  - the vegetation-structure height raster (`veg_structure.dfy`): above-ground filter, five plane-stripping passes, translation, a top-down grid with strict-`>` maximum, the NaN fill and the named skip outcomes;
  - the gridded thermal anomalies (`thermal_anomalies.dfy`): data guard, the per-address block as written (every pixel with a valid range is gridded, NaN temperatures included), bottom-up 0.25 m grid with `np.maximum.at` (NaN absorbing), occupied cells, clustering labels written as `label+1` with -1 nodata, skips, and the index overflow on spans that are whole numbers of cells; the block as intended, gridding only the anomalous pixels, sits beside it (see Findings);
  - reflectance anomalies (`reflectance_anomalies.dfy`, `zscores.dfy`): the z-score cleanup and the `|z| > 1.5` mask;
  - NDVI (`ndvi.dfy`): the ratio with its zero-denominator substitute, the intrinsics validation and the triple-match selection.
- **Data audit** (`tool_audit.dfy`): UPRN folder detection, per-UPRN file sets, the AND/OR requirement groups per tool, and the tool count per address.
- **LSOA aggregation** (`feature_tables.dfy`, `lsoa_aggregate.dfy`, `master_analysis.dfy`):
  - an ArcGIS feature class as a class whose rows the UpdateCursor loops change;
  - `add_and_zero_field`;
  - the count, sum, percent-area, line-density and presence summaries;
  - the CSV export;
  - the retail code block, the nuclear `IN` list and the radon and flood weighted-average expressions.
- **Table naming** (`census_georef.dfy`, `lsoa_overlap.dfy`, `lsoa_zonal.dfy`):
  - the census join's rename resolver;
  - the overlap table's column prefixing, grouping and coverage count;
  - the zonal script's LSOA query and output names.

Shared modules:
- `wrappers.dfy`: `Option`/`Result`;
- `text.dfy`: Python string operations on `seq<char>`;
- `dicts.dfy`: a dict filled by assignments, last write wins;
- `indices.dfy`: `np.where`-style index lists;
- `raster.dfy`: floor, ceil, truncation and the cell-maximum fold;
- `point_clouds.dfy`: points and translation;
- `batch.dfy`: per-address attempts and failure logs.

Library results are inputs or function parameters:
- trigonometry is a `Trig` value holding uninterpreted `cos`/`sin`;
- RANSAC plane fitting and DBSCAN are oracle functions;
- ArcPy join, intersect and cursor results are given rows.

Where the source mutates a buffer, the model does too, with a `method`
proved against a specification function:
- the height raster and thermal grid are `array2`s;
- feature classes are objects;
- accumulating loops are `while`/`for` loops with invariants.

## Model

| member | source | states |
|---|---|---|
| Dicts.Assoc | finalized_xri_tools/5_generate_reflec_anomalies.py:30-38 | a dict filled by assignments in order holds exactly the assigned keys |
| Dicts.AssocLastWins | finalized_xri_tools/5_generate_reflec_anomalies.py:37 | a key's value is the one of its last assignment (a later match overwrites an earlier one) |
| Dicts.AssocSnoc | finalized_xri_tools/5_generate_reflec_anomalies.py:37 | one more assignment updates the dict at that key and nowhere else |
| Dicts.AssocValue | finalized_xri_tools/5_generate_reflec_anomalies.py:37 | every value in the dict was assigned to its key by some step |
| Dicts.KeysUpdate | finalized_xri_tools/1calculatecentroids.py:51-52 | assigning a key adds exactly that key, so the id set kept beside the dict stays equal to its key set |
| Dicts.ComprehensionKeys | indicator_scripts/aggregate_to_LSOA_fresh.py:195 | a key is in a filtered dict comprehension iff some kept row carries it |
| Dicts.ComprehensionValue | indicator_scripts/aggregate_to_LSOA_fresh.py:195 | every value of the comprehension comes from a kept row with that key |
| Dicts.ComprehensionLastWins | indicator_scripts/aggregate_to_LSOA_fresh.py:195 | a key's value is the one of its last kept row |
| Indices.Where | finalized_xri_tools/2_gen_veg_structure.py:46-47 | the positions satisfying a boolean mask, each once, in increasing order |
| Indices.Pick | finalized_xri_tools/2_gen_veg_structure.py:47 | fancy indexing `s[idx]` returns the listed elements in the listed order |
| Indices.RowWhere | finalized_xri_tools/5_generate_reflec_anomalies.py:50 | the selected cells of one row, exactly those the predicate holds for, by increasing column |
| Indices.GridWhere | finalized_xri_tools/5_generate_reflec_anomalies.py:50 | `np.where` on a 2-D mask: exactly the selected cells, in strict row-major order |
| Raster.Floor | finalized_xri_tools/2_gen_veg_structure.py:83-84 | `floor(x)` is the integer n with n <= x < n + 1 |
| Raster.Ceil | finalized_xri_tools/4b_generate_temp_anomalies_gridded.py:169-170 | `int(ceil(x))` is the integer n with x <= n < x + 1; it equals the floor iff x is whole |
| Raster.Trunc | finalized_xri_tools/4b_generate_temp_anomalies_gridded.py:178-179 | `astype(int)` rounds toward zero: the floor for non-negative x, the ceiling below zero |
| Raster.CellMax | finalized_xri_tools/2_gen_veg_structure.py:87-89 | a cell updated by the strict `>` rule ends at the maximum of its initial value and its hits' values, and that value is its initial value or some hit's value |
| Raster.CellMaxUntouched | finalized_xri_tools/2_gen_veg_structure.py:76 | a cell no point reaches keeps its initial value |
| Raster.CellMaxOrderIndependent | finalized_xri_tools/2_gen_veg_structure.py:87-89 | any reordering of the points gives the same cell values |
| Raster.CellMaxSnoc | finalized_xri_tools/4b_generate_temp_anomalies_gridded.py:182 | one more hit raises its own cell to the larger value and leaves every other cell as it was |
| Raster.Maximum | finalized_xri_tools/4b_generate_temp_anomalies_gridded.py:182 | `np.maximum` of two float cells is NaN iff either is NaN, and otherwise the larger of the two |
| Raster.MaximumAt | finalized_xri_tools/4b_generate_temp_anomalies_gridded.py:176-182 | a cell updated by `np.maximum.at` from -9999 ends NaN iff some NaN reached it; otherwise it holds the largest of its initial value and the values that reached it, every one of which is a number |
| Raster.MaximumAtSnoc | finalized_xri_tools/4b_generate_temp_anomalies_gridded.py:182 | one more delivery takes the `np.maximum` of its own cell and leaves every other cell as it was |
| Raster.SeqMin | finalized_xri_tools/4b_generate_temp_anomalies_gridded.py:166 | `np.min` of a non-empty column is a lower bound attained by some element |
| Raster.SeqMax | finalized_xri_tools/4b_generate_temp_anomalies_gridded.py:167 | `np.max` of a non-empty column is an upper bound attained by some element |
| PointClouds.Translate | finalized_xri_tools/2_gen_veg_structure.py:65-68 | every point moves by (dx, dy) in x and y, z unchanged, same count and order |
| PointClouds.TranslateInverse | finalized_xri_tools/2_gen_veg_structure.py:65-68 | translating back by the opposite offset restores the local cloud |
| PointClouds.TranslateCompose | finalized_xri_tools/6_solar_radiation_analysis.py:113-114 | two translations compose into one by the summed offset |
| PointClouds.MinZ | finalized_xri_tools/2_gen_veg_structure.py:46 | the minimum z of a non-empty cloud: a lower bound attained by some point |
| Projection.AllTrue | finalized_xri_tools/5_generate_reflec_anomalies.py:42-43 | the default mask has the image's shape and selects every pixel |
| Projection.Selected | finalized_xri_tools/5_generate_reflec_anomalies.py:50-53 | the selected pixels are exactly those with the mask set and `0 < range < 100000`, inside the image, in strict row-major order |
| Projection.SelectedCount | finalized_xri_tools/5_generate_reflec_anomalies.py:50-53 | the number of selected pixels is the number of pixels meeting both tests: none twice, none skipped |
| Projection.Georeference | finalized_xri_tools/5_generate_reflec_anomalies.py:40-72 | no selected pixel gives `[]`; otherwise an empty angle table is an error, else one point per selected pixel in row-major order, angle indices clamped to `min(row, len-1)` / `min(col, len-1)`, distance range/1000, x and y offset by the origin, z not, value the image at the pixel |
| Projection.ProjectedPixels | finalized_xri_tools/5_generate_reflec_anomalies.py:50-53 | a pixel is listed among the projected ones iff the mask selects it and its range is valid |
| Projection.ProjectedDistance | finalized_xri_tools/5_generate_reflec_anomalies.py:57-69 | under cos²+sin²=1 each point lies at range/1000 from the sensor above the origin |
| Projection.OriginShift | finalized_xri_tools/5_generate_reflec_anomalies.py:65-69 | moving the origin shifts every point's x and y by the difference and changes nothing else |
| Projection.MaskMonotone | finalized_xri_tools/5_generate_reflec_anomalies.py:50-53 | a narrower mask selects a subset of the pixels and never more points |
| ZScores.Clean | finalized_xri_tools/5_generate_reflec_anomalies.py:153 | a cleaned score is finite and equals the score when that was finite |
| ZScores.CleanImage | finalized_xri_tools/5_generate_reflec_anomalies.py:153 | cleaning keeps the image's shape and cleans each entry |
| ZScores.AnomalyMask | finalized_xri_tools/5_generate_reflec_anomalies.py:154 | a mask bit is set iff the score is finite and `abs(z) > 1.5` |
| ZScores.CleanKeepsMask | finalized_xri_tools/5_generate_reflec_anomalies.py:153-154 | zeroing the non-finite scores changes no mask bit, so those pixels are never anomalous |
| Batch.FailureLine | finalized_xri_tools/5_generate_reflec_anomalies.py:189-191 | a failure entry starts with the address and ` (`, ends with `)`, and its length is the parts' lengths plus 5 |
| Batch.FailureLineNamesAddress | finalized_xri_tools/6_solar_radiation_analysis.py:143-144 | for an address without spaces, the entry's first space-separated word is the address |
| Batch.FailuresFacts | finalized_xri_tools/6_solar_radiation_analysis.py:143-144 | a batch records at most one entry per address, none iff every address completed, and each entry names an address that raised |
| Batch.CollectFailures | finalized_xri_tools/6_solar_radiation_analysis.py:143-144 | the append loop leaves exactly the failure list of the batch |
| Batch.LogFileJoin | finalized_xri_tools/4b_generate_temp_anomalies_gridded.py:123-125 | the log is its messages joined by newlines with a final newline |
| Batch.LogFileLines | finalized_xri_tools/5_generate_reflec_anomalies.py:198-200 | messages without newlines are read back line by line from the file |
| ReflectanceAnomalies.Positions | finalized_xri_tools/5_generate_reflec_anomalies.py:168-170 | the features keep each point's x, y and z, in order, and drop its value |
| ReflectanceAnomalies.ReflectanceFeatures | finalized_xri_tools/5_generate_reflec_anomalies.py:149-170 | a flat image is skipped, and only it; the features are exactly the projections of the pixels with `abs(z) > 1.5` and a valid range, in row-major order, at least two of them |
| ReflectanceAnomalies.ReflectanceTooFew | finalized_xri_tools/5_generate_reflec_anomalies.py:157-160 | fewer than two anomalous pixels with a valid range skip the address, with that count |
| ReflectanceAnomalies.ReflectanceFails | finalized_xri_tools/5_generate_reflec_anomalies.py:157-191 | the address fails iff the image is not flat, some anomalous pixel has a valid range, and an angle table is empty |
| ThermalAnomalies.ValidPixels | finalized_xri_tools/4b_generate_temp_anomalies_gridded.py:153 | exactly the non-NaN pixels, in row-major order |
| ThermalAnomalies.SufficientData | finalized_xri_tools/4b_generate_temp_anomalies_gridded.py:153-155 | an image passes the guard only with at least 100 distinct valid pixels, two of which differ |
| ThermalAnomalies.GeoreferenceAsWritten | finalized_xri_tools/4b_generate_temp_anomalies_gridded.py:45-66 | as written, the point count is the number of pixels with a valid range under the all-true mask |
| ThermalAnomalies.AsWrittenIgnoresMask | finalized_xri_tools/4b_generate_temp_anomalies_gridded.py:51 | as written, the result is the same for any two masks |
| ThermalAnomalies.MaskIgnoredExample | finalized_xri_tools/4b_generate_temp_anomalies_gridded.py:51-159 | a one-pixel image with z-score 0 still yields a point as written, and none under the intended projection |
| ThermalAnomalies.AnomalousPoints | finalized_xri_tools/4b_generate_temp_anomalies_gridded.py:157-159 | the intended projection gives one point per anomalous pixel with a valid range, and every point carries a real temperature |
| ThermalAnomalies.CellIndexBounds | finalized_xri_tools/4b_generate_temp_anomalies_gridded.py:169-179 | between min and max a cell index lies in 0..dim, and equals dim exactly at the maximum of a span that is a whole number of 0.25 m cells |
| ThermalAnomalies.Xs | finalized_xri_tools/4b_generate_temp_anomalies_gridded.py:166-167 | the x column of the points, one per point |
| ThermalAnomalies.Ys | finalized_xri_tools/4b_generate_temp_anomalies_gridded.py:166-167 | the y column of the points, one per point |
| ThermalAnomalies.FrameOf | finalized_xri_tools/4b_generate_temp_anomalies_gridded.py:166-167 | the bounding box encloses every point and each of its four edges is reached by some point |
| ThermalAnomalies.GridHits | finalized_xri_tools/4b_generate_temp_anomalies_gridded.py:178-182 | one delivery per point at row `trunc((y-min_y)/0.25)` and column `trunc((x-min_x)/0.25)`, carrying its temperature or NaN; rows grow with y |
| ThermalAnomalies.PointInGrid | finalized_xri_tools/4b_generate_temp_anomalies_gridded.py:169-182 | a point lands inside the grid unless it sits on a maximum whose span is a whole number of cells |
| ThermalAnomalies.OverflowAtMaximum | finalized_xri_tools/4b_generate_temp_anomalies_gridded.py:169-182 | on a whole-number span the point at the maximum indexes past the grid |
| ThermalAnomalies.NoOverflow | finalized_xri_tools/4b_generate_temp_anomalies_gridded.py:169-182 | when neither span is whole, every point indexes inside the grid |
| ThermalAnomalies.FrameOverflow | finalized_xri_tools/4b_generate_temp_anomalies_gridded.py:169-182 | for an enclosing box reached by the points, some point overflows iff a span is whole |
| ThermalAnomalies.GridOverflow | finalized_xri_tools/4b_generate_temp_anomalies_gridded.py:166-211 | `np.maximum.at` raises IndexError, sending the address to the failure list, iff the x or y span is a whole number of cells |
| ThermalAnomalies.OccupiedCells | finalized_xri_tools/4b_generate_temp_anomalies_gridded.py:184 | exactly the cells whose value ended as a number above -9999, in row-major order |
| ThermalAnomalies.OccupiedCellsDistinct | finalized_xri_tools/4b_generate_temp_anomalies_gridded.py:184 | each occupied cell appears once and lies inside the grid |
| ThermalAnomalies.OccupiedIff | finalized_xri_tools/4b_generate_temp_anomalies_gridded.py:176-184 | a cell is occupied iff no NaN temperature falls in it and some temperature above -9999 does |
| ThermalAnomalies.ClusterInput | finalized_xri_tools/4b_generate_temp_anomalies_gridded.py:185 | the clustering input is one `(col, row)` pair per occupied cell, in order |
| ThermalAnomalies.ClusterInputDistinct | finalized_xri_tools/4b_generate_temp_anomalies_gridded.py:184-185 | the clustering input lists every occupied cell exactly once |
| ThermalAnomalies.GridPlan | finalized_xri_tools/4b_generate_temp_anomalies_gridded.py:176-204 | a planned raster has one label per occupied cell and the grid's size and lower-left corner; its only skips are too few grid cells and no clusters |
| ThermalAnomalies.Plan | finalized_xri_tools/4b_generate_temp_anomalies_gridded.py:161-204 | a planned raster has one label per occupied cell and positive dimensions; the block skips for too few points exactly when there are fewer than ten |
| ThermalAnomalies.InvalidGridMeansFlat | finalized_xri_tools/4b_generate_temp_anomalies_gridded.py:169-174 | the grid is invalid iff all points share an x or all share a y |
| ThermalAnomalies.PlanRasterFacts | finalized_xri_tools/4b_generate_temp_anomalies_gridded.py:161-204 | a raster is made only from at least ten points, all inside the grid, its cells being the occupied cells, at least ten of them, with some cluster, and its lower-left corner at (min_x, min_y) |
| ThermalAnomalies.GridPlanRasterFacts | finalized_xri_tools/4b_generate_temp_anomalies_gridded.py:187-199 | a raster is made only with at least ten occupied cells and some non-noise label |
| ThermalAnomalies.OccupiedCellsHaveReadings | finalized_xri_tools/4b_generate_temp_anomalies_gridded.py:176-184 | every temperature delivered to an occupied cell is a number, not NaN |
| ThermalAnomalies.ClusteredCellsHaveReadings | finalized_xri_tools/4b_generate_temp_anomalies_gridded.py:176-201 | no cell of a produced raster was reached by a NaN temperature |
| ThermalAnomalies.BuildGrid | finalized_xri_tools/4b_generate_temp_anomalies_gridded.py:176-182 | every cell of the fresh grid is what `np.maximum.at` leaves from -9999 and its points' temperatures: NaN if one of them is NaN, else their maximum |
| ThermalAnomalies.OccupiedOf | finalized_xri_tools/4b_generate_temp_anomalies_gridded.py:184 | the cells read off the grid buffer are the occupied cells |
| ThermalAnomalies.LabelRaster | finalized_xri_tools/4b_generate_temp_anomalies_gridded.py:194-201 | each clustered cell holds label + 1 >= 1, every other cell -1 |
| ThermalAnomalies.RasterOutcome | finalized_xri_tools/4b_generate_temp_anomalies_gridded.py:194-204 | the output raster is a fresh buffer of the grid's size and corner holding label + 1 at each clustered cell and -1 at every other cell |
| ThermalAnomalies.ClusterGrid | finalized_xri_tools/4b_generate_temp_anomalies_gridded.py:176-204 | the outcome carries out the grid plan: the same skip, or a fresh raster with label + 1 at clustered cells and -1 elsewhere |
| ThermalAnomalies.ProcessThermal | finalized_xri_tools/4b_generate_temp_anomalies_gridded.py:161-204 | the outcome carries out the plan for the anomalous points, including the overflow failure |
| ThermalAnomalies.AddressPointCount | finalized_xri_tools/4b_generate_temp_anomalies_gridded.py:157-163 | as written, the block skips for too few anomalous points exactly when the guard passed, the projection succeeded and fewer than ten pixels have a valid range; the skip reports that pixel count |
| ThermalAnomalies.AddressRasterNeedsData | finalized_xri_tools/4b_generate_temp_anomalies_gridded.py:153-163 | as written, a clustered address passed the data guard and had at least ten pixels with a valid range, anomalous or not |
| ThermalAnomalies.ThermalForAddress | finalized_xri_tools/4b_generate_temp_anomalies_gridded.py:153-204 | the per-address block as written carries out the address's plan, from the images to the outcome: every pixel with a valid range is gridded |
| ThermalAnomalies.IntendedAddressRasterNeedsData | finalized_xri_tools/4b_generate_temp_anomalies_gridded.py:153-163 | as intended, a clustered address passed the data guard and projected at least ten anomalous pixels |
| ThermalAnomalies.IntendedThermalForAddress | finalized_xri_tools/4b_generate_temp_anomalies_gridded.py:153-204 | the per-address block as intended carries out the plan for the anomalous pixels only, from the images to the outcome |
| VegStructure.AboveIndices | finalized_xri_tools/2_gen_veg_structure.py:47 | exactly the indices of points with `z > ground + 2.5`, increasing |
| VegStructure.AboveGround | finalized_xri_tools/2_gen_veg_structure.py:46-47 | exactly the input points with `z > ground + 2.5`, in input order |
| VegStructure.AboveGroundComplete | finalized_xri_tools/2_gen_veg_structure.py:47 | the filtered list is the input picked at the kept indices, so a point appears as often as it passes |
| VegStructure.KeptIndices | finalized_xri_tools/2_gen_veg_structure.py:58 | exactly the indices that are not inliers, increasing |
| VegStructure.RemoveInliers | finalized_xri_tools/2_gen_veg_structure.py:58 | `select_by_index(inliers, invert=True)` keeps precisely the non-inlier points, in order, never more than the input |
| VegStructure.StripErrorSticks | finalized_xri_tools/2_gen_veg_structure.py:56-58 | a plane fit that raises ends the stripping with that error |
| VegStructure.StripShrinks | finalized_xri_tools/2_gen_veg_structure.py:55-58 | after any number of passes the residue is no larger than the input and made only of input points |
| VegStructure.StripPlanes | finalized_xri_tools/2_gen_veg_structure.py:55-58 | the loop runs exactly five passes, each replacing the cloud by its residue |
| VegStructure.GridDims | finalized_xri_tools/2_gen_veg_structure.py:70-76 | the raster around an address has `ceil(300/cs)` rows and columns, at least one |
| VegStructure.ColumnInBounds | finalized_xri_tools/2_gen_veg_structure.py:81-84 | a point inside the extent always has a column inside the raster |
| VegStructure.RowInBounds | finalized_xri_tools/2_gen_veg_structure.py:81-84 | a point inside the extent has row 0..rows, and row == rows (the point is dropped) iff it lies on the south edge and 300/cs is whole |
| VegStructure.SouthEdgeDropped | finalized_xri_tools/2_gen_veg_structure.py:83-84 | with the tool's 1 m cells a point with `py == min_y` computes `row == rows` and is dropped |
| VegStructure.DivBand | finalized_xri_tools/2_gen_veg_structure.py:82-83 | `floor(m/cs) == n` iff n·cs <= m < (n+1)·cs |
| VegStructure.RowBand | finalized_xri_tools/2_gen_veg_structure.py:83 | rows are counted top-down: row r receives the points with max_y-(r+1)·cs < y <= max_y-r·cs |
| VegStructure.VegHits | finalized_xri_tools/2_gen_veg_structure.py:79-87 | the attempted updates all address cells inside the raster |
| VegStructure.VegHitsSources | finalized_xri_tools/2_gen_veg_structure.py:79-87 | each update comes from a point that lands in the raster, and every landing point makes its update; points outside the extent change no cell |
| VegStructure.VegHitsSnoc | finalized_xri_tools/2_gen_veg_structure.py:79-87 | one more point adds its update iff it lands |
| VegStructure.PopulatedCells | finalized_xri_tools/2_gen_veg_structure.py:87-91 | over points above the clearance, a cell ends non-NaN iff a point lands in it, and then holds the maximum height there, above 2.5 |
| VegStructure.HitsAboveClearance | finalized_xri_tools/2_gen_veg_structure.py:47-87 | points more than 2.5 above ground deliver heights above 2.5 |
| VegStructure.NoHitsNoPopulatedCell | finalized_xri_tools/2_gen_veg_structure.py:91-94 | some cell is populated iff some update happened |
| VegStructure.NoHitsIffNoneLands | finalized_xri_tools/2_gen_veg_structure.py:79-84 | no update happens iff no point lands in the raster |
| VegStructure.BuildHeightRaster | finalized_xri_tools/2_gen_veg_structure.py:77-89 | every cell of the fresh raster is the strict-`>` maximum of -9999 and the heights that landed in it |
| VegStructure.PlacePoint | finalized_xri_tools/2_gen_veg_structure.py:80-89 | one pass of the point loop takes the raster from the updates of the earlier points to those including this one |
| VegStructure.UpdateCell | finalized_xri_tools/2_gen_veg_structure.py:88-89 | the strict `>` update leaves every cell at the maximum over the updates so far |
| VegStructure.NanFill | finalized_xri_tools/2_gen_veg_structure.py:91 | negative cells become NaN and all others keep their value |
| VegStructure.RasterPlan | finalized_xri_tools/2_gen_veg_structure.py:64-97 | from a residue on, the outcome is a raster or `NO_POINTS_IN_EXTENT` |
| VegStructure.PlanIsRaster | finalized_xri_tools/2_gen_veg_structure.py:36-97 | a raster comes from a non-empty cloud with a non-empty residue |
| VegStructure.ResidualHeights | finalized_xri_tools/2_gen_veg_structure.py:47-68 | every residual point, translated or not, stands more than 2.5 above the cloud's lowest point |
| VegStructure.PlanRasterShape | finalized_xri_tools/2_gen_veg_structure.py:46-96 | a produced raster is `ceil(300/cs)` square with lower-left corner `(x-150, y-150)` and heights measured from the lowest z |
| VegStructure.RasterPlanShape | finalized_xri_tools/2_gen_veg_structure.py:70-96 | the same shape facts for the raster part of the plan |
| VegStructure.RasterPlanCells | finalized_xri_tools/2_gen_veg_structure.py:87-94 | a raster plan has a populated cell, and each populated cell holds the largest height landing in it, above 2.5 |
| VegStructure.PlanRasterPopulated | finalized_xri_tools/2_gen_veg_structure.py:93-97 | a produced raster has at least one non-NaN cell |
| VegStructure.PlanRasterCell | finalized_xri_tools/2_gen_veg_structure.py:87-91 | every cell of a produced raster is NaN or the largest height landed in it, which exceeds 2.5 |
| VegStructure.PlanSkipConditions | finalized_xri_tools/2_gen_veg_structure.py:41-62 | `EMPTY_PCD` iff the cloud is empty; `NO_ABOVE_GROUND_POINTS` iff fewer than 100 points pass the clearance; a failure only from the plane fit |
| VegStructure.PlanLateSkips | finalized_xri_tools/2_gen_veg_structure.py:61-94 | `NO_COMPLEX_STRUCTURES` iff the five passes empty the cloud; `NO_POINTS_IN_EXTENT` iff no translated residual point lands in the raster |
| VegStructure.ProcessVegStructural | finalized_xri_tools/2_gen_veg_structure.py:36-97 | the outcome carries out the plan: the named skip with no raster, the plane-fit error, or a fresh raster whose every cell is the planned height |
| VegStructure.ProduceRaster | finalized_xri_tools/2_gen_veg_structure.py:64-97 | from the residue on, the outcome carries out the raster plan and any raster is fresh |
| Ndvi.Denominator | finalized_xri_tools/3c_generate_ndvi_rasters_legacy.py:43-44 | the denominator `nir + red` with zero replaced by `1e-8` is never zero |
| Ndvi.NdviRatio | finalized_xri_tools/3c_generate_ndvi_rasters_legacy.py:43-45 | wherever the bands do not sum to zero, the pixel value is the normalised difference `(nir - red) / (nir + red)` |
| Ndvi.NdviZeroSum | finalized_xri_tools/3c_generate_ndvi_rasters_legacy.py:44 | for non-negative bands the substitute denominator is used exactly where both bands are 0, and NDVI is 0 there |
| Ndvi.NdviBounds | finalized_xri_tools/3c_generate_ndvi_rasters_legacy.py:43-45 | for non-negative bands NDVI lies in [-1, 1], including the substituted pixels |
| Ndvi.NdviImage | finalized_xri_tools/3c_generate_ndvi_rasters_legacy.py:39-45 | the NDVI image has the shape of the red band |
| Ndvi.CalculateNdvi | finalized_xri_tools/3c_generate_ndvi_rasters_legacy.py:39-45 | the array computation yields exactly the per-pixel NDVI image |
| Ndvi.DenominatorImage | finalized_xri_tools/3c_generate_ndvi_rasters_legacy.py:43-44 | the denominator array has the bands' shape and holds each pixel's substituted sum |
| Ndvi.ReplaceZeros | finalized_xri_tools/3c_generate_ndvi_rasters_legacy.py:44 | the in-place masked assignment turns exactly the zero cells into `1e-8` and leaves the others |
| Ndvi.RedBand | finalized_xri_tools/3c_generate_ndvi_rasters_legacy.py:165 | taking channel 0 fails exactly when some pixel has no channel, else keeps the image's row count |
| Ndvi.ValidateIntrinsics | finalized_xri_tools/3c_generate_ndvi_rasters_legacy.py:126-134 | KeyError exactly when `beam_intrinsics` is missing, ValueError exactly when it lacks an angle key, otherwise the two angle lists |
| Ndvi.CreateRasterFromPoints | finalized_xri_tools/3c_generate_ndvi_rasters_legacy.py:70-73 | no raster exactly when there are no points |
| Ndvi.NdviForAddress | finalized_xri_tools/3c_generate_ndvi_rasters_legacy.py:151-174 | a missing channel or a projection error fails the address; otherwise the NDVI image is georeferenced and a raster `NDVI_<uprn>.tif` is requested exactly when points exist |
| Ndvi.NdviPoints | finalized_xri_tools/3c_generate_ndvi_rasters_legacy.py:47-68 | the points number the pixels with a valid range and each carries its pixel's NDVI value |
| Ndvi.RunNdvi | finalized_xri_tools/3c_generate_ndvi_rasters_legacy.py:119-174 | the run stops before any address exactly when the intrinsics check fails, with that error; otherwise one outcome per address |
| Solar.CloudOf | finalized_xri_tools/6_solar_radiation_analysis.py:110 | `np.asarray(pcd.points)` read back as points: one point per array row, with that row's three coordinates |
| Solar.TranslateCopy | finalized_xri_tools/6_solar_radiation_analysis.py:112-114 | the copy is a new N x 3 array holding the local cloud moved by the geocode, and the local array is left as it was |
| Solar.AddToColumn | finalized_xri_tools/6_solar_radiation_analysis.py:113-114 | a column update shifts exactly that column by the offset and leaves every other entry unchanged |
| Solar.SolarAttempt | finalized_xri_tools/6_solar_radiation_analysis.py:104-144 | every raised error is logged as `Error`; a saved surface needs a read cloud, a geocode and no tool error, and is the cloud translated by the geocode |
| Solar.RunSolar | finalized_xri_tools/6_solar_radiation_analysis.py:99-144 | the collected failures are the `uprn (Error: message)` lines of the failed attempts, and the surfaces those of the completed non-empty ones, both in processing order |
| Solar.GeocodedFailures | finalized_xri_tools/6_solar_radiation_analysis.py:104-111 | with every address geocoded, an address fails exactly when its cloud could not be read or a tool step raised on a non-empty cloud; an empty cloud is skipped |
| Solar.SurfaceTranslated | finalized_xri_tools/6_solar_radiation_analysis.py:111-114 | every surface handed to the tools is some address's own cloud moved by that address's geocode |
| Solar.ProcessedAddressesGeocoded | finalized_xri_tools/6_solar_radiation_analysis.py:86-93 | every address of the merged ICP and centre file map has a geocode, so `coords[uprn]` is never missing |
| Solar.FailureLog | finalized_xri_tools/6_solar_radiation_analysis.py:154-159 | the log is written exactly when something failed, one line per failure |
| Registry.ParentName | finalized_xri_tools/1calculatecentroids.py:29 | the address of a folder is the name of its parent, and empty for a one-component path |
| Registry.FnMatchLiteral | finalized_xri_tools/4b_generate_temp_anomalies_gridded.py:38 | a glob pattern without wildcards matches exactly the identical name |
| Registry.FnMatchStarSuffix | finalized_xri_tools/4b_generate_temp_anomalies_gridded.py:38 | the pattern `*` + suffix matches exactly the names that end with the suffix, so the glob walk agrees with the `endswith` walk of the other tools |
| Registry.Candidates | finalized_xri_tools/1calculatecentroids.py:26-31 | every assignment the walk makes is to a geocoded address |
| Registry.DirCandidates | finalized_xri_tools/1calculatecentroids.py:27-31 | every assignment made for one folder is to that folder's parent name, and only when the parent is geocoded |
| Registry.DirCandidatesKeys | finalized_xri_tools/1calculatecentroids.py:27-31 | a folder makes an assignment exactly when its address is geocoded and it holds a matching file |
| Registry.DirCandidatesPath | finalized_xri_tools/1calculatecentroids.py:28-31 | every path a folder assigns is `os.path.join(root, file)` of one of its matching files |
| Registry.CandidatesKeys | finalized_xri_tools/1calculatecentroids.py:26-31 | a key is assigned exactly when it is geocoded and some folder whose parent has that name holds a matching file |
| Registry.CandidatesComplete | finalized_xri_tools/1calculatecentroids.py:26-31 | a matching file in a folder of a geocoded address always gives that address an entry |
| Registry.CandidatesPath | finalized_xri_tools/1calculatecentroids.py:26-31 | every assignment of the walk stores a matching file of a folder of its address |
| Registry.FileMapPaths | finalized_xri_tools/1calculatecentroids.py:23-32 | every entry of the file map is the joined path of a matching file in a folder of that address |
| Registry.FindFiles | finalized_xri_tools/1calculatecentroids.py:23-32 | the nested loops build exactly the walk's assignments as a dict, a later file overwriting an earlier one, with only geocoded keys |
| Registry.ScanStep | finalized_xri_tools/1calculatecentroids.py:27-31 | one file of the inner loop assigns its path to the folder's address when it matches and the address is geocoded, and changes nothing otherwise |
| Registry.ScanFolder | finalized_xri_tools/1calculatecentroids.py:27-31 | the inner loop over a folder's files extends the dict built so far by exactly that folder's assignments |
| Registry.Accepts | finalized_xri_tools/1calculatecentroids.py:48-52 | no accepted row has an empty key |
| Registry.AcceptsKeys | finalized_xri_tools/1calculatecentroids.py:48-52 | a key is in the coordinate dict exactly when some row with that key has both coordinates |
| Registry.GeocodeDict | finalized_xri_tools/1calculatecentroids.py:48-52 | the dict holds, for an accepted key, the x and y of the last accepted row carrying it |
| Registry.AcceptsPosition | finalized_xri_tools/1calculatecentroids.py:43-52 | the assignment of the last accepted row for a key is not overwritten later |
| Registry.NullIdAccepted | finalized_xri_tools/1calculatecentroids.py:48-50 | a NULL UPRN with both coordinates is accepted under the key `None`, since `str(None)` is not empty |
| Registry.LoadGeocodes | finalized_xri_tools/1calculatecentroids.py:34-55 | every row is counted, the accepted ones fill the coordinate dict with the last one winning, and the id set is the dict's key set |
| Registry.Merged | finalized_xri_tools/1calculatecentroids.py:72-74 | the merge holds every ICP and centre address, the ICP file wherever there is one and the centre file otherwise |
| Registry.MergePreferIcp | finalized_xri_tools/1calculatecentroids.py:72-74 | the loop over the centre files yields exactly that merge |
| Registry.MergedGeocoded | finalized_xri_tools/6_solar_radiation_analysis.py:89-93 | merging two maps of geocoded addresses gives only geocoded addresses |
| Registry.Matched | finalized_xri_tools/3c_generate_ndvi_rasters_legacy.py:147 | an address is matched exactly when it is in every file map |
| Registry.MatchedGeocoded | finalized_xri_tools/3c_generate_ndvi_rasters_legacy.py:143-150 | a matched address has a geocode when the first map's keys are geocoded |
| Centroids.ToProcess | finalized_xri_tools/1calculatecentroids.py:83 | the addresses to process are exactly the file-map addresses that are geocoded, each with its file |
| Centroids.SumXTranslate | finalized_xri_tools/1calculatecentroids.py:90 | translating a cloud adds the x offset once per point to the x sum |
| Centroids.SumYTranslate | finalized_xri_tools/1calculatecentroids.py:90 | translating a cloud adds the y offset once per point to the y sum |
| Centroids.SumZTranslate | finalized_xri_tools/1calculatecentroids.py:90 | translating a cloud in the plane leaves the z sum |
| Centroids.CentreTranslate | finalized_xri_tools/1calculatecentroids.py:90 | the centre of a translated cloud is the translated centre, with z unchanged |
| Centroids.CentreRowsFacts | finalized_xri_tools/1calculatecentroids.py:85-91 | one CSV row per readable non-empty cloud, each naming its own address and holding that cloud's centre |
| Centroids.WriteCentres | finalized_xri_tools/1calculatecentroids.py:79-93 | the CSV holds the header `UPRN, X, Y, Z` and then the centre rows in dict order, and an error message is printed, in order, for every cloud that could not be read |
| Centroids.CentreRowsProcessed | finalized_xri_tools/1calculatecentroids.py:83-91 | every centre row names an address that has a cloud file and a geocode |
| ToolAudit.FileSet | finalized_xri_tools/tool_outputs_by_LSOA.py:52-54 | the set holds exactly the listed file names |
| ToolAudit.IndexOfFacts | finalized_xri_tools/tool_outputs_by_LSOA.py:43-54 | an address is indexed exactly when some walked folder is named by it (digits only, longer than 6), and its file set is the union of the files below every folder of that name |
| ToolAudit.BuildIndex | finalized_xri_tools/tool_outputs_by_LSOA.py:42-54 | the nested walks build exactly that index |
| ToolAudit.AddFiles | finalized_xri_tools/tool_outputs_by_LSOA.py:51-54 | the inner walk adds every file name below the folder to the address's set and nothing else |
| ToolAudit.EmptyGroupSatisfied | finalized_xri_tools/tool_outputs_by_LSOA.py:87 | `all(...)` over an empty group is true, so an empty group would be satisfied even without files |
| ToolAudit.ToolSuccess | finalized_xri_tools/tool_outputs_by_LSOA.py:83-91 | the OR loop with its early `break` sets the flag exactly when some group has every one of its substrings in some file name |
| ToolAudit.Flag | finalized_xri_tools/tool_outputs_by_LSOA.py:72-94 | a flag is 0 or 1, and 1 exactly when the address has a folder and the tool's data |
| ToolAudit.RowSumBounds | finalized_xri_tools/tool_outputs_by_LSOA.py:98 | a sum of 0/1 flags lies between 0 and the number of flags |
| ToolAudit.TableRows | finalized_xri_tools/tool_outputs_by_LSOA.py:97-98 | the table read back as rows: one row per address, each holding that address's flags |
| ToolAudit.FinalAudit | finalized_xri_tools/tool_outputs_by_LSOA.py:33-99 | the audit stops exactly when no address folder was found, then when the address list is unreadable; otherwise every address gets each tool's flag and the count is the sum of its flags |
| ToolAudit.FlagRow | finalized_xri_tools/tool_outputs_by_LSOA.py:76-94 | one address's row of flags is set to exactly its tools' flags and every other row is untouched |
| ToolAudit.CountsBounded | finalized_xri_tools/tool_outputs_by_LSOA.py:98 | every address's count lies between 0 and the number of tools |
| ToolAudit.NoFolderNoTools | finalized_xri_tools/tool_outputs_by_LSOA.py:78 | an address without a folder gets count 0 |
| FeatureTables.NamesOf | indicator_scripts/aggregate_to_LSOA_fresh.py:165 | the name list has one entry per field, the field's name, in field order |
| FeatureTables.NamesSnoc | indicator_scripts/aggregate_to_LSOA_fresh.py:165-168 | adding a field whose name is not yet present appends its name and keeps the names unique |
| FeatureTables.SetColumn | indicator_scripts/aggregate_to_LSOA_fresh.py:172 | `CalculateField` gives every row the value in that field and changes no other field |
| FeatureTables.TableAddColumn | indicator_scripts/aggregate_to_LSOA_fresh.py:168-172 | a new field set everywhere keeps every row holding exactly the table's fields |
| FeatureTables.ZeroNulls | indicator_scripts/aggregate_to_LSOA_fresh.py:177-180 | the nulls of the field become 0; every other value, and every other field, is unchanged |
| FeatureTables.Updated | indicator_scripts/aggregate_to_LSOA_fresh.py:198-202 | a row whose key is in the dict takes the dict's value in the output field; every other row and field is left as it was |
| FeatureTables.RatioOf | indicator_scripts/aggregate_to_LSOA_fresh.py:295 | the written value times the area is the part times 100 for a percentage, and the part for a density |
| FeatureTables.RatioUpdated | indicator_scripts/aggregate_to_LSOA_fresh.py:289-296 | only rows whose key is in the dict and whose area is positive are rewritten, with the ratio of the dict's amount to the area; all else is unchanged |
| FeatureTables.TableSameKeys | indicator_scripts/aggregate_to_LSOA_fresh.py:198-202 | a cursor rewrite that keeps every row's fields keeps the table well formed |
| FeatureTables.FeatureClass.AddZeroedField | indicator_scripts/aggregate_to_LSOA_fresh.py:165-173 | the new field is appended with the given type and is 0 in every row, and the class stays well formed |
| FeatureTables.FeatureClass.ZeroNullEntries | indicator_scripts/aggregate_to_LSOA_fresh.py:176-181 | the `IS NULL` cursor loop leaves the fields and turns the rows into their null-zeroed form |
| FeatureTables.FeatureClass.UpdateFromDict | indicator_scripts/aggregate_to_LSOA_fresh.py:198-202 | the `[key, out]` cursor loop leaves the fields and turns the rows into their dict-updated form |
| FeatureTables.FeatureClass.UpdateRatio | indicator_scripts/aggregate_to_LSOA_fresh.py:289-296 | the `[key, area, out]` cursor loop leaves the fields and turns the rows into their ratio-updated form |
| LsoaAggregate.AfterAddAndZero | indicator_scripts/aggregate_to_LSOA_fresh.py:165-181 | after `add_and_zero_field` every row has the field, holding 0 on a new field and, on an existing one, 0 in place of NULL and its old value otherwise; no other field changes |
| LsoaAggregate.AddAndZeroField | indicator_scripts/aggregate_to_LSOA_fresh.py:159-181 | the call answers True exactly for a field of a new name, which it appends with the given type; an existing field keeps its type; the rows become their zeroed form |
| LsoaAggregate.UpdatedAfterZero | indicator_scripts/aggregate_to_LSOA_fresh.py:188-202 | after zeroing and the dict update, a row whose ID is in the dict holds the dict's value and every other row its zeroed value, with no other field changed |
| LsoaAggregate.CountDictFacts | indicator_scripts/aggregate_to_LSOA_fresh.py:195 | an ID is in the count dict exactly when one of its join rows has `Join_Count > 0`, and it then holds one such positive count |
| LsoaAggregate.SummarizeByCount | indicator_scripts/aggregate_to_LSOA_fresh.py:183-205 | the count field is zeroed and then updated from the count dict, and nothing else in the class changes |
| LsoaAggregate.SumDict | indicator_scripts/aggregate_to_LSOA_fresh.py:228-235 | the sum dict is empty when the join did not create the output field |
| LsoaAggregate.SumDictFacts | indicator_scripts/aggregate_to_LSOA_fresh.py:232 | with the field created, an ID is in the sum dict exactly when it has a non-`None` sum, and it holds one of its own join sums |
| LsoaAggregate.SummarizeBySum | indicator_scripts/aggregate_to_LSOA_fresh.py:207-251 | the dict is read, the output field zeroed and then updated from the dict |
| LsoaAggregate.NoIntersectionsStayZero | indicator_scripts/aggregate_to_LSOA_fresh.py:230-249 | without intersections every row keeps its zeroed value, which is 0 on a new field |
| LsoaAggregate.AreaTotalsFacts | indicator_scripts/aggregate_to_LSOA_fresh.py:282-286 | an ID is summed exactly when one of its pieces has a truthy ID and area, and its sum is the total area of those pieces |
| LsoaAggregate.SumAreas | indicator_scripts/aggregate_to_LSOA_fresh.py:282-286 | the cursor loop over the pieces builds exactly those per-ID totals |
| LsoaAggregate.CalculatePercentArea | indicator_scripts/aggregate_to_LSOA_fresh.py:253-296 | the field is zeroed, the areas summed per ID, and the ratio update writes the percentage |
| LsoaAggregate.RatioAfterZero | indicator_scripts/aggregate_to_LSOA_fresh.py:289-296 | after zeroing and the ratio update, a row with a dict entry and a positive area holds the ratio and every other row its zeroed value |
| LsoaAggregate.PercentIsCoverage | indicator_scripts/aggregate_to_LSOA_fresh.py:293-295 | a written percentage is 100 times the ID's total intersected area over its own area |
| LsoaAggregate.CalculateLineDensity | indicator_scripts/aggregate_to_LSOA_fresh.py:305-336 | the field is zeroed and an ID with a summed length and a positive area gets length per unit area |
| LsoaAggregate.PresenceSet | indicator_scripts/aggregate_to_LSOA_fresh.py:362 | an ID is present exactly when one of its join rows has `Join_Count > 0` |
| LsoaAggregate.OneFor | indicator_scripts/aggregate_to_LSOA_fresh.py:367-368 | the update dict maps exactly the present IDs, each to 1 |
| LsoaAggregate.CalculateBufferedPresence | indicator_scripts/aggregate_to_LSOA_fresh.py:342-369 | the field is zeroed and every present ID is set to 1 |
| LsoaAggregate.PresenceIsBinary | indicator_scripts/aggregate_to_LSOA_fresh.py:358-369 | on a new presence field a row is 1 exactly when its ID was met by a buffer, and 0 otherwise |
| LsoaAggregate.CsvFields | indicator_scripts/aggregate_to_LSOA_fresh.py:381 | every exported name is a field that is neither geometry nor `OBJECTID` |
| LsoaAggregate.CsvFieldsComplete | indicator_scripts/aggregate_to_LSOA_fresh.py:381 | every field that is neither geometry nor `OBJECTID` is exported |
| LsoaAggregate.ExportColumnsOrder | indicator_scripts/aggregate_to_LSOA_fresh.py:383-386 | the key, when exported, moves to the front and the other columns keep their order; otherwise the columns are unchanged |
| LsoaAggregate.ExportColumnsAreFields | indicator_scripts/aggregate_to_LSOA_fresh.py:381-390 | every CSV column is a field of the table, so the search cursor can read it |
| LsoaAggregate.RowCells | indicator_scripts/aggregate_to_LSOA_fresh.py:395 | one cell per column, each the printed value of that column with `None` as the empty string |
| LsoaAggregate.CsvLines | indicator_scripts/aggregate_to_LSOA_fresh.py:394-395 | one data line per row, the row's cells joined by commas |
| LsoaAggregate.CsvLineRoundTrip | indicator_scripts/aggregate_to_LSOA_fresh.py:392-395 | a line ends in a newline and, when no cell holds a comma, splits back into its cells |
| LsoaAggregate.ExportToCsv | indicator_scripts/aggregate_to_LSOA_fresh.py:375-396 | the text is the header line of the columns followed by one line per row, in row order |
| MasterAnalysis.AfterAddIfMissing | indicator_scripts/master_analysis_2.py:14-20 | this script's `add_and_zero_field` leaves the rows as they were for an existing field and sets a new field to 0 everywhere |
| MasterAnalysis.AddAndZeroField | indicator_scripts/master_analysis_2.py:12-20 | an existing field is left exactly as it is; a field of a new name is appended with the given type and is 0 in every row |
| MasterAnalysis.AnalysisTypeCaseInsensitive | indicator_scripts/master_analysis_2.py:39-41 | any spelling of the analysis type selects the same field to read and the same field type (LONG for COUNT, DOUBLE otherwise) as its lower-cased spelling |
| MasterAnalysis.NeighbourhoodDict | indicator_scripts/master_analysis_2.py:51-58 | the summary dict is empty when the join lacks the field to check |
| MasterAnalysis.NeighbourhoodDictFacts | indicator_scripts/master_analysis_2.py:56 | with the field present, an ID is in the dict exactly when one of its join values is positive (so not `None`), and the value it holds is positive |
| MasterAnalysis.SummarizeInNeighbourhood | indicator_scripts/master_analysis_2.py:51-65 | the output field is added when missing, with LONG for COUNT and DOUBLE for SUM, and the rows are updated from the summary dict |
| MasterAnalysis.NeighbourhoodRow | indicator_scripts/master_analysis_2.py:60-65 | a row whose ID is in the dict holds its value; any other row keeps what it had, or 0 on a new field |
| MasterAnalysis.CalculatePercentArea | indicator_scripts/master_analysis_2.py:74-102 | the field is added when missing and a row with an entry in the dissolved-intersection dict and a positive area gets its covered percentage |
| MasterAnalysis.IfLines | indicator_scripts/master_analysis_2.py:184-185 | one `if classification == '<key>': return <value>` line per weight, in dict order |
| MasterAnalysis.CodeLines | indicator_scripts/master_analysis_2.py:183-186 | the code block's lines are the `def` line, the `if` lines in dict order, and the `else` line |
| MasterAnalysis.BuildRetailCode | indicator_scripts/master_analysis_2.py:183-186 | the string built by the loop is exactly those lines joined by newlines |
| MasterAnalysis.IfLineOneLine | indicator_scripts/master_analysis_2.py:185 | an `if` line of a classification without a newline or quote is a single line |
| MasterAnalysis.RetailCodeLines | indicator_scripts/master_analysis_2.py:183-186 | splitting the code block at its newlines gives back exactly its lines |
| MasterAnalysis.GetWeightOfKey | indicator_scripts/master_analysis_2.py:183-187 | with distinct keys the generated `get_weight` returns each key's own weight |
| MasterAnalysis.GetWeightOfOther | indicator_scripts/master_analysis_2.py:186-187 | a classification that is no key gets weight 0 |
| MasterAnalysis.RetailKeysDistinct | indicator_scripts/master_analysis_2.py:138-143 | the nine retail classifications are distinct |
| MasterAnalysis.RetailWeightOf | indicator_scripts/master_analysis_2.py:138-143 | each retail classification gets its own weight from the generated code |
| MasterAnalysis.PlainRepr | indicator_scripts/master_analysis_2.py:193 | `repr` of a string without quotes or backslashes is the string in single quotes |
| MasterAnalysis.InClauseOfPlain | indicator_scripts/master_analysis_2.py:193-194 | for plain statuses, the list's repr with its brackets stripped is the single-quoted statuses joined by `, `, so the filter is `Status IN ('a', 'b', ...)` |
| MasterAnalysis.NuclearHighPlain | indicator_scripts/master_analysis_2.py:135 | the high-weight statuses have nothing for `repr` to escape |
| MasterAnalysis.NuclearMediumPlain | indicator_scripts/master_analysis_2.py:136 | the medium-weight statuses have nothing for `repr` to escape |
| MasterAnalysis.ClassTerms | indicator_scripts/master_analysis_2.py:216-219 | one term per class in dict order, naming the field `<prefix><class>` and carrying the class's weight |
| MasterAnalysis.EvalNumerator | indicator_scripts/master_analysis_2.py:218 | the numerator evaluates to the weighted sum of the class percentages |
| MasterAnalysis.EvalDenominator | indicator_scripts/master_analysis_2.py:219 | the denominator evaluates to the sum of the class percentages |
| MasterAnalysis.EvalWeightedAverage | indicator_scripts/master_analysis_2.py:208-210 | the guarded expression is the weighted mean where the classes cover something, and 0 otherwise, never dividing by zero |
| MasterAnalysis.WeightedSumBounds | indicator_scripts/master_analysis_2.py:216-219 | with non-negative percentages the weighted sum lies between the smallest and largest weight times the coverage |
| MasterAnalysis.WeightedAverageBounds | indicator_scripts/master_analysis_2.py:222 | with non-negative percentages that cover something, the risk lies between the smallest and largest weight |
| MasterAnalysis.SumsStep | indicator_scripts/master_analysis_2.py:218-219 | one more class extends both running strings by its term and `" + "` |
| MasterAnalysis.DropPlus | indicator_scripts/master_analysis_2.py:222 | `[:-3]` on a running string removes exactly its last `" + "` |
| MasterAnalysis.BuildWeightedAverage | indicator_scripts/master_analysis_2.py:214-222 | the radon loop yields no expression exactly when there are no classes, and otherwise the rendered guarded weighted average of its class terms |
| MasterAnalysis.FloodTerms | indicator_scripts/master_analysis_2.py:144 | the flood classes give the fields `FloodPct_Class1` and `FloodPct_Class2` with weights 1 and 2 |
| MasterAnalysis.FloodIsWeightedAverage | indicator_scripts/master_analysis_2.py:205-210 | the hand-written flood expression is the same guarded weighted average the radon loop builds |
| LsoaOverlap.PrefixColumns | indicator_scripts/xri_lsoa_overlap.py:19 | every column of the i-th table is renamed to `F<i>_<col>` except `LSOA21CD`, which keeps its name, in column order |
| LsoaOverlap.PrefixedIsNotKey | indicator_scripts/xri_lsoa_overlap.py:19 | no prefixed name is `LSOA21CD`, so the key stays the one column the tables share |
| LsoaOverlap.PrefixedInjective | indicator_scripts/xri_lsoa_overlap.py:16-19 | columns of different tables, or different columns of one table, never receive the same prefixed name, so the outer join adds no clashing columns |
| LsoaOverlap.NonKey | indicator_scripts/xri_lsoa_overlap.py:28 | the columns other than the key, in order: exactly the non-key columns |
| LsoaOverlap.PrefixKeepsKey | indicator_scripts/xri_lsoa_overlap.py:19-25 | prefixing keeps the key column exactly as often as the table had it, so every table can be merged on it |
| LsoaOverlap.NonKeyLength | indicator_scripts/xri_lsoa_overlap.py:32 | a table has as many statistics columns as its columns less its key columns, hence `len(df.columns) - 1` with the key once |
| LsoaOverlap.StatColsAreAllStats | indicator_scripts/xri_lsoa_overlap.py:23-28 | `stat_cols` of the merged table is every table's statistics columns, in table order |
| LsoaOverlap.ColumnGroups | indicator_scripts/xri_lsoa_overlap.py:29-34 | the loop builds one group per table, the next `len(columns) - 1` statistics columns from where the previous group ended |
| LsoaOverlap.AllStatsPrefix | indicator_scripts/xri_lsoa_overlap.py:30-34 | with the key once per table, the running `start` after k tables is the number of statistics columns of those tables |
| LsoaOverlap.GroupsAreTables | indicator_scripts/xri_lsoa_overlap.py:28-34 | on the merged `stat_cols`, the k-th group is exactly the k-th table's statistics columns |
| LsoaOverlap.CountDbfs | indicator_scripts/xri_lsoa_overlap.py:37-42 | `count_dbfs` counts exactly the groups holding a non-null value in the row |
| LsoaOverlap.CountBounds | indicator_scripts/xri_lsoa_overlap.py:37-44 | `DBF_count` is at most the number of tables, and 0 for a row with no statistic |
| LsoaOverlap.CountAll | indicator_scripts/xri_lsoa_overlap.py:37-44 | a row with a value in every group is counted in every table |
| LsoaZonal.TruthyCodesMembers | finalized_xri_tools/8_lsoa_aggregate_again.py:89-93 | a code is collected exactly when it occurs in the join column and is not empty, and no more codes are collected than rows |
| LsoaZonal.CollectCodes | finalized_xri_tools/8_lsoa_aggregate_again.py:89-93 | the cursor loop collects exactly the truthy codes, in cursor order with repeats kept |
| LsoaZonal.Insert | finalized_xri_tools/8_lsoa_aggregate_again.py:95 | inserting into an ascending list keeps it ascending and adds just that code |
| LsoaZonal.SortedSet | finalized_xri_tools/8_lsoa_aggregate_again.py:95 | `sorted(list(set(codes)))` is strictly ascending and holds exactly the codes |
| LsoaZonal.AscendingUnique | finalized_xri_tools/8_lsoa_aggregate_again.py:95 | two ascending lists with the same members are equal, so the sorted set is determined by the codes alone |
| LsoaZonal.UniqueCount | finalized_xri_tools/8_lsoa_aggregate_again.py:95-96 | `len(unique_lsoas)` is the number of distinct truthy codes |
| LsoaZonal.Query | finalized_xri_tools/8_lsoa_aggregate_again.py:103-104 | the query is `"LSOA21CD" IN (`, then the quoted code list, then `)` |
| LsoaZonal.QueryRoundTrip | finalized_xri_tools/8_lsoa_aggregate_again.py:103-104 | for codes free of `'`, the filter names exactly the codes: splitting the bracketed list on `'` gives them back in order |
| LsoaZonal.StemIsBeforeFirstDot | finalized_xri_tools/8_lsoa_aggregate_again.py:118 | the stem is the raster's basename up to its first `.`, or all of it when there is none |
| LsoaZonal.OutputTableNameInjective | finalized_xri_tools/8_lsoa_aggregate_again.py:118-119 | the table name `<stem>_lsoa_stats.dbf` determines the stem, so rasters of different stems get different tables |
| LsoaZonal.StatsRoundTrip | finalized_xri_tools/8_lsoa_aggregate_again.py:122 | a non-empty list of statistic names without spaces is recovered by splitting the statistics string |
| LsoaZonal.StatisticsIsAll | finalized_xri_tools/8_lsoa_aggregate_again.py:122 | with the script's statistics list the string passed to the zonal statistics tool is `ALL` |
| CensusGeoref.NamesKeepCsvName | indicator_scripts/census_georef.py:32-37 | the view name is the CSV name followed by `_view` and the output name is `lsoa_` followed by the CSV name |
| CensusGeoref.NamesInjective | indicator_scripts/census_georef.py:32-37 | distinct CSVs get distinct view and output names |
| CensusGeoref.ResolveOriginal | indicator_scripts/census_georef.py:91-108 | a found original is one of the CSV's own fields, and one is found only when the dot or the underscore pattern applies |
| CensusGeoref.DotOriginalAtEnd | indicator_scripts/census_georef.py:94-98 | under the dot pattern the name starts with `<view>.`; an original is found exactly when some dot-free CSV field ends the name after a dot, and then the name ends with `.` and that original |
| CensusGeoref.DotPatternIsPrefix | indicator_scripts/census_georef.py:94-95 | for a CSV name without a dot, the dot condition holds exactly for names starting with the view name and a dot; for a CSV name with a dot it never holds |
| CensusGeoref.UnderscoreOriginalWithin | indicator_scripts/census_georef.py:104-108 | when the dot condition fails and the name starts with `csv_name_`, an original is found exactly when some CSV field without surrounding whitespace sits in the rest of the name with only whitespace around it, and the found original is such a field |
| CensusGeoref.FieldAction | indicator_scripts/census_georef.py:111-120 | a rename is issued only to a non-empty CSV field other than `mnemonic` that differs from the current name, and the field is left exactly when no such original was found |
| CensusGeoref.RenamesFacts | indicator_scripts/census_georef.py:77-120 | every rename is of a listed field, to a CSV field other than `mnemonic`, and changes the name; there is at most one per field |
| CensusGeoref.PlanRenames | indicator_scripts/census_georef.py:63-120 | the loop over the joined fields issues exactly those renames, in field order |
| Text.StripLeft | finalized_xri_tools/1calculatecentroids.py:48 | `lstrip` removes only leading whitespace, and all of it |
| Text.StripRight | finalized_xri_tools/1calculatecentroids.py:48 | `rstrip` removes only trailing whitespace, and all of it |
| Text.Strip | finalized_xri_tools/1calculatecentroids.py:48 | a stripped string begins and ends with a non-space character, or is empty |
| Text.StripWithin | indicator_scripts/census_georef.py:106 | the stripped string sits inside the original with only whitespace around it |
| Text.Lower | finalized_xri_tools/4b_generate_temp_anomalies_gridded.py:38 | lower-casing maps every character and keeps the length |
| Text.Upper | indicator_scripts/master_analysis_2.py:39 | upper-casing maps every character and keeps the length |
| Text.NatToString | indicator_scripts/master_analysis_2.py:185 | `str(n)` is a string of digits without a leading zero |
| Text.NatToStringRoundTrip | indicator_scripts/master_analysis_2.py:185 | reading the decimal rendering back gives the number |
| Text.NatToStringInjective | indicator_scripts/master_analysis_2.py:206 | distinct numbers render differently, so the class fields get distinct names |
| Text.Split | indicator_scripts/census_georef.py:94 | `split` on one character gives at least one piece and no piece holds the separator |
| Text.JoinSplit | indicator_scripts/census_georef.py:94 | joining the pieces with the separator gives the string back |
| Text.SplitJoin | finalized_xri_tools/8_lsoa_aggregate_again.py:103 | splitting the join of separator-free pieces gives the pieces back |
| Text.SplitMany | indicator_scripts/census_georef.py:95 | a string splits into more than one piece exactly when it holds the separator |
| Text.SplitFirst | indicator_scripts/census_georef.py:95 | with no separator in `a`, the first piece is `a` and there are several pieces exactly when the string starts with `a` and the separator |
| Text.Quoted | finalized_xri_tools/8_lsoa_aggregate_again.py:103 | each code between single quotes |
| Text.SplitLast | indicator_scripts/census_georef.py:94-96 | with several pieces, the string ends with the separator and the last piece, and no other separator-free string ends it that way |
| Text.StripUnique | indicator_scripts/census_georef.py:106 | `strip()` returns the one string without surrounding whitespace that the input pads with whitespace only |
| Text.SplitHead | finalized_xri_tools/8_lsoa_aggregate_again.py:118 | the first piece of a split is the string up to the first separator |
| Text.BelowTotal | finalized_xri_tools/8_lsoa_aggregate_again.py:95 | Python's string order is total and asymmetric on different strings |

## Left out

- Floating point: numbers are exact reals. float32 rounding of distances, `1e-8` as a float, and `np.nanstd`/`zscore` are not modelled. NaN is modelled only as a cell value (`Raster.Cell`), which is how it reaches `np.maximum.at` in the thermal grid. Z-scores are a given image of finite or non-finite values.
- Trigonometry and `np.deg2rad` are uninterpreted functions in a `Trig` parameter. Only structural facts are proved: count, order, clamp, offset, and distance under cos²+sin²=1.
- RANSAC `segment_plane` and scikit-learn DBSCAN are oracle parameters. The plane fit returns inlier indices or raises. DBSCAN must return one label >= -1 per cell, and its algorithm is not modelled.
- ArcPy geoprocessing is left out as foreign library calls. This covers SpatialJoin, Intersect, Dissolve, Buffer, PointToRaster, NumPyArrayToRaster, Resample, AreaSolarRadiation, ZonalStatistics, AddJoin, TableToTable, AlterField and the extension checkouts. Their results enter as rows or values.
- Open3D reads and PIL, `np.load`, JSON and CSV reads enter the model as values. The centre of a cloud (`get_center`) is modelled as the mean of its points.
- File system I/O: the `os.walk` results are an input list of directories. Writes of rasters, CSV files and logs return their text or rows. tqdm and printing are not modelled.
- Python dict iteration order is an explicit `order` sequence of keys wherever the output order depends on it.
- Exceptions: `try`/`except` blocks are modelled as per-address `Completed`/`Raised` outcomes, with the raised message as an input. Exception types other than the ones named are not distinguished.
- Strings are `seq<char>`. `lower` and `upper` change ASCII letters only, and `isdigit` accepts ASCII digits only. `strip` uses Python's whitespace set.
- `fnmatch` supports `*` and `?`. Character classes `[...]` are treated as literal characters.
- `str()` of a float in the CSV export is a `showReal` parameter. Whole-number weights in the master expressions are rendered as `<n>.0`.
- `repr` of a string escapes only the backslash, the quote character, newline, carriage return and tab. Other non-printable characters are not escaped.
- The thermal tool's `np.count_nonzero(~isnan) < 100` guard is modelled as given (valid pixels counted). The statistics behind it are not.
- The thermal index overflow on a whole-number span uses a fixed placeholder message (`GridIndexError`). numpy's exact IndexError text is not modelled.
- NDVI byte-image resizing (PIL `resize`) is not modelled. The per-address NDVI step requires images already at the range image's shape (`Ndvi.Resized`).
- Feature-class rows are maps from field name to `Value`. `Null` stands for SQL NULL, `None` and NaN alike. A zeroed field holds `Int(0)` whatever its field type.
- A non-numeric area value is treated as not positive. The summaries require the key field and the output field to differ, as every call site in the scripts does.
- `add_and_zero_field` on an existing field of the wrong type, and AlterField name clashes, are not modelled. ArcGIS would raise there.
- Analysis types: only the COUNT-versus-other split of `summarize_in_neighbourhood` is modelled. The per-capita and nuclear-exposure field expressions of `master_analysis_2.py` are left out; only the retail, nuclear-filter, radon and flood builders are modelled.
- MasterAnalysis.InClauseOfPlain: proves the structure of the nuclear `IN` list for plain statuses, and that the listed statuses are plain. It does not prove equality with one concrete SQL literal, which is too costly in this setting.
- MasterAnalysis.RetailWeightOf: proves each retail key gets its weight. It does not prove that the retail keys are free of quotes and newlines.
- LsoaZonal.Query: an empty code list gives `"LSOA21CD" IN ()`, as the source would. The source does not guard that case, and nothing further is claimed.
- Registry.RowKey: a UPRN field of type Double (whose `str()` ends in `.0`) is not modelled; ids are text, integers or None.
- The zonal script's `os.path.basename` is an input, and LSOA codes from the join are `Option<string>` values.
- LsoaOverlap: the pandas outer merge's row alignment is not modelled. Only the columns and the per-row coverage count are.
- The solar tool's AreaSolarRadiation run is an outcome parameter of each attempt.
- RunNdvi: states the config check and one outcome per address, not each outcome's value. NdviForAddress states each.
- The pure library-wrapper scripts are not part of this model: the GeoPandas/pandas scripts, the ArcPy-only UPRN-to-LSOA and mosaic scripts, and the network geocoder.

## Findings

| source | as written | input that shows it | evidently intended | confidence | as-written member | corrected member |
|---|---|---|---|---|---|---|
| finalized_xri_tools/4b_generate_temp_anomalies_gridded.py:51 | the thermal `georeference_pixels_to_points` builds its pixel list from an all-true array, so the `filter_mask` argument (the anomaly mask passed at line 159) is ignored and every pixel with a valid range is projected and clustered | a 1×1 image whose z-score is 0 (not anomalous), with range 5000 and one-entry angle tables: as written it yields one point | project only the pixels the mask selects, as the reflectance copy does | not executed | ThermalAnomalies.GeoreferenceAsWritten, ThermalAnomalies.MaskIgnoredExample, ThermalAnomalies.ThermalForAddress | ThermalAnomalies.AnomalousPoints, ThermalAnomalies.IntendedThermalForAddress |
