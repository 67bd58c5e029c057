# OpenET crop type: per-field and per-tile crop-type resolution

The crop-type tools give every agricultural field polygon an annual crop code. Each field
shapefile feature carries one `CROP_<year>` integer and one `CSRC_<year>` provenance text
per year. Each MGRS tile gets one band-stacked crop image per year. This project models the
rules that decide those values:

- **Field-store passes.** The passes over the field shapefiles: the update from the zonal
  statistics tables, the backward fill of missing years, the regional repairs (NM, CO, MX),
  and the field-list bookkeeping of the preprocessing step.
- **Image and source choice.** Which CDL, NLCD and LandIQ image each year, state or tile
  reads, whether it is remapped or masked, and the provenance text it leaves.
- **Pixel rules.** The per-pixel rules (masking 81, 176 to 37, the LandIQ urban/wetland
  mask), the remap table and its completion, and first-non-null compositing over an ordered
  band list.
- **Tile and grid arithmetic.** The MGRS tile export records, the California extent
  snapping to the 30 m grid, and the corner order of a tile's ring.

Structure:

- Each script is one module.
- A pass that updates a shapefile in place is a method over a `Layer` class (an array of
  features, or field and feature lists), proved against a function of the old state.
- Pure choices are functions, and the rules their callers rely on are lemmas.
- Earth Engine images are modelled as references (a collection, a name, and remap and mask
  flags). An image pixel is an `Option<int>`, where `None` is masked.
- Remote calls, the clock and files become parameters: the task list, the asset list, the
  stats tables, `cdl_year_max` and today's date.

Shared modules: `Wrappers` (Option, Result, the errors a script stops with), `Strings`
(Python `str()`, `int()`, `split`, `strip`, `lower`/`upper`, `sorted`, `set`), `Remap`,
`Pixels`, `Args` (the year, state and tile arguments), `FieldStore` (the feature record and
the layer), `CdlYears` and `Tiles`.

## Model

| member | source | states |
|---|---|---|
| Remap.Complete | fields/export_field_crop_type_by_state.py:124-130 | the completion loop yields a table over every code 1..255: a listed code maps to its table value, every other code to itself |
| Remap.ApplyCompleted | crop_type_asset_mgrs_collection.py:95-100 | with the completed table, the image remap of a code 1..255 is its table value when listed and the code itself otherwise; it never masks such a code |
| Remap.ApplyIdempotent | fields/export_field_crop_type_by_state.py:128-130 | remapping an already remapped pixel changes nothing when every OUT code is left alone by the table |
| Pixels.Mask81 | fields/export_field_crop_type_by_state.py:284 | the result is never 81; any other value or mask passes unchanged |
| Pixels.UpdateMask | crop_type_asset_mgrs_collection.py:401-404 | a pixel survives exactly where it and the mask are present and the mask is non-zero, and then keeps its value |
| Pixels.Replace176 | fields/export_field_crop_type_by_state.py:294-297 | the value changes, to 37, exactly when it is 176 and NLCD is 81 or 82; masking is untouched |
| Pixels.FirstNonNull | crop_type_asset_mgrs_collection.py:401-402 | the result has a value iff some band has one, and then it is the value of the first such band |
| Pixels.FirstNonNullPrefix | fields/export_field_crop_type_by_state.py:555 | a leading group of bands decides the composite when it has a value; when all of it is masked the rest decides |
| Pixels.FirstNonNullAt | crop_type_asset_mgrs_collection.py:401-402 | the first band that has a value decides the pixel |
| Pixels.MaskOrdersAgree | fields/export_field_crop_type_by_state.py:529-534 | masking 81 before or after the remap gives the same pixel when the table neither lists 81 nor maps a code to 81 |
| Pixels.MaskOrdersDiffer | fields/export_field_crop_type_by_state.py:529-534 | a table mapping a code to 81 makes the two orders differ at that code |
| Args.Range | fields/update_field_crop_type_by_state.py:80-81 | the default year list holds lo, lo+1, ..., hi in order |
| Args.YearsIn | crop_type_asset_mgrs_collection.py:82-86 | the given years inside the range, each once, in increasing order |
| Args.SelectYearsSpec | crop_type_asset_mgrs_collection.py:77-86 | the year list is increasing and holds exactly the requested years inside the range, or the whole range when none were given |
| Args.NewestFirst | fields/export_field_crop_type_by_state.py:77-85 | the export script's year list has the same years, strictly decreasing |
| Args.ParseStates | fields/export_field_crop_type_by_state.py:53-64 | exactly ['ALL'] gives the script's list; otherwise the stripped comma-separated pieces without the empty ones, each once, sorted |
| Args.PiecesStripped | fields/export_field_crop_type_by_state.py:62-64 | no state piece starts or ends with white space |
| Args.ParseTiles | crop_type_asset_mgrs_collection.py:106 | the tile arguments are the stripped comma-separated pieces, sorted, with repeats and empty pieces kept |
| Args.StudyAreaFeatures | crop_type_asset_mgrs_shapefile.py:752-766 | the feature list is strictly sorted and holds exactly the given features, or the 49 CONUS codes when STUSPS is asked for 'CONUS' in any case |
| CdlYears.AppendYear | fields/export_field_crop_type_by_state.py:116-120 | each state in the year's table gets the year appended once per listing; unknown states are ignored; the keys stay the same |
| CdlYears.BuildStateYears | fields/export_field_crop_type_by_state.py:112-121 | the map has exactly the requested states as keys, each bound to its year list |
| CdlYears.StateYearsMembers | fields/update_field_crop_type_by_state.py:94-121 | a state's list holds exactly the requested years whose table lists the state |
| CdlYears.StateYearsOrdered | fields/update_field_crop_type_by_state.py:113-121 | years taken in increasing order give each state a non-decreasing list |
| CdlYears.ListedFrom2008 | fields/update_field_crop_type_by_state.py:94 | from 2008 through 2024 a state is listed iff it was requested |
| ExportSelect.ImagePixel | fields/export_field_crop_type_by_state.py:396-401 | a raw unmasked image passes the raw value; the 2009-2013 LandIQ image masks raw 82 and 87; a masked input stays masked |
| ExportSelect.CdlAfterMax | fields/export_field_crop_type_by_state.py:230-241 | years after 2024 read CDL 2024, remapped, with the remap note in the provenance |
| ExportSelect.CdlOwnYear | fields/export_field_crop_type_by_state.py:278-281 | 2008-2024 read their own CDL year, raw, with the bare image id as provenance |
| ExportSelect.CdlSplitYears | fields/export_field_crop_type_by_state.py:252-277 | 2005 raises exactly for ID, reads 2005b for MS and 2005a otherwise; 2007 raises exactly for CA and reads 2007a otherwise |
| ExportSelect.CdlNeverRaises | fields/export_field_crop_type_by_state.py:198-204 | for a year that reaches the selection (listed for a state other than CA) the choice never raises |
| ExportSelect.CdlPixelRaw | fields/export_field_crop_type_by_state.py:284-297 | on a raw CDL image the pixel is masked iff it is masked or 81, 176 under NLCD 81/82 gives 37, and any other code passes |
| ExportSelect.NlcdKeys | fields/export_field_crop_type_by_state.py:137-159 | the NLCD table is keyed by exactly 2001-2021 |
| ExportSelect.NlcdYear | fields/export_field_crop_type_by_state.py:288-290 | the NLCD year is the year clamped to 2001-2021 and is always a key |
| ExportSelect.NlcdNearest | fields/export_field_crop_type_by_state.py:133-159 | each year reads a release at least as near as any other release, the earlier one on ties |
| ExportSelect.NlcdValues | fields/export_field_crop_type_by_state.py:137-159 | the releases read are exactly 2001, 2004, 2006, 2008, 2011, 2013, 2016, 2019 and 2021 |
| ExportSelect.LandIqSpec | fields/export_field_crop_type_by_state.py:380-408 | never raises; skips exactly the years before 2009; from 2014 reads the latest LandIQ year not after it; 2009-2013 read 2014 with 82/87 masked; remapped and noted iff the year has no image of its own |
| ExportSelect.CompositeCdlImage | fields/export_field_crop_type_by_state.py:513-534 | the composite's CDL is the year clamped to 1997-2024, always remapped, never 82/87-masked |
| ExportSelect.CompositeCaTotal | fields/export_field_crop_type_by_state.py:489-507 | every composite year has a LandIQ image, the same one the statewide export uses from 2009 |
| ExportSelect.CompositePrecedence | fields/export_field_crop_type_by_state.py:551-555 | from 2009 LandIQ decides wherever it has a value; before 2009 or where LandIQ is masked the CDL pixel decides |
| ExportSelect.CompositeCdlAgrees | fields/export_field_crop_type_by_state.py:529-547 | the composite's mask-then-remap CDL pixel equals the state export's rule on a remapped image under the usual table |
| ExportSelect.NumberedId | fields/export_field_crop_type_by_state.py:556-557 | the last path segment of an image named by a year is that year |
| ExportSelect.CompositeSourceForm | fields/export_field_crop_type_by_state.py:556-558 | from 2009 the provenance is 'CA<a> CDL<b> composite - remapped annual crops' |
| ExportSelect.CompositeSourceEarly | fields/export_field_crop_type_by_state.py:551-553 | before 2009 the provenance is the CDL id with the remap note |
| ExportSelect.ExportIdsDistinct | fields/export_field_crop_type_by_state.py:199 | two years of one state and kind never share an export id |
| ExportSelect.ExportActionSpec | fields/export_field_crop_type_by_state.py:207-222 | an export is skipped iff overwrite is off and its task or CSV exists; a submitted export cancels exactly a running task of its id |
| FieldStore.SetYearsEffect | fields/update_field_crop_type_by_state.py:144-148 | writing a run of years sets each of them and leaves every other value of the feature alone |
| FieldStore.SetYearsOverride | fields/update_field_crop_type_by_state.py:144-148 | the written feature is the old one overridden at the run's years |
| FieldStore.WriteYears | fields/replace_bad_crop_types.py:134-136 | the SetField loop over the years gives the feature with the run written |
| FieldStore.WriteYearsAll | fields/update_field_crop_type_by_state.py:139-149 | every feature of the layer gets the run written, in place |
| FieldStore.SetYearsIdempotent | fields/replace_bad_crop_types.py:133-137 | writing the same run twice is writing it once |
| UpdatePass.Trunc | fields/update_field_crop_type_by_state.py:443-444 | int() of a float truncates toward zero: the magnitude drops by less than one |
| UpdatePass.WriteFeature | fields/update_field_crop_type_by_state.py:434-458 | only the given year changes; an absent id, a new code 0 or a positive code without overwrite leave the feature alone; otherwise the year takes the row's code and source |
| UpdatePass.WriteFeatureIdempotent | fields/update_field_crop_type_by_state.py:432-458 | applying write_features twice with the same table equals applying it once |
| UpdatePass.WriteFeatures | fields/update_field_crop_type_by_state.py:427-459 | the loop leaves every feature updated by the per-feature rule, in place |
| UpdatePass.ClearYears | fields/update_field_crop_type_by_state.py:139-149 | the overwrite clear writes (0, '') into every requested year of every feature |
| UpdatePass.ClearAllEffect | fields/update_field_crop_type_by_state.py:253-261 | after the clear every requested year is (0, '') and every other year unchanged |
| UpdatePass.Index | fields/update_field_crop_type_by_state.py:206-209 | the table's keys are exactly the row ids, each bound to its row when the ids are distinct |
| UpdatePass.CheckRowsAsWritten | fields/update_field_crop_type_by_state.py:222-228 | as written: passes only when every row has the column, no value is None, and every zero row carries an OPENET_ID column |
| UpdatePass.CheckRows | fields/update_field_crop_type_by_state.py:222-228 | corrected: passes iff every row has the column and no value is None; otherwise a KeyError or the prompt |
| UpdatePass.CheckRowsAsWrittenStricter | fields/update_field_crop_type_by_state.py:383-391 | the check as written stops on every table the corrected check stops on |
| UpdatePass.ZeroRowStopsAsWritten | fields/update_field_crop_type_by_state.py:226-228 | one row coded 0 stops the pass with KeyError('OPENET_ID') as written and passes the corrected check |
| UpdatePass.CoveredIntegers | fields/update_field_crop_type_by_state.py:317-320 | with integer counts a row is kept iff total > 0 and 2*count >= total |
| UpdatePass.Coverage | fields/update_field_crop_type_by_state.py:317-320 | the filter succeeds iff every row's test succeeds and then keeps exactly the rows with at least half coverage |
| UpdatePass.YearInput | fields/update_field_crop_type_by_state.py:174-320 | a year is passed over iff its pass skips it or it has no stats file; an error comes from the coverage filter (LandIQ) or from the chosen row check, the as-written one raising on every zero row |
| UpdatePass.RunPass | fields/update_field_crop_type_by_state.py:174-335 | the loop over years leaves the layer and the error as the pass function gives them, under the chosen row check (AsWritten is the script) |
| UpdatePass.UpdateState | fields/update_field_crop_type_by_state.py:125-234 | a non-CA state: the clear when overwriting, then the CDL pass over the state's years; with AsWritten a zero row stops it with KeyError('OPENET_ID') |
| UpdatePass.UpdateCalifornia | fields/update_field_crop_type_by_state.py:237-395 | CA: the clear when overwriting, the LandIQ pass, then the composite pass unless LandIQ raised; with AsWritten a zero composite row stops it with KeyError('OPENET_ID') |
| UpdatePass.RunUntouched | fields/update_field_crop_type_by_state.py:174-234 | a pass keeps the feature count and changes no year outside its year list |
| UpdatePass.CompositeKeepsPositive | fields/update_field_crop_type_by_state.py:395 | the composite pass never replaces a positive code or its source |
| UpdatePass.LandIqWins | fields/update_field_crop_type_by_state.py:335-395 | every positive code the LandIQ pass leaves survives the composite pass with its source |
| UpdatePass.StateUpdateUntouched | fields/update_field_crop_type_by_state.py:139-234 | a state's update changes only the requested years of each feature |
| UpdatePass.YearInputAgrees | fields/update_field_crop_type_by_state.py:222-228 | a year the as-written check lets through reads the same table under the intended check |
| UpdatePass.RunAgrees | fields/update_field_crop_type_by_state.py:174-234 | a pass as written that raises nothing equals the intended pass: the fault only stops a pass early |
| UpdatePass.ZeroRowPassStops | fields/update_field_crop_type_by_state.py:222-228 | one CDL year whose only row is coded 0: as written the pass raises KeyError('OPENET_ID') with the layer unchanged; the intended pass raises nothing |
| FillPass.BuildFillPairs | fields/fill_missing_crop_types.py:32-37 | the pair list has 12 entries: [2023], then [y+1, y] for y = 2007 down to 1997 |
| FillPass.Unpack | fields/fill_missing_crop_types.py:78 | unpacking succeeds iff the pair has two elements, and yields them |
| FillPass.ClearPair | fields/fill_missing_crop_types.py:79-85 | only the target year can change, and it is reset to (0, '') exactly when it is set and its source starts with 'CROP_<src>' |
| FillPass.ClearFeature | fields/fill_missing_crop_types.py:77-86 | succeeds iff every pair has two elements, and then changes only target years |
| FillPass.ClearFilled | fields/fill_missing_crop_types.py:73-87 | with a malformed pair the clear raises iff the layer is non-empty, and leaves it unchanged; otherwise every feature is cleared pair by pair |
| FillPass.FillSourceNote | fields/fill_missing_crop_types.py:120-129 | the target provenance starts with 'CROP_' and carries the note iff the source's did |
| FillPass.FillFeatureSpec | fields/fill_missing_crop_types.py:103-147 | source code 0, or a positive target without overwrite, changes nothing; otherwise only the target is written, with the source's code remapped and noted when it is a remap key not yet noted; the target provenance carries the note iff the source's did or the code is a remap key |
| FillPass.ClearMissesFlattenedChain | fields/fill_missing_crop_types.py:83 | a 2005 value copied through from 2008 is not cleared by the (2006, 2005) pair |
| FillPass.FillRun | fields/fill_missing_crop_types.py:96-148 | the fill over the pairs raises iff some pair is malformed |
| FillPass.FillPair | fields/fill_missing_crop_types.py:99-148 | one pair fills every feature by the per-feature rule, in place |
| FillPass.FillLayer | fields/fill_missing_crop_types.py:73-148 | a state's run: the clear when overwriting, then the fill, leaving the layer and error the function gives |
| FillPass.SourcePairsRaise | fields/fill_missing_crop_types.py:34-37 | with [2023] at its head the list makes every state stop at once with its layer unchanged |
| ReplacePass.NmSpec | fields/replace_bad_crop_types.py:57-77 | only fields in HUC 14 with a non-zero 2011 code change; 2008-2010 then hold the 2011 code, remapped with the note iff it is a remap key, and nothing else changes |
| ReplacePass.NmIdempotent | fields/replace_bad_crop_types.py:57-77 | the NM rule applied twice equals once |
| ReplacePass.NmOverride | fields/replace_bad_crop_types.py:53-78 | the loop applies the NM rule to every feature, in place |
| ReplacePass.CoSpec | fields/replace_bad_crop_types.py:91-122 | only 2009 of HUC 130100/130201 fields is written: matching 2008/2010 keeps the 2010 code, else a remap key is remapped with the note, else a positive 2010 code is used, else nothing changes |
| ReplacePass.CoIdempotent | fields/replace_bad_crop_types.py:91-122 | the CO rule applied twice equals once |
| ReplacePass.CoOverride | fields/replace_bad_crop_types.py:87-123 | the loop applies the CO rule to every feature, in place |
| ReplacePass.MxSpec | fields/replace_bad_crop_types.py:133-137 | every year 1997-2023 is (47, 'DEFAULT'), no other year changes, and the rule is idempotent |
| ReplacePass.MxOverride | fields/replace_bad_crop_types.py:131-138 | the loop applies the MX rule to every feature, in place |
| ReplacePass.AllRegions | fields/replace_bad_crop_types.py:27-28 | 'ALL' selects NM, CO and MX |
| ReplacePass.Replace | fields/replace_bad_crop_types.py:45-138 | each selected region's shapefile gets its rule, and an unselected one is left alone |
| Tiles.TruncDivBounds | crop_type_asset_mgrs_collection.py:540-543 | the truncated quotient is the number of whole cells that fit in the extent, toward zero |
| Tiles.ZoneText | crop_type_asset_mgrs_collection.py:553 | the zone text is the first two characters (fewer for a shorter code) |
| Tiles.TileRecordSpec | crop_type_asset_mgrs_collection.py:532-554 | a record fails iff the zone text is not an integer; otherwise it holds the upper-cased index, that zone, the EPSG crs, the geo transform, the extent, the shape in whole cells and the budget cols*rows+pad |
| Tiles.ZoneOfCode | crop_type_asset_mgrs_collection.py:553 | a code whose first two characters spell a number has that number as its zone |
| Tiles.FilterTiles | crop_type_asset_mgrs_collection.py:512-523 | a tile is kept iff it is not in the skip list and, when tiles are given, its code starts with one of them upper-cased |
| Tiles.Records | crop_type_asset_mgrs_collection.py:532-554 | one record per tile in order, or the first bad zone's error |
| Tiles.BuildExportList | crop_type_asset_mgrs_collection.py:532-556 | the append loop then the sort give the export list, sorted by index, one record per tile |
| Tiles.ExportListSpec | crop_type_asset_mgrs_collection.py:556 | the export list succeeds iff every record does and is a sorted permutation of the records |
| Tiles.ExportListMembers | crop_type_asset_mgrs_collection.py:532-556 | every exported record is the record of one of the tiles |
| Tiles.ExportListBudget | crop_type_asset_mgrs_collection.py:548-550 | every exported record has a two-cell shape and a budget of cols*rows plus the pad |
| MgrsCollection.LandIqBandSpec | crop_type_asset_mgrs_collection.py:295-327 | never prompts; no band exactly before 2009; from 2014 the latest of 2014/2016/2018 not after the year; 2009-2013 read 2014 with 82/87 masked; remapped iff not 2014/2016/2018 |
| MgrsCollection.CdlCaYear | crop_type_asset_mgrs_collection.py:335-341 | the CA CDL year is the year clamped to 2008..cdl_year_max |
| MgrsCollection.State2005Always | crop_type_asset_mgrs_collection.py:353-366 | whatever the tile arguments, 2005 reads 2005a: the list is never equal to a tile code |
| MgrsCollection.ConusSpec | crop_type_asset_mgrs_collection.py:379-394 | the CONUS band is raw iff 2008 <= year <= max; later years read max remapped, earlier ones 2008 remapped |
| MgrsCollection.BuildPlan | crop_type_asset_mgrs_collection.py:269-394 | the step-by-step band and property accumulation gives the plan function's bands and properties |
| MgrsCollection.PlanSpec | crop_type_asset_mgrs_collection.py:282-394 | band names in order base, fields, landiq (CA from 2009), cdl_ca_img (CA), cdl_state_img (before 2008), cdl_conus_img; cdl_ca_img_id holds the image |
| MgrsCollection.PlanBands | crop_type_asset_mgrs_collection.py:282-394 | the base band comes first and is masked, the fields second, LandIQ third on CA tiles from 2009, CONUS last |
| MgrsCollection.FieldsDecide | crop_type_asset_mgrs_collection.py:286-290 | inside the tile mask a field with a positive code decides the pixel |
| MgrsCollection.LandIqDecides | crop_type_asset_mgrs_collection.py:401-405 | without a field, a CA tile from 2009 takes LandIQ where it has a value |
| MgrsCollection.ConusFallback | crop_type_asset_mgrs_collection.py:379-405 | where no earlier band has a value the pixel is the CONUS CDL's, masked to the tile |
| MgrsCollection.ShortId | crop_type_asset_mgrs_collection.py:243-245 | the short id with the legacy prefix put back is the asset id |
| MgrsCollection.ExportIdsDistinct | crop_type_asset_mgrs_collection.py:242-246 | two years of one tile never share an export id |
| MgrsCollection.TileYearActionSpec | crop_type_asset_mgrs_collection.py:252-267 | with overwrite: cancel iff a task exists, delete iff either asset id is listed; without: skip iff a task or asset exists |
| MgrsShapefile.DefaultYears | crop_type_asset_mgrs_shapefile.py:88-97 | no year argument gives 2008..2020, 13 years |
| MgrsShapefile.YearsLogRaises | crop_type_asset_mgrs_shapefile.py:110 | the year log line raises TypeError iff some year is kept, so always with the defaults |
| MgrsShapefile.ShapefileTilesSpec | crop_type_asset_mgrs_shapefile.py:784-826 | the records are sorted by index, each from a wanted tile, each with budget cols*rows+1 |
| Tiles.SwapInvolution | crop_type_asset_mgrs_shapefile.py:846-847 | swapping twice restores the extent |
| MgrsShapefile.Ring.constructor | crop_type_asset_mgrs_shapefile.py:849 | a new ring has no points |
| MgrsShapefile.Ring.AddPoint | crop_type_asset_mgrs_shapefile.py:850-853 | the point is appended |
| MgrsShapefile.Ring.CloseRings | crop_type_asset_mgrs_shapefile.py:854 | the first point is repeated unless the ring already ends on it |
| MgrsShapefile.ExtentGeom | crop_type_asset_mgrs_shapefile.py:846-857 | one polygon of one closed ring of at least four points; when the (possibly swapped) extent's elements 1 and 3 differ the ring is UL, UR, LR, LL, UL |
| California.CheckYear | california/ca_shp_to_image_asset.py:74-76 | the test succeeds iff the year is in the list |
| California.CheckYearNeverRaises | california/ca_shp_to_image_asset.py:74-76 | every year the loop visits passes its own test |
| California.EpsgSpec | california/ca_shp_to_image_asset.py:81-89 | 4269 for 2019-2021/2023, 3310 for 2022, 3857 for 2014/2016/2018, ValueError exactly for the other years |
| California.RemapTableOf | california/ca_shp_to_image_asset.py:112-119 | 2014 has its own table, every other year the shared one |
| California.FieldsSpec | california/ca_shp_to_image_asset.py:154-162 | for every run year the crop field is Crop2014 in 2014 and CROPTYP2 otherwise, and MAIN_CROP is read exactly from 2019 |
| California.CdlCodeSpec | california/ca_shp_to_image_asset.py:164-172 | a non-empty MAIN_CROP other than '****' is the key, otherwise the crop type; the code is the key's table value, and a key missing from the table gives no code |
| California.CodedSpec | california/ca_shp_to_image_asset.py:150-173 | the coded fields are exactly the source fields that have a code, each with its geometry and code, and there are no more of them than source fields |
| California.CodedOrder | california/ca_shp_to_image_asset.py:150-173 | the coded list is the order-preserving filter-map of the source: entry k is the field at the k-th coded position, the positions increase, and every field with a code is among them |
| California.ReadSourceFeatures | california/ca_shp_to_image_asset.py:150-173 | the read loop gives the coded field list |
| California.SnapBounds | california/ca_shp_to_image_asset.py:249-254 | the floor snap is the grid line at or below the value, less than 30 away; the ceil snap the one at or above |
| California.SnapGridSpec | california/ca_shp_to_image_asset.py:356-366 | the snapped extent contains the original, is less than 30 larger per side and lies on the grid; cols and rows are exact quotients; the geo transform is [xmin, 30, 0, ymax, 0, -30] |
| California.ExactQuotient | california/ca_shp_to_image_asset.py:255-256 | int() of a whole number of 30 m cells is that number |
| Preprocess.KeptSpec | fields/preprocess_shapefiles.py:273-282 | the kept fields are exactly the undeleted ones, in their order |
| Preprocess.Layer.DeleteField | fields/preprocess_shapefiles.py:276 | the field at the index is removed from the field list |
| Preprocess.Layer.ReorderFields | fields/preprocess_shapefiles.py:332 | the new field k is old field index[k]; features are unchanged |
| Preprocess.Layer.CreateField | fields/preprocess_shapefiles.py:362 | the field is appended and is null on every feature |
| Preprocess.Layer.SetField | fields/preprocess_shapefiles.py:365-367 | one feature's value is set |
| Preprocess.Layer.AddField | fields/preprocess_shapefiles.py:363-370 | the value is set on every feature |
| Preprocess.DeleteMarked | fields/preprocess_shapefiles.py:273-282 | deleting in reverse index order leaves exactly the kept fields |
| Preprocess.IndexOf | fields/preprocess_shapefiles.py:331 | the index is the first position holding the name |
| Preprocess.Positions | fields/preprocess_shapefiles.py:331 | each position holds the name asked for |
| Preprocess.ReorderIdFields | fields/preprocess_shapefiles.py:297-333 | the decision is taken on the old fields; only a reorder changes them, to the id order |
| Preprocess.IdOrderNoDup | fields/preprocess_shapefiles.py:300-311 | the id order has no repeated name |
| Preprocess.DecideOrderSpec | fields/preprocess_shapefiles.py:297-333 | skip without OPENET_ID or when the sets differ; in order iff equal; otherwise a permutation index onto the id order |
| Preprocess.MissingSpec | fields/preprocess_shapefiles.py:455-456 | the new fields are exactly the wanted ones not already present |
| Preprocess.LookupAncillary | fields/preprocess_shapefiles.py:363-367 | an added field holds today's date (MOD_DATE), the upper-cased state (STATE) or null |
| Preprocess.AddAncillaryFields | fields/preprocess_shapefiles.py:347-371 | the missing ancillary fields are appended and set on every feature |
| Preprocess.StateFieldSet | fields/preprocess_shapefiles.py:366-367 | an added STATE holds the upper-cased state code |
| Preprocess.ExistingUntouched | fields/preprocess_shapefiles.py:355 | a field that existed keeps its value |
| Preprocess.AddCropFields | fields/preprocess_shapefiles.py:455-494 | the missing type fields then the missing source fields are appended, and each new field gets its default on every feature |
| Preprocess.SetDefaults | fields/preprocess_shapefiles.py:488-493 | one feature gets 0 in each new type field and '' in each new source field |
| Preprocess.CropFieldsAfter | fields/preprocess_shapefiles.py:455-494 | every requested year has both fields; an existing one keeps its value, a new type field is 0 and a new source field '' |
| Preprocess.SplitUpTo | fields/preprocess_shapefiles.py:527-531 | the other-field positions are increasing and point at non-crop fields; the counts add up; crop names are fields of the layer |
| Preprocess.CropIndex | fields/preprocess_shapefiles.py:524-533 | one valid position per field |
| Preprocess.BuildCropIndex | fields/preprocess_shapefiles.py:524-533 | the two appending loops give the position list |
| Preprocess.CropIndexFields | fields/preprocess_shapefiles.py:524-534 | the reordered fields are the other fields in order, then the crop fields sorted |
| Preprocess.CropIndexDistinct | fields/preprocess_shapefiles.py:524-534 | with distinct names, no position is used twice |
| Preprocess.CropIndexSpec | fields/preprocess_shapefiles.py:507-534 | with distinct names the list is a permutation of 0..n-1 that moves the other fields up in order and then the crop fields sorted |
| Preprocess.SortCropFields | fields/preprocess_shapefiles.py:507-534 | the layer is reordered iff its crop fields are out of order; the features are unchanged |
| Preprocess.CropSortSettles | fields/preprocess_shapefiles.py:507-508 | after the reorder the crop fields are sorted, so a second run does nothing |
| Preprocess.CheckIds | fields/preprocess_shapefiles.py:542-551 | the loop returns the set of present ids, the positions of the None ids and each repeat of an id already seen, as the id functions define them |
| Preprocess.CleanIds | fields/preprocess_shapefiles.py:542-551 | nothing is reported iff every id is present and all are distinct |

## Left out

- Earth Engine: images, reducers, `reduceRegions`, export and ingestion tasks, and the asset and task listings. Remote calls; the listings are parameter sets.
- The mode reducer and zonal statistics: float work inside Earth Engine. The tables they produce are inputs.
- GDAL and OGR: opening, rasterising, reprojecting, convex hulls, area, length and the PP score (fields/preprocess_shapefiles.py:404-451), and their zero defaults. Foreign geometry and floating point.
- File and bucket I/O: CSV and JSON reading, gsutil, zips, sidecar files and the file-existence tests. A missing stats file is a year absent from the tables map.
- `cdl_year_max` (the Earth Engine query), today's date (MOD_DATE), the tool version and the ingest date. They are parameters or left out.
- `utils.str_ranges_2_list` from openet.core is not part of this model. Years arrive as a list of integers.
- Interactive `input('ENTER')` prompts. They are an error that stops the pass, or a dropped feature where the loop continues.
- Float extents. Extents are integers; snapping and truncation are modelled exactly over them.
- `upper()` and `lower()`. Only ASCII letters are modelled.
- `int()` of text and the regular expression `\d`. Only ASCII digits are modelled.
- The annual-crop remap table's contents. It is a parameter.
- The uint8 cast of the field band (crop_type_asset_mgrs_collection.py:289). CDL codes are assumed to fit in 8 bits.
- The `utm_zones` filter (crop_type_asset_mgrs_collection.py:509-511) and the study-area bounds filter. Both are Earth Engine filters on geometry or properties the model does not carry.
- The version, date, state-list and folder properties of a tile image (crop_type_asset_mgrs_collection.py:269-278).
- The `str.replace` of the legacy prefix. It is modelled as dropping that prefix, which is how the asset ids are built.
- The UTM zone rasters' projection parameters (EPSG 32610/32611) and the ingestion manifest.
- The state (non-CA) part of the CA shapefile scripts, and the state-by-state dispatch loops. Each pass is modelled per state.
- The commented-out block in crop_type_asset_mgrs_shapefile.py:253-701. It is dead code.
- fields/export_field_landsat_count_by_state.py, fields/update_field_landsat_count_by_state.py and fields/postprocess_shapefiles.py are not part of this model. They add no crop-type rule.
- Null or missing crop fields. `FieldStore.Code` and `FieldStore.Source` read a null or absent CROP_<y> / CSRC_<y> as 0 / ''. The scripts do not always do so: update_field_crop_type_by_state.py:435 reads CROP_<y> with `GetField`, which gives None, so `crop_type > 0` at :452 raises TypeError; fill_missing_crop_types.py:104 reads CSRC_<src> with `GetField`, so `crop_src.startswith` at :120 raises AttributeError. A year field absent from the schema makes `GetField` raise. The model does not capture these errors; the preprocessing step gives every requested year both fields with the values 0 and '' (Preprocess.AddCropFields).
- UpdatePass.NewSource: a float or NaN CSRC_<y> cell (the value pandas gives an empty CSV cell) is read as ''; the script hands the float itself to `SetField`, and the text OGR stores for it is not modelled.
- Preprocess.Layer.DeleteField: stale values of a deleted field stay in the feature maps. Values are read only through the field list, and CreateField nulls a re-created field.
- Preprocess.AddCropFields: OGR nulls for fields not yet set are modelled as the `Null` value.
- Preprocess.AddCropFields: the source sets the defaults per feature, field by field; the model writes the same values in the same fields.
- Preprocess.SortCropFields: the script tests order on its own running field list. That list holds the crop fields in the same relative order as the layer, so the test is taken on the layer.
- Preprocess.BuildCropIndex: the crop_index dict is keyed by name. It is modelled by the first position of the name, which is the same for the distinct field names a shapefile has.
- Preprocess.CropIndexSpec: requires distinct field names, which a shapefile layer guarantees and the model does not.

## Findings

| source | as written | input that shows it | evidently intended | confidence | as-written member | corrected member |
|---|---|---|---|---|---|---|
| fields/update_field_crop_type_by_state.py:222-228 | the check loop formats `ftr["OPENET_ID"]` into the log message of a None or zero row, but `set_index('OPENET_ID')` followed by `to_dict('index')` removed that column from every row, so the f-string raises KeyError before logging (also at lines 383-391) | a CSV stats table with one row whose CROP_2020 is 0 | log the row by its dictionary key and go on to write_features | medium, not executed | UpdatePass.CheckRowsAsWritten, UpdatePass.ZeroRowStopsAsWritten, UpdatePass.ZeroRowPassStops | UpdatePass.CheckRows, UpdatePass.RunAgrees |
