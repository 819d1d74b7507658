# FAA DOF obstacle records, modelled in Dafny

This project models the record-handling core of the QGIS plugin that loads the
FAA Digital Obstacle File (DOF) into a PostGIS database:

- the DMS-to-decimal-degree converter (`dms_to_dd`);
- the row transformations of the two DOF loaders: the CSV path (`load_csv`) and
  the fixed-width DAT path (`load_dat`);
- the validator for one obstacle entered in the plugin's form;
- the lookup tables from form values to database keys (`DBValuesMapping`);
- the check that the QGIS project holds the three required PostGIS layers.

Everything is pure. A pandas DataFrame is a `seq` of rows, and a row is a
`map<string, Value>` from column label to cell. A Python dict whose order matters
is a `Dict<V>`: a sequence of pairs with distinct keys. An exception is an `Err`
of a `Result`. A step over a frame or a dict stops at the first row or entry that
raises, which `Errors.MapResult` expresses. A pandas `apply` over the rows of a
frame with no rows fails instead (`LoadDof.ApplyRows`): pandas probes the row
function on a row of NaN, every row function of the loaders fails on it, `apply`
returns a copy of the whole frame, and assigning that to one column raises
ValueError. The database, the files, QGIS and the
clock are not modelled:

- a query result is passed in as a sequence of rows, or as a function from query
  text to rows;
- a reader's output is passed in as a frame;
- the QGIS project is passed in as its list of layers.

Modules, one per file:

| module | file | models |
|---|---|---|
| `Values` | values.dfy | cells, rows, frames, ordered dicts |
| `Errors` | errors.dfy | the exception kinds and `Result` |
| `Strings` | strings.dfy | `str.strip()` and `str.split(sep)` |
| `Numerals` | numerals.dfy | `int()` and `float()` on text, over exact integers and reals |
| `Coordinates` | coordinates.dfy | `coordinates.py` |
| `LoadDof` | load_dof.dfy | the row logic of `load_dof.py` |
| `DofConf` | dof_conf.dfy | the CSV settings stored by the initial data migration |
| `ObstacleDataValidator` | obstacle_data_validator.dfy | `obstacle_data_validator.py` |
| `DbValuesMap` | db_values_map.dfy | `db_values_map.py` |
| `DofLayers` | dof_layers.dfy | `dof_layers.py` |

Where the code and its documentation disagree, the model follows the code:

- The docstring of `dms_to_dd` gives 90 for longitude and 180 for latitude. Both
  callers pass 180 for longitude and 90 for latitude, and so does the model.
- The CSV loader does not convert coordinates. Its LATDEC and LONDEC columns are
  only renamed, so `LoadCsv` never calls `DmsToDd`.
- In `load_dat`, a coordinate that does not convert aborts the whole load. No row
  is set aside.
- The accuracy partition runs after the OAS split. The rows set aside therefore
  already carry `oas_code` and `obst_number`.
- `check_empty` only looks at the fields present in the record. A required field
  that is absent is not an error.
- `errors.py` defines only `FAADOFManagerError`, `NoLayersError` and
  `LayerError`. `CoordinateError`, `MissingRequiredValueError`,
  `NumberExpectedError` and `DBConnectionError` are imported elsewhere but
  defined nowhere in the files modelled. The model treats them as distinct
  exception kinds, and all of them are variants of `Errors.Error`.

## Model

| member | source | states |
|---|---|---|
| Coordinates.DmsToDd | qgis3_plugin/faa_dof_manager/coordinates.py:10-43 | Every failure is a CoordinateError, and a last character other than N, S, W, E always fails. A success implies that exactly two hyphens precede the letter, that the fields read as degrees, minutes and seconds within range, and that the result lies in [-max, max]. The result has magnitude d + m/60 + s/3600, and it is negative only for S or W and positive only for N or E. |
| Coordinates.ReadDms | qgis3_plugin/faa_dof_manager/coordinates.py:20-30 | Reading succeeds only with a hemisphere letter last and exactly two hyphens before it. The fields read are non-negative. |
| Coordinates.InRangeBounded | qgis3_plugin/faa_dof_manager/coordinates.py:32-40 | Fields that pass the range checks give a magnitude between 0 and the maximum degree, including at the maximum itself. |
| Coordinates.SplitThree | qgis3_plugin/faa_dof_manager/coordinates.py:25 | Three hyphen-free fields joined by hyphens split back into exactly those three fields. |
| Coordinates.ReadDmsFields | qgis3_plugin/faa_dof_manager/coordinates.py:20-30 | "D-M-SH" with hyphen-free fields reads as (int(D), int(M), float(S), H) exactly when H is a hemisphere and all three parse. Otherwise it does not read. |
| Coordinates.DmsFromFields | qgis3_plugin/faa_dof_manager/coordinates.py:20-43 | Acceptance as an if-and-only-if on the text's own fields: hemisphere, the three parses and the range checks. The accepted value is the signed d + m/60 + s/3600. |
| Coordinates.DmsFromDigits | qgis3_plugin/faa_dof_manager/coordinates.py:24-43 | Digit fields convert to the reference formula with the hemisphere's sign, or fail exactly when the letter or a range check fails. |
| Coordinates.DmsFromDecimalSeconds | qgis3_plugin/faa_dof_manager/coordinates.py:28-43 | The same holds when the seconds are written as a decimal w.f. |
| Coordinates.AtMaximumDegree | qgis3_plugin/faa_dof_manager/coordinates.py:36-43 | At d == max the conversion succeeds exactly when minutes and seconds are zero. The value is then ±max. |
| Coordinates.DmsToDdAtMaximum | qgis3_plugin/faa_dof_manager/coordinates.py:36-42 | "180-00-00W" converts to -180 under maximum 180. |
| Coordinates.DmsToDdPastMaximum | qgis3_plugin/faa_dof_manager/coordinates.py:32-38 | "180-00-01W" is rejected under maximum 180. |
| Coordinates.DmsToDdReference | qgis3_plugin/faa_dof_manager/coordinates.py:40-43 | "40-26-46N" converts to exactly 145606/3600 degrees. |
| Coordinates.DmsToDdFractionalSeconds | qgis3_plugin/faa_dof_manager/coordinates.py:28-42 | "77-01-30.5W" converts to -(77 + 1/60 + 30.5/3600). |
| Coordinates.HemisphereNotCrossChecked | qgis3_plugin/faa_dof_manager/coordinates.py:20-43 | A latitude letter is accepted under the longitude maximum: "100-00-00N" converts to 100 under maximum 180. |
| Coordinates.MaximumDecidesRange | qgis3_plugin/faa_dof_manager/coordinates.py:32-38 | "100-00-00E" is rejected under maximum 90. Only the maximum passed in decides the range. |
| Coordinates.DmsToDdBadHemisphere | qgis3_plugin/faa_dof_manager/coordinates.py:20-22 | A valid D-M-S body followed by the letter X is rejected. |
| Numerals.ParseInt | qgis3_plugin/faa_dof_manager/coordinates.py:26-27 | A successful `int()` read contains at least one decimal digit, and text without a minus sign never reads as a negative number. |
| Numerals.ParseFloat | qgis3_plugin/faa_dof_manager/coordinates.py:28 | Text without a minus sign never reads as a negative float. |
| Numerals.ParseIntDigits | qgis3_plugin/faa_dof_manager/coordinates.py:26-27 | `int()` reads a non-empty run of decimal digits as the number the digits denote. |
| Numerals.ParseFloatDigits | qgis3_plugin/faa_dof_manager/coordinates.py:28 | `float()` reads a non-empty run of decimal digits as the number the digits denote. |
| Numerals.ParseFloatDecimal | qgis3_plugin/faa_dof_manager/coordinates.py:28 | `float()` reads w.f as w plus f divided by 10 to the length of f. |
| Numerals.ParseIntOneChar | qgis3_plugin/faa_dof_manager/load_dof.py:49 | `int()` of one character succeeds exactly for a decimal digit, and gives that digit's value. |
| Strings.Split | qgis3_plugin/faa_dof_manager/load_dof.py:37 | `split(sep)` yields one piece more than there are separators. No piece holds the separator, and joining the pieces with it gives the input back. |
| Strings.SplitJoin | qgis3_plugin/faa_dof_manager/load_dof.py:37 | Splitting a join of separator-free pieces gives the pieces back, so split inverts join. |
| Strings.Strip | qgis3_plugin/faa_dof_manager/load_dof.py:114 | `strip()` removes only white space, and only from the two ends: the result is a contiguous piece of the input with white space before and after it. The result neither starts nor ends with white space. |
| Strings.StripIdempotent | qgis3_plugin/faa_dof_manager/load_dof.py:114 | Stripping twice is stripping once. |
| Errors.MapResult | qgis3_plugin/faa_dof_manager/obstacle_data_validator.py:20-33 | Stepping through the entries of a dict, or the rows of a frame that has rows, succeeds exactly when every entry succeeds, and then gives the results in order. Otherwise the error is that of the first failing entry. |
| LoadDof.ApplyRows | qgis3_plugin/faa_dof_manager/load_dof.py:126 | `df[col] = df.apply(f, axis=1)`: a frame with no rows raises the ValueError of the empty apply. A frame with rows succeeds exactly when every row does, and then gives row i's result at position i. Otherwise the error is that of the first failing row. |
| LoadDof.GetCsvColumns | qgis3_plugin/faa_dof_manager/load_dof.py:19-28 | The columns are the keys of csv_table_map, then the keys of coordinates_map, then the values of parsed_map, each in dict order. The count is the sum of the three sizes. |
| LoadDof.ParsedColumn | qgis3_plugin/faa_dof_manager/load_dof.py:125 | A parsed_map lookup succeeds exactly when the role is a key, and gives that key's value. Otherwise it is a KeyError naming the role. |
| LoadDof.ParseOas | qgis3_plugin/faa_dof_manager/load_dof.py:31-38 | Unpacking succeeds exactly when the text holds one hyphen. The two hyphen-free parts, joined by a hyphen, give the text back. Otherwise it is the unpacking ValueError. |
| LoadDof.ParseOasRoundTrip | qgis3_plugin/faa_dof_manager/load_dof.py:37-38 | Parsing code + "-" + ident gives (code, ident) back for hyphen-free parts. |
| LoadDof.ParseAccuracy | qgis3_plugin/faa_dof_manager/load_dof.py:41-49 | Succeeds exactly when the text has at least two characters and the first is a digit. The result is (digit value, second character). A shorter text is an IndexError; a non-digit first is the int() ValueError. |
| LoadDof.ParseAccuracyIgnoresTail | qgis3_plugin/faa_dof_manager/load_dof.py:47-49 | Characters after the second do not change the result. |
| LoadDof.StripCell | qgis3_plugin/faa_dof_manager/load_dof.py:114 | A text cell stays text with its surrounding white space removed, and a cell of any other kind is left alone. |
| LoadDof.StripFrame | qgis3_plugin/faa_dof_manager/load_dof.py:114 | Stripping keeps the row count and every row's columns. A text cell loses its surrounding white space, and every other cell is unchanged. |
| LoadDof.StripFrameIdempotent | qgis3_plugin/faa_dof_manager/load_dof.py:114 | Stripping a stripped frame changes nothing. |
| LoadDof.RenameRow | qgis3_plugin/faa_dof_manager/load_dof.py:116-123 | The renamed row's columns are the new names of the old ones, and each keeps its cell. A column the mapping does not name keeps its label and cell. |
| LoadDof.RenamePreservesWidth | qgis3_plugin/faa_dof_manager/load_dof.py:116-123 | Renaming neither merges nor loses columns: the row keeps its width. |
| LoadDof.RenameFrame | qgis3_plugin/faa_dof_manager/load_dof.py:116-123 | Both renames act row by row and keep the row count. |
| LoadDof.RenameFrameKeepsCells | qgis3_plugin/faa_dof_manager/load_dof.py:116-123 | After both renames every row keeps its width, and each cell sits under the label `coordinates_map` gives to the label `csv_table_map` gives to its column. |
| LoadDof.TwoPasses | qgis3_plugin/faa_dof_manager/load_dof.py:126-128 | Two whole-frame `apply` passes and a drop: the frame succeeds exactly when it has rows and every row gets through both passes, and a frame with no rows raises the ValueError of the empty apply; and row i of the result is row i after both passes without the column. Any failure of the first pass wins over every failure of the second, and it is the first-pass error of the first failing row. |
| LoadDof.SplitOasRow | qgis3_plugin/faa_dof_manager/load_dof.py:125-128 | Succeeds exactly when the OAS cell is text with one hyphen and the OAS column is not itself named oas_code. Under that name the first pass overwrites the cell with the bare code, so the second pass fails to unpack it. oas_code is the part before the hyphen. Unless the OAS column is named obst_number, oas_code and obst_number joined by a hyphen give the OAS text back. The OAS column is gone, every other column is kept, and nothing else is added. Errors are a KeyError naming the column, AttributeError for a cell that is not text, or the unpacking error. |
| LoadDof.SplitOas | qgis3_plugin/faa_dof_manager/load_dof.py:125-128 | The OAS step succeeds on a frame exactly when the frame has rows and it succeeds on every row; a failing row aborts the load rather than being dropped, and a frame with no rows raises the ValueError of the empty apply. Row i of the result is row i split, and a failure is the error of some failing row. When the OAS column is not named obst_number, every row gains both derived columns and loses the source column. Other columns' presence carries over. |
| LoadDof.AccuracyMaskAfterStrip | qgis3_plugin/faa_dof_manager/load_dof.py:114-131 | The mask reads a text cell as invalid exactly when its stripped text is not two characters long, and any other cell as invalid. Stripping the cell first never changes the verdict. |
| LoadDof.KeptRows | qgis3_plugin/faa_dof_manager/load_dof.py:131-137 | The rows kept are exactly the input rows whose accuracy cell the mask accepts. |
| LoadDof.InvalidRows | qgis3_plugin/faa_dof_manager/load_dof.py:131-136 | The rows set aside are exactly the input rows whose accuracy cell the mask rejects. |
| LoadDof.PartitionAccuracy | qgis3_plugin/faa_dof_manager/load_dof.py:130-137 | The partition is the pair of the kept and the set-aside rows. Together they are the input as a multiset, and their counts sum to the input's. Every set-aside row has an accuracy cell that is not two characters once stripped, and every kept row has one that is. Column presence carries over to the kept rows. |
| LoadDof.FilterPartition | qgis3_plugin/faa_dof_manager/load_dof.py:131-137 | A predicate and its negation split any sequence without loss or duplication: the multisets add up and so do the lengths. |
| LoadDof.FilterConcat | qgis3_plugin/faa_dof_manager/load_dof.py:132 | Boolean-mask selection distributes over concatenation, so the relative order of the rows is preserved. |
| LoadDof.KeptRowHasTwoCharacters | qgis3_plugin/faa_dof_manager/load_dof.py:131-139 | A row the mask keeps has a text accuracy cell of at least two characters. When the cell is already stripped, it has exactly two. |
| LoadDof.KeptRowNeverShort | qgis3_plugin/faa_dof_manager/load_dof.py:131-139 | The accuracy split of a row the mask keeps never fails with IndexError. |
| LoadDof.SplitAccuracyRow | qgis3_plugin/faa_dof_manager/load_dof.py:138-140 | Succeeds exactly when the accuracy cell is text of at least two characters starting with a digit, and the accuracy column is not itself named hor_acc_code. Under that name the first pass overwrites the cell with an integer, so the second pass fails with TypeError. hor_acc_code is then the digit's value and, unless the column is named vert_acc_code, vert_acc_code is the second character. The accuracy column is dropped, every other column kept and nothing else added. Errors are a KeyError naming the column, TypeError, IndexError or the int() error, and IndexError only for text shorter than two characters. |
| LoadDof.SplitAccuracy | qgis3_plugin/faa_dof_manager/load_dof.py:138-140 | The accuracy step succeeds on a frame exactly when the frame has rows and the step succeeds on every row, and row i of the result is row i split. No rows at all raise the ValueError of the empty apply. A failure is the error of some failing row. When the column is not named vert_acc_code, every row gains both accuracy codes and loses the accuracy column. |
| LoadDof.ResolveTypeRow | qgis3_plugin/faa_dof_manager/load_dof.py:142-144 | Succeeds exactly when the type name is known. type_id is then the id the lookup binds to it and the type column is dropped. An unknown name is a KeyError carrying that name. |
| LoadDof.ResolveTypes | qgis3_plugin/faa_dof_manager/load_dof.py:142-144 | One unknown type name fails the whole frame with a KeyError, and a frame with no rows raises the ValueError of the empty apply. No row is removed. On success every row has its type_id and has lost the type column. |
| LoadDof.AccuracyAndType | qgis3_plugin/faa_dof_manager/load_dof.py:130-144 | Succeeds exactly when the type role is configured, the mask keeps at least one row, and every row has the accuracy column and either has invalid accuracy or splits and carries a known type. When the mask keeps no row, the accuracy split raises the ValueError of the empty apply. The set-aside rows are then exactly the invalid-accuracy rows, in order. Loaded row i is the i-th kept row split and typed. The counts sum to the input's, and the accuracy and type columns give way to the three codes. Errors are KeyError, TypeError, the int() error or that ValueError, and the last only when no row is kept. |
| LoadDof.ParseRows | qgis3_plugin/faa_dof_manager/load_dof.py:125-144 | Succeeds exactly when all three parsed_map roles are configured, every row splits its OAS text and then has invalid accuracy or loads, and at least one row has valid accuracy; a frame with no rows, or with every row set aside, fails. The set-aside rows are then the OAS-split frame filtered by the mask, and loaded row i is the i-th kept row split and typed. The counts sum to the input's. With distinct parsed columns every loaded row has the five derived columns and none of the three source columns. IndexError never occurs. |
| LoadDof.AllInvalidAccuracyFails | qgis3_plugin/faa_dof_manager/load_dof.py:125-139 | A frame whose only fault is that every accuracy cell is invalid fails with the ValueError of the empty apply: once every row is set aside, the accuracy split at :138 runs on no rows. A frame with no rows fails the same way at :126. |
| LoadDof.AccuracyAndTypeGuarded | qgis3_plugin/faa_dof_manager/load_dof.py:130-144 | The accuracy and type steps with the derived-column steps skipped when the mask keeps no row: then nothing is loaded and the whole frame is set aside. Where some row is kept it agrees with `AccuracyAndType`, and it never raises the empty-apply ValueError. |
| LoadDof.ParseRowsGuarded | qgis3_plugin/faa_dof_manager/load_dof.py:125-144 | The parsing steps with that guard: wherever the source loads, or fails with anything but the empty-apply ValueError, the result is the source's; it never raises that ValueError. |
| LoadDof.GuardedSetsAsideAllInvalid | qgis3_plugin/faa_dof_manager/load_dof.py:130-140 | Under the guard, a frame whose only fault is that every accuracy cell is invalid loads. Nothing goes to the database, and every row, OAS-split, is set aside. |
| LoadDof.LoadCsv | qgis3_plugin/faa_dof_manager/load_dof.py:114-144 | The same as `ParseRows`, on the stripped and renamed rows: success exactly when every prepared row passes and some row is kept, the set-aside rows are the masked ones, and loaded row i is the i-th kept row rewritten. The counts sum to the rows read, and IndexError never occurs. |
| LoadDof.ColSpecs | qgis3_plugin/faa_dof_manager/load_dof.py:167-171 | Each 1-based inclusive extent (start, end) becomes the column spec (start - 1, end). Field names and their order are kept. |
| LoadDof.ColSpecSelectsExtent | qgis3_plugin/faa_dof_manager/load_dof.py:167-181 | The half-open slice a spec selects has width end - start + 1. Its k-th character is the line's character at 1-based position start + k. |
| LoadDof.ConvertDatCoordinate | qgis3_plugin/faa_dof_manager/load_dof.py:182-183 | Succeeds exactly when the source cell is non-empty text that `dms_to_dd` accepts. The target column then holds the converted value and nothing else changes. A missing column is a KeyError, non-text a TypeError, empty text an IndexError, and bad DMS a CoordinateError. |
| LoadDof.ConvertDatColumn | qgis3_plugin/faa_dof_manager/load_dof.py:182-183 | A coordinate column converts on a frame exactly when the frame has rows and every row converts, and the rows keep their order. A frame with no rows raises the ValueError of the empty apply. Otherwise a failure is that of the first row that does not convert. |
| LoadDof.LoadDat | qgis3_plugin/faa_dof_manager/load_dof.py:182-187 | Fails on a file with no rows. Otherwise succeeds exactly when every row has non-empty lon_src and lat_src text that `dms_to_dd` accepts with maxima 180 and 90, and an obst_type the lookup knows. The row count is kept. Every loaded row holds the converted lon and lat and the type id, and none of lon_src, lat_src or obst_type. When some longitude does not convert, the error is that of the first such row, because the longitude pass runs over the whole file first. |
| LoadDof.DropSources | qgis3_plugin/faa_dof_manager/load_dof.py:184 | Dropping lon_src and lat_src keeps the row count. Each row loses exactly those two columns and keeps every other column with its cell. |
| LoadDof.LoadDatInRange | qgis3_plugin/faa_dof_manager/load_dof.py:182-184 | Every loaded DAT row has a longitude in [-180, 180] and a latitude in [-90, 90]. |
| DofConf.InitialCsvColumns | database_setup/alembic_migrations/versions/2112c1c93f89_populate_initial_data.py:63-84 | Under the seeded CSV settings the loader reads exactly fifteen named columns, in order: ten table columns, LATDEC, LONDEC, OAS, ACCURACY and TYPE. |
| DofConf.InitialParsedColumns | database_setup/alembic_migrations/versions/2112c1c93f89_populate_initial_data.py:80-84 | The seeded parsed columns are OAS, ACCURACY and TYPE. They are distinct and not derived, so `LoadCsv`'s column promises apply to them. |
| ObstacleDataValidator.ConvertCoordinate | qgis3_plugin/faa_dof_manager/obstacle_data_validator.py:20-33 | Succeeds exactly when the value is non-empty text that `dms_to_dd` accepts; the result is then within ±max. A conversion failure is a CoordinateError naming the field. A value that is not text is a TypeError and empty text an IndexError, and neither is caught. |
| ObstacleDataValidator.ConvertEntry | qgis3_plugin/faa_dof_manager/obstacle_data_validator.py:20-31 | lon is converted with maximum 180 and lat with 90. Every other field's value passes through unchanged. |
| ObstacleDataValidator.ConvertCoordinates | qgis3_plugin/faa_dof_manager/obstacle_data_validator.py:14-35 | Succeeds exactly when every entry converts. Keys and order are kept and every value is its converted self. Otherwise the error is that of the first entry, in dict order, that fails: a CoordinateError naming lon or lat, TypeError or IndexError. |
| ObstacleDataValidator.CheckEmpty | qgis3_plugin/faa_dof_manager/obstacle_data_validator.py:39-53 | True exactly when no field that is both present and listed holds a falsy value. Otherwise the error names the first such field in dict order. |
| ObstacleDataValidator.CastEntry | qgis3_plugin/faa_dof_manager/obstacle_data_validator.py:63-69 | A listed text field becomes the float it parses to, or fails with NumberExpectedError naming it. Numbers become floats, None is an uncaught TypeError, and unlisted fields are untouched. |
| ObstacleDataValidator.CastToFloat | qgis3_plugin/faa_dof_manager/obstacle_data_validator.py:55-71 | Succeeds exactly when every entry casts. Keys and order are kept and every listed field ends up a float. Otherwise the error is that of the first entry, in dict order, that fails: TypeError, or NumberExpectedError naming a listed field. |
| ObstacleDataValidator.Wrap | qgis3_plugin/faa_dof_manager/obstacle_data_validator.py:97-98 | A CoordinateError, MissingRequiredValueError or NumberExpectedError becomes a ValueError carrying it. Any other error propagates unchanged. |
| ObstacleDataValidator.WrapOnce | qgis3_plugin/faa_dof_manager/obstacle_data_validator.py:97-98 | Wrapping an error twice is wrapping it once. A ValueError that wrapping produces carries a validation error unless it was there before. |
| ObstacleDataValidator.ValidateObstacle | qgis3_plugin/faa_dof_manager/obstacle_data_validator.py:74-100 | On success the keys and their order are unchanged, and every field other than lon, lat, agl, amsl and quantity keeps its value. An error is either a ValueError whose cause is a validation error, or an uncaught TypeError or IndexError. |
| Values.FalsyExactly | qgis3_plugin/faa_dof_manager/obstacle_data_validator.py:50 | `not value` holds for exactly four values: "", 0.0, 0 and None. Non-empty text such as "0" or " " is truthy. |
| ObstacleDataValidator.ValidateObstacleEntrywise | qgis3_plugin/faa_dof_manager/obstacle_data_validator.py:74-100 | A record is accepted exactly when each entry passes all three checks on its own, and each accepted entry then holds its validated value. |
| ObstacleDataValidator.ValidatedValueFacts | qgis3_plugin/faa_dof_manager/obstacle_data_validator.py:74-100 | A validated lon is a float in [-180, 180] and a validated lat a float in [-90, 90]. Validated agl, amsl and quantity are floats. All other fields keep their entered value. |
| ObstacleDataValidator.ValidateObstacleFirstFailure | qgis3_plugin/faa_dof_manager/obstacle_data_validator.py:80-98 | The stages run in order and the first failing one decides the error. A coordinate failure wins over an empty required field, and an empty required field over a bad number, wrapped in ValueError. A failed cast is reported, wrapped when it is a validation error, only when both earlier stages passed. |
| DbValuesMap.Fresh | qgis3_plugin/faa_dof_manager/db_values_map.py:10-19 | A newly constructed mapping has all seven tables empty. |
| DbValuesMap.LastBinding | qgis3_plugin/faa_dof_manager/db_values_map.py:29-31 | A value has a binding exactly when some row names it. The binding is the key of the last row naming it. |
| DbValuesMap.SetMapping | qgis3_plugin/faa_dof_manager/db_values_map.py:21-31 | After the fold, a value is bound exactly when it was before or some row names it. A named value is bound to its last row's key, and every other value keeps its earlier binding. |
| DbValuesMap.ExtendedIdempotent | qgis3_plugin/faa_dof_manager/db_values_map.py:21-31 | Filling a table twice from the same rows gives what filling it once gave. |
| DbValuesMap.ExtendedFromEmpty | qgis3_plugin/faa_dof_manager/db_values_map.py:10-31 | A freshly constructed, empty table filled from rows binds exactly the values the rows name. A row that is the last for its value supplies that value's key. |
| DbValuesMap.SetAllMapping | qgis3_plugin/faa_dof_manager/db_values_map.py:33-63 | Each of the seven tables is extended from the rows of its own query and from nothing else. |
| DofLayers.Matches | qgis3_plugin/faa_dof_manager/dof_layers.py:45 | The layers found by name all carry that name and come from the project. Every project layer with that name is among them. |
| DofLayers.MatchesCount | qgis3_plugin/faa_dof_manager/dof_layers.py:45 | Each layer with the name is found as many times as the project holds it, and no layer with another name is found. |
| DofLayers.FindLayer | qgis3_plugin/faa_dof_manager/dof_layers.py:38-56 | Succeeds exactly when one layer carries the name, and records that layer under it. No layer is NoLayersError and several are LayerError; neither records anything. |
| DofLayers.CheckProvider | qgis3_plugin/faa_dof_manager/dof_layers.py:58-69 | Succeeds exactly when the recorded layer's storage type is the PostGIS provider. Another provider is LayerError, and a name never recorded is KeyError. |
| DofLayers.CheckLayers | qgis3_plugin/faa_dof_manager/dof_layers.py:71-96 | True exactly when country, obstacle and us_state are each carried by exactly one PostGIS layer. The scan records the single layer of every name it reaches that has exactly one, including names after a duplicate or wrong-provider layer. Every other entry already recorded keeps its layer, including one for a name the scan finds zero or several times. |
| DofLayers.NothingRecordedPastMissing | qgis3_plugin/faa_dof_manager/dof_layers.py:86-89 | Required names after the first missing one are neither looked up nor recorded, whatever layers carry them. |

## Left out

- Reading the files is not modelled. That covers `pd.read_csv` with `usecols` and `skipinitialspace`, `pd.read_fwf` with `skiprows=4`, and dtype inference. A reader's output is given as a frame.
- Writing out is not modelled: `load_data`, the GeoDataFrame built from lon/lat, `to_postgis`, and the CSV dumps `invalid_accuracy.csv` and `dof_dat_parsed.csv`. These are I/O.
- The settings query against `dof.dof_conf` is not modelled. The settings are a parameter.
- `db_utils.py`, `DBConnectionError` raised by it, and the select calls are left out. A query's rows are a parameter.
- Logging, `QMessageBox` and `get_db_settings` are left out. They are user-interface and connection plumbing with no decision logic.
- The QGIS project API is abstracted. `mapLayersByName` is a filter over a list of layers, and `dataProvider().storageType()` is a field of each layer.
- Migrations other than the seeded CSV settings are left out, as are the command-line scripts under `database_setup/python_scripts`. They are DDL and data loading.
- Floating point is not modelled. Coordinates and casts are exact reals, so NaN, infinities, rounding and exponent notation do not arise.
- Numerals.ParseInt: reads only ASCII digits with an optional sign and surrounding white space. Python's `int()` also accepts other Unicode decimal digits and `_` separators.
- Numerals.ParseFloat: reads digits with at most one decimal point. Python's `float()` also accepts exponents, "inf", "nan", Unicode digits and `_` separators.
- LoadDof.RenameRow: requires that renaming does not give two columns of a row the same label. A row is a map, and pandas would keep both columns under one label.
- LoadDof.LoadCsv: inherits the clash-freedom requirement of `RenameRow` for both renames.
- LoadDof.PartitionAccuracy: a whole column that is not of object dtype, where `.str` raises AttributeError, is not distinguished. Every non-text cell counts as invalid accuracy, as a missing value does under `.str.len()`.
- LoadDof.ApplyRows: a frame with no rows has no columns in the model, so the column count is unknown there. When such a frame has exactly one column, pandas assigns its copy to the target column instead of raising, but the model raises regardless. In every loader the next `apply` then raises, so only a step taken alone differs.
- LoadDof.ConvertDatColumn: the single-column case under `ApplyRows` applies. `LoadDat` fails on a file with no rows either way.
- In-place mutation on failure is not modelled. When `convert_coordinates` or `cast_to_float` raises partway, the caller's dict already holds the entries converted so far. The model returns only the error.
- ObstacleDataValidator.CheckEmpty: NaN is truthy in Python, and the model has no NaN value.
- LoadDof.AccuracyAndType: a frame with no rows has no columns in the model. Taken alone on such a frame, it raises the empty-apply ValueError where pandas raises KeyError for a missing accuracy column at :131. In `load_csv` such a frame has already failed at :126.
- The custom exception classes are not given their messages. Their message texts are not modelled; each is an `Errors.Error` variant with the field or layer name.

## Findings

| source | as written | input that shows it | evidently intended | confidence | as-written member | corrected member |
|---|---|---|---|---|---|---|
| qgis3_plugin/faa_dof_manager/load_dof.py:132-139 | When every row has an invalid accuracy code, `load_csv` writes them out and drops them all. It then runs the accuracy `apply` at :138 on a frame with no rows, and the assignment raises ValueError, so the load fails after the rows were set aside. A file with no rows fails the same way at :126. | one CSV row with OAS "07-000123", ACCURACY "A" and a known TYPE | the invalid rows are set aside and nothing is loaded | medium; not executed | LoadDof.AllInvalidAccuracyFails | LoadDof.ParseRowsGuarded |

`LoadDof.LoadCsv` keeps the behaviour as written. `LoadDof.ParseRowsGuarded` skips the steps that derive columns when no rows are left for them. `LoadDof.GuardedSetsAsideAllInvalid` proves that it then loads nothing and sets every row aside.
