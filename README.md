# BasementEvaluations: a verified model of the evaluation core

BasementEvaluations evaluates river simulations run with BASEMENT against field data. Most
of it is plotting and orchestration over geopandas and HDF5. This project models in Dafny
the parts of it that are exact logic, and proves what they promise:

- **Result columns per time step** (`TimeStepColumns`). The HDF5 datasets become frame
  columns named `"<step>-<name>"`. The steps are sorted by integer value. Columns of a
  one-dimensional dataset are repeated per time step. Step numbers are renamed to seconds.
- **The summarising mesh and the point lookup** (`SummarisingMesh`). One frame over the mesh
  collects the start and end values of a run and the derived water depths and bottom change.
  Every GPS point takes the requested values from the first mesh element that contains it,
  or NaN when no element contains it.
- **The calibration profiles** (`CalibrationProfiles`). These are their own copies of the
  mesh builder and of the lookup over pickled point files, plus the column choice per flood
  scenario.
- **Grouping GPS points into profile lines** (`ProfileGroups`). Overlapping index pairs are
  merged into disjoint groups, which are the connected components of the pairs.
- **Points along a profile** (`ProfilePoints`). Points are projected onto the profile line
  and ordered by their distance from its origin.
- **The CSV logger** (`CsvLogging`). It is an append-only log of one entry type. It is
  written as a `;`-separated header and one row per entry.
- **Erosion and deposition labels** (`ThreeDimensional`). Simulated bottom changes and
  measured gridcodes are labelled, and the two labels are compared. The eroded and deposited
  volumes are summed.
- **Small rules of the experiment evaluation** (`ConductedExperiments`): the inclusive range
  of time stamps, the material names, the mapping per flood scenario and the dewatering-speed
  classes.

Shared modules:

- `Common` holds Python's exceptions as an `Error` datatype, plus `Option`, `Result` and
  `Outcome`.
- `Text` holds `str(int)`, `int(str)`, `str.split` and `str.join`.
- `Sorting` describes a sort as a permutation of positions.
- `Containers` holds the flood scenario enumeration that both evaluation scripts import.
- `Frames` has two kinds of data frame:
  - `Table` is a value: a crs, one geometry per row and ordered numeric columns. It is for
    frames that are only ever built from other frames.
  - `GeoFrame` is a class whose fields are changed in place. Its cells are `None`, NaN, a
    number or text.

Code that loops and mutates is modelled by methods with loop invariants. Each method is
proved against a specification function, and lemmas state the properties of that function.
Pure code is modelled by functions and lemmas.

## Model

| member | source | states |
|---|---|---|
| Text.NatToDecimal | extract_data/create_shape_files_from_simulation_results.py:111 | `str(n)` of a non-negative int is a non-empty digit string with no leading zero |
| Text.IntToDecimal | extract_data/create_shape_files_from_simulation_results.py:111 | `str(i)` is non-empty and holds a minus sign exactly when `i` is negative |
| Text.ParseIntOfIntToDecimal | extract_data/create_shape_files_from_simulation_results.py:111 | `int(str(i)) == i` for every int |
| Text.Split | extract_data/create_shape_files_from_simulation_results.py:111 | `s.split(c)` has at least one piece, no piece holds `c`, and joining the pieces with `c` gives `s` back |
| Text.SplitOfJoin | extract_data/create_shape_files_from_simulation_results.py:111 | `c.join(parts).split(c) == parts` when no part holds `c` |
| Text.LeadingZeroValue | extract_data/summarising_mesh.py:11-14 | a leading zero does not change the value of a step number such as `0000003` |
| Text.ParseInt | extract_data/create_shape_files_from_simulation_results.py:111 | `int(s)` succeeds exactly for an optional sign followed by at least one ASCII digit, and a negative value has a leading minus |
| Text.Join | extract_data/create_shape_files_from_simulation_results.py:111 | `sep.join(parts)` is empty for no parts, starts with the first part, and holds only characters of the separator or of the parts |
| Sorting.StableSortOrder | extract_data/create_shape_files_from_simulation_results.py:123 | the sort order lists every row exactly once, keys do not decrease along it, and equal keys keep their original order |
| Sorting.SortOrderSorts | extract_data/create_shape_files_from_simulation_results.py:123 | insertion of rows one by one yields a stable, sorted permutation of the first `n` rows |
| Sorting.InsertExtendsSort | extract_data/create_shape_files_from_simulation_results.py:123 | inserting row `n` into a stable sort of rows `0..n-1` gives a stable sort of rows `0..n` |
| Sorting.PositionOf | script_for_profile_creation.py:171-173 | a permutation of the rows lists every row at some position |
| Frames.FindColumn | extract_data/summarising_mesh.py:50-65 | the first column of the name, and none exactly when the name is absent |
| Frames.Get | extract_data/summarising_mesh.py:50-65 | `df[name]` is the column's values, or KeyError(name) exactly when the frame has no such column |
| Frames.GetDistinct | extract_data/summarising_mesh.py:50-65 | in a frame with distinct column names, `df[name]` is the column of that name |
| Frames.SetColumn | extract_data/create_shape_files_from_simulation_results.py:126 | `df[name] = values`: the name reads `values`, every other name reads what it read before, and a new name is added after the others |
| Frames.ApplyAssignments | extract_data/create_shape_files_from_simulation_results.py:122-127 | a sequence of column assignments succeeds exactly when every step produced values of the frame's length; the geometry and crs are kept |
| Frames.AssignmentsFailAtFirstUnfit | extract_data/create_shape_files_from_simulation_results.py:122-127 | the first step that does not fit decides the exception raised |
| Frames.AssignmentsKeepOthers | extract_data/create_shape_files_from_simulation_results.py:122-127 | a name no step assigns keeps its column |
| Frames.LastAssignmentWins | extract_data/create_shape_files_from_simulation_results.py:122-127 | the last assignment to a name decides what it reads |
| Frames.ApplyConcat | extract_data/create_shape_files_from_simulation_results.py:122-127 | running `a` then `b` is running `a + b`, and nothing runs after a step that raises |
| Frames.Minus | extract_data/summarising_mesh.py:55-65 | the column difference `a - b` has the columns' length, and adding `b` back gives `a` element by element |
| Frames.AssignedValue | extract_data/create_shape_files_from_simulation_results.py:122-127 | when every assignment to a name carries the same values and there is one, the name reads those values |
| Frames.RenameColumns | extract_data/create_shape_files_from_simulation_results.py:115 | `df.rename(columns=f)` renames every column by `f` and keeps values, geometry and column order |
| Frames.ResetIndexName | script_for_profile_creation.py:165 | the column `reset_index` creates is `index`, or `level_0` when `index` exists; ValueError exactly when both exist; the name chosen is new |
| Frames.GeoFrame.SetColumn | script_for_profile_creation.py:166 | `df[name] = values` replaces or adds that column and changes nothing else |
| Frames.GeoFrame.SetGeometry | script_for_profile_creation.py:145-150 | `df["geometry"] = values` replaces the geometry and changes nothing else |
| Frames.GeoFrame.SetCell | script_for_profile_creation.py:169 | `df.loc[i, name] = v` changes one cell and nothing else |
| Frames.GeoFrame.ResetIndex | script_for_profile_creation.py:165 | `reset_index(inplace=True)` moves the old labels into a new column and labels the rows `0..n-1`; on ValueError the frame is unchanged |
| Frames.GeoFrame.SetWhere | evaluation_runner/analysis/three_dimensional.py:16 | `df.loc[mask, name] = v` sets the selected rows of that column and changes nothing else |
| Frames.GeoFrame.Copy | script_for_profile_creation.py:143 | `df.copy()` is a fresh frame with the same contents |
| TimeStepColumns.NewName | extract_data/create_shape_files_from_simulation_results.py:110-114 | names without a dash keep their name |
| TimeStepColumns.RenamedColumnName | extract_data/create_shape_files_from_simulation_results.py:111 | the f-string of the mapping raises ValueError exactly when the part before the first dash is not an integer; a new name holds a dash |
| TimeStepColumns.RenameFrame | extract_data/create_shape_files_from_simulation_results.py:108-115 | every column is renamed by its mapping and keeps its values and place; ValueError exactly when some dashed name has a non-integer prefix |
| TimeStepColumns.RenameColumnsToRepresentTimeStep | extract_data/create_shape_files_from_simulation_results.py:106-116 | the four frames are renamed and returned in their order; the call fails exactly when one of them cannot be renamed |
| TimeStepColumns.JoinOfSplitRemoves | extract_data/create_shape_files_from_simulation_results.py:111 | `''.join(name.split('-'))` removes every dash |
| TimeStepColumns.RenamedNameShape | extract_data/create_shape_files_from_simulation_results.py:111 | `K-rest` becomes `str(int(K) * time_step) + "-" + rest` with the dashes of `rest` removed |
| TimeStepColumns.RenameRejectsNonInteger | extract_data/create_shape_files_from_simulation_results.py:111 | a prefix that is not an integer raises ValueError |
| TimeStepColumns.RenamedNameIsStable | extract_data/create_shape_files_from_simulation_results.py:111 | a renamed name with non-negative seconds has one dash, and renaming it again with time step 1 gives it back |
| TimeStepColumns.RenameEsriEndStep | extract_data/summarising_mesh.py:13 | with a time step of 8100, the export name `0000003-Va` is renamed to `24300-Va` |
| TimeStepColumns.RenamedNamesHaveNoLeadingZero | extract_data/create_shape_files_from_simulation_results.py:111 | for every name and time step, the new name never starts with a zero followed by anything but a dash |
| SummarisingMesh.EsriNamesNotFoundAfterRenaming | extract_data/summarising_mesh.py:11-14 | after any successful renaming, a frame holds none of the esri-style water surface and bottom elevation names |
| TimeStepColumns.NumericKeys | extract_data/create_shape_files_from_simulation_results.py:123 | `int(key)` of every member in order; ValueError exactly when some key is not an integer |
| TimeStepColumns.KeyOrder | extract_data/create_shape_files_from_simulation_results.py:123 | `sorted(keys, key=int)` lists every member once in non-decreasing integer order |
| TimeStepColumns.NumericNotLexicographicOrder | extract_data/create_shape_files_from_simulation_results.py:123 | key `"9"` comes before `"10"` |
| TimeStepColumns.ColumnStep | extract_data/create_shape_files_from_simulation_results.py:125-126 | `dataset[:, j]` under `"<key>-<name>"`, IndexError exactly when the dataset has no column `j` |
| TimeStepColumns.StepOfMember | extract_data/create_shape_files_from_simulation_results.py:123-126 | the assignment for every member and name is among the steps |
| TimeStepColumns.StepsWriteOwnColumn | extract_data/create_shape_files_from_simulation_results.py:123-126 | with distinct column names, the only assignment to a member's column writes that member's dataset column |
| TimeStepColumns.TimeSeriesColumnValue | extract_data/create_shape_files_from_simulation_results.py:119-127 | the finished frame holds every member's dataset column `j` under `"<key>-<name_j>"` |
| TimeStepColumns.AppendTimeSeriesDataToGeoDataFrame | extract_data/create_shape_files_from_simulation_results.py:119-127 | the two nested loops compute the assignments of every member in numeric key order on a copy of the base frame |
| TimeStepColumns.AppendColumnsOfMember | extract_data/create_shape_files_from_simulation_results.py:124-126 | the inner loop carries out one member's assignments |
| TimeStepColumns.AppendConstantDataPerTimeStepToGeoDataFrame | extract_data/create_shape_files_from_simulation_results.py:44-51 | the loop carries out the per-time-step assignments on a copy of the base frame |
| TimeStepColumns.ConstantColumns | extract_data/create_shape_files_from_simulation_results.py:44-51 | every time step's column holds `data`; ValueError exactly when there is a time step and `data` has the wrong length |
| SummarisingMesh.DefaultStateToNameInShapeFileMapping | extract_data/summarising_mesh.py:19-27 | the start names are `0-Value` and `0-BottomEl`, the end names are `str(t)` followed by `-Value` and `-BottomEl` for the simulation time `t`, and the hydraulic state and flow velocity share their names |
| SummarisingMesh.DefaultEndNamesTellTheTime | extract_data/summarising_mesh.py:23-26 | different simulation times give different end-time names |
| SummarisingMesh.EsriStyleStateToNameInShapeFileMapping | extract_data/summarising_mesh.py:30-38 | the esri-style start velocity name is the default one |
| SummarisingMesh.EsriVelocityIsDefaultOfStepThree | extract_data/summarising_mesh.py:16 | the esri-style end velocity name is the default name for step 3 |
| SummarisingMesh.RenamedSuffixName | extract_data/create_shape_files_from_simulation_results.py:111 | `"<K>-<suffix>"` without a further dash is renamed to `"<seconds>-<suffix>"` |
| SummarisingMesh.RenamedNamesAreDefaultNames | extract_data/summarising_mesh.py:19-27 | the renamed columns of step `K` are the default end names for the simulation time `K * time_step` |
| SummarisingMesh.StepZeroNamesAreStartNames | extract_data/summarising_mesh.py:21-22 | step 0 is renamed to the start names, whatever the time step |
| SummarisingMesh.StartNames | extract_data/summarising_mesh.py:21-22 | `f"{0}-Value"` and `f"{0}-BottomEl"` are the start names |
| SummarisingMesh.SummaryColumns | extract_data/summarising_mesh.py:50-65 | the nine mesh columns have distinct names and one value per element |
| SummarisingMesh.CreateSummarisingMeshWithAllResults | extract_data/summarising_mesh.py:41-70 | AssertionError unless the crs is 2056, otherwise KeyError for a missing mapped column; a built mesh has the bottom elevation's geometry |
| SummarisingMesh.MappedNames | extract_data/summarising_mesh.py:50-65 | the names the mapping reads |
| SummarisingMesh.SummarisingMeshShape | extract_data/summarising_mesh.py:50-65 | a built mesh is the nine summary columns over the bottom elevation's elements, computed from the six mapped result columns of equal length |
| SummarisingMesh.SummarisingMeshCopies | extract_data/summarising_mesh.py:50-65 | the mesh's `wse`, `bot_ele` and `v` columns at both times are the mapped result columns |
| SummarisingMesh.SummarisingMeshDifferences | extract_data/summarising_mesh.py:50-65 | `wd = wse - bot_ele` at both times and `delta_z = bot_ele_end - bot_ele_t0`, element by element |
| SummarisingMesh.SummaryLookups | extract_data/summarising_mesh.py:50-65 | every mesh column is found under its name |
| SummarisingMesh.FirstContaining | extract_data/summarising_mesh.py:78-84 | the first element that contains the point, and none exactly when no element contains it |
| SummarisingMesh.LookupCell | extract_data/summarising_mesh.py:78-85 | NaN when no element contains the point, otherwise the column's value at the first containing element, or KeyError |
| SummarisingMesh.FirstMissing | extract_data/summarising_mesh.py:83-84 | the first requested column the mesh lacks, and none exactly when it has them all |
| SummarisingMesh.FirstMissingAt | extract_data/summarising_mesh.py:83-84 | the first missing column is the one the loop raises on |
| SummarisingMesh.LookupsSucceedIff | extract_data/summarising_mesh.py:77-85 | the lookups succeed exactly when no point is contained or no requested column is missing |
| SummarisingMesh.LookupColumn | extract_data/summarising_mesh.py:76-85 | each requested column receives one value per point, in point order |
| SummarisingMesh.WrittenColumns | extract_data/summarising_mesh.py:86-87 | every requested column holds its looked-up values, other columns keep theirs, and no other column appears |
| SummarisingMesh.LookupNextPoint | extract_data/summarising_mesh.py:77-85 | one more point extends every requested column by that point's value |
| SummarisingMesh.CellsOfPoint | extract_data/summarising_mesh.py:78-85 | one point's values for every requested column, or the first missing column's KeyError |
| SummarisingMesh.CellsOfPoints | extract_data/summarising_mesh.py:76-85 | the value lists of every requested column, or the first missing column's KeyError |
| SummarisingMesh.AssignRequestedValuesFromSummarisingMeshToPoint | extract_data/summarising_mesh.py:73-88 | the points frame gets every requested column with its looked-up values; on KeyError nothing is written |
| CalibrationProfiles.ColumnsToLookupForScenario | evaluation_outputs_simulations/evaluation_runner_calibration_profiles.py:49-55 | `bf_2020` looks up the t0 columns, `af_2020` the end columns, anything else raises NotImplementedError |
| CalibrationProfiles.ReadCalibrationResults | evaluation_outputs_simulations/evaluation_runner_calibration_profiles.py:75-93 | the six fixed columns are read; KeyError exactly when one is missing |
| CalibrationProfiles.CalibrationColumns | evaluation_outputs_simulations/evaluation_runner_calibration_profiles.py:82-93 | the ten columns have distinct names and one value per element |
| CalibrationProfiles.Areas | evaluation_outputs_simulations/evaluation_runner_calibration_profiles.py:82 | every element's area, in element order |
| CalibrationProfiles.CreateSummarisingMeshAsWritten | evaluation_outputs_simulations/evaluation_runner_calibration_profiles.py:74-94 | the mesh as written: ValueError when the bottom elevation frame's crs is not 2056, raised before any read; otherwise KeyError exactly when a result column is missing; a built mesh has crs 2056 and the bottom elevation's geometry |
| CalibrationProfiles.CreateSummarisingMesh | evaluation_outputs_simulations/evaluation_runner_calibration_profiles.py:74-94 | the corrected mesh fails and succeeds exactly as the one as written: ValueError for a crs other than 2056, else KeyError exactly when a result column is missing |
| CalibrationProfiles.CalibrationLookups | evaluation_outputs_simulations/evaluation_runner_calibration_profiles.py:82-93 | every column of the calibration mesh is found under its name |
| CalibrationProfiles.CalibrationMeshShape | evaluation_outputs_simulations/evaluation_runner_calibration_profiles.py:81-93 | a built mesh is the ten columns over the bottom elevation's elements |
| CalibrationProfiles.CalibrationMeshCopies | evaluation_outputs_simulations/evaluation_runner_calibration_profiles.py:82-93 | the corrected mesh copies the result columns of the matching time and gives each element its area |
| CalibrationProfiles.CalibrationMeshDifferences | evaluation_outputs_simulations/evaluation_runner_calibration_profiles.py:83-87 | `wd_t0` and `wd_t_end` are `wse - bot_ele` at their time and `delta_z = bot_ele_end - bot_ele_t0`, element by element |
| CalibrationProfiles.AsWrittenStartBottomIsEndBottom | evaluation_outputs_simulations/evaluation_runner_calibration_profiles.py:90-91 | as written, `bot_ele_t0 == bot_ele_end` on every element |
| CalibrationProfiles.AsWrittenLookupGivesEndBottom | evaluation_outputs_simulations/evaluation_runner_calibration_profiles.py:34-64 | `main` looks up the `bf_2020` columns in the as-written mesh, so every GPS point inside an element receives that element's end-time bottom elevation as `bot_ele_t0`, the value it plots |
| CalibrationProfiles.AsWrittenDeltaZDisagrees | evaluation_outputs_simulations/evaluation_runner_calibration_profiles.py:87-91 | where the bottom changed, the as-written `delta_z` is not `bot_ele_end - bot_ele_t0` and `bot_ele_t0` is not the start bottom |
| CalibrationProfiles.AsWrittenDiffersOnlyInStartBottom | evaluation_outputs_simulations/evaluation_runner_calibration_profiles.py:90 | the two versions fail alike and agree on every column except `bot_ele_t0` |
| CalibrationProfiles.StartBottomColumnOnly | evaluation_outputs_simulations/evaluation_runner_calibration_profiles.py:90 | changing what `bot_ele_t0` receives changes that column and nothing else |
| CalibrationProfiles.ExtractSpecifiedColumnValuesFromResultsFile | evaluation_outputs_simulations/evaluation_runner_calibration_profiles.py:97-118 | every file's points get the looked-up columns, and the frames are listed in file order; the first failing file ends it with its KeyError, the files before it holding their new columns and the others unchanged |
| ProfileGroups.NonEmptyPairSets | script_for_profile_creation.py:70 | the non-empty pairs as sets: each comes from a pair, and every non-empty pair is among them |
| ProfileGroups.Absorb | script_for_profile_creation.py:77-83 | the `for x in rest` loop as a fold: something was merged exactly when fewer sets are kept than given |
| ProfileGroups.AbsorbKeepsFromRest | script_for_profile_creation.py:77-80 | every kept set is the set of `rest` at its recorded position |
| ProfileGroups.AbsorbKeepsInOrder | script_for_profile_creation.py:77-80 | the kept sets come in the order of `rest` (strictly increasing positions) |
| ProfileGroups.AbsorbMergesTheOthers | script_for_profile_creation.py:77-83 | `common` only grows, every set of `rest` that was not kept lies inside the grown set, and every kept set is disjoint from `common` |
| ProfileGroups.AbsorbMergesMeetingSets | script_for_profile_creation.py:79-83 | every set of `rest` that meets `common` ends up inside the grown set |
| ProfileGroups.AbsorbConnected | script_for_profile_creation.py:79-83 | the grown set stays connected through the pairs, and the kept sets are non-empty and connected |
| ProfileGroups.AbsorbLosesNothing | script_for_profile_creation.py:77-83 | the grown set plus the kept sets hold exactly `common` and the sets of `rest` |
| ProfileGroups.AbsorbWithoutMerge | script_for_profile_creation.py:77-83 | without a merge, `common` is unchanged, every set is kept in order, and each is disjoint from `common` |
| ProfileGroups.AbsorbIsAbsorbed | script_for_profile_creation.py:77-83 | the fold yields the state that the pass invariant needs |
| ProfileGroups.AbsorbOverlapping | script_for_profile_creation.py:77-83 | the loop's result is the fold `Absorb` of `rest`, so the lemmas about `Absorb` describe it |
| ProfileGroups.PassStep | script_for_profile_creation.py:75-84 | one round of the inner loop keeps the pass invariant |
| ProfileGroups.MergePass | script_for_profile_creation.py:73-85 | a pass keeps the union and the connectedness, never adds sets, shrinks the list when it merges, and otherwise leaves disjoint sets unchanged |
| ProfileGroups.MergePairsIfACommonPointExists | script_for_profile_creation.py:69-86 | the groups are disjoint and non-empty, their union is the paired indices, every pair lies in a group, groups are connected, and there are no more groups than non-empty pairs |
| ProfileGroups.PairInExactlyOneGroup | script_for_profile_creation.py:69-86 | every non-empty pair lies inside exactly one group |
| ProfileGroups.ChainStaysInGroup | script_for_profile_creation.py:69-86 | a chain of pairs that starts in a group stays in it |
| ProfileGroups.SameGroupIffConnected | script_for_profile_creation.py:69-86 | two paired points share a group exactly when a chain of pairs connects them |
| ProfileGroups.NoPairsNoGroups | script_for_profile_creation.py:69-86 | no non-empty pairs give no groups |
| ProfileGroups.InitialSetsConnected | script_for_profile_creation.py:70 | every initial set is connected through its own pair |
| ProfileGroups.MergeConnected | script_for_profile_creation.py:83 | merging two connected sets that meet gives a connected set |
| ProfilePoints.PermuteKeepsEveryRow | script_for_profile_creation.py:171-173 | reordering by a permutation keeps every row |
| ProfilePoints.ProjectMatchedPointsOnProfileLine | script_for_profile_creation.py:140-151 | a fresh copy whose geometry is projected when there is a point; columns and labels are kept |
| ProfilePoints.OrderGpsPointsFromLineOriginOn | script_for_profile_creation.py:162-177 | the points get a reset index and a `distance` column; the result is a fresh frame with the same rows sorted by distance and labelled `0..n-1`; ValueError leaves the points unchanged |
| CsvLogging.Dedupe | csv_logging/csvlogger.py:47 | each name once: same names, no repeats, the first name first |
| CsvLogging.DedupeKeepsFirstOccurrences | csv_logging/csvlogger.py:47 | the names come in the order of their first occurrences, as a dict built from the declarations keeps them |
| CsvLogging.DedupeOfDistinct | csv_logging/csvlogger.py:47 | a list without repeats is left exactly as it is |
| CsvLogging.DedupeDropsRepeat | csv_logging/csvlogger.py:47 | a list whose only repeat is at position `j` loses exactly that position and nothing else |
| CsvLogging.DataclassFields | csv_logging/csvlogger.py:9-11 | `experiment_id` is the first field of every entry type; the fields are the declared ones, each once, in the order of their first declaration |
| CsvLogging.DataclassFieldsOfDistinctDeclarations | csv_logging/csvlogger.py:9-11 | without repeated declarations the fields are exactly `experiment_id` followed by the declared fields in declaration order |
| CsvLogging.Header | csv_logging/csvlogger.py:45-48 | the header line ends in a newline |
| CsvLogging.HeaderNamesTheFields | csv_logging/csvlogger.py:45-48 | the header is one line whose `;`-separated pieces are exactly the dataclass fields in order, when no name holds a separator |
| CsvLogging.RowLine | csv_logging/csvlogger.py:40-43 | every entry's line ends in a newline |
| CsvLogging.Rows | csv_logging/csvlogger.py:40-43 | the rows are empty exactly when there are no entries |
| CsvLogging.CsvText | csv_logging/csvlogger.py:35-48 | the file's text starts with the header, ends in a newline, and is the header alone exactly when the log is empty |
| CsvLogging.PathJoin | csv_logging/csvlogger.py:32 | `os.path.join` on Windows: a rooted or drive name replaces the folder, any other name follows a backslash |
| CsvLogging.CSVLogger.constructor | csv_logging/csvlogger.py:21-24 | a logger of one entry type with an empty log and the given start time |
| CsvLogging.CSVLogger.AddEntryToLog | csv_logging/csvlogger.py:26-29 | an entry of exactly the configured type is appended; any other raises AssertionError and leaves the log unchanged |
| CsvLogging.CSVLogger.WriteLogsAsCsvToFile | csv_logging/csvlogger.py:31-38 | the path is the log folder joined with the name, the contents are the header and the rows, and the log is not consumed |
| CsvLogging.EmptyLogIsHeaderOnly | csv_logging/csvlogger.py:35-37 | an empty log writes only the header |
| CsvLogging.ParseCsv | csv_logging/csvlogger.py:33-43 | reading the file back: its lines, each split at `;` |
| CsvLogging.LinesOfCsv | csv_logging/csvlogger.py:35-43 | the file is its lines joined by newlines, with an empty piece after the last |
| CsvLogging.CsvLines | csv_logging/csvlogger.py:35-43 | the lines of the file: the header, one per entry, and the empty piece |
| CsvLogging.CsvRoundTrip | csv_logging/csvlogger.py:31-48 | reading the file back gives the header fields, then every entry's values in order, when no name or value holds `;` or a newline |
| CsvLogging.GoodnessOfFitFor3dEvaluation | csv_logging/csvlogger.py:110-132 | 21 declarations, of which the 14th and 15th repeat a name |
| CsvLogging.GoodnessOfFitForInitialVelocity | csv_logging/csvlogger.py:56-71 | 14 distinct declarations, none `experiment_id` |
| CsvLogging.GoodnessOfFitForInitialBottomElevation | csv_logging/csvlogger.py:74-89 | 14 distinct declarations, none `experiment_id` |
| CsvLogging.GoodnessOfFitForInitialWaterDepth | csv_logging/csvlogger.py:92-107 | 14 distinct declarations, none `experiment_id` |
| CsvLogging.ShearStress | csv_logging/csvlogger.py:135-153 | 17 distinct declarations, none `experiment_id` |
| CsvLogging.ScenarioEvaluationHmid | csv_logging/csvlogger.py:156-162 | 5 distinct declarations, none `experiment_id` |
| CsvLogging.EntryTypeColumns | csv_logging/csvlogger.py:47 | for those five entry types the header's columns are `experiment_id` and then every declared field, in order |
| CsvLogging.RepeatedFieldGivesOneColumn | csv_logging/csvlogger.py:125-126 | a field declared twice gives fewer columns than declarations |
| CsvLogging.ThreeDEvaluationColumns | csv_logging/csvlogger.py:110-132 | the 3d evaluation log has exactly 21 columns: `experiment_id` and the 21 declarations with the second `deposited_volume_absolute_error` (declared position 14) dropped |
| ThreeDimensional.SimulatedLabel | evaluation_runner/analysis/three_dimensional.py:15-21 | above 0.1 deposition, below -0.1 erosion, within 0.1 stable, NaN no label |
| ThreeDimensional.EveryChangeIsLabelled | evaluation_runner/analysis/three_dimensional.py:15-21 | every number gets one of the three labels |
| ThreeDimensional.LaterWritesOverride | evaluation_runner/analysis/three_dimensional.py:15-21 | the three writes in their order give every element its band's label; the stable write overrides the ±0.01 labels |
| ThreeDimensional.LabelSimulatedChange | evaluation_runner/analysis/three_dimensional.py:15-21 | `dz_sim` holds every element's label and nothing else changes; NaN and `None` changes get no label; KeyError, or TypeError when `delta_z` holds a text cell, after `dz_sim` is set to `None` |
| ThreeDimensional.MeasuredLabel | evaluation_runner/analysis/three_dimensional.py:23-28 | gridcodes 1, -1, 0 give deposition, erosion, stable; exactly the other values stay `None` |
| ThreeDimensional.GridcodeWrites | evaluation_runner/analysis/three_dimensional.py:23-28 | the three gridcode writes give every polygon its gridcode's label |
| ThreeDimensional.LabelMeasuredChange | evaluation_runner/analysis/three_dimensional.py:23-28 | `dz_dod` holds every polygon's label and nothing else changes; KeyError after `dz_dod` is set to `None` |
| ThreeDimensional.DodVsSim | evaluation_runner/analysis/three_dimensional.py:38-40 | the concatenation `dz_dod + "(dz dod) vs " + dz_sim + "(dz sim)"`, NaN when a label is missing |
| ThreeDimensional.Comparison | evaluation_runner/analysis/three_dimensional.py:42-49 | identical exactly when the two labels are present and equal, different exactly otherwise |
| ThreeDimensional.ComparisonIsOneOfTwo | evaluation_runner/analysis/three_dimensional.py:42-49 | every row gets exactly one of identical and different |
| ThreeDimensional.ComparisonWrites | evaluation_runner/analysis/three_dimensional.py:42-49 | the `None`, identical and different writes give every row its comparison |
| ThreeDimensional.CompareLabels | evaluation_runner/analysis/three_dimensional.py:38-49 | the union gets `dod_vs_sim` and `comparison` and nothing else changes; KeyError for a missing label column, `dz_dod` first, before any write |
| ThreeDimensional.VolumeSelectionsDisjoint | evaluation_runner/analysis/three_dimensional.py:133-140 | no row is selected for both the eroded and the deposited volume |
| ThreeDimensional.CalculateErodedVolume | evaluation_runner/analysis/three_dimensional.py:133-135 | the sum of the volumes labelled `erosion`: zero when no row is, the total when every row is, and between zero and the total for non-negative volumes |
| ThreeDimensional.CalculateDepositedVolume | evaluation_runner/analysis/three_dimensional.py:138-140 | the sum of the volumes labelled `deposition`: zero when no row is, the total when every row is, and between zero and the total for non-negative volumes |
| ThreeDimensional.VolumesPartitionTotal | evaluation_runner/analysis/three_dimensional.py:133-140 | eroded plus deposited plus unlabelled volume is the total: no row is counted twice or lost |
| ThreeDimensional.NonNegativeSums | evaluation_runner/analysis/three_dimensional.py:133-140 | with non-negative volumes both sums are non-negative |
| ThreeDimensional.VolumesBoundedByTotal | evaluation_runner/analysis/three_dimensional.py:133-140 | with non-negative volumes, eroded plus deposited volume does not exceed the total |
| ConductedExperiments.PythonRange | run_evaluation_of_conducted_experiments.py:79 | `range(start, stop, step)`: `start` first, every term strictly before `stop`, and the term after the last one not |
| ConductedExperiments.RangeTerms | run_evaluation_of_conducted_experiments.py:79 | term `k` of the range is `start + k * step` |
| ConductedExperiments.InclusiveRange | run_evaluation_of_conducted_experiments.py:78-81 | the terms of the range, then `stop`; ValueError for a zero step |
| ConductedExperiments.StopIsLast | run_evaluation_of_conducted_experiments.py:81 | `stop` is the last stamp and, for a positive step, appears only there |
| ConductedExperiments.EmptyRangeGivesStop | run_evaluation_of_conducted_experiments.py:79-81 | with a positive step and `start >= stop` the stamps are just `[stop]` |
| ConductedExperiments.MainTimeStamps | run_evaluation_of_conducted_experiments.py:220-222 | 243000 s sampled every 8100 s gives 31 stamps `0, 8100, ..., 243000` |
| ConductedExperiments.MapMaterialIndexToName | run_evaluation_of_conducted_experiments.py:91-104 | 1, 5, 8 water; 2 gravel; 3, 4, 6, 7 vegetation; NotImplementedError exactly otherwise |
| ConductedExperiments.DeriveColumnsToLookupFromFloodScenario | run_evaluation_of_conducted_experiments.py:457-465 | `bf_2020` the before-flood mapping, `af_2020` the after-flood one, NotImplementedError exactly otherwise |
| ConductedExperiments.ScenarioChoosesTimeStep | run_evaluation_of_conducted_experiments.py:218-219 | with `main`'s mappings the scenario chooses step 0 or the simulation end |
| ConductedExperiments.SpeedClass | run_evaluation_of_conducted_experiments.py:252-263 | below -30 `> 30`, [-30,-20) `20.1 - 30`, [-20,-10) `10.1 - 20`, [-10,0) `0 - 10`; `None` exactly for 0 and above, NaN and `None` |
| ConductedExperiments.SpeedBinsDisjoint | run_evaluation_of_conducted_experiments.py:252-256 | no speed satisfies two of the four conditions |
| ConductedExperiments.SpeedWrites | run_evaluation_of_conducted_experiments.py:259-263 | the four writes give every element its band's class |
| ConductedExperiments.ClassifyDewateringSpeed | run_evaluation_of_conducted_experiments.py:252-263 | `speed` holds every element's class and nothing else changes; KeyError, or TypeError when `avg_cm/h` holds a text cell, before anything is written |

The lookup loop of `assign_requested_values_from_summarising_mesh_to_point` is copied into
evaluation_outputs_simulations/evaluation_runner_calibration_profiles.py:104-115.
`merge_pairs_if_a_common_point_exists`, `project_matched_points_on_profile_line` and
`order_gps_points_from_line_origin_on` are copied into script_for_profile_creation_original.py
at lines 77-94, 148-159 and 170-185. The same members model those copies.

## Findings

| source | as written | input that shows it | evidently intended | confidence | as-written member | corrected member |
|---|---|---|---|---|---|---|
| evaluation_outputs_simulations/evaluation_runner_calibration_profiles.py:90 | `bot_ele_t0` is read from the end-time bottom column `0000003-Bo` | any element whose bottom elevation differs between `0000000-Bo` and `0000003-Bo`: its `bot_ele_t0` equals `bot_ele_end`, and `delta_z` (line 87) is not `bot_ele_end - bot_ele_t0` | `bot_ele_t0` is read from the start-time column `0000000-Bo`, as in extract_data/summarising_mesh.py:55 | not executed | CalibrationProfiles.AsWrittenDeltaZDisagrees | CalibrationProfiles.CalibrationMeshDifferences |

`CalibrationProfiles.CreateSummarisingMeshAsWritten` is the mesh as written.
`CalibrationProfiles.CreateSummarisingMesh` is the corrected mesh. The calibration `main` passes the mesh as written to the lookup (evaluation_outputs_simulations/evaluation_runner_calibration_profiles.py:34, 56-58). `CalibrationProfiles.AsWrittenLookupGivesEndBottom` states what it then plots. `CalibrationProfiles.ExtractSpecifiedColumnValuesFromResultsFile` takes the mesh as a parameter, so it covers both versions.

## Left out

- Geometry: `contains`, `area`, `project`, `interpolate`, `gpd.overlay` and `explode` are not modelled. Containment, area and projection are parameters. The union of polygons and mesh elements is taken as the given frame that `CompareLabels` works on.
- I/O: reading HDF5 and 2dm files, `glob`, pickling, `json`, `os.mkdir`, opening and writing files, printing and `tqdm`. The logger returns the path and the file contents as text before newline translation (on Windows, text mode writes each newline as a carriage return and a line feed), and the extraction takes the loaded point frames as a sequence.
- `time.time()` in the logger's constructor is a parameter.
- Pandas index alignment is not modelled. Frames combined in one expression are required to describe the same elements in the same row order (`SameMesh`, `SameElements`).
- `GeoFrame` keeps its columns in a map, so the column order of frames changed in place is not modelled.
- `sort_values` uses a sort that is not stable. `OrderGpsPointsFromLineOriginOn` states sorted rows and a permutation only, and says nothing about the order of ties.
- The `str` of field values in log entries is taken as given strings that are not modelled further. The formatting of floats is not modelled.
- CsvLogging.CSVLogger.AddEntryToLog: the AssertionError message (the `repr` of the entry and the type) is not modelled, and "same class" is equality of entry types.
- ConductedExperiments.DeriveColumnsToLookupFromFloodScenario: the NotImplementedError message is not modelled.
- Messages of AssertionError, TypeError and NotImplementedError are empty strings elsewhere too, except that the NotImplementedError of `ConductedExperiments.MapMaterialIndexToName` carries the index in decimal.
- Error messages are abbreviated. A KeyError carries its key. A length-mismatch ValueError leaves out the two lengths pandas prints. The ValueError of a failed `int()` leaves out Python's quotes around the rejected text in `TimeStepColumns.RenamedColumnName`, and leaves out the text itself in `TimeStepColumns.RenameFrame`, `TimeStepColumns.NumericKeys` and `TimeStepColumns.KeyOrder`.
- Frames.Get: for a name that several columns share, `Get` gives the values of the first of them, where pandas gives a frame with all of them.
- PathJoin models only the Windows rules that matter for a relative folder: rooted names and drives. UNC paths and case are not modelled.
- CalibrationProfiles.CreateSummarisingMeshAsWritten and CalibrationProfiles.CreateSummarisingMesh: a crs is always an EPSG number, so a geometry without a crs is not modelled. The ValueError for another crs carries the start of geopandas' message only.
- Numeric columns of `Table` are reals. NaN in a mesh column and floating-point rounding are not modelled. In `GeoFrame` cells NaN is a value of its own.
- ThreeDimensional.CalculateErodedVolume and ThreeDimensional.CalculateDepositedVolume: the `dz_sim` and `volume` columns are taken as given sequences, so the KeyError the source raises for a missing `dz_sim` column, or else a missing `volume` column, is not modelled. The `volume` column is a sequence of reals. NaN volumes and the float sum are not modelled.
- Text.ParseInt: surrounding whitespace, underscores between digits and non-ASCII Unicode decimal digits (such as the Arabic-Indic digit three) are accepted by Python's `int()` but not by `ParseInt`.
- The ratio functions of evaluation_runner/analysis/three_dimensional.py (lines 67-131) and `clip_mesh_with_polygons` are floating-point statistics over areas and are not modelled.
- The dewatering classification runs only when `do_de_watering_speed_analysis` is true, and line 230 sets it to false. The classification is modelled on its own. The averaging that computes `avg_cm/h` is not part of this model.
- The `BeforeOrAfterFloodScenario` enum is modelled, in the module `Containers`, with its two members and any other value. run_evaluation_of_conducted_experiments.py:68 imports it from profile_creation/containers.py, which is not part of this model. evaluation_outputs_simulations/evaluation_runner_calibration_profiles.py:10-14 imports it and `create_z_column_name` from script_for_profile_creation.py, which defines neither.
- The inline lookup of `wd_t0` in the calibration `main` (evaluation_outputs_simulations/evaluation_runner_calibration_profiles.py:37-45) is the same first-containing-element rule as `LookupCell`.
- The area column of the calibration mesh comes from an `area` parameter.
