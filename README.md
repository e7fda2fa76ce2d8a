# modele_pism_inputs core, modelled in Dafny

`topo/modele_pism_inputs.py` prepares the inputs of a coupled ModelE/PISM
run from the directory of an earlier PISM bootstrap run. This project models
the parts of it that compute something:

- `CommandLine`: the loop in `snoop_pism` that turns the whitespace-split PISM
  command line into an ordered map of `-name` to value. It is a method with a
  loop, proved equal to a recursive specification (`Run`/`Parse`), with both
  `IndexError`s it can raise. The stored form of that map is `ArgMaps.ArgMap`:
  an `OrderedDict` given as the keys in insertion order plus a map.
- `GridIdentity`: what `snoop_pism` derives once its files are read. The
  native cell centres are resampled to `Mx` by `My`, the spacing is rounded to
  whole kilometres and the grid is named. The whole function is `Snoop`, with
  its exceptions in the order the statements raise them.
- `Boundaries`: `center_to_boundaries`, as a method over an array, and the
  grid description `write_gridspec_xy` builds from it.
- `PismArgs`: `make_pism_args`, which turns the bootstrap arguments into those
  of the coupled run. It drops the grid and run-length keys, makes the file
  arguments absolute and extends `-extra_vars`. The module also writes the
  configuration lines built from the result.
- `FileNames`: the leaf names of the grid files.
- `Strings` and `PosixPath`: the Python string and `os.path` operations these
  use (`split`, `join`, `'{}'.format` of an int, `os.path.join`, `normpath`,
  `split`, `splitext`). Each comes with its inverse or a characterisation.

Values read from netCDF files are parameters of the model: the command
attribute (already split into words), `grid.Mx`/`grid.My`, `proj4`, and the
`x1`/`y1` centres. Reals stand for the floating-point numbers.

## Model

| member | source | states |
|---|---|---|
| ArgMaps.ArgMap.Set | topo/modele_pism_inputs.py:202 | Assigning a key keeps the map well formed. An existing key keeps its position and gets the new value; a new key goes last. |
| ArgMaps.ArgMap.Delete | topo/modele_pism_inputs.py:250-253 | `del` fails exactly when the key is absent; otherwise only that key goes, and the other keys keep their order. |
| ArgMaps.WithoutSnoc | topo/modele_pism_inputs.py:250-253 | Filtering a list with one more key at the end filters the list, then keeps that key exactly when it is not dropped. |
| ArgMaps.WithoutWithout | topo/modele_pism_inputs.py:247-253 | Deleting one set of keys after another is deleting their union. |
| CommandLine.StepAt | topo/modele_pism_inputs.py:199-205 | What the loop does at one cursor: skip a word, store a flag with its value, store a flag alone, or fail. `NextTokenTrichotomy` characterises the three outcomes after a flag, and `RunStops` shows that a failure ends the parse with that error. |
| CommandLine.RunStops | topo/modele_pism_inputs.py:201 | A failing step ends the whole parse with that step's error, whatever was stored before. |
| CommandLine.Run | topo/modele_pism_inputs.py:198-206 | The loop from a cursor on. Keys already stored stay. A `MissingValue` error is at the last token, which is a dash token. A `ShortDashToken` error is a two-character dash token after a dash token. |
| CommandLine.Parse | topo/modele_pism_inputs.py:196-206 | The whole loop run from the start on an empty map. `Tokenize` is proved to return exactly this value, and `ParseRendered` shows that it inverts the writing of a command line. |
| CommandLine.Tokenize | topo/modele_pism_inputs.py:196-206 | The cursor loop, building the map in place, returns exactly `Parse(cmd)`, the error included, and the map is well formed. |
| CommandLine.ParsedKeysAreFlags | topo/modele_pism_inputs.py:200-205 | Every parsed key is the name, minus its dash, of some dash token of the line. |
| CommandLine.NextTokenTrichotomy | topo/modele_pism_inputs.py:201 | After a flag, the next token is exactly one of three things: a value (no dash, or a digit third character), a flag (a lone `-` or a longer non-numeric dash token), or a failure (a two-character dash token). |
| CommandLine.TrailingFlagFails | topo/modele_pism_inputs.py:199-201 | A line whose last token is a flag that cannot be a value never parses. |
| CommandLine.RunTakesValue | topo/modele_pism_inputs.py:201-203 | At a flag whose next token is a value, that pair is stored and the cursor moves past both. |
| CommandLine.RunRecordsFlag | topo/modele_pism_inputs.py:204-205 | At a flag followed by another flag, the flag is stored with no value and the cursor moves on by one. |
| CommandLine.RunSkipsWord | topo/modele_pism_inputs.py:199-206 | A word without a dash is skipped. |
| CommandLine.ParseRendered | topo/modele_pism_inputs.py:196-206 | Leading plain words, then unambiguously written arguments, parse back to the map built by assigning those arguments in order. |
| CommandLine.ParseRenderedDistinct | topo/modele_pism_inputs.py:196-206 | With distinct names, parsing gives back exactly the names in their order, each with the value written after it. |
| CommandLine.RepeatedFlag | topo/modele_pism_inputs.py:202 | A flag given twice ends with the value of its last occurrence. The keys are the names in order of their first occurrence, and deleting the later occurrence leaves that key order unchanged: the flag keeps the position of its first occurrence. |
| CommandLine.Firsts | topo/modele_pism_inputs.py:202 | The names of a sequence in order of first occurrence, leaving out those already seen. This is the key order an `OrderedDict` ends with. `FirstsOnce` characterises it. |
| CommandLine.FirstsOnce | topo/modele_pism_inputs.py:202 | `Firsts` holds exactly the names that occur and were not already seen, each once. |
| CommandLine.BuildKeysFirsts | topo/modele_pism_inputs.py:202 | Assigning arguments in order appends to the keys exactly the new names, in order of first occurrence. |
| CommandLine.FirstsDropRepeat | topo/modele_pism_inputs.py:202 | A repeated name can be deleted at its later occurrence without changing the first-occurrence order. |
| CommandLine.ExampleNegativeValue | topo/modele_pism_inputs.py:201 | `-ys -100`: the negative number is a value, and a `-bootstrap` followed by a flag has none. |
| CommandLine.ExampleDecimalIsAFlag | topo/modele_pism_inputs.py:201 | `-1.5` after a flag is stored as a flag named `1.5`, not as a value. |
| CommandLine.ExampleTrailingDecimal | topo/modele_pism_inputs.py:201 | A trailing `-1.5` read as a flag makes the loop index past the end. |
| CommandLine.ExampleShortFlagFails | topo/modele_pism_inputs.py:201 | `-i` or `-5` right after a flag raises at `cmd[i+1][2]`. |
| GridIdentity.Spacing | topo/modele_pism_inputs.py:216-217 | The step between neighbouring centres that the generator comprehensions at lines 216-217 spread evenly from the first to the last native centre over `m` points. `ResampledStep` and `Resample` show that neighbouring resampled centres are this far apart. |
| GridIdentity.Point | topo/modele_pism_inputs.py:216-217 | Centre `k` as the generator comprehensions at lines 216-217 compute it. `ResampleClosedForm` shows that it is the first centre plus `k` spacings. |
| GridIdentity.Resample | topo/modele_pism_inputs.py:216-217 | `m` centres. The first and last equal the native first and last, and every neighbouring pair is one `Spacing` apart. |
| GridIdentity.ResampleClosedForm | topo/modele_pism_inputs.py:216-217 | Centre `k` is the first centre plus `k` spacings. |
| GridIdentity.ResampleIncreasing | topo/modele_pism_inputs.py:216-217 | From a lower first centre to a higher last one, the resampled centres strictly increase. |
| GridIdentity.ResampleReproduces | topo/modele_pism_inputs.py:216-217 | Resampling evenly spaced native centres to their own count gives them back. |
| GridIdentity.Trunc | topo/modele_pism_inputs.py:224-225 | `int()` of a real: the integer part, rounded toward zero. |
| GridIdentity.KmRound | topo/modele_pism_inputs.py:224-225 | `int(.5 + d/1000.)`. `KmRoundNearest` and `KmRoundNegative` characterise it. |
| GridIdentity.KmRoundNearest | topo/modele_pism_inputs.py:224-225 | For a non-negative spacing, `int(.5 + d/1000.)` is the nearest whole kilometre, halves rounded up. |
| GridIdentity.KmRoundNegative | topo/modele_pism_inputs.py:224-225 | For a negative spacing it is not: -1600 m gives -1. |
| GridIdentity.ResToken | topo/modele_pism_inputs.py:226-229 | The resolution text is never empty. |
| GridIdentity.ResTokenRoundTrip | topo/modele_pism_inputs.py:226-229 | Both spacings can be read back from the resolution text. |
| GridIdentity.GridName | topo/modele_pism_inputs.py:231-235 | A `pism_Greenland` input gives a name starting `pism_g`; any other input gives a name starting with the input's root. `GreenlandNameResolution`, `OtherNameIgnoresSecondIndex` and `GridILeafRoundTrip` characterise it. |
| GridIdentity.GreenlandNameResolution | topo/modele_pism_inputs.py:232-233 | A `pism_Greenland` input gives a name from which the resolution can be read back. |
| GridIdentity.GreenlandNamesDistinct | topo/modele_pism_inputs.py:232-233 | Two Greenland grids of different resolution get different names. |
| GridIdentity.OtherNameIgnoresSecondIndex | topo/modele_pism_inputs.py:234-235 | For any other input, the second index of the order never reaches the name, because the format string has no slot for it. |
| GridIdentity.OtherNamesCollide | topo/modele_pism_inputs.py:234-235 | There, a file root that ends in a digit runs into the resolution: `g2.nc` at 0 km and `g.nc` at 20 km share a name. |
| GridIdentity.ExampleGreenlandName | topo/modele_pism_inputs.py:226-233 | Concrete names for square and non-square Greenland grids. |
| GridIdentity.Snoop | topo/modele_pism_inputs.py:195-235 | It succeeds exactly when: the line parses, `-i` has a value, there are native centres, and `Mx`, `My` >= 2. On success it returns the arguments, sizes and projection, the index order (1,0), the resampled centres, and the name built from the leaf of `-i` and the kilometre-rounded spacings. |
| GridIdentity.Describe | topo/modele_pism_inputs.py:216-235 | Once every read succeeded: the resampled centres, and the name from the rounded width of the first resampled cell, which is the resampled spacing. |
| GridIdentity.ResampledStep | topo/modele_pism_inputs.py:224-225 | `xc[1] - xc[0]` of resampled centres is their spacing. |
| GridIdentity.SnoopErrors | topo/modele_pism_inputs.py:199-224 | The exceptions come in statement order: tokenizer, then `-i` missing, then `-i` without a value. With `Mx == 1`, the failure surfaces at line 217 or 224. |
| GridIdentity.ExampleSnoop | topo/modele_pism_inputs.py:188-235 | A 5 km Greenland run of 301 by 561 centres is named `pism_g5km_10`. |
| Boundaries.BoundariesOf | topo/modele_pism_inputs.py:272-275 | One boundary more than there are centres. |
| Boundaries.CenterToBoundaries | topo/modele_pism_inputs.py:271-276 | It fails exactly when there are fewer than two centres, reporting their count. Otherwise it returns `BoundariesOf` the array's contents. |
| Boundaries.InteriorMidpoints | topo/modele_pism_inputs.py:274 | Each interior boundary lies halfway between the two centres it separates. |
| Boundaries.EndsExtrapolate | topo/modele_pism_inputs.py:273-275 | At both ends, the outer half cell is as wide as the inner half cell. |
| Boundaries.BoundariesBracket | topo/modele_pism_inputs.py:271-276 | For strictly increasing centres, every centre lies strictly between its two boundaries, and the boundaries strictly increase. |
| Boundaries.BoundariesBracketDecreasing | topo/modele_pism_inputs.py:271-276 | The same holds, mirrored, for strictly decreasing centres: every centre lies strictly between its two boundaries, and the boundaries strictly decrease. |
| Boundaries.EvenlySpacedBoundaries | topo/modele_pism_inputs.py:271-276 | Evenly spaced centres get evenly spaced boundaries, half a step outside, and each cell's midpoint is its centre. |
| Boundaries.ExampleBoundaries | topo/modele_pism_inputs.py:271-276 | Concrete boundaries for four unit-spaced centres. |
| Boundaries.GridSpecOf | topo/modele_pism_inputs.py:282-301 | The description is of type `XY`, with `nx`, `ny` centres and their `BoundariesOf` in each direction, plus the grid's name, index order and projection. It fails when a line has fewer than two centres. |
| Boundaries.SnoopedGridSpec | topo/modele_pism_inputs.py:282-301 | Every successful snoop can be described: `Mx` by `My` cells, bounded in both x and y half a resampled cell outside the native first and last centres. |
| Boundaries.ResampledBoundaries | topo/modele_pism_inputs.py:273-275 | A resampled line is bounded half a cell outside its end centres. |
| PismArgs.FirstProblem | topo/modele_pism_inputs.py:257-261 | The first `KeyError` or `TypeError` met when the keys are read in order. When there is one, it names a listed key that raises exactly that error. `NoProblem`, `ProblemAt` and `FirstProblemAppend` characterise it. |
| PismArgs.NoProblem | topo/modele_pism_inputs.py:257-261 | Reading the keys raises nothing exactly when each is present with a text value. |
| PismArgs.Missing | topo/modele_pism_inputs.py:263-265 | The vocabulary names absent from the list: exactly those names, and no more of them than the vocabulary has. `MissingInOrder` shows that they come in vocabulary order, and `MissingIsWithout` shows that this is the order-keeping filter `Without`. |
| PismArgs.MissingInOrder | topo/modele_pism_inputs.py:263-265 | The missing names are the vocabulary read at increasing positions, and those positions are exactly the ones whose name is absent from the list, so the appended names keep the declared vocabulary order. |
| PismArgs.MissingIsWithout | topo/modele_pism_inputs.py:263-265 | The missing names are the vocabulary with the list's names filtered out, in order, by the same `Without` that removes keys from the ordered map. |
| PismArgs.ExtendVars | topo/modele_pism_inputs.py:261-265 | The list followed by the missing vocabulary names. `ExtendVarsComplete`, `ExtendVarsAddsOnlyNew` and `ExtendVarsIdempotent` characterise it. |
| PismArgs.ExtendList | topo/modele_pism_inputs.py:261-266 | `ExtendVars` on the comma-split text, joined back with commas. `ExtendListIdempotent` characterises it. |
| PismArgs.ExtendVarsComplete | topo/modele_pism_inputs.py:263-265 | After extending, every vocabulary variable is requested. |
| PismArgs.ExtendVarsAddsOnlyNew | topo/modele_pism_inputs.py:261-265 | The original entries, duplicates included, stay first and in order. Each added entry is a vocabulary name that was missing, added once. |
| PismArgs.ExtendVarsIdempotent | topo/modele_pism_inputs.py:261-265 | Extending twice is extending once. |
| PismArgs.ExtendListIdempotent | topo/modele_pism_inputs.py:261-266 | On the comma-joined text too: feeding a coupled run's `-extra_vars` back in changes nothing. |
| PismArgs.MissingDistinct | topo/modele_pism_inputs.py:263-265 | From a list without repeats, the names appended are distinct. |
| PismArgs.DropKeys | topo/modele_pism_inputs.py:247-253 | The tolerant deletion loop removes exactly the listed keys that are present; the rest keep their order and values. |
| PismArgs.MakePathsAbsolute | topo/modele_pism_inputs.py:257-258 | It fails exactly at the first key that is missing or has no value, with that error. Otherwise each listed key holds the normalised join with the run directory, and every other key, and the key order, are unchanged. |
| PismArgs.AppendMissing | topo/modele_pism_inputs.py:262-265 | The loop appends, in vocabulary order, the names absent from the original list (checked against a set made once). |
| PismArgs.ExtendExtraVars | topo/modele_pism_inputs.py:261-266 | The text of `-extra_vars` becomes `ExtendList` of it. |
| PismArgs.FirstProblemAppend | topo/modele_pism_inputs.py:257-261 | The first exception across two runs of reads is the first run's, or else the second's. |
| PismArgs.MakePismArgs | topo/modele_pism_inputs.py:239-268 | It fails exactly when a file key or `extra_vars` is missing or has no value, with the first such error. Otherwise: bootstrap keys are gone, file keys are absolute, `extra_vars` is extended, and all else is as in the input, in the input's order. |
| PismArgs.ExampleMissingSurfaceFile | topo/modele_pism_inputs.py:257-258 | A bootstrap map without `surface_given_file` raises `KeyError` for it. |
| PismArgs.ConfigLines | topo/modele_pism_inputs.py:360-362 | One line per argument, in the map's order, each the formatted key and value. |
| PismArgs.ValueText | topo/modele_pism_inputs.py:362 | How `'{}'.format` writes an argument's value: the text itself, or `None` for a flag. `ConfigLineRoundTrip` reads it back. |
| PismArgs.ConfigLine | topo/modele_pism_inputs.py:362 | One configuration line for a key and its value. `ConfigLineRoundTrip` shows that the key and value can be read back from it. |
| PismArgs.ConfigLineRoundTrip | topo/modele_pism_inputs.py:362 | A line gives back its key and value text (`None` for a flag) when the key has no blank. |
| PismArgs.ConfigLineOneLine | topo/modele_pism_inputs.py:362 | A configuration line holds no newline when its key and value hold none. |
| PismArgs.ConfigBlockRoundTrip | topo/modele_pism_inputs.py:360-363 | For the lines `ConfigLines` writes from a non-empty map, the newline-joined block splits back into those lines, and line `j` reads back as the map's `j`-th key and its value's text, when no key holds a blank or a newline and no value a newline. |
| FileNames.GridILeaf | topo/modele_pism_inputs.py:346 | The grid file's leaf, the name plus `.nc`. `GridILeafRoundTrip` characterises it. |
| FileNames.ExgridLeaf | topo/modele_pism_inputs.py:353 | The overlap grid's leaf, the ModelE grid's root, a dash, and the grid file's leaf. `ExgridLeafOf` characterises it. |
| FileNames.ExgridLeafOf | topo/modele_pism_inputs.py:346-353 | The overlap grid is stored as `modele_ll_g1qx1-<name>.nc`. |
| FileNames.GridNameIsLeaf | topo/modele_pism_inputs.py:231-235 | A grid name has no separator and is not only dots, so it is a usable leaf. |
| FileNames.GridILeafRoundTrip | topo/modele_pism_inputs.py:346-353 | Taking the extension off the grid file's leaf gives the grid's name back. |
| PosixPath.JoinPath | topo/modele_pism_inputs.py:258 | `os.path.join`: an absolute second part replaces the first; otherwise the result starts with the first part and ends with the second. |
| PosixPath.NormPath | topo/modele_pism_inputs.py:258 | `os.path.normpath` is never empty and is absolute exactly when its input is. |
| PosixPath.NormPathIdempotent | topo/modele_pism_inputs.py:258 | Normalising twice is normalising once. |
| PosixPath.AbsPath | topo/modele_pism_inputs.py:258 | Joined to an absolute directory, the result is absolute. |
| PosixPath.Basename | topo/modele_pism_inputs.py:231 | The tail of `os.path.split`: it has no separator, it ends the path, and it is preceded by a separator when shorter than the path. |
| PosixPath.SplitExtRoot | topo/modele_pism_inputs.py:235 | The root of `os.path.splitext` is the path itself, or a prefix of it followed by a dot. |
| PosixPath.SplitExtRootOfExtended | topo/modele_pism_inputs.py:353 | Removing an added extension gives the name back. |
| Strings.Split | topo/modele_pism_inputs.py:261 | `str.split` gives at least one piece, and no piece holds the separator. |
| Strings.Join | topo/modele_pism_inputs.py:266 | `str.join`: the pieces with the separator between them. `SplitJoin` and `JoinSplit` show that it inverts `Split`. |
| Strings.SplitJoin | topo/modele_pism_inputs.py:261-266 | Splitting joined separator-free pieces gives the pieces back. |
| Strings.JoinSplit | topo/modele_pism_inputs.py:261-266 | Joining the pieces of a split gives the text back. |
| Strings.IntToString | topo/modele_pism_inputs.py:227-229 | `'{}'.format` of an integer: never empty, all digits except a leading minus sign, which is there exactly when the integer is negative. `IntToStringRoundTrip` shows that it parses back. |
| Strings.IntToStringRoundTrip | topo/modele_pism_inputs.py:227-229 | `'{}'.format` of an integer parses back to it. |
| Strings.IntToStringLacks | topo/modele_pism_inputs.py:227-229 | The text of an integer holds only digits and a minus sign, so it holds no `/` or `_`. |

## Left out

- Reading netCDF files (the `command` attribute, `pism_config`, `proj4`, `x1`/`y1`) and writing the grid description: the values read become parameters, and the description is a value (`GridSpec`).
- `re.split(r'\s+', …)` of the command attribute: the tokenizer takes the list of words it produces.
- `os.path.realpath`, `os.makedirs`, `pushd`, writing the CDL and makefile templates, running `make` and `subprocess`, `print`, and the argparse entry point: these are I/O, with nothing computed to model.
- Floating point: reals are exact. Line 216's division order and rounding are not modelled, and neither is the NaN numpy produces for `Mx == 1`; that case is reported where the source first raises, at `xc[1]` on line 224 (`TooFewX`).
- `str.isdigit` is modelled on the ASCII digits only. Python's Unicode digits are not covered.
- The vocabulary of `-extra_vars` at line 263 is written as a list of names, not split from its comma-joined text.
- `make_pism_args` receives the argument map of `snoop_pism`'s result, not the whole result.
- `make_pism_args` raises `KeyError` when `-surface_given_file` or `-ocean_kill_file` is absent (lines 257-258); the model returns that error rather than skipping the key.
- Names already repeated in `-extra_vars` stay repeated; only names missing from the list are appended (lines 262-267).
