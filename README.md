# data_table validator model

This project models the data_table validator of fms_yaml_tools,
`data_table/is_valid_data_table_yaml.py`. The validator walks a parsed data_table:
a mapping from section name to an ordered list of entries, each entry a key/value
mapping. It applies fixed rules to every entry and raises on the first rule that is
broken:

- `gridname` is required and must be OCN, LND, ATM or ICE;
- `fieldname_code` is required and must not be empty;
- the interpolation method must be bilinear, bicubic or none;
- an empty `fieldname_file` demands an empty interpolation method;
- `factor` is required;
- when `region_type` is given, it must be inside_region or outside_region;
  lat_start, lat_end, lon_start and lon_end must all be present;
  and each start must not exceed its end.

The model has four modules:

- `Wrappers` (wrappers.dfy) holds the Option, Result and Outcome datatypes.
- `Checks` (checks.dfy) holds the `check_*` helpers, as pure functions that pass or
  return the error the helper raises. It also holds Python's `>` on the values YAML
  yields: numbers and booleans compare numerically, and strings compare
  lexicographically by code point. Mixed kinds, null and mappings raise a TypeError.
  The model does not order the remaining kinds (lists, timestamps, binary, sets); see
  "Left out".
- `Validator` (validator.dfy) holds the main loop.
  - `CheckEntry` is the fail-fast check of one entry.
  - `Run` and `Validate` specify the loop over all entries of all sections.
  - `ValidateEntry` and `ValidateDataTable` are the imperative loop body and the
    nested loop. They are proved equal to the specification.
- `Examples` (examples.dfy) proves the verdict on a few concrete tables.

The script keeps `fieldname_file` and `interp_method` in module-level variables. A
variable is assigned only when the entry has the key (`fieldname_file`,
`interpol_method`), and it is read for every entry. The model threads the two
variables through the loop as a `Carry` of two Option values. None stands for a name
that was never assigned, and reading it is the NameError the script raises. The
binding survives from one section to the next, as module-level state does.

The script's help text (line 15) points to the data_table format documented in the
data_override directory of FMS (https://github.com/NOAA-GFDL/FMS/tree/main/data_override).
Where that documentation and the code differ, the model follows the code:

- The interpolation method is not required of every entry. An entry without
  `interpol_method` reuses the last one given, and only an entry with no earlier
  value at all fails (`UnboundInterpMethod`).
- An entry without `fieldname_file` also inherits. So the entry
  `{gridname: OCN, fieldname_code: sst, interpol_method: none, factor: 1}`, which that
  documentation treats as complete, is rejected when it comes first in a table, because `fieldname_file` is
  still unbound (`Examples.FirstEntryWithoutFileIsRejected`).
- The filename/field rule runs only after the interpolation method has passed the
  enumeration check, and the enumeration does not contain the empty string. So every
  entry whose effective `fieldname_file` is empty is rejected
  (`Validator.CheckEntry`, `Validator.AcceptedTableBindings`).

The model follows the intended logic of the helpers. As written, the docstrings at
lines 20, 31, 36, 41 and 48 open with four quote marks and are indented less than the
bodies under them, so the module does not load. Also, `check_gridname` at line 22 tests
the module-level `gridname` rather than its parameter. The two are the same value at
the only call, line 59, so the model checks the parameter.

## Model

| member | source | states |
|---|---|---|
| `Checks.CheckGridname` | data_table/is_valid_data_table_yaml.py:19-22 | passes exactly for the four grid names OCN, LND, ATM, ICE; otherwise reports the offending value |
| `Checks.CheckFieldnameCode` | data_table/is_valid_data_table_yaml.py:24-25 | rejects exactly the empty string |
| `Checks.CheckFilenameAndField` | data_table/is_valid_data_table_yaml.py:27-28 | passes exactly when an empty file field comes with an empty interpolation method, or the field is not empty |
| `Checks.CheckInterpMethod` | data_table/is_valid_data_table_yaml.py:30-33 | passes exactly for bilinear, bicubic and none, so never for the empty string; otherwise reports the value |
| `Checks.CheckRegionType` | data_table/is_valid_data_table_yaml.py:35-38 | passes exactly for inside_region and outside_region; otherwise reports the value |
| `Checks.CheckIfBoundsPresent` | data_table/is_valid_data_table_yaml.py:40-45 | passes exactly when all four bounds are present; otherwise reports an absent bound such that every bound checked before it is present |
| `Checks.CheckRegion` | data_table/is_valid_data_table_yaml.py:47-49 | passes exactly when start <= end in Python's ordering; reports StartAfterEnd when the two are ordered the other way and Incomparable when `>` raises |
| `Checks.Greater` | data_table/is_valid_data_table_yaml.py:49 | `>` is defined exactly on number/boolean pairs and string pairs, is false on equal values, and is false exactly when `<=` holds |
| `Checks.GreaterStrictOrder` | data_table/is_valid_data_table_yaml.py:49 | `>` is asymmetric and transitive, so the bound check uses a strict order |
| `Checks.StrLessIrreflexive` | data_table/is_valid_data_table_yaml.py:49 | no string is less than itself |
| `Checks.StrLessTrichotomy` | data_table/is_valid_data_table_yaml.py:49 | two strings are equal or exactly one is less than the other |
| `Checks.StrLessTransitive` | data_table/is_valid_data_table_yaml.py:49 | string order is transitive |
| `Validator.Inherit` | data_table/is_valid_data_table_yaml.py:67-74 | a key present in the entry rebinds its carried variable to the entry's value, an absent key keeps the old binding, and a variable is unbound afterwards exactly when it was unbound before and the entry lacks the key |
| `Validator.CheckRegionEntry` | data_table/is_valid_data_table_yaml.py:84-95 | a region passes exactly when its type is allowed, all four bounds are present and both axes are ordered start <= end |
| `Validator.CheckEntry` | data_table/is_valid_data_table_yaml.py:56-95 | a passing entry has gridname, fieldname_code and factor, an allowed interpolation method and a non-empty fieldname_file; an entry with a defect of its own always fails; an empty effective fieldname_file always fails; the error carries the offending value |
| `Validator.EntryChecksInOrder` | data_table/is_valid_data_table_yaml.py:56-95 | an entry passes exactly when all eighteen checks hold; a reported error belongs to a failing check and every earlier check holds (gridname, fieldname_code, interp_method, filename/field, factor, region type, bounds in order, lat, lon) |
| `Validator.CarryIsLatest` | data_table/is_valid_data_table_yaml.py:67-74 | after any run of entries, each carried variable holds the value from the latest entry that had its key |
| `Validator.LatestUnboundIffNeverGiven` | data_table/is_valid_data_table_yaml.py:67-77 | a carried variable is unbound exactly when no entry so far had its key |
| `Validator.LatestIsMostRecent` | data_table/is_valid_data_table_yaml.py:67-74 | the value carried is that of the last entry with the key, however many entries without it follow |
| `Validator.Run` | data_table/is_valid_data_table_yaml.py:53-95 | when the loop completes, the bindings left are those the entries' keys determine |
| `Validator.RunAcceptsIff` | data_table/is_valid_data_table_yaml.py:53-95 | the loop completes exactly when every entry passes with the bindings it inherits |
| `Validator.RunFirstFailure` | data_table/is_valid_data_table_yaml.py:53-95 | the loop raises err exactly when some entry raises err and every entry before it passes |
| `Validator.RunFailureLocated` | data_table/is_valid_data_table_yaml.py:53-95 | an error the loop raises comes from an entry that raises it after every earlier entry passed |
| `Validator.FirstFailingEntryRaises` | data_table/is_valid_data_table_yaml.py:53-95 | the first entry that raises decides the error the whole loop raises |
| `Validator.RunFailureIsFinal` | data_table/is_valid_data_table_yaml.py:53-95 | once an entry raises, further entries do not change the result |
| `Validator.Flatten` | data_table/is_valid_data_table_yaml.py:53-55 | the entries visited are exactly the entries of the table's sections, no more and no fewer |
| `Validator.FlattenAt` | data_table/is_valid_data_table_yaml.py:53-55 | entry i of section s is visited after all entries of earlier sections and after entries 0..i-1 of its own section |
| `Validator.Validate` | data_table/is_valid_data_table_yaml.py:53-95 | the script runs to its end exactly when every entry, in visiting order, passes with the bindings it inherits; otherwise it raises the error of an entry that fails after every earlier entry passed |
| `Validator.FaultyEntryRejectsTable` | data_table/is_valid_data_table_yaml.py:56-95 | a table holding, anywhere, an entry with a missing or invalid gridname, fieldname_code or factor, an invalid interpolation method or empty fieldname_file of its own, or a bad region, is rejected |
| `Validator.UnsetVariableRejectsTable` | data_table/is_valid_data_table_yaml.py:67-77 | if no entry up to and including entry k sets fieldname_file (or interpol_method), the table is rejected |
| `Validator.AcceptedTableBindings` | data_table/is_valid_data_table_yaml.py:73-77 | in an accepted table every entry is checked with an allowed interpolation method and a non-empty fieldname_file, given or inherited |
| `Validator.ValidateEntry` | data_table/is_valid_data_table_yaml.py:55-95 | the imperative entry body returns the outcome of CheckEntry and, on success, the rebound carried variables |
| `Validator.ValidateDataTable` | data_table/is_valid_data_table_yaml.py:53-95 | the nested loop over sections and entries returns exactly Validate(table): Pass or the first error raised |
| `Examples.FirstEntryWithoutFileIsRejected` | data_table/is_valid_data_table_yaml.py:67-77 | an entry with gridname OCN, fieldname_code sst, interpol_method none and factor 1 fails with an unbound fieldname_file when it comes first |
| `Examples.EntryWithFileIsAccepted` | data_table/is_valid_data_table_yaml.py:56-95 | the same entry with a fieldname_file is accepted |
| `Examples.LaterEntryInheritsFile` | data_table/is_valid_data_table_yaml.py:67-77 | an entry in a later section reuses the fieldname_file of an earlier section's entry |
| `Examples.UnknownGridnameIsReported` | data_table/is_valid_data_table_yaml.py:19-22 | gridname SEA is reported as an invalid grid name with its value |
| `Examples.InvertedLatitudeEntryFails` | data_table/is_valid_data_table_yaml.py:84-91 | an inside-region entry with lat_start 10 and lat_end 5 fails its region check at the latitude axis |
| `Examples.InvertedLatitudeIsReported` | data_table/is_valid_data_table_yaml.py:89-91 | lat_start 10 with lat_end 5 is reported against the latitude axis |

## Left out

- Command-line parsing (lines 11-17), opening the file and `yaml.safe_load` (lines 51-52). These are I/O and a foreign library. The model starts from an already parsed table.
- Documents that are not a mapping of lists of mappings (an empty document, a section whose value is not a list, an entry that is not a mapping). The script fails on these with Python errors that the model does not represent.
- Duplicate section names: the table is an ordered list of sections, which a YAML mapping with unique keys is a special case of.
- The wording of the exception messages. Errors are modelled as kinds, carrying the offending value where the message names it. When the offending value is not a string, the script's message concatenation itself raises a TypeError instead of the intended exception; both are one failure in the model.
- `file_name` (lines 70-71) and the value of `factor` (line 82) are read and never checked, so they are not modelled.
- Checks.Greater: floating-point numbers are modelled as exact reals (NaN and infinities are left out). Lists, timestamps (`!!timestamp` dates and datetimes), binary (`!!binary` bytes) and sets (`!!set`) are all `Other`, which the model cannot order, so a region whose bounds are two such values is reported as `Incomparable`. Python orders two lists or two byte strings lexicographically, two timestamps chronologically and two sets by proper superset, so it can accept such a region, for example `lat_start: 2019-01-01, lat_end: 2020-01-01`.
