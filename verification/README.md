# Placemark records of an active-fire KML feed, in Dafny

`modis_data_script.py` downloads the FIRMS active-fire KML feed. It writes
one CSV row, with a fixed set of columns, for each `Placemark` whose
coordinates are usable. This project
models the part of that script that turns placemarks into rows:

- **Coordinates.** The `coordinates` text is stripped of whitespace and split
  on commas. Fewer than two parts means the placemark is skipped with a
  warning. Otherwise part 0 is the longitude and part 1 the latitude, both
  kept as text. Any altitude part is ignored.
- **Attribute table.** The `<td>` cells of the description are read as
  alternating key and value cells and folded into a dictionary, so a later
  duplicate key overwrites an earlier one.
- **The row.** Each row has 13 columns: latitude, longitude, then eleven
  attributes looked up by their feed labels (`"Acq Date"`, `"Bright T31"`,
  …). A label the table lacks gives the empty string.
- **The file.** The header row comes first. Then, in document order, one row
  follows for each placemark that is not skipped, up to the first placemark
  with an odd cell count.

Modules:

- `Wrappers`: `Option` and `Result`.
- `Seqs`: generic facts about sequences that the proofs use.
- `Text`: Python's `str.strip()`, `str.split(sep)` and `sep.join`.
- `Coordinates`: the position read from the coordinate text.
- `Table`: the cell pairing.
- `Row`: the header and the data row.
- `Conversion`: one placemark, then the whole file. This includes the
  script's loop as a method.

Python whitespace is the 29 characters for which `str.isspace()` holds. A
placemark is reduced to what the loop body reads from it: the raw
coordinate text, and the texts of its `<td>` cells.

Behaviours of the script the model keeps:

- **Odd cell count.** With an odd number of cells, the script reads
  `td_elements[i+1]` one past the end. That raises an `IndexError` nothing
  catches, so the whole run stops rather than only that placemark.
- **Rows already written.** The rows written before the failing placemark
  stay in the file, because the `with` block closes it on the way out. The
  model keeps those rows and reports the error (`Csv.abort`).
- **Check order.** The coordinate check comes before the description is
  read, so a skipped placemark never fails, whatever its cells.

## Model

| member | source | states |
|---|---|---|
| `Text.Split` | modis_data_script.py:50 | Python's `split(',')`: at least one part (the empty text gives one empty part), no part holds the separator, and joining the parts with it gives the text back |
| `Text.SplitJoin` | modis_data_script.py:50 | split inverts join for separator-free parts, so the parts the split returns are the only decomposition of the text |
| `Text.SplitSingle` | modis_data_script.py:50-53 | the split has fewer than two parts exactly when the text holds no comma |
| `Text.SplitAfterHead` | modis_data_script.py:50 | splitting a separator-free head, a separator and a tail gives the head followed by the tail's parts |
| `Text.SplitNoSeparator` | modis_data_script.py:50 | a separator-free text splits into itself alone |
| `Text.StripChars` | modis_data_script.py:49 | the stripped text is no longer than the input and neither begins nor ends with a stripped character |
| `Text.StripCharsPadding` | modis_data_script.py:49 | stripping only removes whitespace: the input is the result with whitespace before and after it |
| `Text.StripPadded` | modis_data_script.py:49 | whitespace around a text that neither begins nor ends with whitespace is removed exactly |
| `Text.Strip` | modis_data_script.py:49 | `strip()` leaves no Python whitespace at either end and never lengthens the text |
| `Text.StripTrimmed` | modis_data_script.py:49 | text without whitespace at its ends is left unchanged by `strip()` |
| `Text.StripIdempotent` | modis_data_script.py:49 | stripping the coordinate text twice is stripping it once |
| `Text.LeadEnd` | modis_data_script.py:49 | the left index of `strip()`: every character it passes is whitespace, and it stops at the first non-whitespace character or the end |
| `Text.TrailStart` | modis_data_script.py:49 | the right index of `strip()`: every character it passes is whitespace, and it stops after the last non-whitespace character or at the left index |
| `Text.LeadEndUnique` | modis_data_script.py:49 | any index that ends a whitespace run starting at the given position is the one the left index finds |
| `Text.TrailStartUnique` | modis_data_script.py:49 | any index that starts a whitespace run ending at the given position, not below the left index, is the one the right index finds |
| `Coordinates.Parse` | modis_data_script.py:50-58 | no position (skip) exactly when the stripped text holds no comma; otherwise longitude and latitude are the first two comma-free fields, in that order |
| `Coordinates.FirstTwoParts` | modis_data_script.py:50-55 | with two or more parts, parts 0 and 1 are the comma-separated leading fields of the text |
| `Coordinates.ParseLeadingFields` | modis_data_script.py:50-55 | any text starting with comma-free `lon,lat` and then ending or continuing after a comma yields exactly that longitude and latitude |
| `Coordinates.AltitudeIgnored` | modis_data_script.py:52-55 | an altitude part, whatever it holds, or its absence, never changes the position read |
| `Table.Entries` | modis_data_script.py:66-70 | entry `p` pairs cell `2p` with cell `2p+1`; an odd count is an index error at the missing index, the cell count |
| `Table.Assign` | modis_data_script.py:67-71 | the dictionary's keys are the entries' keys, and each key holds the value of its last entry |
| `Table.Scrape` | modis_data_script.py:66-71 | the table is produced exactly when the cell count is even, and otherwise the index error names the index one past the last cell |
| `Table.ScrapeGet` | modis_data_script.py:67-87 | looking up a label in the table gives the value after the last key cell with that label, or the empty string, by an independent scan of the cells |
| `Table.ScrapeSnoc` | modis_data_script.py:68-71 | two more cells overwrite the key's value in the table |
| `Table.EntriesSnoc` | modis_data_script.py:68-70 | two more cells give one more entry, at the end |
| `Table.AssignSnoc` | modis_data_script.py:71 | one more entry updates the dictionary at its key |
| `Table.AssignGet` | modis_data_script.py:67-87 | `data.get(label, '')` on the dictionary the assignments build is the value of the last entry with that key, or the empty string when no entry has it |
| `Table.GetUpdate` | modis_data_script.py:71-87 | a lookup after an assignment sees the assigned value under its key and the earlier table under every other label |
| `Table.CollectCells` | modis_data_script.py:66-71 | the script's two-at-a-time loop computes the same table as `Scrape`, or fails with the same index error |
| `Row.HeaderNamesLabels` | modis_data_script.py:35-39 | the header has 13 columns: Latitude, Longitude, then each feed label with its spaces written as underscores |
| `Row.Build` | modis_data_script.py:74-88 | the row has 13 columns, latitude before longitude, and column `i+2` holds the table's value for feed label `i`, or the empty string when the table lacks it |
| `Conversion.Extract` | modis_data_script.py:42-88 | a placemark is skipped exactly when its stripped coordinate text has no comma, and the warning quotes that text; it fails exactly when it is not skipped and has an odd cell count; an emitted row has 13 columns |
| `Conversion.EmittedRow` | modis_data_script.py:49-88 | an emitted row's longitude and latitude are the leading fields of the stripped coordinate text, and each attribute column agrees with the reference scan of the cells |
| `Conversion.ExtractSkip` | modis_data_script.py:53-58 | a comma-free coordinate text gives a skip quoting the stripped text, whatever the cells hold |
| `Conversion.Run` | modis_data_script.py:42-90 | the loop writes at most one row per placemark |
| `Conversion.RunCompletes` | modis_data_script.py:42-90 | the loop finishes without an error exactly when no placemark fails |
| `Conversion.RunAppend` | modis_data_script.py:42-90 | the loop over two stretches writes the first stretch's rows then the second's, unless the first already failed, in which case the second is never reached |
| `Conversion.AbortedRun` | modis_data_script.py:42-90 | a failed loop stopped at its first failing placemark, with exactly the rows of the placemarks before it |
| `Conversion.Convert` | modis_data_script.py:35-90 | line 0 is the header, every line has 13 columns, at most one line per placemark follows it, and the file is complete exactly when every placemark succeeds |
| `Conversion.ConvertAllEmitted` | modis_data_script.py:42-90 | document order: when every placemark gives a row, the file is the header and then one line per placemark, line `k+1` holding placemark `k`'s row |
| `Conversion.RunAllEmit` | modis_data_script.py:42-90 | when every loop iteration emits, the loop completes and writes exactly those rows, one per iteration, in order |
| `Conversion.Steps` | modis_data_script.py:42 | the loop body applied to each placemark in document order: one outcome per placemark, outcome `k` being placemark `k`'s |
| `Conversion.NoPlacemarksExample` | modis_data_script.py:35-42 | a feed without placemarks gives the header row alone and completes |
| `Conversion.ConvertAppend` | modis_data_script.py:42-90 | converting two stretches of placemarks writes the rows of each in order, with one header, unless the first stretch aborts |
| `Conversion.SkippedContributesNothing` | modis_data_script.py:53-58 | a placemark skipped for its coordinates leaves the output unchanged, wherever it stands and whatever its cells |
| `Conversion.AbortedConvert` | modis_data_script.py:42-90 | an aborted file holds the header and exactly the rows of the placemarks before the first failing one, and that placemark's error |
| `Conversion.WriteCsv` | modis_data_script.py:32-90 | the script's header write and placemark loop produce exactly `Convert`'s table and error |
| `Conversion.WriteRows` | modis_data_script.py:42-90 | the placemark loop, stopping at the first failure, writes exactly the rows and error of `Run` |
| `Conversion.FeedRowExample` | modis_data_script.py:49-88 | `-10.5,34.2,0` with Brightness and Confidence cells gives latitude 34.2, longitude -10.5, those two values and empty strings elsewhere |
| `Conversion.SingleComponentExample` | modis_data_script.py:53-58 | coordinate text `34.2` is skipped with a warning quoting it, whatever the cells |

## Left out

- The HTTP fetch and its failure (lines 18-20). It is network I/O. A failed
  fetch ends the run before any row is written.
- XML parsing and namespaced `find`/`findall` (lines 23-29, 44, 46). The model
  takes the placemarks as already found, in document order, with their texts
  as strings. Two crashes are not modelled. A missing `coordinates` or
  `description` element makes `find` return `None`. A present but empty
  element (`<coordinates/>`, `<description></description>`) has `.text`
  equal to `None`. A missing element raises `AttributeError` at `.text`, an
  empty one at `.strip()`. For `coordinates` this happens on line 49, for
  every placemark. For `description` it happens on line 62, only for
  placemarks that are not skipped, so a skipped placemark with a missing or
  empty description is skipped by the script too, as in the model. Either
  error ends the whole run. The model has no `None` text: an
  empty coordinate text is skipped as `Skip("")`, and an empty cell list
  gives a row of empty attribute columns.
- BeautifulSoup (lines 62-66, 69-70). The model takes the cells as the
  `get_text(strip=True)` texts of the `<td>` elements, in document order.
  HTML parsing, and the stripping of the description text, happen before
  that.
- CSV quoting, file opening, `os.makedirs` and the paths (lines 8-15, 32-33).
  The model produces the table of lines that `writer.writerow` receives, not
  the bytes in the file.
- The `print` of the warning (line 57) and of the success message (line 92).
  `Step.Skip` carries the stripped text the warning quotes.
- Exceptions other than the odd-cell index error: network, XML, missing or empty
  elements and disk errors. They all come from the parts above.
