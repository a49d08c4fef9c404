# SOBEK HIS and DM MPX file readers, modelled in Dafny

This project models the binary time-series formats of a Python toolbox for SOBEK and RIBASIM
model output, and proves properties of the model. It covers three pieces of that toolbox.

- The HIS codec (`his/his.py`).
  - A HIS file holds a 120-byte header and a 40-byte time-info block
    (`T0: yyyy.mm.dd hh:mm:ss  (scu=nnnnnnnns)`).
  - Then come the parameter and station counts as little-endian i32, one 20-byte name per
    parameter, and one record per station: an i32 number and a 20-byte name.
  - Then one record per time step: an i32 tick, followed by the float32 cells of each station,
    parameter by parameter.
  - The number of steps is not stored: `read` derives it from the file size.
  - `write` lays the same structure out and asserts its final length.
  - A `.hia` sidecar can replace station and parameter names with long names (`_update_long`).
- The DM MPX reader (`his/mpx.py`).
  - It reads a 240-byte preamble with 40 bytes per series, then pads to a record boundary.
  - It then reads the 16-bit location ids, corrected to unsigned, and pads to the next
    record boundary.
  - It then reads one record per step: a 2-byte index and one float32 per location.
  - Finally it asserts that the cursor has reached the end of the file.
- The RIBASIM variant of the HIS reader (`prep/Prompt/ribasim_his.py`).
  - It uses the same binary decode.
  - Long parameter names are applied whenever a sidecar exists.
  - Parameter names are made legal for netCDF by a fixed chain of substitutions
    (`_update_illegal_characters`).
  - Station ids are the file stem's feature type followed by the station number. When `hia`
    is set and a sidecar exists, the long location name is used instead: sanitised, with
    underscore runs collapsed.
  - Units are taken from the bracketed part of each long parameter name (`_get_units`).

Files and modules:

| file | module | contents |
|---|---|---|
| `results.dfy` | `Results` | `Option`, `Result`, and the `Error` kinds that stand for the Python exceptions |
| `arith.dfy` | `Arith` | `int()` of a true division (truncation toward zero), floor division |
| `bytes.dfy` | `Bytes` | bytes, 4-byte cells, clamped cursor reads, little-endian integers, ASCII text, `bytes.rstrip()` |
| `pytext.dfy` | `PyText` | Python string operations: slicing, `replace`, `strip`, `int()`, `str()`, `{:8d}` |
| `timeinfo.dfy` | `TimeInfo` | the 40-byte time-info block: the writer's format and the reader's field extraction |
| `sidecar.dfy` | `Sidecar` | `_update_long`, as an in-place method over an array, with its specification |
| `his.dfy` | `His` | the HIS reader: a cursor-driven method proved against the decode function; the HIS writer: a byte-emitting method proved against the encode function |
| `roundtrip.dfy` | `HisRoundTrip` | what `read` gives back for every file `write` produces |
| `hisread.dfy` | `HisRead` | `read` as a whole: decode, then the sidecar names |
| `mpx.dfy` | `Mpx` | the MPX reader and its padding arithmetic, the strict reading, and the truncation finding |
| `ribasim.dfy` | `Ribasim` | the sanitiser, the units, the station ids and `readhis` |

## Modelling choices

- **Inputs are values.** File contents are a byte sequence. The parsed `.hia` sidecar is an
  `Option<Config>`: `None` means no sidecar file exists. A `Config` maps a section name to its
  (key, value) items, in file order. The file stem that `readhis` uses is a parameter.
- **Errors are values.** Every exception the model covers is an `Error` returned in a
  `Result`; the exceptions it does not cover are listed under "Left out". The first failure met in source order is the one returned.
  - A zero-length file gives `EmptyFile`.
  - Non-ASCII text gives `BadText`.
  - A time-info block that `strptime` or `int()` refuses gives `BadTimeInfo`.
  - A short `unpack` gives `ShortRead`.
  - An integer the writer cannot pack gives `OutOfRange`.
  - A zero divisor gives `ZeroDivision`.
  - A negative `np.zeros` dimension gives `NegativeDimension`.
  - A sidecar key `int()` refuses gives `BadKey`.
  - A sidecar key outside the list gives `BadIndex`.
  - A failing `assert` gives `LayoutMismatch`.
  - A negative `f.read` length other than -1 gives `BadReadLength`.
  - A row that cannot be broadcast gives `ShapeMismatch`.
- **Cursor reads.** `f.read(n)` near the end of a file returns fewer bytes. The model clamps
  every read to the file (`Bytes.Clamp`, `Bytes.Slice`). A short read matters only where it
  makes `unpack` fail.
- **State.**
  - `_update_long` mutates its list in place, so `Sidecar.UpdateLong` works on an
    `array<string>`.
  - The HIS reader fills an `array3` cube and the MPX reader an `array2` table, one column or
    row at a time.
  - The writer appends to an output byte sequence.
  - Each method is proved equal to a specification function (`Sidecar.Updated`, `His.Decode`,
    `His.Encode`, `Mpx.Decode`, `Ribasim.ReadHisSpec`). The properties are then lemmas about
    those functions.
- **Cells.** Float32 cells are opaque 4-byte words (`Bytes.Word`), copied and never
  interpreted.
- **Time.**
  - Times are whole seconds after `t0`. The reader's times are `tick * scu`.
  - The writer's tick is `int(seconds / scu)`, which truncates toward zero.
  - `t0` keeps its six date fields.

Where the system's written description and the code differ, the model follows the code.

- A sidecar key outside the list is not ignored. `lst[i] = v` raises `IndexError`
  (`BadIndex`). A key of 0 addresses the last element, through Python's negative indexing.
- The sanitiser applies `"- "`→`out_` before it removes spaces. So `"Out- flow#1"` becomes
  `"Outout_flowNr1"`, not `"Out_out_flowNr1"`.
- The unit of `"a (b(c)"` is `"b"`. `split('(')[1]` also stops at a second `(`, not only at
  the first `)`.
- A sidecar's long parameter names are applied in `readhis` whether or not `hia` is set.
  Long location names are applied only when `hia` is set.

## Model

| member | source | states |
|---|---|---|
| Sidecar.UpdateLong | his/his.py:21-27 | the array after the in-place update is exactly `Updated` of the old contents; on failure, the error is that of `Updated` (the copy at prep/Prompt/ribasim_his.py:15-21 is identical) |
| Sidecar.BuildDict | his/his.py:24 | the dict comprehension fails exactly when `int()` refuses some key; otherwise it is the dict of the (k − 1, v) pairs, keys in first-seen order and later values winning |
| Sidecar.DictFacts | his/his.py:24 | the dict's keys are distinct; each key holds the value of its last pair; every key of a pair is in the dict |
| Sidecar.AssignAll | his/his.py:25-26 | assigning the dict entries in order updates the array exactly as `Assign` says, stopping at the first bad index |
| Sidecar.ListIndex | his/his.py:26 | `lst[i]` is defined exactly for −n ≤ i < n; a negative index addresses position i + n |
| Sidecar.UpdatedPositional | his/his.py:21-27 | when every key is 1..len(lst), the update succeeds; position k − 1 gets the last value given for key k, and every other position keeps its old name |
| Sidecar.UpdatedLength | his/his.py:22-27 | a successful update keeps the list length; an absent section leaves the list unchanged |
| Sidecar.UpdatedOutOfRange | his/his.py:25-26 | any key outside −len..len (after subtracting 1) makes the whole update fail with IndexError |
| Sidecar.AssignOnlyBadIndex | his/his.py:25-26 | the assignment loop can fail only with IndexError |
| Sidecar.AssignFailed | his/his.py:25-26 | once an assignment fails, later entries do not change the outcome |
| Sidecar.ZeroKeyReplacesLast | his/his.py:24-26 | a section whose only key is "0" replaces the last element of a non-empty list |
| Bytes.I32RoundTrip | his/his.py:50 | unpacking the 4 bytes that `pack("i", x)` produced gives back x, for every 32-bit x |
| Bytes.I16At | his/mpx.py:41 | a signed 16-bit read lies in −32768..32767 and is the unsigned reading, or that reading minus 65536 |
| Bytes.RStripFacts | his/his.py:54 | `rstrip` returns a prefix that does not end in whitespace, and everything it removes is whitespace |
| Bytes.TextRoundTrip | his/his.py:41 | decoding the ASCII encoding of an ASCII string gives the string back |
| PyText.FormatIntParses | his/his.py:99 | `int()` of the `{:Nd}` rendering of n is n, for every width |
| PyText.EndsInLetterIsNoInt | his/his.py:45-49 | text ending in a letter (the unit "s") is refused by `int()`, which is why the reader retries one place earlier |
| PyText.StripPadded | his/his.py:46 | `int()` ignores the spaces that `{:8d}` puts in front of the digits |
| PyText.ReplaceIntroducesOnly | prep/Prompt/ribasim_his.py:33-35 | every character after `replace` was in the input or in the replacement |
| PyText.ReplaceRemoves | prep/Prompt/ribasim_his.py:33-35 | replacing every occurrence of a character by text without it leaves none of it |
| PyText.ReplaceAbsent | prep/Prompt/ribasim_his.py:33-35 | `replace` changes nothing when the pattern cannot occur |
| TimeInfo.IntToStringWidth8 | his/his.py:99 | `str(n)` has at most 8 characters exactly when n is in −9999999..99999999 |
| TimeInfo.YearText | his/his.py:98 | `%Y` of a year of 1000 or later is 4 digits (the two two-digit halves); earlier years are shorter where `%Y` is not zero-padded (see Left out) |
| TimeInfo.FormatLength | his/his.py:98-100 | the time-info block is 40 characters exactly when the year text plus the padded scu take 12 characters; so with a 4-digit year exactly when scu fits 8 characters; where `%Y` is not zero-padded (see Left out), with a fitting scu exactly when the year has 4 digits |
| TimeInfo.ShortYearNoDate | his/his.py:43-44 | with a 3-digit year the date text the reader assembles is refused by `strptime` |
| TimeInfo.ParseFormattedDate | his/his.py:44 | `strptime` of the `strftime` rendering of a valid date-time gives back that date-time |
| TimeInfo.FieldsOfFormat | his/his.py:43-46 | the slices [4:14], [14:23] and [30:-2] of the written block are the date, the time and the padded scu |
| TimeInfo.ReadBackFormat | his/his.py:43-49 | the reader recovers t0 and scu from the block the writer emits |
| TimeInfo.ReadBackEarlierUnit | his/his.py:47-49 | for a block with the unit letter one place earlier, the fallback `int(timeinfo[30:-3])` recovers scu |
| His.StepsFit | his/his.py:51-53 | the step count derived from the file size never places a step record past the end of the file |
| His.ReadParam | his/his.py:54 | one parameter name: read exactly when its bytes are ASCII, and then the right-stripped 20-byte field; the cursor moves 20 bytes (clamped) |
| His.ReadParams | his/his.py:54 | the parameter loop succeeds exactly when every name is ASCII; it returns the names of the decode function and leaves the cursor at the station table |
| His.ReadName | his/his.py:58 | `f.read(20).rstrip()` at the cursor is the stripped field at that offset, and the cursor moves 20 bytes (clamped) |
| His.ReadStation | his/his.py:57-58 | one station record: ShortRead exactly when its number is cut off, BadText exactly when its name is not ASCII; otherwise its number and name |
| His.ReadStations | his/his.py:55-58 | the station loop fails with the first station error; otherwise it returns the numbers and stripped names of every station, and the cursor after them |
| His.ShortStation | his/his.py:57 | a station whose number the file cuts off makes the read fail with ShortRead, once all earlier stations were readable |
| His.BadStation | his/his.py:58 | a station with a non-ASCII name makes the read fail with BadText |
| His.StationsRead | his/his.py:56-58 | when every station is readable, the station loop reports no error |
| His.ReadColumn | his/his.py:65-66 | `data[:, t, s] = fromfile(...)` fills exactly the column (t, s) from the cells at its offset, leaves every other column as it was, and advances the cursor by 4·noout |
| His.ReadStep | his/his.py:61-66 | one time step: the tick is the i32 at the step's offset, every column of the step is filled, and the cursor stands at the next step |
| His.ReadSteps | his/his.py:59-66 | the step loop yields exactly the times (tick·scu) and the (param, time, station) cube the decode function defines |
| His.ReadBody | his/his.py:50-66 | everything after the time-info block equals the decode function, failures included |
| His.ReadBinary | his/his.py:37-66 | the whole binary read equals `His.Decode`: the empty-file error, text, time-info and count failures in source order, and the decoded contents (prep/Prompt/ribasim_his.py:63-92 repeats this code) |
| His.FormatIsAscii | his/his.py:98-100 | the time-info block the writer builds is always ASCII, so its `encode("ascii")` cannot fail |
| His.WriteStations | his/his.py:107-111 | the station loop appends, for each station j, `pack("i", j)` and the 20-byte padded name |
| His.WriteStep | his/his.py:117-120 | one step appends the packed tick and then, station by station, the cells of every parameter |
| His.WriteSteps | his/his.py:115-120 | the step loop succeeds exactly when every tick fits an i32, and then appends every step in order |
| His.WriteTail | his/his.py:115-124 | the tail of the writer fails exactly when the dataset is not writable, with the first failure the writer meets; otherwise it appends the step records |
| His.Write | his/his.py:91-124 | the writer's output equals `His.Encode`: the layout, or the first failure (text, packing, zero scu, length assertion) |
| HisRoundTrip.SizeIsExpected | his/his.py:121-124 | the length the writer asserts is the size of the layout the reader expects |
| HisRoundTrip.LayoutRegions | his/his.py:97-111 | the written file has the header at 0..120, the time-info block at 120..160, then the counts, names, stations and steps at the offsets the reader uses |
| HisRoundTrip.EncodeSucceeds | his/his.py:97-124 | a write succeeds exactly when the dataset is writable and the time-info block is 40 characters; the output is then the layout |
| HisRoundTrip.CountsBack | his/his.py:103 | the reader finds the parameter and station counts the writer packed |
| HisRoundTrip.NotimBack | his/his.py:51-53 | on a written file the size formula gives back exactly the number of steps written, with no remainder |
| HisRoundTrip.ParamsBack | his/his.py:54 | the reader gets back each parameter name as stored (truncated to 20, padded, right-stripped) |
| HisRoundTrip.StationsBack | his/his.py:55-58 | the reader gets back the station numbers 0..noseg−1 and each station name as stored |
| HisRoundTrip.TimesBack | his/his.py:61-64 | the reader gets back each time as its tick times scu |
| HisRoundTrip.CubeBack | his/his.py:65-66 | the reader gets back every cell in its (param, time, station) position |
| HisRoundTrip.BodyBack | his/his.py:50-66 | decoding the body of a written file gives exactly the canonical dataset |
| HisRoundTrip.WriteThenRead | his/his.py:30-124 | for every writable dataset with a 4-digit year and an 8-character scu, write succeeds and reading its output gives the canonical dataset, with notim recovered exactly |
| HisRoundTrip.StoredNameFacts | his/his.py:104-105 | a stored name is a prefix of the original of at most 20 characters, and equals it exactly when the name is clean (ASCII, at most 20, no trailing NUL or whitespace) |
| HisRoundTrip.CleanIsCanonical | his/his.py:30-124 | a dataset with a 120-character header, clean names, positional station numbers and whole non-negative multiples of a positive scu survives the round trip unchanged |
| HisRoundTrip.UnreadableWrite | his/his.py:98-100 | where `%Y` is not zero-padded (see Left out), with a 3-digit year and a 9-digit scu, `write` succeeds, yet `read` fails on its output with the time-info error |
| HisRoundTrip.CheckedEncodeReads | his/his.py:91-124 | the writer with the intended layout check accepts exactly what `write` accepts with a 4-digit year and an 8-character scu, and every file it produces reads back as the canonical dataset |
| HisRead.Read | his/his.py:30-88 | `read` equals `HisRead.ReadSpec`: decode, then the sidecar names when `hia` is set and the sidecar exists |
| HisRead.ReadSpecFacts | his/his.py:68-75 | without `hia` or without a sidecar the result is the binary decode; a decode failure is passed on; a successful read differs from the decode only in names, and keeps their number |
| Mpx.ReadPreamble | his/mpx.py:29-65 | the preamble read succeeds exactly when the file holds the 30 bytes up to the counts; it yields the signed counts, and the cursor stands at 240 + 40·series (clamped) |
| Mpx.Padding | his/mpx.py:61-82 | for nlocs ≥ 0, the first skip is positive (ids start more than 40 bytes after the preamble), the second skip is 2 + 2·nlocs, and both the ids and the data start on a record boundary |
| Mpx.LocIdIsUnsigned | his/mpx.py:72-76 | a corrected location id lies in 0..65535 and is the unsigned reading of its two bytes |
| Mpx.IdsAre | his/mpx.py:70-76 | the id list is the list of unsigned readings, in file order |
| Mpx.ReadIds | his/mpx.py:70-77 | the id loop succeeds exactly when the file holds all ids, returns them in order, and leaves the cursor after them |
| Mpx.FromFile | his/mpx.py:89 | `np.fromfile` returns the whole cells that are left, at most nlocs, and leaves the cursor after them or at end of file |
| Mpx.ReadRecord | his/mpx.py:87-89 | one record fills exactly its row as the record function says (broadcasting a single cell), fails as it says, and leaves every other row unchanged |
| Mpx.ReadSteps | his/mpx.py:85-89 | the record loop yields exactly the rows and end cursor of the record function |
| Mpx.RecordsExact | his/mpx.py:86-89 | when the file holds every record whole, the rows are the cells at the record offsets, and the cursor ends after the last record |
| Mpx.ReadIdsAndSteps | his/mpx.py:69-91 | the reader from the ids on equals the decode function |
| Mpx.Read | his/mpx.py:27-91 | `read` equals `Mpx.Decode`, the code as written |
| Mpx.DecodeExact | his/mpx.py:27-91 | a file of exactly the nominal size decodes to the reference frame: labels 1..steps, unsigned ids, and the rows at the record offsets |
| Mpx.StrictIsExact | his/mpx.py:91 | a file the strict reader accepts has exactly the nominal size (data start + steps·record size) |
| Mpx.CutFileAccepted | his/mpx.py:89-91 | a file cut 4 bytes short of its last record passes the size check and yields a fabricated row, while the strict reader refuses it |
| Ribasim.SanitizeAllFacts | prep/Prompt/ribasim_his.py:29-36 | every name of the sanitised list is legal; sanitising the list again changes nothing; the list comes back unchanged exactly when every name was already legal |
| Ribasim.RepsLegal | prep/Prompt/ribasim_his.py:33-35 | no replacement text holds an illegal character |
| Ribasim.SanitizeLegal | prep/Prompt/ribasim_his.py:33-35 | a sanitised name holds none of `: . / , ( ) [ ] < > % #` or space |
| Ribasim.SanitizeFixed | prep/Prompt/ribasim_his.py:33-35 | the sanitiser leaves a name unchanged exactly when the name is already legal |
| Ribasim.SanitizeIdempotent | prep/Prompt/ribasim_his.py:33-35 | sanitising twice is sanitising once |
| Ribasim.SplitHead | prep/Prompt/ribasim_his.py:49 | `s.split(c)[0]` is the text before the first c, or all of s |
| Ribasim.SplitTail | prep/Prompt/ribasim_his.py:49 | `s.split(c)[1]` is the text after the first c, up to the next c |
| Ribasim.BetweenMeaning | prep/Prompt/ribasim_his.py:49 | `split(open)[1].split(close)[0]` is the text after the first `open`, up to the next `open`, the next `close`, or the end |
| Ribasim.UnitOfMeaning | prep/Prompt/ribasim_his.py:48-52 | a name with `(` has the unit delimited by `(`; otherwise a name with `[` has the unit delimited by `[`; a name with neither has no unit |
| Ribasim.UnitsKeys | prep/Prompt/ribasim_his.py:46-53 | a legal name is a key of the units dict exactly when some pair of the zip has that legal name and a long name with a unit |
| Ribasim.UnitsLast | prep/Prompt/ribasim_his.py:46-53 | the value under a key is the unit of the last pair that stores under that key |
| Ribasim.LStripChar | prep/Prompt/ribasim_his.py:100 | `lstrip('__')` removes exactly the leading run of `_`: the result is a suffix that does not start with `_`, and everything removed is `_` |
| Ribasim.NumberIdsReadBack | prep/Prompt/ribasim_his.py:110 | each number-based id is the feature type followed by text that `int()` reads back as the station number, so distinct station numbers give distinct ids |
| Ribasim.NameIdsLegal | prep/Prompt/ribasim_his.py:104-107 | every id built from a name starts with the feature type, and the rest is legal |
| Ribasim.CollapseKeepsLegal | prep/Prompt/ribasim_his.py:106 | the underscore collapse keeps a legal name legal |
| Ribasim.CollapseRun | prep/Prompt/ribasim_his.py:106 | a run of n underscores collapses to the run left by squeezing groups of 5, then 4, then 3, then 2 |
| Ribasim.CollapseLeavesDouble | prep/Prompt/ribasim_his.py:105-106 | a run of 39 underscores collapses to `"__"`, not to one underscore |
| Ribasim.SingleUnderscores | prep/Prompt/ribasim_his.py:105 | the intended collapse: no space and no two adjacent underscores remain, and every character comes from the input |
| Ribasim.SingleUnderscoresKeeps | prep/Prompt/ribasim_his.py:105 | the intended collapse keeps every character other than `_` and space, in order, and a name with an underscore keeps one |
| Ribasim.SingleUnderscoresRun | prep/Prompt/ribasim_his.py:105 | under the intended collapse every run of underscores becomes one underscore |
| Ribasim.SingleUnderscoresLegal | prep/Prompt/ribasim_his.py:105 | the intended collapse keeps a legal name legal |
| Ribasim.ApplyLongParams | prep/Prompt/ribasim_his.py:94-98 | the parameter list, updated in place when a sidecar exists, equals `LongParams` |
| Ribasim.LongParamsLength | prep/Prompt/ribasim_his.py:98 | applying long parameter names keeps the number of parameters |
| Ribasim.VariablesLegal | prep/Prompt/ribasim_his.py:99 | every variable name of the dataset is legal |
| Ribasim.MakeStations | prep/Prompt/ribasim_his.py:102-110 | the station-id step, with its in-place update, equals `Stations` |
| Ribasim.BuildDataset | prep/Prompt/ribasim_his.py:94-130 | everything after the binary decode equals `Build` |
| Ribasim.BuildVariables | prep/Prompt/ribasim_his.py:94-130 | one legal variable per parameter; a unit is stored under a variable exactly when a long name paired with it has a unit; without a sidecar the long names are the decoded names; with a sidecar whose keys are in range, whatever `hia` says, parameter k − 1 takes the last long name for key k, and the build fails only where the station ids fail |
| Ribasim.BuildStations | prep/Prompt/ribasim_his.py:100-110 | one station id per station, each starting with the feature type |
| Ribasim.StationIdRules | prep/Prompt/ribasim_his.py:100-110 | every id starts with the feature type; without `hia` or without a sidecar, id j is built from station number j and reads back as that number; with both, it is built from long location name j, sanitised and collapsed, and the part after the feature type is legal |
| Ribasim.HiaOnlyStations | prep/Prompt/ribasim_his.py:94-110 | `hia` changes nothing but the station ids |
| Ribasim.DecodedStations | prep/Prompt/ribasim_his.py:82-84 | a decoded file has as many station numbers as station names |
| Ribasim.ReadersAgree | prep/Prompt/ribasim_his.py:55-136 | `readhis` and `read` fail alike on a file that does not decode; when both succeed they agree on header, t0, scu, times and cube, with one station id per station; with `hia` and a sidecar they succeed together and `readhis`'s long parameter names are `read`'s names; without `hia`, `read` ignores the sidecar |
| Ribasim.ReadHis | prep/Prompt/ribasim_his.py:55-136 | `readhis` equals `Ribasim.ReadHisSpec`: the binary decode, then `Build` |

## Left out

- xarray and pandas containers. The `Dataset`/`DataFrame`, its coordinates and its CF
  attributes become plain records: `His.HisData`, `Ribasim.Dataset` and `Mpx.Frame`.
- Name collisions. A dict comprehension keyed by variable name keeps only the last of two
  equal names. `Ribasim.Dataset` keeps both names, each beside its cube slice.
- The assertion `da.dims != ("variable", "time", "station")` (his/his.py:113). It depends on
  the dimension order of xarray's `to_array`, which is not modelled. The model takes the cube
  as (param, time, station) and treats the assertion as passing.
- The attribute loop `zip(param_units, params)` (prep/Prompt/ribasim_his.py:132-134). It only
  sets xarray attributes, and pairs dict keys with names by position.
- `readhis` stores `t0` as `str(startdate)`; the model keeps the date-time fields.
- File access. `getsize`, `open` and the `.hia` existence test are replaced by the parameters
  explained above. `configparser` parsing is replaced by the parsed `Config`.
- Text decoding. UTF-8 decoding is modelled as ASCII: a byte of 128 or more is `BadText`.
  Multi-byte UTF-8 names are therefore refused rather than decoded.
- PyText.ParseInt: `int()` is modelled with ASCII digits and ASCII whitespace only. Python also
  accepts other Unicode decimal digits and Unicode whitespace (`int("\u0661")` is 1). A sidecar key
  written that way is `BadKey` in the model, where Python reads it.
- TimeInfo.FormatDateTime: `%Y` is rendered without leading zeros for years below 1000, as
  glibc's `strftime` renders it. `strftime` depends on the platform's C library, and newer
  Python releases zero-pad `%Y` to four digits. There, years below 1000 take 4 characters, so
  `write` behaves differently for them.
- TimeInfo.YearText: the clause about years below 1000 holds only for the unpadded `%Y` rendering.
- TimeInfo.FormatLength: the clause about a year below 1000 holds only for the unpadded `%Y` rendering.
- HisRoundTrip.UnreadableWrite: holds only for the unpadded `%Y` rendering. Where `%Y` is zero-padded,
  the year 999 with scu 123456789 gives a 41-character block. The length assertion at
  his/his.py:121-124 then fires instead, and year 999 with an 8-digit scu reads back.
- Float32 cells are opaque words. No float value or rounding is modelled.
- Float division. `int(x / y)` on the step count and the tick is modelled as integer
  division truncated toward zero; double-precision rounding is not modelled.
- Calendar arithmetic. `datetime + timedelta` and `pd.Timestamp` are not modelled: times are
  seconds after `t0`. So the `OverflowError` that `startdate + timedelta(seconds=ts * dt)`
  raises (his/his.py:63, prep/Prompt/ribasim_his.py:89) is not modelled. It happens for a huge
  `tick * scu`, or for a date past the year 9999. `His.Decode` succeeds on such files.
- TimeInfo.ParseDateTime: `strptime` is modelled on the fixed 19-character layout with two-digit
  fields, and it checks only field ranges (day 1..31). It does not model `strptime`'s one-digit
  fields or the month-length check.
- His.Write: the dataset's `time` values are taken as seconds after `t0`; converting
  `numpy.datetime64` values is not modelled.
- Mpx.FromFile: a cut-short `np.fromfile` is taken to have consumed the file to its end. Its
  exact cursor behaviour on a partial cell is not modelled.
- Mpx.Read: models the code as written, including the acceptance of cut files (see Findings).
  `Mpx.DecodeStrict` is the corrected reading.
- Ribasim.ReadHis: uses the underscore collapse as written (see Findings).
- His.Write: models the writer as written, which can produce a file `read` refuses (see Findings); `HisRoundTrip.CheckedEncode` is the corrected writer.
  `Ribasim.SingleUnderscores` is the corrected collapse.
- Ribasim.Sanitize: the worked examples (`"Flow (m3/s)"` → `"Flow_m3_s_"`) are not proved as
  concrete instances. The general properties are proved instead: legality, fixed points and
  idempotence.
- The MPX header strings (map name, time-step kind, quantity, unit, series ids) are read and
  discarded by the source. They are modelled only as bytes the cursor passes over.

## Findings

| source | as written | input that shows it | evidently intended | confidence | as-written member | corrected member |
|---|---|---|---|---|---|---|
| his/mpx.py:89-91 | `np.fromfile` stops quietly at end of file, and a single cell is broadcast across the row; the final `filesize - f.tell() == 0` check then passes for a file whose last record is cut short with exactly one whole cell left after its index (no cell, or from 2 to nlocs − 1 cells, raises ValueError instead) | a 306-byte file with nlocs = 2, steps = 1, series = 0: the data start at 300, and the one record holds the index and only one of its two cells | a file whose records are not all whole is refused | not executed; medium | Mpx.CutFileAccepted (with Mpx.Decode) | Mpx.DecodeStrict with Mpx.StrictIsExact and Mpx.DecodeExact |
| prep/Prompt/ribasim_his.py:105-106 | the chain `replace('_____','_')…replace('__','_')` squeezes groups of 5, 4, 3 and 2 once each | a long location name holding a run of 39 underscores collapses to `"__"` (39 → 11 → 5 → 3 → 2) | only single `_` remain, as the comment on line 105 says | not executed; high | Ribasim.CollapseLeavesDouble (with Ribasim.CollapseRun) | Ribasim.SingleUnderscores with Ribasim.SingleUnderscoresRun |
| his/his.py:98-100, 121-124 | the writer checks only the total file length; where `strftime` does not zero-pad `%Y` (glibc's rendering, see Left out), it writes a 3-digit year in 3 characters and `{:8d}` a 9-digit scu in 9, so the time-info block is still 40 characters | on such a platform, a dataset with t0 in the year 999 and scu = 123456789: the block `T0: 999.01.01 00:00:00  (scu=123456789s)` is written, and the reader's `timeinfo[4:14]` is `999.01.01 `, so the date text it assembles is refused by `strptime` | `write` produces only files `read` can read | not executed; medium, platform-dependent | HisRoundTrip.UnreadableWrite | HisRoundTrip.CheckedEncode with HisRoundTrip.CheckedEncodeReads |
