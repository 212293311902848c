# Near-Earth object loader and writer: a Dafny model

This project models the two pure projections at the heart of the
near-Earth-object tool's input and output code. It states their behaviour as
total functions over sequences and proves properties of them.

- **Close-approach loading** (`load_approaches` in extract.py). The decoded
  JSON document arrives as `fields`, `count` and `data`. Each of the first
  `count` rows becomes a record that maps `fields[j]` to `row[j]` for the
  eleven positions `j = 0..10`. A missing row, a short row or a short field
  list raises IndexError. The model returns it as a `LoadError`, and the
  error names the subscript Python evaluates first. The method
  `Extract.LoadApproaches` follows the source's nested loops. It is proved
  equal to the recursive reference definition `Extract.ApproachRecords`.
  `load_neos` becomes `Extract.LoadNeos`: one object per reader row, in
  order, built by a constructor passed in as a parameter.
- **Result writing** (`write_to_csv` and `write_to_json` in write.py). Each
  close approach and its near-Earth object become one seven-column CSV row
  under a fixed header, or one JSON object with a nested `neo` object. The
  per-field rules are stated as column and key specifications
  (`Write.DescribesCsv`, `Write.DescribesJson`):
  - a `None` name becomes `""`;
  - a falsy diameter, absent or zero, becomes `""`;
  - hazardous becomes `"True"`/`"False"` in CSV and stays a boolean in JSON;
  - the CSV designation comes from the approach, the JSON one from the object.

  The encoder's `default` hook is modelled by `Write.Encode`, which walks the
  JSON value and renders every date-time as `YYYY-MM-DD HH:MM`
  (`DateFormat.Format`). A parser, `DateFormat.Parse`, is its proved inverse.

Two behaviours of the code are kept as written:

- **`count` decides the number of rows.** The loader returns `count`
  records, not one per row of `data`. If `count` exceeds the data, the load
  fails: the first faulty row decides the error, so it is
  `MissingRow(|data|)` only when every present row maps, and a short row or
  a short field list is reported first otherwise. A negative `count` gives
  an empty result, as `range` does.
- **Diameter truthiness.** The writers test the diameter with Python
  truthiness, so an exact zero is written like an absent diameter.
  `Write.ZeroDiameterLooksAbsent` proves this.

## Model

| member | source | states |
|---|---|---|
| Extract.MapRowKeys | extract.py:61-63 | the record built from a row has exactly the first `n` field names as its keys |
| Extract.MapRowValues | extract.py:62-63 | each of those names maps to the row value at the last of the first `n` positions that carries it |
| Extract.LoadRows | extract.py:60-65 | loading the first `n` rows succeeds iff no row among them faults; on success there are `n` records and record `k` is built from `data[k]`; on failure the error is that of the first faulty row |
| Extract.LoadRowsStopsAtFault | extract.py:60-63 | once a row faults, loading more rows gives the same error (the first IndexError ends the load) |
| Extract.ApproachRecords | extract.py:57-65 | a successful load has exactly `count` records (none for a negative `count`) |
| Extract.BuildRecord | extract.py:61-63 | the inner loop succeeds iff the row and the field list both have at least 11 entries; it then yields the 11-position record; otherwise it names the row when the row runs out first, else the field list |
| Extract.LoadApproaches | extract.py:42-68 | the nested loops compute exactly the reference result, including which IndexError is raised |
| Extract.LoadNeos | extract.py:21-39 | one object per input row, in input order, each built from that row's whole mapping |
| Extract.LoadSucceedsIff | extract.py:57-63 | the load succeeds iff `count <= 0`, or `count` at most the number of rows with at least 11 field names and 11 entries in each of the first `count` rows; otherwise it fails and returns no partial result |
| Extract.RecordFromItsRow | extract.py:60-65 | record `k` maps `fields[j]` to `data[k][j]` whenever no later name among the eleven repeats `fields[j]` |
| Extract.DistinctNamesMapPositionally | extract.py:62-63 | with eleven distinct names, every record maps `fields[j]` to `data[k][j]` for all `j < 11` |
| Extract.DuplicateNameKeepsLater | extract.py:63 | when two of the eleven names coincide, the record keeps the later position's value |
| Extract.MapRowReadsPrefix | extract.py:62-63 | a record depends only on the first `n` names and values |
| Extract.TrailingColumnsIgnored | extract.py:62 | columns and field names at positions 11 and beyond never reach a record |
| Extract.LoadRowsReadsPrefix | extract.py:60 | loading `n` rows reads only the first `n` rows of `data` |
| Extract.LoadIgnoresTrailing | extract.py:57-60 | two documents that agree on their first `count` rows load to the same result |
| DateFormat.Pad | write.py:106 | a zero-padded field has exactly its width and holds only digits |
| DateFormat.ValueOfPad | write.py:106 | padding a number that fits the width keeps its value |
| DateFormat.PadOfValue | write.py:106 | every digit string is the padded form of its own value |
| DateFormat.Format | write.py:105-106 | the rendering is 16 characters: digits, with `-` at 4 and 7, a space at 10 and `:` at 13 |
| DateFormat.Parse | write.py:106 | the reading-back of a rendering yields only valid date-times |
| DateFormat.ParseFormat | write.py:105-106 | parsing the rendering of a valid minute-resolution date-time gives the date-time back |
| DateFormat.FormatParse | write.py:106 | every accepted string is the rendering of what it parses to |
| DateFormat.FormatInjective | write.py:106 | distinct valid minute-resolution date-times render differently |
| Write.HeaderLine | write.py:31-41 | the header line has seven distinct text cells, each naming a key of every row dictionary, so the dictionary writer fills every column of every row from that dictionary |
| Write.CsvRecord | write.py:44-60 | the row dictionary has exactly the header's names as keys, so the dictionary writer neither rejects nor fills a column |
| Write.CsvLineDescribes | write.py:40-63 | the written row holds, in header order: time, distance, velocity, the approach's designation, name or `""`, `""` iff the diameter is falsy or else the diameter, and `"True"` iff hazardous, else `"False"` |
| Write.CsvRows | write.py:43-63 | one data row per approach, row `i` written from approach `i` |
| Write.WriteCsv | write.py:18-63 | the output is the header followed by one row per approach in input order, each obeying the column rules; column `k` of every data row holds the row dictionary's value under the name in header cell `k`; empty input gives the header alone |
| Write.Encode | write.py:103-111 | the encoded value holds no date-time; a date-time becomes its `YYYY-MM-DD HH:MM` rendering; array items and object member values are encoded one by one, keeping lengths and keys; a value without date-times is unchanged |
| Write.NeoObjectDescribes | write.py:88-99 | the `neo` object has keys designation, name, diameter_km, potentially_hazardous, with the object's designation, name or `""`, `""` iff the diameter is falsy, and the native boolean |
| Write.EncodeRecord | write.py:84-106 | encoding one element changes only its date-time, which becomes the `YYYY-MM-DD HH:MM` string; the numbers and the `neo` object are kept |
| Write.EncodedRecordDescribes | write.py:84-99 | the encoded element has keys datetime_utc, distance_au, velocity_km_s, neo in that order, with the rendered time, the copied numbers and a `neo` object obeying the per-key rules |
| Write.JsonRecordDescribes | write.py:84-106 | each element has keys datetime_utc, distance_au, velocity_km_s, neo, with the time rendered as `YYYY-MM-DD HH:MM` and distance and velocity copied |
| Write.WriteJson | write.py:66-111 | the output is one array with one encoded object per approach in input order, each obeying the key rules; empty input gives `[]` |
| Write.CsvJsonAgree | write.py:49-99 | the two writers emit the same name and diameter, and the CSV says `"True"` exactly when the JSON boolean is true |
| Write.DesignationSources | write.py:48-89 | the CSV designation is the approach's and the JSON one the object's, so they differ when those differ |
| Write.ZeroDiameterLooksAbsent | write.py:53-97 | a zero diameter is written exactly like an absent one, in both outputs |
| Write.CsvRowsAppend | write.py:43-63 | writing two batches in turn gives the same rows as writing them together |

## Left out

- File opening and closing, `csv.DictReader`, `csv.DictWriter`, `json.load` and `json.dump`. Inputs and outputs are in-memory values; quoting, escaping, number formatting and newlines are library behaviour.
- A document without the keys `fields`, `count` or `data` raises KeyError, and a `count` that `int()` cannot convert raises an error. The model receives the three parts already extracted, with `count` as an integer.
- Rows or field lists that are not JSON arrays are excluded by the types.
- The `NearEarthObject` and `CloseApproach` constructors and their field coercion live in models.py, which is not part of this model. `Extract.LoadNeos` takes the constructor as a parameter. `Extract.LoadApproaches` returns the keyword maps passed to `CloseApproach`.
- The CSV `datetime_utc` cell keeps the date-time value (`Cell.TimeCell`). Its text comes from `str()` on a models.py object, which is not part of this model.
- Distances, velocities and diameters are `real`. Only the falsy test (absent or zero) is modelled. A NaN diameter would be truthy in Python and is not represented.
- Write.WriteCsv: an approach whose `neo` is unresolved makes the source raise AttributeError after earlier rows were written. `Approach.neo` is a resolved `Neo`, so this case is excluded by the type.
- Write.WriteJson: an approach whose `neo` is unresolved makes the source raise AttributeError. This case is excluded by the type.
- Write.Encode: the hook's fallback, which raises TypeError for other unserializable objects, is not modelled. The modelled values hold only JSON values and date-times.
- DateFormat.Format: years below 1000 are zero-padded to four digits. The platform's `strftime` `%Y` may not pad them.
- Date-times carry minutes, not seconds or microseconds. DateFormat.ParseFormat and DateFormat.FormatInjective hold for these minute-resolution values only: two Python date-times that differ only in seconds render to the same string, so on such values the rendering is neither injective nor invertible.
- The `if results:` guard matters only for the empty sequence. For that input the loop adds no row either, so the guard is not modelled separately.
- Command-line dispatch by file extension, and the join and filter (`NEODatabase`, `limit`) that produce the writers' input.
