/** The loaders of extract.py with the file handling removed.

    `load_approaches` receives the already-decoded JSON document as its
    three parts (`fields`, `count`, `data`) and turns each of the first
    `count` positional rows into a field-name-keyed record.  `load_neos`
    receives the rows `csv.DictReader` produced and builds one object per
    row.  The object constructors live in models.py, which is not part of
    this model: `load_neos` takes the constructor as a parameter, and
    `load_approaches` returns the keyword maps it would pass to it. */
module Extract {
  import opened Wrappers

  /** The number of leading positions of every close-approach row that
      are given a field name (the fixed `range(11)` of the inner loop). */
  const Width: nat := 11

  /** The IndexError the nested loop raises, located by the subscript that
      fails first. */
  datatype LoadError =
    | MissingRow(row: nat)             // `data[row]` with row past the end of `data`
    | ShortRow(row: nat, column: nat)  // `data[row][column]` with column past the end of the row
    | ShortFields(column: nat)         // `fields[column]` with column past the end of `fields`

  /** The greatest position below `n` that holds `name`. */
  function LastIndexOf(fields: seq<string>, n: nat, name: string): (j: nat)
    requires n <= |fields|
    requires name in fields[..n]
    ensures j < n && fields[j] == name
    ensures forall k :: j < k < n ==> fields[k] != name
  {
    if fields[n - 1] == name then n - 1
    else
      assert fields[..n] == fields[..n - 1] + [fields[n - 1]];
      LastIndexOf(fields, n - 1, name)
  }

  /** The record built from the first `n` positions of `row`: position `j`
      stores `row[j]` under the name `fields[j]`, a later assignment to the
      same name replacing an earlier one (lemmas `MapRowKeys` and
      `MapRowValues`). */
  function MapRow<V>(fields: seq<string>, row: seq<V>, n: nat): map<string, V>
    requires n <= |fields| && n <= |row|
  {
    if n == 0 then map[] else MapRow(fields, row, n - 1)[fields[n - 1] := row[n - 1]]
  }

  /** The names the first `n` positions of `fields` carry. */
  function Names(fields: seq<string>, n: nat): set<string>
    requires n <= |fields|
  {
    set j | 0 <= j < n :: fields[j]
  }

  /** The record's names are exactly the first `n` field names. */
  lemma {:induction false} MapRowKeys<V>(fields: seq<string>, row: seq<V>, n: nat)
    requires n <= |fields| && n <= |row|
    ensures MapRow(fields, row, n).Keys == Names(fields, n)
  {
    if n > 0 {
      MapRowKeys(fields, row, n - 1);
      assert Names(fields, n) == Names(fields, n - 1) + {fields[n - 1]};
    }
  }

  /** The value under each of the first `n` names is taken from the last
      of the first `n` positions carrying that name. */
  lemma {:induction false} MapRowValues<V>(fields: seq<string>, row: seq<V>, n: nat)
    requires n <= |fields| && n <= |row|
    ensures forall j :: 0 <= j < n ==> fields[j] in MapRow(fields, row, n)
    ensures forall j :: 0 <= j < n ==>
      MapRow(fields, row, n)[fields[j]] == row[LastIndexOf(fields, n, fields[j])]
  {
    if n > 0 {
      MapRowValues(fields, row, n - 1);
      forall j | 0 <= j < n
        ensures MapRow(fields, row, n)[fields[j]] == row[LastIndexOf(fields, n, fields[j])]
      {
        if fields[j] != fields[n - 1] {
          assert LastIndexOf(fields, n, fields[j]) == LastIndexOf(fields, n - 1, fields[j]);
        }
      }
    }
  }

  /** Once the first `m` rows fail to load, every longer prefix fails with
      the same error: the loader stops at the first faulty row. */
  lemma {:induction false} LoadRowsStopsAtFault<V>(fields: seq<string>, data: seq<seq<V>>, m: nat, n: nat)
    requires m <= n && LoadRows(fields, data, m).Failure?
    ensures LoadRows(fields, data, n) == LoadRows(fields, data, m)
    decreases n - m
  {
    if m < n {
      LoadRowsStopsAtFault(fields, data, m + 1, n);
    }
  }

  /** The IndexError, if any, that building record `r` raises.  Python
      evaluates the right-hand side `data[r][j]` before the target's
      subscript `fields[j]`, so at the first position `j` where either
      subscript is out of range the row is blamed before the field list. */
  function RowFault<V>(fields: seq<string>, data: seq<seq<V>>, r: nat): Option<LoadError>
  {
    if r >= |data| then Some(MissingRow(r))
    else if |data[r]| < Width && |data[r]| <= |fields| then Some(ShortRow(r, |data[r]|))
    else if |fields| < Width then Some(ShortFields(|fields|))
    else None
  }

  /** The records of the first `n` rows, or the first row's IndexError. */
  function LoadRows<V>(fields: seq<string>, data: seq<seq<V>>, n: nat): (res: Result<seq<map<string, V>>, LoadError>)
    ensures res.Success? <==> forall k :: 0 <= k < n ==> RowFault(fields, data, k).None?
    ensures res.Success? ==>
      && |res.value| == n
      && forall k :: 0 <= k < n ==>
           && k < |data| && Width <= |data[k]| && Width <= |fields|
           && res.value[k] == MapRow(fields, data[k], Width)
    ensures res.Failure? ==>
      exists k :: 0 <= k < n && RowFault(fields, data, k) == Some(res.error) &&
        forall i :: 0 <= i < k ==> RowFault(fields, data, i).None?
  {
    if n == 0 then Success([])
    else
      match LoadRows(fields, data, n - 1)
      case Failure(e) => Failure(e)
      case Success(recs) =>
        match RowFault(fields, data, n - 1)
        case Some(e) => Failure(e)
        case None => Success(recs + [MapRow(fields, data[n - 1], Width)])
  }

  /** Reference definition of `load_approaches`: one record for each of the
      first `count` rows (none when `count` is negative, as `range` yields
      nothing then), or the IndexError of the first row that cannot be
      mapped. */
  function ApproachRecords<V>(fields: seq<string>, count: int, data: seq<seq<V>>): (res: Result<seq<map<string, V>>, LoadError>)
    ensures res.Success? ==> |res.value| == if count < 0 then 0 else count
  {
    LoadRows(fields, data, if count < 0 then 0 else count)
  }

  /** One pass of the inner loop of `load_approaches` over the row
      `data[r]`: the eleven named positions in order, failing at the first
      subscript of the row or of `fields` that is out of range. */
  method BuildRecord<V>(fields: seq<string>, row: seq<V>, r: nat) returns (res: Result<map<string, V>, LoadError>)
    ensures res.Success? <==> Width <= |row| && Width <= |fields|
    ensures res.Success? ==> res.value == MapRow(fields, row, Width)
    ensures res.Failure? && |row| < Width && |row| <= |fields| ==> res.error == ShortRow(r, |row|)
    ensures res.Failure? && (Width <= |row| || |fields| < |row|) ==> res.error == ShortFields(|fields|)
  {
    var rec: map<string, V> := map[];
    var j := 0;
    while j < Width
      invariant 0 <= j <= Width
      invariant j <= |row| && j <= |fields|
      invariant rec == MapRow(fields, row, j)
    {
      if j >= |row| {
        return Failure(ShortRow(r, j));
      }
      if j >= |fields| {
        return Failure(ShortFields(j));
      }
      rec := rec[fields[j] := row[j]];
      j := j + 1;
    }
    return Success(rec);
  }

  /** `load_approaches` as written: the outer loop over `range(count)`,
      each pass reading `data[r]` (which fails first when the row is
      missing) and then running the inner loop over the named positions. */
  method LoadApproaches<V>(fields: seq<string>, count: int, data: seq<seq<V>>)
    returns (res: Result<seq<map<string, V>>, LoadError>)
    ensures res == ApproachRecords(fields, count, data)
  {
    var recs: seq<map<string, V>> := [];
    var r := 0;
    while r < count
      invariant 0 <= r <= if count < 0 then 0 else count
      invariant LoadRows(fields, data, r) == Success(recs)
    {
      if r >= |data| {
        LoadRowsStopsAtFault(fields, data, r + 1, count);
        return Failure(MissingRow(r));
      }
      var rec := BuildRecord(fields, data[r], r);
      if rec.Failure? {
        LoadRowsStopsAtFault(fields, data, r + 1, count);
        return Failure(rec.error);
      }
      recs := recs + [rec.value];
      r := r + 1;
    }
    return Success(recs);
  }

  /** `load_neos` as written: one object per row the CSV reader produced,
      built by the constructor `build` from that row's whole mapping, in
      row order. */
  method LoadNeos<V, T>(rows: seq<map<string, V>>, build: map<string, V> -> T) returns (neos: seq<T>)
    ensures |neos| == |rows|
    ensures forall i :: 0 <= i < |rows| ==> neos[i] == build(rows[i])
  {
    neos := [];
    var i := 0;
    while i < |rows|
      invariant 0 <= i <= |rows|
      invariant |neos| == i
      invariant forall k :: 0 <= k < i ==> neos[k] == build(rows[k])
    {
      neos := neos + [build(rows[i])];
      i := i + 1;
    }
  }

  // ---------------------------------------------------------------------
  // Properties of the close-approach loader
  // ---------------------------------------------------------------------

  /** The load succeeds exactly when `count` rows exist and, unless no row
      is read at all, the field list and each of those rows have at least
      eleven entries; otherwise it fails instead of returning a partial
      result. */
  lemma LoadSucceedsIff<V>(fields: seq<string>, count: int, data: seq<seq<V>>)
    ensures ApproachRecords(fields, count, data).Success? <==>
      (count <= 0 ||
       (count <= |data| && Width <= |fields| &&
        forall k :: 0 <= k < count ==> Width <= |data[k]|))
  {
  }

  /** Record `k` of a successful load is built from `data[k]` alone, and
      position `j < 11` stores `data[k][j]` under `fields[j]` whenever no
      later one of the eleven names repeats `fields[j]`. */
  lemma RecordFromItsRow<V>(fields: seq<string>, count: int, data: seq<seq<V>>, k: nat, j: nat)
    requires ApproachRecords(fields, count, data).Success?
    requires k < count && j < Width
    requires forall i :: j < i < Width ==> fields[i] != fields[j]
    ensures k < |data| && Width <= |data[k]|
    ensures fields[j] in ApproachRecords(fields, count, data).value[k]
    ensures ApproachRecords(fields, count, data).value[k][fields[j]] == data[k][j]
  {
    var rec := ApproachRecords(fields, count, data).value[k];
    assert rec == MapRow(fields, data[k], Width);
    MapRowValues(fields, data[k], Width);
    assert LastIndexOf(fields, Width, fields[j]) == j;
  }

  /** With eleven distinct leading names, every record maps `fields[j]`
      to `data[k][j]` for every `j` below 11. */
  lemma DistinctNamesMapPositionally<V>(fields: seq<string>, count: int, data: seq<seq<V>>)
    requires ApproachRecords(fields, count, data).Success?
    requires Width <= |fields|
    requires forall i, j :: 0 <= i < j < Width ==> fields[i] != fields[j]
    ensures forall k, j :: 0 <= k < count && 0 <= j < Width ==>
      && fields[j] in ApproachRecords(fields, count, data).value[k]
      && ApproachRecords(fields, count, data).value[k][fields[j]] == data[k][j]
  {
    forall k, j | 0 <= k < count && 0 <= j < Width
      ensures fields[j] in ApproachRecords(fields, count, data).value[k]
      ensures ApproachRecords(fields, count, data).value[k][fields[j]] == data[k][j]
    {
      RecordFromItsRow(fields, count, data, k, j);
    }
  }

  /** When two of the eleven names coincide, the record keeps the value of
      the later position under that name. */
  lemma DuplicateNameKeepsLater<V>(fields: seq<string>, row: seq<V>, i: nat, j: nat)
    requires Width <= |fields| && Width <= |row|
    requires i < j < Width && fields[i] == fields[j]
    ensures LastIndexOf(fields, Width, fields[i]) >= j
    ensures fields[i] in MapRow(fields, row, Width)
    ensures MapRow(fields, row, Width)[fields[i]] == row[LastIndexOf(fields, Width, fields[i])]
  {
    MapRowValues(fields, row, Width);
  }

  /** Positions at or past the eleventh, in the row and in `fields`, never
      reach a record: the record depends only on the first `n` names and
      values. */
  lemma {:induction false} MapRowReadsPrefix<V>(fields: seq<string>, row: seq<V>, fields': seq<string>, row': seq<V>, n: nat)
    requires n <= |fields| && n <= |row| && n <= |fields'| && n <= |row'|
    requires fields[..n] == fields'[..n] && row[..n] == row'[..n]
    ensures MapRow(fields, row, n) == MapRow(fields', row', n)
  {
    if n > 0 {
      assert fields[..n - 1] == fields[..n][..n - 1];
      assert fields'[..n - 1] == fields'[..n][..n - 1];
      assert row[..n - 1] == row[..n][..n - 1];
      assert row'[..n - 1] == row'[..n][..n - 1];
      assert fields[n - 1] == fields[..n][n - 1];
      assert fields'[n - 1] == fields'[..n][n - 1];
      assert row[n - 1] == row[..n][n - 1];
      assert row'[n - 1] == row'[..n][n - 1];
      MapRowReadsPrefix(fields, row, fields', row', n - 1);
    }
  }

  /** Rows of `data` past index `count - 1` are never read: two documents
      that agree on their first `count` rows load to the same result. */
  lemma {:induction false} LoadRowsReadsPrefix<V>(fields: seq<string>, data: seq<seq<V>>, data': seq<seq<V>>, n: nat)
    requires n <= |data| && n <= |data'| && data[..n] == data'[..n]
    ensures LoadRows(fields, data, n) == LoadRows(fields, data', n)
  {
    if n > 0 {
      assert data[..n - 1] == data[..n][..n - 1];
      assert data'[..n - 1] == data'[..n][..n - 1];
      assert data[n - 1] == data[..n][n - 1];
      assert data'[n - 1] == data'[..n][n - 1];
      LoadRowsReadsPrefix(fields, data, data', n - 1);
    }
  }

  /** Rows past the first `count` are ignored by the whole loader: two
      documents that agree on their first `count` rows load to the same
      result, success or error. */
  lemma LoadIgnoresTrailing<V>(fields: seq<string>, count: nat, data: seq<seq<V>>, data': seq<seq<V>>)
    requires count <= |data| && count <= |data'| && data[..count] == data'[..count]
    ensures ApproachRecords(fields, count, data) == ApproachRecords(fields, count, data')
  {
    LoadRowsReadsPrefix(fields, data, data', count);
  }

  /** A column past the eleventh never appears in a record: truncating the
      field list and the row to eleven entries leaves the record unchanged. */
  lemma TrailingColumnsIgnored<V>(fields: seq<string>, row: seq<V>)
    requires Width <= |fields| && Width <= |row|
    ensures MapRow(fields, row, Width) == MapRow(fields[..Width], row[..Width], Width)
  {
    MapRowReadsPrefix(fields, row, fields[..Width], row[..Width], Width);
  }
}
