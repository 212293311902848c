/** The writers of write.py with the file handling removed.

    `write_to_csv` turns each close approach and its near-Earth object into
    a seven-column row under a fixed header; `write_to_json` turns each into
    an object with a nested `neo` object and encodes the whole list, its
    encoder hook rendering date-times as `YYYY-MM-DD HH:MM`.  The outputs
    are modelled as the cell and JSON values handed to the library writers;
    their text encoding is not part of this model. */
module Write {
  import opened Wrappers
  import opened DateFormat

  /** A near-Earth object as the writers see it. */
  datatype Neo = Neo(designation: string, name: Option<string>, diameter: Option<real>, hazardous: bool)

  /** A close approach with its associated near-Earth object resolved. */
  datatype Approach = Approach(designation: string, time: DateTime, distance: real, velocity: real, neo: Neo)

  /** A value of the CSV writer's row dictionary, before the CSV library
      turns it into text. */
  datatype Cell = TimeCell(time: DateTime) | NumCell(num: real) | TextCell(text: string)

  /** The fixed CSV column names, in output order. */
  const Header: seq<string> :=
    ["datetime_utc", "distance_au", "velocity_km_s", "designation", "name", "diameter_km", "potentially_hazardous"]

  /** The first line of every CSV output: the column names.  It has seven
      distinct text cells, and each names a key of every row dictionary,
      so every column of every row is filled from that dictionary. */
  function HeaderLine(): (line: seq<Cell>)
    ensures |line| == 7
    ensures forall a: Approach, k :: 0 <= k < |line| ==> line[k].TextCell? && line[k].text in CsvRecord(a)
    ensures forall i, j :: 0 <= i < j < |line| ==> line[i] != line[j]
  {
    assert "designation"[1] != "diameter_km"[1];
    seq(|Header|, k requires 0 <= k < |Header| => TextCell(Header[k]))
  }

  /** Python truthiness of the diameter: absent and zero are both false. */
  predicate Falsy(diameter: Option<real>) {
    diameter.None? || diameter.value == 0.0
  }

  /** The name both writers emit: the empty string stands for `None`. */
  function NameText(neo: Neo): string {
    match neo.name
    case None => ""
    case Some(n) => n
  }

  // ---------------------------------------------------------------------
  // CSV
  // ---------------------------------------------------------------------

  /** The dictionary the CSV writer builds for one approach. */
  function CsvRecord(a: Approach): (rec: map<string, Cell>)
    ensures forall name :: name in rec <==> name in Header
    ensures forall k :: 0 <= k < |Header| ==> Header[k] in rec
  {
    map[
      "datetime_utc" := TimeCell(a.time),
      "distance_au" := NumCell(a.distance),
      "velocity_km_s" := NumCell(a.velocity),
      "designation" := TextCell(a.designation),
      "name" := TextCell(NameText(a.neo)),
      "diameter_km" := (if Falsy(a.neo.diameter) then TextCell("") else NumCell(a.neo.diameter.value)),
      "potentially_hazardous" := TextCell(if a.neo.hazardous then "True" else "False")
    ]
  }

  /** `DictWriter.writerow`: the dictionary's values in header order. */
  function CsvLine(rec: map<string, Cell>): seq<Cell>
    requires forall k :: 0 <= k < |Header| ==> Header[k] in rec
  {
    seq(|Header|, k requires 0 <= k < |Header| => rec[Header[k]])
  }

  /** What a CSV line for approach `a` must hold, column by column. */
  predicate DescribesCsv(line: seq<Cell>, a: Approach) {
    && |line| == |Header|
    && line[0] == TimeCell(a.time)
    && line[1] == NumCell(a.distance)
    && line[2] == NumCell(a.velocity)
    && line[3] == TextCell(a.designation)
    && (a.neo.name.None? ==> line[4] == TextCell(""))
    && (a.neo.name.Some? ==> line[4] == TextCell(a.neo.name.value))
    && (line[5] == TextCell("") <==> Falsy(a.neo.diameter))
    && (!Falsy(a.neo.diameter) ==> line[5] == NumCell(a.neo.diameter.value))
    && (line[6] == TextCell("True") <==> a.neo.hazardous)
    && (line[6] == TextCell("False") <==> !a.neo.hazardous)
  }

  /** The row the writer emits for one approach has its columns in header
      order and obeys the per-column rules. */
  lemma CsvLineDescribes(a: Approach)
    ensures forall k :: 0 <= k < |Header| ==> Header[k] in CsvRecord(a)
    ensures DescribesCsv(CsvLine(CsvRecord(a)), a)
  {
  }

  /** The data rows of the CSV output, one per approach. */
  function CsvRows(results: seq<Approach>): (rows: seq<seq<Cell>>)
    ensures |rows| == |results|
    ensures forall i :: 0 <= i < |results| ==> rows[i] == CsvLine(CsvRecord(results[i]))
  {
    if results == [] then []
    else
      [CsvLine(CsvRecord(results[0]))] + CsvRows(results[1..])
  }

  /** `write_to_csv`: the header line, then one row per approach in input
      order; an empty input yields the header alone.  As `DictWriter` does,
      column `k` of a row holds the row dictionary's value under the name
      in header cell `k`. */
  function WriteCsv(results: seq<Approach>): (lines: seq<seq<Cell>>)
    ensures |lines| == |results| + 1
    ensures lines[0] == HeaderLine()
    ensures forall i :: 0 <= i < |results| ==> DescribesCsv(lines[i + 1], results[i])
    ensures forall i, k :: 0 <= i < |results| && 0 <= k < |Header| ==>
      && |lines[i + 1]| == |Header|
      && lines[0][k].TextCell? && lines[0][k].text in CsvRecord(results[i])
      && lines[i + 1][k] == CsvRecord(results[i])[lines[0][k].text]
  {
    var rows := CsvRows(results);
    forall i | 0 <= i < |results|
      ensures DescribesCsv(rows[i], results[i])
    {
      CsvLineDescribes(results[i]);
    }
    var lines := [HeaderLine()] + rows;
    assert forall i :: 0 <= i < |rows| ==> lines[i + 1] == rows[i];
    lines
  }

  // ---------------------------------------------------------------------
  // JSON
  // ---------------------------------------------------------------------

  /** A JSON value, with one extra case for a `datetime` object that the
      encoder hook has not yet rendered.  Objects keep their members in
      insertion order, as Python dictionaries do. */
  datatype Json =
    | JBool(b: bool)
    | JNum(num: real)
    | JStr(str: string)
    | JTime(time: DateTime)
    | JArr(items: seq<Json>)
    | JObj(members: seq<Member>)

  datatype Member = Member(key: string, value: Json)

  /** No `datetime` is left anywhere inside the value. */
  predicate Serializable(j: Json) {
    match j
    case JTime(_) => false
    case JArr(items) => forall i :: 0 <= i < |items| ==> Serializable(items[i])
    case JObj(ms) => forall i :: 0 <= i < |ms| ==> Serializable(ms[i].value)
    case _ => true
  }

  /** `json.dump` with the encoder's `default` hook: every `datetime` it
      meets is rendered by `strftime('%Y-%m-%d %H:%M')`, everything else is
      kept as it is. */
  function Encode(j: Json): (r: Json)
    ensures Serializable(r)
    ensures Serializable(j) ==> r == j
    ensures j.JArr? ==> r.JArr? && |r.items| == |j.items|
    ensures j.JObj? ==>
      && r.JObj? && |r.members| == |j.members|
      && forall i :: 0 <= i < |j.members| ==> r.members[i].key == j.members[i].key
    ensures j.JTime? ==> r == JStr(Format(j.time))
    ensures j.JArr? ==>
      forall i {:trigger r.items[i]} :: 0 <= i < |j.items| ==> r.items[i] == Encode(j.items[i])
    ensures j.JObj? ==>
      forall i {:trigger r.members[i]} :: 0 <= i < |j.members| ==> r.members[i].value == Encode(j.members[i].value)
  {
    match j
    case JTime(t) => JStr(Format(t))
    case JArr(items) =>
      JArr(seq(|items|, i requires 0 <= i < |items| => Encode(items[i])))
    case JObj(ms) =>
      JObj(seq(|ms|, i requires 0 <= i < |ms| => Member(ms[i].key, Encode(ms[i].value))))
    case _ => j
  }

  /** The value a dictionary holds under `key`: the last member with that
      key, since assigning to a key again replaces its value. */
  function Lookup(ms: seq<Member>, key: string): Option<Json>
  {
    if ms == [] then None
    else if ms[|ms| - 1].key == key then Some(ms[|ms| - 1].value)
    else Lookup(ms[..|ms| - 1], key)
  }

  /** A key that no later member repeats is looked up to its own member's
      value. */
  lemma {:induction false} LookupFindsLast(ms: seq<Member>, i: nat)
    requires i < |ms|
    requires forall j :: i < j < |ms| ==> ms[j].key != ms[i].key
    ensures Lookup(ms, ms[i].key) == Some(ms[i].value)
  {
    if i < |ms| - 1 {
      LookupFindsLast(ms[..|ms| - 1], i);
    }
  }

  function Keys(ms: seq<Member>): seq<string>
  {
    seq(|ms|, i requires 0 <= i < |ms| => ms[i].key)
  }

  /** The nested `neo` object of one output element. */
  function NeoObject(neo: Neo): Json
  {
    JObj([
      Member("designation", JStr(neo.designation)),
      Member("name", JStr(NameText(neo))),
      Member("diameter_km", if Falsy(neo.diameter) then JStr("") else JNum(neo.diameter.value)),
      Member("potentially_hazardous", JBool(neo.hazardous))
    ])
  }

  /** The dictionary the JSON writer builds for one approach, before
      encoding. */
  function JsonRecord(a: Approach): Json
  {
    JObj([
      Member("datetime_utc", JTime(a.time)),
      Member("distance_au", JNum(a.distance)),
      Member("velocity_km_s", JNum(a.velocity)),
      Member("neo", NeoObject(a.neo))
    ])
  }

  /** What the encoded `neo` object for `neo` must hold, key by key. */
  predicate DescribesNeo(j: Json, neo: Neo) {
    && j.JObj?
    && Keys(j.members) == ["designation", "name", "diameter_km", "potentially_hazardous"]
    && Lookup(j.members, "designation") == Some(JStr(neo.designation))
    && (neo.name.None? ==> Lookup(j.members, "name") == Some(JStr("")))
    && (neo.name.Some? ==> Lookup(j.members, "name") == Some(JStr(neo.name.value)))
    && (Lookup(j.members, "diameter_km") == Some(JStr("")) <==> Falsy(neo.diameter))
    && (!Falsy(neo.diameter) ==> Lookup(j.members, "diameter_km") == Some(JNum(neo.diameter.value)))
    && Lookup(j.members, "potentially_hazardous") == Some(JBool(neo.hazardous))
  }

  /** What the encoded output element for approach `a` must hold. */
  predicate DescribesJson(j: Json, a: Approach) {
    && j.JObj?
    && Keys(j.members) == ["datetime_utc", "distance_au", "velocity_km_s", "neo"]
    && Lookup(j.members, "datetime_utc") == Some(JStr(Format(a.time)))
    && Lookup(j.members, "distance_au") == Some(JNum(a.distance))
    && Lookup(j.members, "velocity_km_s") == Some(JNum(a.velocity))
    && Lookup(j.members, "neo").Some?
    && DescribesNeo(Lookup(j.members, "neo").value, a.neo)
  }

  /** The nested object obeys the per-key rules and holds no date-time. */
  lemma NeoObjectDescribes(neo: Neo)
    ensures Serializable(NeoObject(neo))
    ensures DescribesNeo(NeoObject(neo), neo)
  {
    var nms := NeoObject(neo).members;
    assert "designation"[1] != "diameter_km"[1];
    LookupFindsLast(nms, 0);
    LookupFindsLast(nms, 1);
    LookupFindsLast(nms, 2);
    LookupFindsLast(nms, 3);
    assert Lookup(nms, "designation") == Some(JStr(neo.designation));
    assert Lookup(nms, "name") == Some(JStr(NameText(neo)));
    assert Lookup(nms, "diameter_km") == Some(nms[2].value);
    assert Keys(nms) == ["designation", "name", "diameter_km", "potentially_hazardous"];
  }

  /** One encoded element obeys the per-key rules, with the date-time
      rendered by the hook. */
  lemma JsonRecordDescribes(a: Approach)
    ensures DescribesJson(Encode(JsonRecord(a)), a)
  {
    EncodeRecord(a);
    EncodedRecordDescribes(a);
  }

  /** One element as the encoder leaves it: the date-time rendered, the
      numbers and the `neo` object unchanged. */
  function EncodedRecord(a: Approach): Json
  {
    JObj([
      Member("datetime_utc", JStr(Format(a.time))),
      Member("distance_au", JNum(a.distance)),
      Member("velocity_km_s", JNum(a.velocity)),
      Member("neo", NeoObject(a.neo))
    ])
  }

  /** The hook changes only the date-time of an element. */
  lemma EncodeRecord(a: Approach)
    ensures Encode(JsonRecord(a)) == EncodedRecord(a)
  {
    var neo := NeoObject(a.neo);
    NeoObjectDescribes(a.neo);
    var rec := JsonRecord(a);
    var ms := Encode(rec).members;
    assert ms[0].value == Encode(rec.members[0].value) == Encode(JTime(a.time));
    assert ms[3].value == Encode(rec.members[3].value) == Encode(neo);
    assert ms == EncodedRecord(a).members;
  }

  /** The encoded element obeys the per-key rules. */
  lemma EncodedRecordDescribes(a: Approach)
    ensures DescribesJson(EncodedRecord(a), a)
  {
    NeoObjectDescribes(a.neo);
    var ms := EncodedRecord(a).members;
    LookupFindsLast(ms, 0);
    LookupFindsLast(ms, 1);
    LookupFindsLast(ms, 2);
    LookupFindsLast(ms, 3);
    assert Keys(ms) == ["datetime_utc", "distance_au", "velocity_km_s", "neo"];
  }

  /** `write_to_json`: the list of per-approach objects in input order,
      encoded as one JSON array; an empty input yields `[]`. */
  function WriteJson(results: seq<Approach>): (r: Json)
    ensures Serializable(r)
    ensures r.JArr? && |r.items| == |results|
    ensures forall i :: 0 <= i < |results| ==> DescribesJson(r.items[i], results[i])
  {
    var data := seq(|results|, i requires 0 <= i < |results| => JsonRecord(results[i]));
    var r := Encode(JArr(data));
    assert forall i :: 0 <= i < |results| ==> r.items[i] == Encode(JsonRecord(results[i]));
    forall i | 0 <= i < |results|
      ensures DescribesJson(r.items[i], results[i])
    {
      JsonRecordDescribes(results[i]);
    }
    r
  }

  // ---------------------------------------------------------------------
  // Relations between the two writers
  // ---------------------------------------------------------------------

  /** The two writers agree on the name and the diameter, and the CSV
      column spells as `"True"` exactly the boolean the JSON keeps. */
  lemma CsvJsonAgree(results: seq<Approach>, i: nat)
    requires i < |results|
    ensures
      var line := WriteCsv(results)[i + 1];
      var neo := Lookup(WriteJson(results).items[i].members, "neo").value;
      && (line[4] == TextCell(NameText(results[i].neo)))
      && (Lookup(neo.members, "name") == Some(JStr(NameText(results[i].neo))))
      && (line[5] == TextCell("") <==> Lookup(neo.members, "diameter_km") == Some(JStr("")))
      && (forall x :: line[5] == NumCell(x) <==> Lookup(neo.members, "diameter_km") == Some(JNum(x)))
      && (line[6] == TextCell("True") <==> Lookup(neo.members, "potentially_hazardous") == Some(JBool(true)))
  {
  }

  /** The CSV designation is the approach's own, the JSON one is its
      object's: they differ whenever the two designations differ. */
  lemma DesignationSources(results: seq<Approach>, i: nat)
    requires i < |results|
    ensures WriteCsv(results)[i + 1][3] == TextCell(results[i].designation)
    ensures Lookup(Lookup(WriteJson(results).items[i].members, "neo").value.members, "designation")
      == Some(JStr(results[i].neo.designation))
    ensures results[i].designation != results[i].neo.designation ==>
      WriteCsv(results)[i + 1][3] != TextCell(results[i].neo.designation)
  {
  }

  /** A zero diameter is written exactly like an absent one, by both
      writers. */
  lemma ZeroDiameterLooksAbsent(a: Approach)
    requires a.neo.diameter == Some(0.0)
    ensures
      var b := a.(neo := a.neo.(diameter := None));
      WriteCsv([a]) == WriteCsv([b]) && WriteJson([a]) == WriteJson([b])
  {
  }

  /** Writing two batches one after the other gives the same rows as
      writing them together: output order is input order. */
  lemma {:induction false} CsvRowsAppend(xs: seq<Approach>, ys: seq<Approach>)
    ensures CsvRows(xs + ys) == CsvRows(xs) + CsvRows(ys)
  {
    if xs != [] {
      assert (xs + ys)[1..] == xs[1..] + ys;
      CsvRowsAppend(xs[1..], ys);
    }
  }
}
