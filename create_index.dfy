/** The index of the fingerspelling lexicon
    (`spoken_to_signed/assets/fingerspelling_lexicon/create_index.py`): every
    row for spoken English is copied for spoken French and French Sign
    Language, and the rows are written out with the first row's fields as
    the header.

    Reading and writing the CSV files are outside the model: the rows come
    in as `csv.DictReader` gives them, and the table goes out as a header
    and one line of cells per row. */
module CreateIndex {
  import opened Wrappers
  import opened PyStrings

  /** A row as `csv.DictReader` gives it: the field names in header order
      and the value of each field. */
  datatype Row = Row(fields: seq<string>, values: map<string, string>)

  /** Each field name once, and exactly the keys of the values. */
  predicate WellFormed(row: Row) {
    && Distinct(row.fields)
    && (forall k :: k in row.values ==> k in row.fields)
    && (forall k :: k in row.fields ==> k in row.values)
  }

  const SpokenLanguage: string := "spoken_language"
  const SignedLanguage: string := "signed_language"
  const English: string := "en"

  /** The spoken and signed language each English row is copied for. */
  const Mirrors: seq<(string, string)> := [("fr", "fsl")]

  /** `row[key] = value`: an existing field keeps its place, a new one goes
      last. */
  function Set(row: Row, key: string, value: string): Row {
    Row(if key in row.fields then row.fields else row.fields + [key], row.values[key := value])
  }

  /** `row.copy()` with the spoken and the signed language replaced. */
  function Mirror(row: Row, spoken: string, signed: string): Row {
    Set(Set(row, SpokenLanguage, spoken), SignedLanguage, signed)
  }

  /** A copy has the new languages and every other field of the original;
      a well-formed original that has both language fields keeps its
      field order. */
  lemma MirrorSpec(row: Row, spoken: string, signed: string)
    ensures SpokenLanguage in Mirror(row, spoken, signed).values
    ensures Mirror(row, spoken, signed).values[SpokenLanguage] == spoken
    ensures Mirror(row, spoken, signed).values[SignedLanguage] == signed
    ensures forall k :: k != SpokenLanguage && k != SignedLanguage ==>
      (k in Mirror(row, spoken, signed).values <==> k in row.values)
    ensures forall k :: k in row.values && k != SpokenLanguage && k != SignedLanguage ==>
      Mirror(row, spoken, signed).values[k] == row.values[k]
    ensures WellFormed(row) && SpokenLanguage in row.values && SignedLanguage in row.values ==>
      WellFormed(Mirror(row, spoken, signed)) && Mirror(row, spoken, signed).fields == row.fields
  {
    assert SpokenLanguage != SignedLanguage by {
      assert SpokenLanguage[1] != SignedLanguage[1];
    }
    SetKeepsFields(row, SpokenLanguage, spoken);
    SetKeepsFields(Set(row, SpokenLanguage, spoken), SignedLanguage, signed);
  }

  /** Setting a field of a well-formed row keeps it well-formed, and keeps
      its fields when the field is there already. */
  lemma SetKeepsFields(row: Row, key: string, value: string)
    ensures WellFormed(row) ==> WellFormed(Set(row, key, value))
    ensures WellFormed(row) && key in row.values ==> Set(row, key, value).fields == row.fields
  {
  }

  predicate IsEnglish(row: Row) {
    SpokenLanguage in row.values && row.values[SpokenLanguage] == English
  }

  /** The copies of one English row, one per pair of languages. */
  function CopiesOfRow(row: Row): seq<Row> {
    seq(|Mirrors|, k requires 0 <= k < |Mirrors| => Mirror(row, Mirrors[k].0, Mirrors[k].1))
  }

  /** The copies the loop appends: those of the English rows, in order. */
  function Copies(rows: seq<Row>): seq<Row> {
    if rows == [] then []
    else
      var last := rows[|rows| - 1];
      Copies(rows[..|rows| - 1]) + (if IsEnglish(last) then CopiesOfRow(last) else [])
  }

  /** Every row has a spoken language. */
  predicate HasLanguages(rows: seq<Row>) {
    forall i :: 0 <= i < |rows| ==> SpokenLanguage in rows[i].values
  }

  /** The copies of consecutive rows are the copies of each part. */
  lemma {:induction false} CopiesConcat(a: seq<Row>, b: seq<Row>)
    ensures Copies(a + b) == Copies(a) + Copies(b)
    decreases |b|
  {
    if b == [] {
      assert a + b == a;
    } else {
      var init := b[..|b| - 1];
      assert (a + b)[..|a + b| - 1] == a + init;
      CopiesConcat(a, init);
    }
  }

  /** Copies are French, never English. */
  lemma {:induction false} CopiesAreFrench(rows: seq<Row>)
    ensures forall c :: c in Copies(rows) ==> SpokenLanguage in c.values && c.values[SpokenLanguage] == "fr"
    decreases |rows|
  {
    if rows != [] {
      CopiesAreFrench(rows[..|rows| - 1]);
      MirrorSpec(rows[|rows| - 1], "fr", "fsl");
    }
  }

  /** There is one copy per English row, and the copies follow the order of
      the English rows. */
  lemma {:induction false} CopiesAreMirrors(rows: seq<Row>)
    ensures |Copies(rows)| == |Filter(rows, IsEnglish)|
    ensures forall j :: 0 <= j < |Copies(rows)| ==> Copies(rows)[j] == Mirror(Filter(rows, IsEnglish)[j], "fr", "fsl")
    decreases |rows|
  {
    if rows != [] {
      var init, last := rows[..|rows| - 1], rows[|rows| - 1];
      CopiesAreMirrors(init);
      assert rows == init + [last];
      FilterConcat(init, [last], IsEnglish);
    }
  }

  /** The copies of the copies are none: the loop, reaching the rows it
      appended, appends nothing more. */
  lemma CopiesOfCopies(rows: seq<Row>)
    ensures Copies(Copies(rows)) == []
    ensures Copies(rows + Copies(rows)) == Copies(rows)
  {
    CopiesAreFrench(rows);
    NoEnglishNoCopies(Copies(rows));
    CopiesConcat(rows, Copies(rows));
  }

  lemma {:induction false} NoEnglishNoCopies(rows: seq<Row>)
    requires forall c :: c in rows ==> SpokenLanguage in c.values && c.values[SpokenLanguage] == "fr"
    ensures Copies(rows) == []
    decreases |rows|
  {
    if rows != [] {
      NoEnglishNoCopies(rows[..|rows| - 1]);
    }
  }

  /** The list after the loop has visited `i` rows: the rows read, then
      the copies of those of them it has visited. */
  function Grown(data: seq<Row>, i: nat): seq<Row> {
    data + Copies(data[..if i < |data| then i else |data|])
  }

  /** The copies of a prefix are a prefix of the copies. */
  lemma CopiesOfPrefix(data: seq<Row>, i: nat)
    requires i <= |data|
    ensures Copies(data) == Copies(data[..i]) + Copies(data[i..])
  {
    var a, b := data[..i], data[i..];
    assert a + b == data;
    CopiesConcat(a, b);
  }

  /** The list never outgrows the rows read and all their copies. */
  lemma GrownBound(data: seq<Row>, i: nat)
    ensures |Grown(data, i)| <= |data| + |Copies(data)|
  {
    CopiesOfPrefix(data, if i < |data| then i else |data|);
  }

  /** Visiting a read row adds its copies when it is English. */
  lemma GrownRead(data: seq<Row>, i: nat)
    requires i < |data|
    ensures Grown(data, i)[i] == data[i]
    ensures Grown(data, i + 1) == Grown(data, i) + (if IsEnglish(data[i]) then CopiesOfRow(data[i]) else [])
  {
    var next := data[..i + 1];
    assert next[..i] == data[..i];
    assert Copies(next) == Copies(data[..i]) + (if IsEnglish(data[i]) then CopiesOfRow(data[i]) else []);
  }

  /** Once every read row is visited the list is complete. */
  lemma GrownDone(data: seq<Row>, i: nat)
    requires |data| <= i
    ensures Grown(data, i) == data + Copies(data)
  {
    assert data[..|data|] == data;
  }

  /** The loop of `create_index.py`, iterating over `rows` while it appends
      to it: after the rows read, one copy of each English row, in order. A
      row without a spoken language is a `KeyError`. */
  method MirrorRows(data: seq<Row>) returns (r: Result<seq<Row>>)
    ensures HasLanguages(data) ==> r == Ok(data + Copies(data))
    ensures !HasLanguages(data) ==> r == Err(KeyError)
  {
    CopiesAreFrench(data);
    var rows := data;
    var i := 0;
    while i < |rows|
      invariant 0 <= i <= |rows|
      invariant forall k :: 0 <= k < i && k < |data| ==> SpokenLanguage in data[k].values
      invariant rows == Grown(data, i)
      decreases |data| + |Copies(data)| - i
    {
      GrownBound(data, i);
      var row := rows[i];
      if i < |data| {
        GrownRead(data, i);
      } else {
        GrownDone(data, i);
        GrownDone(data, i + 1);
        assert row == Copies(data)[i - |data|];
      }
      if SpokenLanguage !in row.values {
        return Err(KeyError);
      }
      if row.values[SpokenLanguage] == English {
        ghost var before := rows;
        for m := 0 to |Mirrors|
          invariant rows == before + CopiesOfRow(row)[..m]
        {
          var (spoken, signed) := Mirrors[m];
          rows := rows + [Mirror(row, spoken, signed)];
        }
        assert CopiesOfRow(row)[..|Mirrors|] == CopiesOfRow(row);
      }
      i := i + 1;
    }
    GrownDone(data, i);
    return Ok(rows);
  }

  // ---------------------------------------------------------------------
  // Writing the index

  /** A row as `DictWriter.writerow` writes it under `header`: a cell per
      header field, empty where the row has none; a field outside the
      header is a `ValueError`. */
  function Line(row: Row, header: seq<string>): (r: Result<seq<string>>)
    ensures r.Ok? <==> forall k :: k in row.values ==> k in header
    ensures r.Ok? ==> |r.value| == |header|
    ensures r.Ok? ==> forall j :: 0 <= j < |header| && header[j] in row.values ==> r.value[j] == row.values[header[j]]
  {
    if forall k :: k in row.values ==> k in header then
      Ok(seq(|header|, j requires 0 <= j < |header| => if header[j] in row.values then row.values[header[j]] else ""))
    else Err(ValueError)
  }

  /** The file written: the first row's field names as the header, then a
      line per row. No rows is an `IndexError`. */
  function IndexTable(rows: seq<Row>): (r: Result<(seq<string>, seq<seq<string>>)>)
    ensures rows == [] ==> r == Err(IndexError)
    ensures r.Ok? ==> r.value.0 == rows[0].fields && |r.value.1| == |rows|
  {
    if rows == [] then Err(IndexError)
    else
      var header := rows[0].fields;
      var lines :- AllOk(seq(|rows|, i requires 0 <= i < |rows| => Line(rows[i], header)));
      Ok((header, lines))
  }

  /** Every row has the fields of the header, as `csv.DictReader` gives
      them. */
  predicate FieldsOf(rows: seq<Row>, header: seq<string>) {
    forall i :: 0 <= i < |rows| ==> WellFormed(rows[i]) && rows[i].fields == header
  }

  /** Rows that all have the first row's fields are all written, each under
      the first row's field names. */
  lemma IndexOfUniform(rows: seq<Row>)
    requires rows != [] && FieldsOf(rows, rows[0].fields)
    ensures IndexTable(rows).Ok?
    ensures forall i :: 0 <= i < |rows| ==> Line(rows[i], rows[0].fields) == Ok(IndexTable(rows).value.1[i])
  {
    var header := rows[0].fields;
    var lines := seq(|rows|, i requires 0 <= i < |rows| => Line(rows[i], header));
    forall i | 0 <= i < |rows|
      ensures lines[i].Ok?
    {
      assert WellFormed(rows[i]) && rows[i].fields == header;
    }
    AllOkSpec(lines);
  }

  /** Read rows that all carry both language fields are written in full:
      the header is theirs, a line per read row and per English row, and
      the read rows' lines first, in order. */
  lemma IndexOfMirrored(data: seq<Row>)
    requires data != [] && FieldsOf(data, data[0].fields)
    requires SpokenLanguage in data[0].fields && SignedLanguage in data[0].fields
    ensures IndexTable(data + Copies(data)).Ok?
    ensures IndexTable(data + Copies(data)).value.0 == data[0].fields
    ensures |IndexTable(data + Copies(data)).value.1| == |data| + |Filter(data, IsEnglish)|
    ensures forall i :: 0 <= i < |data| ==> Line(data[i], data[0].fields) == Ok(IndexTable(data + Copies(data)).value.1[i])
  {
    var rows := data + Copies(data);
    CopiesFields(data, data[0].fields);
    assert rows[0] == data[0];
    assert FieldsOf(rows, rows[0].fields);
    IndexOfUniform(rows);
    CopiesAreMirrors(data);
    assert forall i :: 0 <= i < |data| ==> rows[i] == data[i];
  }

  /** The copies of rows with both language fields keep their fields. */
  lemma {:induction false} CopiesFields(rows: seq<Row>, header: seq<string>)
    requires FieldsOf(rows, header)
    requires SpokenLanguage in header && SignedLanguage in header
    ensures FieldsOf(Copies(rows), header)
    decreases |rows|
  {
    if rows != [] {
      var init, last := rows[..|rows| - 1], rows[|rows| - 1];
      assert FieldsOf(init, header);
      CopiesFields(init, header);
      MirrorSpec(last, "fr", "fsl");
    }
  }
}
