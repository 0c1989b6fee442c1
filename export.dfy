/** `downloadResults`: the workbook written after a comparison, one sheet per
    list of missing names. A sheet is kept as the array of rows handed to
    `aoa_to_sheet`; writing the file itself is not modelled. */
module Export {
  import opened Wrappers
  import opened Strings
  import opened Cells
  import opened Sequences
  import opened Comparison

  const MissingInFirstTitle: string := "Nombres que están en el segundo archivo pero NO en el primero"
  const MissingInSecondTitle: string := "Nombres que están en el primer archivo pero NO en el segundo"
  const MissingInFirstSheet: string := "Faltan en Archivo 1"
  const MissingInSecondSheet: string := "Faltan en Archivo 2"
  const ResultsFileName: string := "comparacion_resultados.xlsx"

  /** A sheet appended to the workbook under a name. */
  datatype NamedSheet = NamedSheet(name: string, rows: seq<Row>)

  /** The workbook and the file name it is written under. */
  datatype Workbook = Workbook(fileName: string, sheets: seq<NamedSheet>)

  /** `[[title], [''], ...names.map(name => [name])]`: a title row, an empty
      row, then one row per name. */
  function ListSheet(title: string, names: seq<string>): (rows: seq<Row>)
    ensures |rows| == |names| + 2
    ensures rows[0] == [Text(title)] && rows[1] == [Text("")]
    ensures forall k :: 0 <= k < |names| ==> rows[k + 2] == [Text(names[k])]
  {
    [[Text(title)], [Text("")]] + NameRows(names)
  }

  /** One single-cell row per name. */
  function NameRows(names: seq<string>): (rows: seq<Row>)
    ensures |rows| == |names|
    ensures forall k :: 0 <= k < |names| ==> rows[k] == [Text(names[k])]
  {
    if names == [] then [] else [[Text(names[0])]] + NameRows(names[1..])
  }

  /** Reading a list back from a sheet: skip the title row and the empty row,
      then take the text of the first cell of each row that starts with one. */
  function ListedNames(rows: seq<Row>): (names: seq<string>)
    ensures |names| <= |rows|
  {
    if |rows| < 2 then [] else TextsInFirstCells(rows[2..])
  }

  /** The texts in the first cell of each row, skipping rows that do not start
      with a text. */
  function TextsInFirstCells(rows: seq<Row>): (names: seq<string>)
    ensures |names| <= |rows|
    ensures forall t :: t in names ==> exists r :: r in rows && r != [] && r[0] == Text(t)
  {
    if rows == [] then []
    else
      var rest := TextsInFirstCells(rows[1..]);
      if rows[0] != [] && rows[0][0].Text? then [rows[0][0].text] + rest else rest
  }

  /** A list sheet gives back exactly the names it was written from, in
      order, whatever the title. */
  lemma {:induction false} ListSheetRoundTrip(title: string, names: seq<string>)
    ensures ListedNames(ListSheet(title, names)) == names
  {
    assert ListSheet(title, names)[2..] == NameRows(names);
    NameRowsRoundTrip(names);
  }

  lemma {:induction false} NameRowsRoundTrip(names: seq<string>)
    ensures TextsInFirstCells(NameRows(names)) == names
  {
    if names != [] {
      NameRowsRoundTrip(names[1..]);
      assert NameRows(names)[1..] == NameRows(names[1..]);
    }
  }

  /** `downloadResults`: nothing without results; otherwise the workbook
      `comparacion_resultados.xlsx` with the sheet 'Faltan en Archivo 1'
      listing the names missing in the first file, then 'Faltan en Archivo 2'
      listing those missing in the second. */
  function DownloadResults(results: Option<ComparisonResult>): (wb: Option<Workbook>)
    ensures wb.None? <==> results.None?
    ensures wb.Some? ==> (wb.value.fileName == ResultsFileName && |wb.value.sheets| == 2
      && wb.value.sheets[0].name == MissingInFirstSheet
      && wb.value.sheets[1].name == MissingInSecondSheet
      && |wb.value.sheets[0].rows| == |results.value.missingInFirst| + 2
      && |wb.value.sheets[1].rows| == |results.value.missingInSecond| + 2
      && wb.value.sheets[0].rows[0] == [Text(MissingInFirstTitle)]
      && wb.value.sheets[1].rows[0] == [Text(MissingInSecondTitle)])
    ensures wb.Some? ==>
      wb.value.sheets[0].rows == ListSheet(MissingInFirstTitle, results.value.missingInFirst)
      && wb.value.sheets[1].rows == ListSheet(MissingInSecondTitle, results.value.missingInSecond)
  {
    match results
    case None => None
    case Some(r) =>
      Some(Workbook(ResultsFileName, [
        NamedSheet(MissingInFirstSheet, ListSheet(MissingInFirstTitle, r.missingInFirst)),
        NamedSheet(MissingInSecondSheet, ListSheet(MissingInSecondTitle, r.missingInSecond))]))
  }

  /** The two sheets of the downloaded workbook hold exactly the two lists of
      the results, in the order they were reported. */
  lemma DownloadedListsAreResults(r: ComparisonResult)
    ensures var wb := DownloadResults(Some(r));
      wb.Some? && ListedNames(wb.value.sheets[0].rows) == r.missingInFirst
      && ListedNames(wb.value.sheets[1].rows) == r.missingInSecond
  {
    ListSheetRoundTrip(MissingInFirstTitle, r.missingInFirst);
    ListSheetRoundTrip(MissingInSecondTitle, r.missingInSecond);
  }

  /** After a comparison, the first sheet lists each name of the second
      column whose key the first column lacks, once each, and nothing else;
      the second sheet does the same the other way round. */
  lemma DownloadedComparison(col1: seq<Cell>, col2: seq<Cell>, s: string)
    ensures var wb := DownloadResults(Some(CompareColumns(col1, col2)));
      wb.Some?
      && NoDuplicates(ListedNames(wb.value.sheets[0].rows))
      && NoDuplicates(ListedNames(wb.value.sheets[1].rows))
      && (s in ListedNames(wb.value.sheets[0].rows) <==> InColumn(col2, s) && !HasKey(col1, Lower(s)))
      && (s in ListedNames(wb.value.sheets[1].rows) <==> InColumn(col1, s) && !HasKey(col2, Lower(s)))
  {
    DownloadedListsAreResults(CompareColumns(col1, col2));
    MissingInFirstIff(col1, col2, s);
    MissingInSecondIff(col1, col2, s);
  }
}
