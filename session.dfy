/** The state of the `ExcelComparator` component and the handlers that change
    it: loading a file, choosing a column and running the comparison. Each
    `useState` pair becomes a field, each setter an assignment. */
module Session {
  import opened Wrappers
  import opened Cells
  import opened Comparison

  /** `headers[0] || ''`: the first header when it is truthy, else the empty
      text. */
  function DefaultColumn(headers: Row): (c: Cell)
    ensures Truthy(c) <==> headers != [] && Truthy(headers[0])
    ensures Truthy(c) ==> c == headers[0]
    ensures !Truthy(c) ==> c == Text("")
  {
    if headers != [] && Truthy(headers[0]) then headers[0] else Text("")
  }

  /** A default selection that passes the guard names the first column. */
  lemma DefaultColumnIsFirst(headers: Row)
    requires Truthy(DefaultColumn(headers))
    ensures IndexOf(headers, DefaultColumn(headers)) == 0
  {
  }

  /** The guard of `compareFiles`: both files loaded and both selections truthy. */
  predicate CanCompare(file1: Option<Sheet>, selected1: Cell, file2: Option<Sheet>, selected2: Cell)
    ensures CanCompare(file1, selected1, file2, selected2) ==>
      selected1 !in {Text(""), Empty} && selected2 !in {Text(""), Empty}
  {
    file1.Some? && file2.Some? && Truthy(selected1) && Truthy(selected2)
  }

  /** How a loaded file and its list of columns relate: nothing loaded and no
      columns, or rows with a header row that is also the list of columns. */
  predicate Loaded(file: Option<Sheet>, columns: Row) {
    match file
    case None => columns == []
    case Some(f) => f.data != [] && f.headers == f.data[0] && columns == f.headers
  }

  /** Straight after both files are loaded, a comparison that the guard lets
      through compares the first column of each sheet. */
  lemma FirstComparisonUsesFirstColumns(data1: seq<Row>, data2: seq<Row>)
    requires data1 != [] && data2 != []
    requires CanCompare(Some(Sheet(data1, data1[0])), DefaultColumn(data1[0]),
                        Some(Sheet(data2, data2[0])), DefaultColumn(data2[0]))
    ensures CompareFiles(Sheet(data1, data1[0]), DefaultColumn(data1[0]),
                         Sheet(data2, data2[0]), DefaultColumn(data2[0]))
            == CompareColumns(Column(data1, 0), Column(data2, 0))
  {
    DefaultColumnIsFirst(data1[0]);
    DefaultColumnIsFirst(data2[0]);
  }

  class ExcelComparator {
    var file1: Option<Sheet>
    var file2: Option<Sheet>
    var results: Option<ComparisonResult>
    var selectedColumn1: Cell
    var selectedColumn2: Cell
    var columns1: Row
    var columns2: Row

    /** Each loaded file keeps its header row as its list of columns. */
    predicate Valid()
      reads this
    {
      Loaded(file1, columns1) && Loaded(file2, columns2)
    }

    /** The initial state: nothing loaded, nothing selected, no results. */
    constructor()
      ensures Valid()
      ensures file1 == None && file2 == None && results == None
      ensures selectedColumn1 == Text("") && selectedColumn2 == Text("")
      ensures columns1 == [] && columns2 == []
    {
      file1, file2, results := None, None, None;
      selectedColumn1, selectedColumn2 := Text(""), Text("");
      columns1, columns2 := [], [];
    }

    /** `handleFileUpload` once the workbook is read: `parsed` is the rows of
        its first sheet, or None when no file was chosen or reading failed.
        An empty sheet changes nothing; otherwise file 1 or, for any other
        number, file 2 is replaced, its columns become the header row and its
        selection the default one. Results are kept. */
    method HandleFileUpload(parsed: Option<seq<Row>>, fileNumber: int)
      requires Valid()
      modifies this
      ensures Valid()
      ensures results == old(results)
      ensures parsed.None? || parsed.value == [] ==>
        file1 == old(file1) && file2 == old(file2)
        && columns1 == old(columns1) && columns2 == old(columns2)
        && selectedColumn1 == old(selectedColumn1) && selectedColumn2 == old(selectedColumn2)
      ensures parsed.Some? && parsed.value != [] && fileNumber == 1 ==>
        file1 == Some(Sheet(parsed.value, parsed.value[0])) && columns1 == parsed.value[0]
        && selectedColumn1 == DefaultColumn(parsed.value[0])
        && file2 == old(file2) && columns2 == old(columns2) && selectedColumn2 == old(selectedColumn2)
      ensures parsed.Some? && parsed.value != [] && fileNumber != 1 ==>
        file2 == Some(Sheet(parsed.value, parsed.value[0])) && columns2 == parsed.value[0]
        && selectedColumn2 == DefaultColumn(parsed.value[0])
        && file1 == old(file1) && columns1 == old(columns1) && selectedColumn1 == old(selectedColumn1)
    {
      if parsed.None? {
        return;
      }
      var jsonData := parsed.value;
      if |jsonData| > 0 {
        var headers := jsonData[0];
        if fileNumber == 1 {
          file1 := Some(Sheet(jsonData, headers));
          columns1 := headers;
          selectedColumn1 := DefaultColumn(headers);
        } else {
          file2 := Some(Sheet(jsonData, headers));
          columns2 := headers;
          selectedColumn2 := DefaultColumn(headers);
        }
      }
    }

    /** The `onChange` of a column drop-down: the selection becomes the text
        of the chosen option. */
    method SelectColumn(fileNumber: int, value: string)
      requires Valid()
      modifies this`selectedColumn1, this`selectedColumn2
      ensures Valid()
      ensures fileNumber == 1 ==> selectedColumn1 == Text(value) && selectedColumn2 == old(selectedColumn2)
      ensures fileNumber != 1 ==> selectedColumn2 == Text(value) && selectedColumn1 == old(selectedColumn1)
    {
      if fileNumber == 1 {
        selectedColumn1 := Text(value);
      } else {
        selectedColumn2 := Text(value);
      }
    }

    /** `compareFiles`: refused, leaving the results as they were, unless
        both files are loaded and both columns chosen; otherwise the results
        become the comparison of the chosen columns, which for the default
        selections are the first column of each sheet. */
    method CompareFiles()
      requires Valid()
      modifies this`results
      ensures Valid()
      ensures !CanCompare(file1, selectedColumn1, file2, selectedColumn2) ==> results == old(results)
      ensures CanCompare(file1, selectedColumn1, file2, selectedColumn2) ==>
        results == Some(Comparison.CompareFiles(file1.value, selectedColumn1, file2.value, selectedColumn2))
      ensures (CanCompare(file1, selectedColumn1, file2, selectedColumn2)
               && selectedColumn1 == DefaultColumn(columns1) && selectedColumn2 == DefaultColumn(columns2)) ==>
        results == Some(CompareColumns(Column(file1.value.data, 0), Column(file2.value.data, 0)))
    {
      if !CanCompare(file1, selectedColumn1, file2, selectedColumn2) {
        return;
      }
      if selectedColumn1 == DefaultColumn(columns1) && selectedColumn2 == DefaultColumn(columns2) {
        DefaultColumnIsFirst(columns1);
        DefaultColumnIsFirst(columns2);
      }
      results := Some(Comparison.CompareFiles(file1.value, selectedColumn1, file2.value, selectedColumn2));
    }
  }
}
