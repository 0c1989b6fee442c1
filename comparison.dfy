/** The comparison `compareFiles` runs once both files are loaded and both
    columns are chosen: take the chosen column of each sheet below its header,
    keep the cells whose text is not blank, and report the names of each side
    whose lower-case form occurs nowhere on the other side. */
module Comparison {
  import opened Strings
  import opened Cells
  import opened Sequences

  /** A loaded file as the component keeps it: every row read from the first
      sheet (the header row first) and the header row itself. */
  datatype Sheet = Sheet(data: seq<Row>, headers: Row)

  /** What one comparison reports. The totals count the counted cells of each
      column, repeats included. */
  datatype ComparisonResult = ComparisonResult(
    missingInFirst: seq<string>,
    missingInSecond: seq<string>,
    totalFile1: nat,
    totalFile2: nat)

  /** `headers.indexOf(selected)`: the first position holding a strictly equal
      value, or -1 when there is none. */
  function IndexOf(headers: Row, selected: Cell): (k: int)
    ensures -1 <= k < |headers|
    ensures k == -1 <==> selected !in headers
    ensures k >= 0 ==> headers[k] == selected && selected !in headers[..k]
  {
    if headers == [] then -1
    else if headers[0] == selected then 0
    else
      var k := IndexOf(headers[1..], selected);
      assert headers == [headers[0]] + headers[1..];
      if k == -1 then -1
      else
        assert headers[..k + 1] == [headers[0]] + headers[1..][..k];
        k + 1
  }

  /** `row[index]`: undefined when index is -1 or lies past the end of the row. */
  function CellAt(row: Row, index: int): (c: Cell)
    ensures 0 <= index < |row| ==> c == row[index]
    ensures c != Empty ==> 0 <= index < |row| && c == row[index]
  {
    if 0 <= index < |row| then row[index] else Empty
  }

  /** `data.slice(1).map(row => row[index])`: the cells of one column below
      the header row. */
  function Column(data: seq<Row>, index: int): (col: seq<Cell>)
    ensures |col| == if data == [] then 0 else |data| - 1
    ensures forall i :: 0 <= i < |col| ==> col[i] == CellAt(data[i + 1], index)
  {
    if data == [] then []
    else seq(|data| - 1, i requires 0 <= i < |data| - 1 => CellAt(data[i + 1], index))
  }

  /** The filter `name && name.toString().trim() !== ''`: the cell is truthy
      and its text is not blank. */
  predicate Counted(c: Cell)
    ensures Counted(c) <==> Truthy(c) && !IsBlank(ToText(c))
  {
    Truthy(c) && Trim(ToText(c)) != ""
  }

  /** `name.toString().trim()`: the form in which a name is reported. */
  function Display(c: Cell): (r: string)
    requires Counted(c)
    ensures r != [] && !IsSpace(r[0]) && !IsSpace(r[|r| - 1])
  {
    Trim(ToText(c))
  }

  /** `name.toString().trim().toLowerCase()`: the form in which names are matched. */
  function Key(c: Cell): (k: string)
    requires Counted(c)
    ensures |k| == |Display(c)| && Lower(k) == k
  {
    LowerIdempotent(Display(c));
    Lower(Display(c))
  }

  /** Positions of the counted cells of a column. */
  function CountedPositions(col: seq<Cell>): set<nat> {
    Positions(col, Counted)
  }

  /** Some counted cell of the column is shown as s. */
  predicate InColumn(col: seq<Cell>, s: string) {
    exists c :: c in col && Counted(c) && Display(c) == s
  }

  /** Some counted cell of the column has key k. */
  predicate HasKey(col: seq<Cell>, k: string) {
    exists c :: c in col && Counted(c) && Key(c) == k
  }

  /** The shown form of each counted cell, in column order: `names2` for the
      second column and the list `missingInSecond` is filtered from for the
      first. */
  function Displays(col: seq<Cell>): (names: seq<string>)
    ensures |names| <= |col|
    ensures forall s :: s in names <==> InColumn(col, s)
  {
    if col == [] then []
    else
      var init, c := col[..|col| - 1], col[|col| - 1];
      InColumnSnoc(col);
      Displays(init) + (if Counted(c) then [Display(c)] else [])
  }

  /** The counted texts of a column are those of all but its last cell, and
      the last cell's own when it is counted. */
  lemma InColumnSnoc(col: seq<Cell>)
    requires col != []
    ensures forall s :: InColumn(col, s) <==>
      InColumn(col[..|col| - 1], s) || (Counted(col[|col| - 1]) && Display(col[|col| - 1]) == s)
  {
    assert col == col[..|col| - 1] + [col[|col| - 1]];
  }

  /** `names.map(n => n.toLowerCase())`; applied to `Displays` it gives `names1`. */
  function LowerAll(names: seq<string>): (keys: seq<string>)
    ensures |keys| == |names|
    ensures forall i :: 0 <= i < |names| ==> keys[i] == Lower(names[i])
    ensures forall k :: k in keys <==> exists s :: s in names && Lower(s) == k
  {
    if names == [] then []
    else
      var keys := [Lower(names[0])] + LowerAll(names[1..]);
      assert forall s :: s in names ==> s == names[0] || s in names[1..];
      keys
  }

  /** `names.filter(name => !keys.includes(name.toLowerCase()))`. */
  function Unmatched(names: seq<string>, keys: seq<string>): (r: seq<string>)
    ensures |r| <= |names|
    ensures forall s :: s in r <==> s in names && Lower(s) !in keys
  {
    if names == [] then []
    else (if Lower(names[0]) !in keys then [names[0]] else []) + Unmatched(names[1..], keys)
  }

  /** The body of `compareFiles` from the column projections on. */
  function CompareColumns(col1: seq<Cell>, col2: seq<Cell>): ComparisonResult {
    var names1 := LowerAll(Displays(col1));
    var names2 := Displays(col2);
    var missingInFirst := Unmatched(names2, names1);
    var missingInSecond := Unmatched(Displays(col1), LowerAll(names2));
    ComparisonResult(Dedup(missingInFirst), Dedup(missingInSecond), |names1|, |names2|)
  }

  /** `compareFiles` after its guard: resolve each selected header, project
      the columns and compare them. */
  function CompareFiles(file1: Sheet, selected1: Cell, file2: Sheet, selected2: Cell): ComparisonResult {
    CompareColumns(Column(file1.data, IndexOf(file1.headers, selected1)),
                   Column(file2.data, IndexOf(file2.headers, selected2)))
  }

  // Counting

  /** A column's number of shown texts is its number of counted cells. */
  lemma {:induction false} DisplaysCount(col: seq<Cell>)
    ensures |Displays(col)| == |CountedPositions(col)|
    decreases |col|
  {
    if col == [] {
      assert CountedPositions(col) == {};
    } else {
      DisplaysCount(col[..|col| - 1]);
      CountedPositionsSnoc(col);
    }
  }

  /** The names of a column come one per counted cell, in column order: the
      counted cell at position p is shown at the index that counts the
      counted cells above it. */
  lemma DisplaysAt(col: seq<Cell>, p: nat)
    requires p < |col| && Counted(col[p])
    ensures |CountedPositions(col[..p])| < |Displays(col)|
    ensures Displays(col)[|CountedPositions(col[..p])|] == Display(col[p])
  {
    TakeOneMore(col, p);
    DisplaysSnoc(col[..p], col[p]);
    DisplaysPrefix(col, p + 1);
    DisplaysCount(col[..p]);
    LastOfPrefix(Displays(col[..p]), Display(col[p]), Displays(col));
  }

  /** An element that follows a prefix sits right after it. */
  lemma LastOfPrefix<T>(a: seq<T>, x: T, b: seq<T>)
    requires a + [x] <= b
    ensures |a| < |b| && b[|a|] == x
  {
    assert (a + [x])[|a|] == x;
  }

  /** The names of the first rows of a column begin the names of the column. */
  lemma {:induction false} DisplaysPrefix(col: seq<Cell>, m: nat)
    requires m <= |col|
    ensures Displays(col[..m]) <= Displays(col)
    decreases |col|
  {
    if m < |col| {
      var init := col[..|col| - 1];
      assert init[..m] == col[..m];
      DisplaysUnfold(col);
      DisplaysPrefix(init, m);
    } else {
      assert col[..m] == col;
    }
  }

  /** The last cell of a column adds its text to the names of the cells above it. */
  lemma DisplaysUnfold(col: seq<Cell>)
    requires col != []
    ensures Displays(col) == Displays(col[..|col| - 1])
      + if Counted(col[|col| - 1]) then [Display(col[|col| - 1])] else []
  {
  }

  /** A cell added below a column adds its text to the column's names when it
      counts. */
  lemma DisplaysSnoc(col: seq<Cell>, c: Cell)
    ensures Displays(col + [c]) == Displays(col) + if Counted(c) then [Display(c)] else []
  {
    assert (col + [c])[..|col|] == col;
  }

  /** The first p + 1 elements are the first p and then element p. */
  lemma TakeOneMore<T>(s: seq<T>, p: nat)
    requires p < |s|
    ensures s[..p + 1] == s[..p] + [s[p]]
  {
  }

  /** Adding a cell below a column adds one counted position, the new one,
      exactly when that cell counts. */
  lemma CountedPositionsSnoc(col: seq<Cell>)
    requires col != []
    ensures |CountedPositions(col)| == |CountedPositions(col[..|col| - 1])| + if Counted(col[|col| - 1]) then 1 else 0
  {
    PositionsSnoc(col, Counted);
  }

  /** `totalFile1` and `totalFile2` count the counted cells of each column,
      repeated names included. */
  lemma TotalsCountCountedCells(col1: seq<Cell>, col2: seq<Cell>)
    ensures CompareColumns(col1, col2).totalFile1 == |CountedPositions(col1)|
    ensures CompareColumns(col1, col2).totalFile2 == |CountedPositions(col2)|
  {
    DisplaysCount(col1);
    DisplaysCount(col2);
  }

  // Soundness and completeness of the two lists

  /** `names1`, and the lower-cased `names2`, hold exactly the keys of the
      column's counted cells. */
  lemma KeysOfColumn(col: seq<Cell>, k: string)
    ensures k in LowerAll(Displays(col)) <==> HasKey(col, k)
  {
    if HasKey(col, k) {
      var c :| c in col && Counted(c) && Key(c) == k;
      assert Display(c) in Displays(col);
    }
  }

  /** A name is missing in the first file exactly when a counted cell of the
      second column shows it and no counted cell of the first column has its
      key. */
  lemma MissingInFirstIff(col1: seq<Cell>, col2: seq<Cell>, s: string)
    ensures (s in CompareColumns(col1, col2).missingInFirst)
        <==> InColumn(col2, s) && !HasKey(col1, Lower(s))
  {
    KeysOfColumn(col1, Lower(s));
  }

  /** A name is missing in the second file exactly when a counted cell of the
      first column shows it and no counted cell of the second column has its
      key: the same rule as MissingInFirstIff with the columns swapped. */
  lemma MissingInSecondIff(col1: seq<Cell>, col2: seq<Cell>, s: string)
    ensures (s in CompareColumns(col1, col2).missingInSecond)
        <==> InColumn(col1, s) && !HasKey(col2, Lower(s))
  {
    KeysOfColumn(col2, Lower(s));
  }

  /** The comparison is symmetric: swapping the columns swaps the two lists,
      order included, and the two totals. */
  lemma SwappingColumnsSwapsLists(col1: seq<Cell>, col2: seq<Cell>)
    ensures var r := CompareColumns(col1, col2);
      CompareColumns(col2, col1) == ComparisonResult(r.missingInSecond, r.missingInFirst, r.totalFile2, r.totalFile1)
  {
  }

  /** A key that both columns hold is reported in neither list, whatever case
      each side writes it in. */
  lemma SharedKeyReportedNowhere(col1: seq<Cell>, col2: seq<Cell>, k: string)
    requires HasKey(col1, k) && HasKey(col2, k)
    ensures forall s :: s in CompareColumns(col1, col2).missingInFirst ==> Lower(s) != k
    ensures forall s :: s in CompareColumns(col1, col2).missingInSecond ==> Lower(s) != k
  {
    forall s | s in CompareColumns(col1, col2).missingInFirst ensures Lower(s) != k {
      MissingInFirstIff(col1, col2, s);
    }
    forall s | s in CompareColumns(col1, col2).missingInSecond ensures Lower(s) != k {
      MissingInSecondIff(col1, col2, s);
    }
  }

  // Deduplication, order and bounds

  /** Filtering keeps the relative order of first occurrences. */
  lemma {:induction false} UnmatchedKeepsOrder(names: seq<string>, keys: seq<string>, x: string, y: string)
    requires x in Unmatched(names, keys) && y in Unmatched(names, keys)
    requires FirstIndex(Unmatched(names, keys), x) < FirstIndex(Unmatched(names, keys), y)
    ensures FirstIndex(names, x) < FirstIndex(names, y)
    decreases |names|
  {
    var u, rest := Unmatched(names, keys), Unmatched(names[1..], keys);
    if Lower(names[0]) !in keys {
      assert u == [names[0]] + rest;
      if x != names[0] {
        assert y != names[0];
        assert u[1..] == rest;
        UnmatchedKeepsOrder(names[1..], keys, x, y);
      }
    } else {
      assert u == rest;
      UnmatchedKeepsOrder(names[1..], keys, x, y);
    }
  }

  /** A filtered and deduplicated list holds each of its names once, in the
      order of their first occurrence in the unfiltered names. */
  lemma FilteredInFirstOccurrenceOrder(names: seq<string>, keys: seq<string>)
    ensures var d := Dedup(Unmatched(names, keys));
      NoDuplicates(d) && (forall s :: s in d ==> s in names) && InFirstOccurrenceOrder(names, d)
  {
    var u := Unmatched(names, keys);
    var d := Dedup(u);
    forall i, j | 0 <= i < j < |d|
      ensures FirstIndex(names, d[i]) < FirstIndex(names, d[j])
    {
      DedupFirstOccurrenceOrder(u, i, j);
      UnmatchedKeepsOrder(names, keys, d[i], d[j]);
    }
  }

  /** Each list holds every name once, in the order in which the names first
      appear among the counted cells of its column. Names are told apart by
      their exact text, so "Ana" and "ANA" are two names. */
  lemma ListsDistinctInColumnOrder(col1: seq<Cell>, col2: seq<Cell>)
    ensures var r := CompareColumns(col1, col2);
      NoDuplicates(r.missingInFirst) && NoDuplicates(r.missingInSecond)
      && (forall s :: s in r.missingInFirst ==> s in Displays(col2))
      && (forall s :: s in r.missingInSecond ==> s in Displays(col1))
      && InFirstOccurrenceOrder(Displays(col2), r.missingInFirst)
      && InFirstOccurrenceOrder(Displays(col1), r.missingInSecond)
  {
    FilteredInFirstOccurrenceOrder(Displays(col2), LowerAll(Displays(col1)));
    FilteredInFirstOccurrenceOrder(Displays(col1), LowerAll(Displays(col2)));
  }

  /** No list is longer than the total of the column it is drawn from. */
  lemma ListsWithinTotals(col1: seq<Cell>, col2: seq<Cell>)
    ensures |CompareColumns(col1, col2).missingInFirst| <= CompareColumns(col1, col2).totalFile2
    ensures |CompareColumns(col1, col2).missingInSecond| <= CompareColumns(col1, col2).totalFile1
  {
  }

  // Columns that count nothing

  /** With no keys to match, filtering keeps every name. */
  lemma {:induction false} UnmatchedNoKeys(names: seq<string>)
    ensures Unmatched(names, []) == names
  {
    if names != [] {
      UnmatchedNoKeys(names[1..]);
    }
  }

  /** When no cell of the first column counts, its total is 0, nothing is
      missing in the second file, and every name of the second column is
      missing in the first, once each. */
  lemma NothingCountedInFirst(col1: seq<Cell>, col2: seq<Cell>)
    requires forall c :: c in col1 ==> !Counted(c)
    ensures var r := CompareColumns(col1, col2);
      r.totalFile1 == 0 && r.missingInSecond == [] && r.missingInFirst == Dedup(Displays(col2))
  {
    assert Displays(col1) == [] by {
      assert Displays(col1) != [] ==> Displays(col1)[0] in Displays(col1);
    }
    UnmatchedNoKeys(Displays(col2));
  }

  /** The mirror image of NothingCountedInFirst. */
  lemma NothingCountedInSecond(col1: seq<Cell>, col2: seq<Cell>)
    requires forall c :: c in col2 ==> !Counted(c)
    ensures var r := CompareColumns(col1, col2);
      r.totalFile2 == 0 && r.missingInFirst == [] && r.missingInSecond == Dedup(Displays(col1))
  {
    assert Displays(col2) == [] by {
      assert Displays(col2) != [] ==> Displays(col2)[0] in Displays(col2);
    }
    UnmatchedNoKeys(Displays(col1));
  }

  /** A selected header that the header row does not hold is not an error:
      `indexOf` gives -1, every cell of that column reads as undefined, and
      that side counts nothing. */
  lemma UnknownColumnCountsNothing(file1: Sheet, selected1: Cell, file2: Sheet, selected2: Cell)
    ensures var r := CompareFiles(file1, selected1, file2, selected2);
      (selected1 !in file1.headers ==> r.totalFile1 == 0 && r.missingInSecond == [])
      && (selected2 !in file2.headers ==> r.totalFile2 == 0 && r.missingInFirst == [])
  {
    var col1 := Column(file1.data, IndexOf(file1.headers, selected1));
    var col2 := Column(file2.data, IndexOf(file2.headers, selected2));
    if selected1 !in file1.headers {
      NothingCountedInFirst(col1, col2);
    }
    if selected2 !in file2.headers {
      NothingCountedInSecond(col1, col2);
    }
  }

  /** A header that is a number equals no text, so when the drop-down hands
      back the text of a numeric header, `indexOf` does not find it and that
      side counts nothing. */
  lemma NumericHeaderChosenAsText(file1: Sheet, t: string, file2: Sheet, selected2: Cell)
    requires forall c :: c in file1.headers ==> !c.Text?
    ensures CompareFiles(file1, Text(t), file2, selected2).totalFile1 == 0
  {
    UnknownColumnCountsNothing(file1, Text(t), file2, selected2);
  }

  /** The header row is never read as a name: only the rows below it count. */
  lemma HeaderRowNotCounted(rows: seq<Row>, header: Row, other: Row, index: int)
    ensures Column([header] + rows, index) == Column([other] + rows, index)
  {
  }

  // Normalisation

  /** Which cells count: text that is not blank, a non-zero number, `true`. */
  lemma CountedCases(c: Cell)
    ensures Counted(c) <==> match c
      case Text(t) => !IsBlank(t)
      case Number(n) => n != 0
      case Bool(b) => b
      case Empty => false
  {
    match c
    case Number(n) => assert !IsSpace(NumberText(n)[0]);
    case Bool(b) => assert !IsSpace('t') && !IsSpace('f');
    case _ =>
  }

  /** A shown name is stable: as a text cell it counts, shows as itself and
      has the same key as the cell it came from. */
  lemma DisplayIsStable(c: Cell)
    requires Counted(c)
    ensures Counted(Text(Display(c)))
    ensures Display(Text(Display(c))) == Display(c)
    ensures Key(Text(Display(c))) == Key(c)
  {
    TrimIdempotent(ToText(c));
  }

  /** A non-zero number and the text of its numeral are one name: both count,
      show the same text and have the same key (7 against "7"). */
  lemma NumberMatchesItsNumeral(n: int)
    requires n != 0
    ensures Counted(Number(n)) && Display(Number(n)) == NumberText(n)
    ensures Counted(Text(NumberText(n))) && Display(Text(NumberText(n))) == NumberText(n)
    ensures Key(Text(NumberText(n))) == Key(Number(n))
  {
    var t := NumberText(n);
    TrimOfTrimmed(t);
  }

  /** The key is the same whether the text is trimmed before or after it is
      lower-cased. */
  lemma KeyIgnoresStepOrder(c: Cell)
    requires Counted(c)
    ensures Key(c) == Trim(Lower(ToText(c)))
  {
    LowerTrimCommute(ToText(c));
  }
}
