/** Small cases of the comparison: "John" against "JOHN"; "Ana", "Beto" and
    an empty cell against "ana" and "Carla"; and the same cases stated for
    every choice of names that behaves the same way. */
module Examples {
  import opened Strings
  import opened Cells
  import opened Sequences
  import opened Comparison

  /** One name on each side, in two cases, with different spacing or as a
      number and its text ("John" against " JOHN", 7 against "7"): the names
      match, both lists are empty and each side counts one. */
  lemma SameNameAnyCase(c: Cell, d: Cell)
    requires Counted(c) && Counted(d) && Key(c) == Key(d)
    ensures CompareColumns([c], [d]) == ComparisonResult([], [], 1, 1)
  {
    ShownAlone(c);
    ShownAlone(d);
    BothMatched(Display(c), Display(d));
  }

  /** Two names with one key match each other. */
  lemma BothMatched(x: string, y: string)
    requires Lower(x) == Lower(y)
    ensures Unmatched([y], LowerAll([x])) == [] && Unmatched([x], LowerAll([y])) == []
  {
  }

  /** A text that neither starts nor ends with whitespace ("John", "JOHN")
      counts and is shown as itself. */
  lemma TextShownAsItself(t: string)
    requires t != [] && !IsSpace(t[0]) && !IsSpace(t[|t| - 1])
    ensures Counted(Text(t)) && Display(Text(t)) == t
  {
    TrimOfTrimmed(t);
  }

  /** A column of one counted cell shows that cell's text. */
  lemma ShownAlone(c: Cell)
    requires Counted(c)
    ensures Displays([c]) == [Display(c)]
  {
    DisplaysSnoc([], c);
    assert [] + [c] == [c];
  }

  /** The keys of two names. */
  lemma KeysOfTwo(p: string, q: string)
    ensures LowerAll([p] + [q]) == [Lower(p)] + [Lower(q)]
  {
    assert ([p] + [q])[1..] == [q];
  }

  /** A name whose key is the first key of the other side is among its keys. */
  lemma KeyAmong(x: string, p: string, q: string)
    requires Lower(x) == Lower(p)
    ensures Lower(x) in [Lower(p)] + [Lower(q)]
  {
  }

  /** A name whose key differs from both keys of the other side is not among them. */
  lemma KeyNotAmong(y: string, p: string, q: string)
    requires Lower(y) != Lower(p) && Lower(y) != Lower(q)
    ensures Lower(y) !in [Lower(p)] + [Lower(q)]
  {
  }

  /** "ana" and "Carla" against "Ana" and "Beto": "ana" matches "Ana" in
      another case, "Carla" matches nothing and is the one name reported. */
  lemma OneMatchedOneReported(x: string, y: string, p: string, q: string)
    requires Lower(x) == Lower(p)
    requires Lower(y) != Lower(p) && Lower(y) != Lower(q)
    ensures Unmatched([x] + [y], LowerAll([p] + [q])) == [y]
  {
    KeysOfTwo(p, q);
    KeyAmong(x, p, q);
    KeyNotAmong(y, p, q);
    KeepsSecond(x, y, [Lower(p)] + [Lower(q)]);
  }

  /** Of two names, the first is matched and the second reported. */
  lemma KeepsSecond(x: string, y: string, keys: seq<string>)
    requires Lower(x) in keys && Lower(y) !in keys
    ensures Unmatched([x] + [y], keys) == [y]
  {
    assert ([x] + [y])[1..] == [y];
  }

  /** `new Set` compares names exactly: of "Ana", "ANA", "Ana" it keeps both
      spellings, in order. */
  lemma SpellingsKeptApart(t: string, u: string)
    requires t != u
    ensures Dedup([t] + [u] + [t]) == [t] + [u]
  {
    assert ([t] + [u] + [t])[..2] == [t] + [u];
    assert ([t] + [u])[..1] == [t];
  }

  /** "Ana", "ANA", "Ana" against a column that counts nothing: the two
      spellings of one name are reported as two names, and all three cells
      count. */
  lemma CaseVariantsBothReported(col1: seq<Cell>, col2: seq<Cell>, t: string, u: string)
    requires forall c :: c in col1 ==> !Counted(c)
    requires Displays(col2) == [t] + [u] + [t]
    requires t != u && Lower(t) == Lower(u)
    ensures CompareColumns(col1, col2) == ComparisonResult([t] + [u], [], 0, 3)
  {
    NothingCountedInFirst(col1, col2);
    SpellingsKeptApart(t, u);
  }

  /** "John" against "JOHN": the two match, both lists are empty and each
      side counts one. */
  lemma JohnMatchesJOHN()
    ensures CompareColumns([Text("John")], [Text("JOHN")]) == ComparisonResult([], [], 1, 1)
  {
    JohnShown("John");
    JohnShown("JOHN");
    SameNameAnyCase(Text("John"), Text("JOHN"));
  }

  /** "John" and "JOHN" count, show as themselves and have the key "john". */
  lemma JohnShown(t: string)
    requires t == "John" || t == "JOHN"
    ensures Counted(Text(t)) && Key(Text(t)) == "john"
  {
    TextShownAsItself(t);
    LowerJohn();
  }

  /** Both spellings lower-case to "john". */
  lemma LowerJohn()
    ensures Lower("John") == "john" && Lower("JOHN") == "john"
  {
  }

  /** "Ana", "Beto" and an empty cell against "ana" and "Carla": "Ana" and
      "ana" match, so only "Carla" is missing in the first file and only
      "Beto" in the second; the empty cell does not count. */
  lemma AnaBetoAgainstAnaCarla()
    ensures CompareColumns([Text("Ana")] + [Text("Beto")] + [Text("")], [Text("ana")] + [Text("Carla")])
      == ComparisonResult(["Carla"], ["Beto"], 2, 2)
  {
    FirstColumnNames();
    SecondColumnNames();
    LowerNames();
    OneMatchedOneReported("ana", "Carla", "Ana", "Beto");
    OneMatchedOneReported("Ana", "Beto", "ana", "Carla");
    DedupSingle("Carla");
    DedupSingle("Beto");
  }

  /** The first column shows "Ana" and "Beto"; its empty cell is skipped. */
  lemma FirstColumnNames()
    ensures Displays([Text("Ana")] + [Text("Beto")] + [Text("")]) == ["Ana"] + ["Beto"]
  {
    ShownPair("Ana", "Beto");
    DisplaysSnoc([Text("Ana")] + [Text("Beto")], Text(""));
  }

  /** The second column shows "ana" and "Carla". */
  lemma SecondColumnNames()
    ensures Displays([Text("ana")] + [Text("Carla")]) == ["ana"] + ["Carla"]
  {
    ShownPair("ana", "Carla");
  }

  /** Two texts that neither start nor end with whitespace, one below the
      other, show as themselves in order. */
  lemma ShownPair(t: string, u: string)
    requires t != [] && !IsSpace(t[0]) && !IsSpace(t[|t| - 1])
    requires u != [] && !IsSpace(u[0]) && !IsSpace(u[|u| - 1])
    ensures Displays([Text(t)] + [Text(u)]) == [t] + [u]
  {
    TextShownAsItself(t);
    TextShownAsItself(u);
    ShownAlone(Text(t));
    DisplaysSnoc([Text(t)], Text(u));
  }

  /** The keys of the four names. */
  lemma LowerNames()
    ensures Lower("Ana") == "ana" && Lower("ana") == "ana"
    ensures Lower("Beto") == "beto" && Lower("Carla") == "carla"
  {
  }

  /** A single name is its own deduplication. */
  lemma DedupSingle(t: string)
    ensures Dedup([t]) == [t]
  {
    assert [t][..0] == [];
  }
}
