/**
 The demonstration driver's run over the three-book sample catalog: append
 book 4 (year 2025), delete id 3, then group the remaining titles by year.
 */
module Driver {
  import opened Wrappers
  import opened PyText
  import opened Catalog
  import opened YearGroups

  function SampleBook(id: string, title: string, author: string, year: string): Node {
    Node(BookTag, Some(id), Present(Some(title)), Present(Some(author)), Present(Some(year)))
  }

  /** The catalog the driver opens: books 1, 2 and 3 from 1991, 2003 and 2010. */
  function SampleCatalog(): seq<Node> {
    [SampleBook("1", "title_1", "name_1", "1991"),
     SampleBook("2", "title_2", "name_2", "2003"),
     SampleBook("3", "title_3", "name_3", "2010")]
  }

  /** The catalog left after the driver's two edits. */
  function EditedCatalog(): seq<Node> {
    [SampleBook("1", "title_1", "name_1", "1991"),
     SampleBook("2", "title_2", "name_2", "2003"),
     SampleBook("4", "title_4", "name_4", "2025")]
  }

  /**
   `append_book(4, "title_4", "name_4", 2025)` followed by `delete_book(3)`
   on the sample catalog deletes book 3 and leaves books 1, 2 and 4.
   */
  lemma SampleEdits()
    ensures DeleteFirst(AppendBook(SampleCatalog(), PyInt(4), "title_4", "name_4", PyInt(2025)), Str(PyInt(3)))
         == (true, EditedCatalog())
  {
    assert Str(PyInt(4)) == "4";
    assert Str(PyInt(3)) == "3";
    assert Str(PyInt(2025)) == "2025" by {
      assert NatToDecimal(2) == "2";
      assert NatToDecimal(20) == "20";
      assert NatToDecimal(202) == "202";
    }
    var c := SampleCatalog();
    var b4 := SampleBook("4", "title_4", "name_4", "2025");
    assert NewBook(PyInt(4), "title_4", "name_4", PyInt(2025)) == b4;
    var appended := c + [b4];
    assert FirstMatchIndex(appended, "3") == 2 by {
      assert !Matches(appended[0], "3") && !Matches(appended[1], "3") && Matches(appended[2], "3");
      assert appended[1..][1..] == appended[2..];
    }
    assert appended[..2] + appended[3..] == EditedCatalog();
  }

  /** Every child of the edited catalog is a book. */
  lemma EditedCatalogIsAllBooks()
    ensures Books(EditedCatalog()) == EditedCatalog()
  {
    BooksOfAllBooks(EditedCatalog());
  }

  /** The report over the edited catalog: years 1991, 2003, 2025, one title each. */
  lemma SampleReport()
    ensures YearsOf(Books(EditedCatalog())) == {Some("1991"), Some("2003"), Some("2025")}
    ensures TitlesWithYear(Books(EditedCatalog()), Some("2025")) == [Some("title_4")]
  {
    EditedCatalogIsAllBooks();
    var e := EditedCatalog();
    var e1, e2 := [e[0]], [e[0], e[1]];
    assert e[..2] == e2 && e2[..1] == e1 && e1[..0] == [];
    assert YearsOf(e1) == {Some("1991")};
    assert YearsOf(e2) == {Some("1991"), Some("2003")};
    TitlesOfAbsentYear(e2, Some("2025"));
  }
}
