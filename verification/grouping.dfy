/**
 The report the demonstration driver builds after its edits: the books'
 titles grouped by the text of their `year` child, each group keeping
 document order, with the groups listed by `sorted` over the year texts.
 */
module YearGroups {
  import opened Wrappers
  import opened Catalog
  import PyText
  import Lex

  /** One year's entry in the report: the year text and its titles. */
  datatype YearGroup = YearGroup(year: Option<string>, titles: seq<Option<string>>)

  /**
   How building the report can fail: a book without a `year` or `title`
   child (reading `.text` of the missing element raises AttributeError),
   or a year element without text next to other year texts (`sorted` then
   compares None with a string and raises TypeError).
   */
  datatype GroupError = MissingChild | Unorderable

  predicate HasYearAndTitle(b: Node) {
    b.year.Present? && b.title.Present?
  }

  predicate AllHaveYearAndTitle(books: seq<Node>) {
    forall k :: 0 <= k < |books| ==> HasYearAndTitle(books[k])
  }

  function TitleText(b: Node): Option<string> {
    if b.title.Present? then b.title.text else None
  }

  /** The titles of the books whose year text is `y`, in document order. */
  function TitlesWithYear(books: seq<Node>, y: Option<string>): seq<Option<string>> {
    if |books| == 0 then []
    else
      var last := books[|books| - 1];
      TitlesWithYear(books[..|books| - 1], y) + (if last.year == Present(y) then [TitleText(last)] else [])
  }

  /** The distinct year texts of the books that have a `year` child. */
  function YearsOf(books: seq<Node>): set<Option<string>> {
    if |books| == 0 then {}
    else
      var last := books[|books| - 1];
      YearsOf(books[..|books| - 1]) + (if last.year.Present? then {last.year.text} else {})
  }

  /** The first group's year text sorts strictly before the second's. */
  predicate YearBefore(a: YearGroup, b: YearGroup) {
    a.year.Some? && b.year.Some? && Lex.Less(a.year.value, b.year.value)
  }

  /** Groups in strictly ascending order of their (present) year texts. */
  predicate Ascending(groups: seq<YearGroup>) {
    forall i, j :: 0 <= i < j < |groups| ==> YearBefore(groups[i], groups[j])
  }

  function TotalTitles(groups: seq<YearGroup>): nat {
    if |groups| == 0 then 0 else |groups[0].titles| + TotalTitles(groups[1..])
  }

  /** Sum over the listed years of how many titles each has. */
  function CountByYears(books: seq<Node>, years: seq<Option<string>>): nat {
    if |years| == 0 then 0 else |TitlesWithYear(books, years[0])| + CountByYears(books, years[1..])
  }

  function Occurrences(years: seq<Option<string>>, y: Option<string>): nat {
    if |years| == 0 then 0 else (if years[0] == y then 1 else 0) + Occurrences(years[1..], y)
  }

  lemma {:induction false} TitlesOfAbsentYear(books: seq<Node>, y: Option<string>)
    requires y !in YearsOf(books)
    ensures TitlesWithYear(books, y) == []
    decreases |books|
  {
    if |books| > 0 {
      TitlesOfAbsentYear(books[..|books| - 1], y);
    }
  }

  lemma {:induction false} OccursOnce(years: seq<Option<string>>, y: Option<string>)
    requires Lex.Distinct(years) && y in years
    ensures Occurrences(years, y) == 1
    decreases |years|
  {
    if years[0] == y {
      OccursNever(years[1..], y);
    } else {
      OccursOnce(years[1..], y);
    }
  }

  lemma {:induction false} OccursNever(years: seq<Option<string>>, y: Option<string>)
    requires y !in years
    ensures Occurrences(years, y) == 0
    decreases |years|
  {
    if |years| > 0 {
      OccursNever(years[1..], y);
    }
  }

  /** Adding one book adds one to the count of every listed year it has. */
  lemma {:induction false} CountByYearsStep(books: seq<Node>, b: Node, years: seq<Option<string>>)
    requires b.year.Present?
    ensures CountByYears(books + [b], years) == CountByYears(books, years) + Occurrences(years, b.year.text)
    decreases |years|
  {
    if |years| > 0 {
      assert (books + [b])[..|books + [b]| - 1] == books;
      CountByYearsStep(books, b, years[1..]);
    }
  }

  /**
   Over a list of distinct years that covers every book's year, the groups'
   sizes add up to the number of books: each title lands in exactly one group.
   */
  lemma {:induction false} GroupSizesPartitionBooks(books: seq<Node>, years: seq<Option<string>>)
    requires forall k :: 0 <= k < |books| ==> books[k].year.Present?
    requires Lex.Distinct(years)
    requires forall y :: y in YearsOf(books) ==> y in years
    ensures CountByYears(books, years) == |books|
    decreases |books|
  {
    if |books| == 0 {
      CountZero(books, years);
    } else {
      var init := books[..|books| - 1];
      var last := books[|books| - 1];
      assert books == init + [last];
      GroupSizesPartitionBooks(init, years);
      CountByYearsStep(init, last, years);
      OccursOnce(years, last.year.text);
    }
  }

  lemma {:induction false} CountZero(books: seq<Node>, years: seq<Option<string>>)
    requires |books| == 0
    ensures CountByYears(books, years) == 0
    decreases |years|
  {
    if |years| > 0 {
      CountZero(books, years[1..]);
    }
  }

  lemma {:induction false} TotalTitlesIsCount(books: seq<Node>, groups: seq<YearGroup>, years: seq<Option<string>>)
    requires |years| == |groups|
    requires forall i :: 0 <= i < |groups| ==> groups[i].year == years[i]
    requires forall i :: 0 <= i < |groups| ==> groups[i].titles == TitlesWithYear(books, groups[i].year)
    ensures TotalTitles(groups) == CountByYears(books, years)
    decreases |groups|
  {
    if |groups| > 0 {
      TotalTitlesIsCount(books, groups[1..], years[1..]);
    }
  }

  /** Builds the report's entries for the given ascending year texts. */
  function GroupsFor(sortedYears: seq<string>, byYear: map<Option<string>, seq<Option<string>>>): (r: seq<YearGroup>)
    requires forall i :: 0 <= i < |sortedYears| ==> Some(sortedYears[i]) in byYear
    ensures |r| == |sortedYears|
    ensures forall i :: 0 <= i < |r| ==> r[i] == YearGroup(Some(sortedYears[i]), byYear[Some(sortedYears[i])])
  {
    if |sortedYears| == 0 then []
    else [YearGroup(Some(sortedYears[0]), byYear[Some(sortedYears[0])])] + GroupsFor(sortedYears[1..], byYear)
  }

  /** The keys a first-seen order lists. */
  function SeenYears(order: seq<Option<string>>): set<Option<string>> {
    set y | y in order
  }

  /** Every year text a book carries is among the books' years. */
  lemma {:induction false} YearsListed(books: seq<Node>)
    ensures forall k :: 0 <= k < |books| && books[k].year.Present? ==> books[k].year.text in YearsOf(books)
    decreases |books|
  {
    if |books| > 0 {
      YearsListed(books[..|books| - 1]);
    }
  }

  /** The position of the first book whose year text is `y`. */
  function FirstYearIndex(books: seq<Node>, y: Option<string>): (r: nat)
    requires y in YearsOf(books)
    ensures r < |books| && books[r].year == Present(y)
    ensures forall k :: 0 <= k < r ==> books[k].year != Present(y)
    decreases |books|
  {
    var init := books[..|books| - 1];
    if y in YearsOf(init) then FirstYearIndex(init, y)
    else YearsListed(init); |books| - 1
  }

  /** `order` lists year texts of the books by where each first appears. */
  predicate FirstSeenOrder(books: seq<Node>, order: seq<Option<string>>) {
    && (forall i :: 0 <= i < |order| ==> order[i] in YearsOf(books))
    && (forall i, j :: 0 <= i < j < |order| ==> FirstYearIndex(books, order[i]) < FirstYearIndex(books, order[j]))
  }

  /** The dict the driver builds, with its keys in first-seen order. */
  predicate IndexesBooks(books: seq<Node>, byYear: map<Option<string>, seq<Option<string>>>, order: seq<Option<string>>) {
    && byYear.Keys == YearsOf(books)
    && (forall y :: y in byYear ==> byYear[y] == TitlesWithYear(books, y))
    && Lex.Distinct(order) && SeenYears(order) == byYear.Keys
    && FirstSeenOrder(books, order)
  }

  /**
   One more book keeps the first-seen order: a year seen before keeps its
   place, and a new year goes last.
   */
  lemma FirstSeenOneMore(books: seq<Node>, order: seq<Option<string>>)
    requires |books| > 0 && books[|books| - 1].year.Present?
    requires FirstSeenOrder(books[..|books| - 1], order)
    ensures var y := books[|books| - 1].year.text;
      && (y in YearsOf(books[..|books| - 1]) ==> FirstSeenOrder(books, order))
      && (y !in YearsOf(books[..|books| - 1]) ==> FirstSeenOrder(books, order + [y]))
  {
    var init := books[..|books| - 1];
    var y := books[|books| - 1].year.text;
    assert YearsOf(books) == YearsOf(init) + {y};
    forall z | z in YearsOf(init) ensures FirstYearIndex(books, z) == FirstYearIndex(init, z) < |init| {
    }
    if y !in YearsOf(init) {
      var order' := order + [y];
      forall i, j | 0 <= i < j < |order'| ensures FirstYearIndex(books, order'[i]) < FirstYearIndex(books, order'[j]) {
        assert order'[i] == order[i] && order[i] in YearsOf(init);
        if j < |order| {
          assert order'[j] == order[j];
        }
      }
    }
  }

  /**
   One step of the loop body: create an empty list for a year not seen
   before, then append the title to the year's list.
   */
  function FileTitle(byYear: map<Option<string>, seq<Option<string>>>, year: Option<string>, title: Option<string>)
    : (r: map<Option<string>, seq<Option<string>>>)
    ensures r.Keys == byYear.Keys + {year}
    ensures r[year] == (if year in byYear then byYear[year] else []) + [title]
    ensures forall z :: z in byYear && z != year ==> r[z] == byYear[z]
  {
    var withList := if year in byYear then byYear else byYear[year := []];
    withList[year := withList[year] + [title]]
  }

  /** The last book's title is appended to its year's titles; other years keep theirs. */
  lemma TitlesOfLastBook(books: seq<Node>, z: Option<string>)
    requires |books| > 0
    ensures var b := books[|books| - 1];
      TitlesWithYear(books, z) == TitlesWithYear(books[..|books| - 1], z) + (if b.year == Present(z) then [TitleText(b)] else [])
  {
  }

  /** Filing the last book adds its year to the keys. */
  lemma KeysOneMore(books: seq<Node>, byYear: map<Option<string>, seq<Option<string>>>)
    requires |books| > 0 && books[|books| - 1].year.Present?
    requires byYear.Keys == YearsOf(books[..|books| - 1])
    ensures var b := books[|books| - 1];
      FileTitle(byYear, b.year.text, TitleText(b)).Keys == YearsOf(books)
  {
  }

  /** Filing the last book appends its title to its year's list only. */
  lemma TitlesOneMore(books: seq<Node>, byYear: map<Option<string>, seq<Option<string>>>)
    requires |books| > 0 && books[|books| - 1].year.Present?
    requires byYear.Keys == YearsOf(books[..|books| - 1])
    requires forall y :: y in byYear ==> byYear[y] == TitlesWithYear(books[..|books| - 1], y)
    ensures var b := books[|books| - 1];
      var filed := FileTitle(byYear, b.year.text, TitleText(b));
      forall z :: z in filed ==> filed[z] == TitlesWithYear(books, z)
  {
    var b := books[|books| - 1];
    var y := b.year.text;
    var filed := FileTitle(byYear, y, TitleText(b));
    if y !in byYear {
      TitlesOfAbsentYear(books[..|books| - 1], y);
    }
    forall z | z in filed ensures filed[z] == TitlesWithYear(books, z) {
      TitlesOfLastBook(books, z);
    }
  }

  /** A year seen for the first time goes at the end of the key order. */
  lemma OrderOneMore(byYear: map<Option<string>, seq<Option<string>>>, order: seq<Option<string>>, y: Option<string>, title: Option<string>)
    requires Lex.Distinct(order) && SeenYears(order) == byYear.Keys
    ensures var order' := if y in byYear then order else order + [y];
      Lex.Distinct(order') && SeenYears(order') == FileTitle(byYear, y, title).Keys
  {
    if y !in byYear {
      assert y !in SeenYears(order);
      assert SeenYears(order + [y]) == SeenYears(order) + {y};
    }
  }

  /** Filing the last book under its year keeps the dict faithful. */
  lemma IndexOneMore(books: seq<Node>, byYear: map<Option<string>, seq<Option<string>>>, order: seq<Option<string>>)
    requires |books| > 0 && books[|books| - 1].year.Present?
    requires IndexesBooks(books[..|books| - 1], byYear, order)
    ensures var b := books[|books| - 1];
      var y := b.year.text;
      IndexesBooks(books, FileTitle(byYear, y, TitleText(b)), if y in byYear then order else order + [y])
  {
    var b := books[|books| - 1];
    KeysOneMore(books, byYear);
    TitlesOneMore(books, byYear);
    OrderOneMore(byYear, order, b.year.text, TitleText(b));
    FirstSeenOneMore(books, order);
  }

  /**
   The dict and its first-seen key order after filing the given books, one
   after the other, as the loop body does.
   */
  function Collect(books: seq<Node>): (map<Option<string>, seq<Option<string>>>, seq<Option<string>>)
    requires forall j :: 0 <= j < |books| ==> books[j].year.Present?
  {
    if |books| == 0 then (map[], [])
    else
      var (byYear, order) := Collect(books[..|books| - 1]);
      var b := books[|books| - 1];
      var y := b.year.text;
      (FileTitle(byYear, y, TitleText(b)), if y in byYear then order else order + [y])
  }

  /**
   Filing the books one by one yields exactly the year index: keys are the
   distinct year texts in first-seen order, each with its titles in order.
   */
  lemma {:induction false} CollectIndexesBooks(books: seq<Node>)
    requires forall j :: 0 <= j < |books| ==> books[j].year.Present?
    ensures IndexesBooks(books, Collect(books).0, Collect(books).1)
    decreases |books|
  {
    if |books| > 0 {
      var init := books[..|books| - 1];
      CollectIndexesBooks(init);
      IndexOneMore(books, Collect(init).0, Collect(init).1);
    }
  }

  /**
   The driver's loop over `findall("book")`: read each book's year and
   title text and append the title to the list kept under that year,
   creating the list the first time the year is seen. Fails as soon as a
   book lacks either child.
   */
  method CollectByYear(books: seq<Node>) returns (ok: bool, byYear: map<Option<string>, seq<Option<string>>>, order: seq<Option<string>>)
    ensures ok <==> AllHaveYearAndTitle(books)
    ensures ok ==> IndexesBooks(books, byYear, order)
  {
    byYear := map[];
    order := [];
    var k := 0;
    while k < |books|
      invariant 0 <= k <= |books|
      invariant forall j :: 0 <= j < k ==> HasYearAndTitle(books[j])
      invariant (byYear, order) == Collect(books[..k])
    {
      var book := books[k];
      if book.year.Absent? || book.title.Absent? {
        return false, byYear, order;
      }
      var year := book.year.text;
      var title := book.title.text;
      assert books[..k + 1][..k] == books[..k];
      if year !in byYear {
        order := order + [year];
      }
      byYear := FileTitle(byYear, year, title);
      k := k + 1;
    }
    assert books[..k] == books;
    CollectIndexesBooks(books);
    return true, byYear, order;
  }

  /** The string keys of the dict, in first-seen order. */
  function KeyNames(order: seq<Option<string>>): (names: seq<string>)
    requires forall i :: 0 <= i < |order| ==> order[i].Some?
    ensures |names| == |order|
    ensures forall i :: 0 <= i < |order| ==> Some(names[i]) == order[i]
  {
    if |order| == 0 then [] else [order[0].value] + KeyNames(order[1..])
  }

  /** Without a None key every first-seen key is a string, and they are distinct. */
  lemma KeyNamesDistinct(byYear: map<Option<string>, seq<Option<string>>>, order: seq<Option<string>>)
    requires Lex.Distinct(order) && SeenYears(order) == byYear.Keys
    requires None !in byYear
    ensures forall i :: 0 <= i < |order| ==> order[i].Some?
    ensures Lex.Distinct(KeyNames(order))
  {
    forall i | 0 <= i < |order| ensures order[i].Some? {
      assert order[i] in SeenYears(order);
    }
  }

  /** Each sorted key is a key of the dict. */
  lemma SortedKeysPresent(byYear: map<Option<string>, seq<Option<string>>>, order: seq<Option<string>>, sorted: seq<string>)
    requires SeenYears(order) == byYear.Keys
    requires forall i :: 0 <= i < |order| ==> order[i].Some?
    requires Lex.SameElements(sorted, KeyNames(order))
    ensures forall i :: 0 <= i < |sorted| ==> Some(sorted[i]) in byYear
  {
    var names := KeyNames(order);
    forall i | 0 <= i < |sorted| ensures Some(sorted[i]) in byYear {
      assert sorted[i] in names;
      var j :| 0 <= j < |names| && names[j] == sorted[i];
      assert order[j] in SeenYears(order);
    }
  }

  /** Each key of the dict is one of the sorted keys. */
  lemma EveryKeySorted(byYear: map<Option<string>, seq<Option<string>>>, order: seq<Option<string>>, sorted: seq<string>)
    requires SeenYears(order) == byYear.Keys
    requires forall i :: 0 <= i < |order| ==> order[i].Some?
    requires Lex.SameElements(sorted, KeyNames(order))
    ensures forall y :: y in byYear ==> exists i :: 0 <= i < |sorted| && Some(sorted[i]) == y
  {
    var names := KeyNames(order);
    forall y | y in byYear ensures exists i :: 0 <= i < |sorted| && Some(sorted[i]) == y {
      assert y in SeenYears(order);
      var j :| 0 <= j < |order| && order[j] == y;
      assert names[j] in sorted;
      var i :| 0 <= i < |sorted| && sorted[i] == names[j];
      assert Some(sorted[i]) == y;
    }
  }

  /**
   `sorted(books_by_year.keys())` and the listing that follows: every key
   once, in ascending string order, with its list of titles. A key None
   beside any string key cannot be compared and fails.
   */
  method ArrangeByYear(byYear: map<Option<string>, seq<Option<string>>>, order: seq<Option<string>>)
    returns (r: Result<seq<YearGroup>, GroupError>)
    requires Lex.Distinct(order) && SeenYears(order) == byYear.Keys
    ensures r.Failure? <==> None in byYear && byYear.Keys != {None}
    ensures r.Failure? ==> r.error == Unorderable
    ensures r.Success? ==> Ascending(r.value)
    ensures r.Success? ==> forall i :: 0 <= i < |r.value| ==>
      r.value[i].year in byYear && r.value[i].titles == byYear[r.value[i].year]
    ensures r.Success? ==> forall y :: y in byYear ==> exists i :: 0 <= i < |r.value| && r.value[i].year == y
  {
    if None in byYear && byYear.Keys != {None} {
      return Failure(Unorderable);
    }
    if None in byYear {
      var only := YearGroup(None, byYear[None]);
      assert forall y :: y in byYear ==> y == None;
      assert [only][0].year == None;
      return Success([only]);
    }
    KeyNamesDistinct(byYear, order);
    var sorted := Lex.Sort(KeyNames(order));
    SortedKeysPresent(byYear, order, sorted);
    EveryKeySorted(byYear, order, sorted);
    var groups := GroupsFor(sorted, byYear);
    forall i, j | 0 <= i < j < |groups| ensures YearBefore(groups[i], groups[j]) {
      assert Lex.Less(sorted[i], sorted[j]);
    }
    forall y | y in byYear ensures exists i :: 0 <= i < |groups| && groups[i].year == y {
      var i :| 0 <= i < |sorted| && Some(sorted[i]) == y;
      assert groups[i].year == y;
    }
    return Success(groups);
  }

  /** The year texts of a report's groups, in the report's order. */
  function GroupYears(groups: seq<YearGroup>): (r: seq<Option<string>>)
    ensures |r| == |groups|
    ensures forall i :: 0 <= i < |groups| ==> r[i] == groups[i].year
  {
    if |groups| == 0 then [] else [groups[0].year] + GroupYears(groups[1..])
  }

  lemma AscendingYearsDistinct(groups: seq<YearGroup>)
    requires Ascending(groups)
    ensures Lex.Distinct(GroupYears(groups))
  {
    var ys := GroupYears(groups);
    forall i, j | 0 <= i < j < |ys| ensures ys[i] != ys[j] {
      assert YearBefore(groups[i], groups[j]);
      Lex.LessIrreflexive(groups[i].year.value);
    }
  }

  /** Distinct, ascending groups that name every year account for every book once. */
  lemma {:induction false} ReportCoversEachBookOnce(books: seq<Node>, groups: seq<YearGroup>)
    requires AllHaveYearAndTitle(books)
    requires Ascending(groups)
    requires forall i :: 0 <= i < |groups| ==> groups[i].titles == TitlesWithYear(books, groups[i].year)
    requires forall y :: y in YearsOf(books) ==> exists i :: 0 <= i < |groups| && groups[i].year == y
    ensures TotalTitles(groups) == |books|
  {
    var ys := GroupYears(groups);
    AscendingYearsDistinct(groups);
    forall y | y in YearsOf(books) ensures y in ys {
      var i :| 0 <= i < |groups| && groups[i].year == y;
      assert ys[i] in ys;
    }
    GroupSizesPartitionBooks(books, ys);
    TotalTitlesIsCount(books, groups, ys);
  }

  /**
   The driver's report over the catalog's children: on success, one entry
   per distinct year text in ascending string order, each holding exactly
   that year's titles in document order, every book's title counted once.
   */
  method GroupByYear(children: seq<Node>) returns (r: Result<seq<YearGroup>, GroupError>)
    ensures r == Failure(MissingChild) <==> !AllHaveYearAndTitle(Books(children))
    ensures r == Failure(Unorderable) <==>
      && AllHaveYearAndTitle(Books(children))
      && None in YearsOf(Books(children)) && YearsOf(Books(children)) != {None}
    ensures r.Success? ==> Ascending(r.value)
    ensures r.Success? ==> forall i :: 0 <= i < |r.value| ==>
      && r.value[i].year in YearsOf(Books(children))
      && r.value[i].titles == TitlesWithYear(Books(children), r.value[i].year)
    ensures r.Success? ==> forall y :: y in YearsOf(Books(children)) ==>
      exists i :: 0 <= i < |r.value| && r.value[i].year == y
    ensures r.Success? ==> TotalTitles(r.value) == |Books(children)|
  {
    var books := Books(children);
    var ok, byYear, order := CollectByYear(books);
    if !ok {
      return Failure(MissingChild);
    }
    r := ArrangeByYear(byYear, order);
    if r.Success? {
      ReportCoversEachBookOnce(books, r.value);
    }
  }

  /**
   The last book's title joins the end of its year's group, and no other
   year's group or year text changes.
   */
  lemma LastBookJoinsYearGroup(books: seq<Node>)
    requires |books| > 0 && books[|books| - 1].year.Present?
    ensures var init := books[..|books| - 1];
      var b := books[|books| - 1];
      && TitlesWithYear(books, b.year.text) == TitlesWithYear(init, b.year.text) + [TitleText(b)]
      && (forall y :: y != b.year.text ==> TitlesWithYear(books, y) == TitlesWithYear(init, y))
      && YearsOf(books) == YearsOf(init) + {b.year.text}
  {
    var b := books[|books| - 1];
    forall y ensures TitlesWithYear(books, y) == TitlesWithYear(books[..|books| - 1], y) + (if b.year == Present(y) then [TitleText(b)] else []) {
      TitlesOfLastBook(books, y);
    }
  }

  /**
   An appended book's title joins the end of its year's group, a new group
   appears only for a year not seen before, and every other group is untouched.
   */
  lemma {:induction false} AppendJoinsYearGroup(children: seq<Node>, bookId: PyText.PyValue, title: string, author: string, year: PyText.PyValue)
    ensures var before := Books(children);
      var after := Books(AppendBook(children, bookId, title, author, year));
      && TitlesWithYear(after, Some(PyText.Str(year))) == TitlesWithYear(before, Some(PyText.Str(year))) + [Some(title)]
      && (forall y :: y != Some(PyText.Str(year)) ==> TitlesWithYear(after, y) == TitlesWithYear(before, y))
      && YearsOf(after) == YearsOf(before) + {Some(PyText.Str(year))}
  {
    var appended := AppendBook(children, bookId, title, author, year);
    var after := Books(appended);
    var b := appended[|children|];
    assert after[..|after| - 1] == Books(children) && after[|after| - 1] == b by {
      assert after == Books(children) + [b];
    }
    assert b.year.text == Some(PyText.Str(year)) && TitleText(b) == Some(title);
    LastBookJoinsYearGroup(after);
  }
}
