# Book catalog of `XMLFileManager`, modelled in Dafny

`lab6.py` keeps a catalog of books in an XML file. `XMLFileManager` parses the
file into an ElementTree. It appends books to the `<catalog>` root and deletes
them from it, rewriting the file after each change. Its demonstration driver
then groups the remaining titles by year.

This project models the in-memory part of that logic. The root's children
are an immutable `seq<Node>`. Each `Node` has a tag, an optional `id`
attribute, and the text of its `title`, `author` and `year` children. The
ElementTree calls are read as list operations:

- `SubElement(root, "book")` appends to the sequence.
- `findall("book")` filters it to the `book` children in document order.
- `remove(book)` takes that one position out.

Modules:

- `PyText`: Python's `str(...)` of the ids and years the catalog receives,
  for `int` (canonical decimal) and `str` values. A decimal reader is its partner.
- `Catalog`: the children, `append_book`, and `delete_book`. The loop is
  written as a method and also as a reference function; both have the same contract.
- `Lex`: Python's ordering of `str` (code point by code point, a prefix
  first) and `sorted` over distinct keys.
- `YearGroups`: the driver's `books_by_year` loop, then the sorted listing.
- `Driver`: the driver's run over the three-book sample catalog in the file's trailing comment.
- `Wrappers`: `Option` and `Result`.

A book's child text is a `Field`. `Absent` means `find` returns None, so
`.text` raises an error in the driver. `Present(None)` means the element
exists but has no text. This keeps the driver's two failure modes visible:

- `MissingChild`: a book with no `year` or `title` child.
- `Unorderable`: a textless year next to real year texts, because `sorted`
  cannot compare None with a string.

## Model

| member | source | states |
|---|---|---|
| PyText.Str | lab6.py:85 | `str(book_id)`/`str(year)`: a string is kept as is; an integer becomes a canonical decimal (no leading zero, no "-0") that reads back as the same integer |
| PyText.NatToDecimal | lab6.py:89 | the decimal spelling of a natural number is a non-empty digit run that starts with '0' only for zero |
| PyText.DigitsValueOfNatToDecimal | lab6.py:89 | reading the decimal digits back gives the original number (round trip) |
| PyText.IntToDecimal | lab6.py:85 | `str` of any integer, negatives included, is canonical and reads back as that integer |
| PyText.StrOfIntInjective | lab6.py:99 | two integer keys compare equal as strings only when they are the same integer |
| PyText.ZeroPaddedIsNoIntStr | lab6.py:99 | a text with a leading zero and at least two characters ("03") is never `str` of an integer |
| Catalog.Books | lab6.py:98 | `findall("book")` yields only `book` elements, each of them one of the children (that it yields every `book` child is `Catalog.BooksKeepCounts`) |
| Catalog.BooksKeepCounts | lab6.py:98 | `findall("book")` yields each `book` child exactly as many times as it occurs among the children, and no other element |
| Catalog.BooksOfAllBooks | lab6.py:98 | when every child is a `book`, `findall("book")` returns the children themselves, in order |
| Catalog.BooksOfConcat | lab6.py:98 | the book filter respects document order: filtering a concatenation concatenates the filtered parts |
| Catalog.NewBook | lab6.py:84-89 | the element `append_book` builds is a `book` that a later `delete_book(book_id)` matches; its id and year texts read back as the integers passed (or are the strings passed), and its title and author are the given ones |
| Catalog.AppendBook | lab6.py:84-89 | the new children are the old ones, unchanged and in place, plus exactly one last child: a `book` with id `str(book_id)`, the given title and author, and year `str(year)`; the book list grows by that book at its end |
| Catalog.FirstMatchIndex | lab6.py:98-99 | the position of the first `book` child whose id equals the key: no earlier child matches, and the one at the position does (or there is none) |
| Catalog.DeleteFirst | lab6.py:96-103 | (through `DeletedFirst`) the result is true exactly when some `book` child has the key as id; then exactly the first such child is removed and the others keep their order; otherwise the children are unchanged |
| Catalog.DeletedFirstIsDeleteFirst | lab6.py:96-103 | the delete promise admits one outcome only: any flag and children meeting it are exactly `DeleteFirst`'s, so the loop `DeleteBook` and every lemma stated about `DeleteFirst` describe the same result |
| Catalog.DeleteBook | lab6.py:96-103 | the scan with early return: same promises as the reference function, including the false-and-unchanged outcome |
| Catalog.DeleteRemovesOneMatch | lab6.py:98-102 | a successful delete lowers the number of books carrying the id by exactly one, so later duplicates survive; a failed one changes nothing |
| Catalog.DeleteKeepsOtherChildren | lab6.py:98-100 | every child that is not a book with the key keeps its multiplicity: non-book elements, id-less books and other ids; the length drops by one exactly when a match exists |
| Catalog.DeleteUndoesAppend | lab6.py:84-102 | deleting by the id just appended, when no earlier book had it, returns true and restores the previous children |
| Catalog.DeleteAfterAppendKeepsNewBook | lab6.py:84-102 | when an earlier book already had the id, the delete removes that earlier book and keeps the appended one last |
| Catalog.IntKeyKeepsZeroPaddedIds | lab6.py:99 | a book whose id is zero-padded never matches an integer key, so no integer-keyed delete removes it |
| Lex.Less | lab6.py:135 | Python's `<` on `str`, which `sorted` uses, agrees with the usual lexicographic order: at the first position where the strings differ the smaller code point wins, and a proper prefix comes first |
| Lex.LessIrreflexive | lab6.py:135 | no year text sorts before itself |
| Lex.LessTransitive | lab6.py:135 | string order is transitive |
| Lex.LessTotal | lab6.py:135 | any two different strings are ordered one way or the other |
| Lex.LessAsymmetric | lab6.py:135 | two strings are never each below the other |
| Lex.Insert | lab6.py:135 | inserting a new string into a strictly ascending list keeps it strictly ascending, with exactly that string added |
| Lex.Sort | lab6.py:135 | `sorted` over distinct keys: the same keys, the same count, strictly ascending |
| Lex.StrictlySortedUnique | lab6.py:135 | two strictly ascending lists of the same strings are equal, so the listing does not depend on the order in which years were first seen |
| YearGroups.FileTitle | lab6.py:130-133 | one pass of the loop body: the year becomes a key if it was not one, its list gains the title at its end, and every other key keeps its list |
| YearGroups.FirstYearIndex | lab6.py:126-131 | the position of the first book carrying a given year text: that book has the year and no earlier book does |
| YearGroups.FirstSeenOneMore | lab6.py:130-131 | filing one more book keeps the key order first-seen: a year seen before keeps its place, and a new year is recorded after all earlier ones |
| YearGroups.IndexOneMore | lab6.py:130-133 | filing one more book under its year keeps the dict exact: the year's list gains the title at its end, and a new key is added only for a new year |
| YearGroups.CollectIndexesBooks | lab6.py:126-133 | `Collect`, the loop written as a fold over the books, builds a dict whose keys are exactly the books' distinct year texts, recorded once each and ordered by where each first appears, and whose list under each year holds that year's titles in document order |
| YearGroups.CollectByYear | lab6.py:124-133 | the loop succeeds exactly when every book has a year and a title child; then its keys are the distinct year texts in first-seen order, and each maps to that year's titles in document order |
| YearGroups.ArrangeByYear | lab6.py:135-138 | fails exactly when a None key sits beside other keys; otherwise it lists every key once, strictly ascending, each with its own titles |
| YearGroups.GroupSizesPartitionBooks | lab6.py:124-133 | over distinct years covering every book's year, the group sizes add up to the number of books |
| YearGroups.ReportCoversEachBookOnce | lab6.py:124-138 | an ascending report naming every year, with each year's titles, holds every book's title exactly once |
| YearGroups.GroupByYear | lab6.py:124-138 | the whole report: the failure cases exactly as the driver raises them; on success one entry per distinct year text in ascending string order, each with exactly that year's titles in document order, with as many titles in all as books |
| YearGroups.AppendJoinsYearGroup | lab6.py:124-133 | after an append, the new title is last in the group for `str(year)`, a group appears only for a new year, and all other groups are unchanged |
| Driver.SampleEdits | lab6.py:115-119 | on the sample catalog, appending book 4 (2025) and deleting id 3 returns true and leaves books 1, 2 and 4 |
| Driver.SampleReport | lab6.py:124-138 | on the edited sample the report's years are 1991, 2003 and 2025, and 2025 holds only "title_4" |

## Left out

- Opening the file: the existence check, `FileNotFound`, `ET.parse`, and `FileCorrupted` on a parse failure (lab6.py:62-72). These are filesystem and parser I/O. The model starts from the parsed children.
- `read()` (lab6.py:75-79): serialisation is ElementTree's own text format, a foreign library.
- `tree.write` after each mutation (lab6.py:91, 101): only the in-memory tree is modelled.
- The `except Exception` that re-raises `FileCorrupted` in `append_book` and `delete_book` (lab6.py:92-93, 104-105) is not modelled: append and delete are total functions. Its causes are a failing `tree.write` (I/O) and the `str()` limit below.
- PyText.IntToDecimal: CPython's default limit on int-to-str conversion (4300 digits) makes `str()` of a longer int raise ValueError. The model spells every integer.
- Catalog.AppendBook: when `str(book_id)` or `str(year)` raises, the source has already attached a partial `<book>` to the root before raising `FileCorrupted`. An oversized id leaves an empty `book` with no id. An oversized year leaves a `book` without a `year` child, because `str(year)` is evaluated before that child is created. The model always appends the complete book and does not model the partial one.
- Catalog.AppendBook: when `tree.write` fails (lab6.py:91), the complete book is already in the tree, exactly as the model appends it. Only the `FileCorrupted` exception is not modelled.
- `setup_logger` and the `logged` decorator (lab6.py:20-53): logging is a side effect and does not change catalog state or results.
- The driver's `print` output (lab6.py:111-120, 136-138): the model builds the grouped structure, not the console text.
- Catalog.AppendBook: `title` and `author` are modelled as strings. The source stores any Python value as element text, and other values are not modelled.
- PyText.Str: only Python `int` and `str` ids and years are modelled. `str` of other types (floats, None, objects) is not.
- Catalog.Node: only the first `title`, `author` and `year` child of a book is kept, since `find` reads only that one. Other attributes and children are not represented.
- Catalog.DeleteBook: the scan walks all children and skips non-books. The source walks the list that `findall("book")` returns and removes that element by identity. The two select the same position, because the first match is the only matching book at or before that point.

## Behaviour worth knowing

- The root may hold children other than `book`. `findall("book")` skips them, so they are never deleted (`Catalog.DeleteKeepsOtherChildren`).
- Ids are compared as text: `str(book_id)` against the `id` attribute. Integer 3 matches "3" but never "03" (`Catalog.IntKeyKeepsZeroPaddedIds`).
