/**
 The in-memory children of the `<catalog>` root element and the two
 mutations `XMLFileManager` performs on them: appending a book as the last
 child and deleting the first book whose `id` attribute equals a key.
 ElementTree's `SubElement`, `findall("book")` and `remove` are read here as
 operations on the ordered sequence of the root's children.
 */
module Catalog {
  import opened Wrappers
  import opened PyText

  /**
   The text of one named child element of a book, as `book.find(name).text`
   sees it: Absent when the book has no such child (so `find` yields None),
   Present(None) when the child exists but holds no text.
   */
  datatype Field = Absent | Present(text: Option<string>)

  /**
   One direct child of the catalog root: its tag, its `id` attribute (None
   when the attribute is missing) and the texts of its first `title`,
   `author` and `year` children.
   */
  datatype Node = Node(tag: string, id: Option<string>, title: Field, author: Field, year: Field)

  const BookTag: string := "book"

  predicate IsBook(n: Node) {
    n.tag == BookTag
  }

  /** `book.get("id") == key` for a child that `findall("book")` returns. */
  predicate Matches(n: Node, key: string) {
    IsBook(n) && n.id == Some(key)
  }

  predicate HasMatch(children: seq<Node>, key: string) {
    exists k :: 0 <= k < |children| && Matches(children[k], key)
  }

  /** The direct `book` children in document order: `root.findall("book")`. */
  function Books(children: seq<Node>): (r: seq<Node>)
    ensures forall k :: 0 <= k < |r| ==> IsBook(r[k])
    ensures forall n :: n in r ==> n in children
  {
    if |children| == 0 then []
    else Books(children[..|children| - 1])
         + (if IsBook(children[|children| - 1]) then [children[|children| - 1]] else [])
  }

  /** `findall("book")` returns each book child as often as it occurs, and nothing else. */
  lemma {:induction false} BooksKeepCounts(children: seq<Node>)
    ensures forall n :: multiset(Books(children))[n] == if IsBook(n) then multiset(children)[n] else 0
    decreases |children|
  {
    if |children| > 0 {
      var init := children[..|children| - 1];
      var last := children[|children| - 1];
      assert children == init + [last];
      BooksKeepCounts(init);
    }
  }

  lemma {:induction false} BooksOfConcat(a: seq<Node>, b: seq<Node>)
    ensures Books(a + b) == Books(a) + Books(b)
    decreases |b|
  {
    if |b| == 0 {
      assert a + b == a;
    } else {
      var b' := b[..|b| - 1];
      assert (a + b)[..|a + b| - 1] == a + b';
      BooksOfConcat(a, b');
    }
  }

  /** When every child is a book, `findall("book")` returns all of them in order. */
  lemma {:induction false} BooksOfAllBooks(children: seq<Node>)
    requires forall k :: 0 <= k < |children| ==> IsBook(children[k])
    ensures Books(children) == children
    decreases |children|
  {
    if |children| > 0 {
      var init := children[..|children| - 1];
      BooksOfAllBooks(init);
      assert Books(children) == init + [children[|children| - 1]];
      assert init + [children[|children| - 1]] == children;
    }
  }

  /** The book `append_book(book_id, title, author, year)` creates. */
  function NewBook(bookId: PyValue, title: string, author: string, year: PyValue): (r: Node)
    ensures Matches(r, Str(bookId))
    ensures bookId.PyInt? ==> DecimalValue(r.id.value) == Some(bookId.i)
    ensures r.title == Present(Some(title)) && r.author == Present(Some(author))
    ensures r.year.Present? && r.year.text.Some?
    ensures year.PyInt? ==> DecimalValue(r.year.text.value) == Some(year.i)
    ensures year.PyStr? ==> r.year.text == Some(year.s)
  {
    Node(BookTag, Some(Str(bookId)), Present(Some(title)), Present(Some(author)), Present(Some(Str(year))))
  }

  /** `append_book`: one new book becomes the last child of the root. */
  function AppendBook(children: seq<Node>, bookId: PyValue, title: string, author: string, year: PyValue)
    : (r: seq<Node>)
    ensures |r| == |children| + 1
    ensures r[..|children|] == children
    ensures IsBook(r[|children|]) && r[|children|].id == Some(Str(bookId))
    ensures r[|children|].title == Present(Some(title)) && r[|children|].author == Present(Some(author))
    ensures r[|children|].year == Present(Some(Str(year)))
    ensures Books(r) == Books(children) + [r[|children|]]
  {
    var book := NewBook(bookId, title, author, year);
    BooksOfConcat(children, [book]);
    assert Books([book]) == [book] by {
      assert [book][..0] == [];
    }
    children + [book]
  }

  /**
   The position of the first child that is a book with the given id, or
   the number of children when there is none.
   */
  function FirstMatchIndex(children: seq<Node>, key: string): (i: nat)
    ensures i <= |children|
    ensures forall k :: 0 <= k < i ==> !Matches(children[k], key)
    ensures i < |children| ==> Matches(children[i], key)
  {
    if |children| == 0 then 0
    else if Matches(children[0], key) then 0
    else 1 + FirstMatchIndex(children[1..], key)
  }

  /**
   What `delete_book` promises: it reports true exactly when some child is a
   book with the key as id, and then the first such child, and only it, is
   gone with the others in order; on false the children are unchanged.
   */
  predicate DeletedFirst(children: seq<Node>, key: string, deleted: bool, after: seq<Node>) {
    && (deleted <==> HasMatch(children, key))
    && (!deleted ==> after == children)
    && (deleted ==> exists i ::
         && 0 <= i < |children| && Matches(children[i], key)
         && (forall k :: 0 <= k < i ==> !Matches(children[k], key))
         && after == children[..i] + children[i + 1..])
  }

  /**
   `delete_book` on the in-memory tree, given the key `str(book_id)`:
   whether a book was removed, and the children afterwards.
   */
  function DeleteFirst(children: seq<Node>, key: string): (r: (bool, seq<Node>))
    ensures DeletedFirst(children, key, r.0, r.1)
  {
    var i := FirstMatchIndex(children, key);
    if i == |children| then (false, children) else (true, children[..i] + children[i + 1..])
  }

  /** The promise fixes the outcome: any result meeting it is `DeleteFirst`'s. */
  lemma DeletedFirstIsDeleteFirst(children: seq<Node>, key: string, deleted: bool, after: seq<Node>)
    requires DeletedFirst(children, key, deleted, after)
    ensures (deleted, after) == DeleteFirst(children, key)
  {
    if deleted {
      var i :| && 0 <= i < |children| && Matches(children[i], key)
               && (forall k :: 0 <= k < i ==> !Matches(children[k], key))
               && after == children[..i] + children[i + 1..];
      assert FirstMatchIndex(children, key) == i;
    }
  }

  /**
   `delete_book(book_id)` as the source runs it: walk the children in
   document order, and at the first `book` whose `id` equals
   `str(book_id)` remove that one child and report true; report false
   when the walk ends without a match.
   */
  method DeleteBook(children: seq<Node>, bookId: PyValue) returns (deleted: bool, after: seq<Node>)
    ensures DeletedFirst(children, Str(bookId), deleted, after)
  {
    var key := Str(bookId);
    var i := 0;
    while i < |children|
      invariant 0 <= i <= |children|
      invariant forall k :: 0 <= k < i ==> !Matches(children[k], key)
    {
      var child := children[i];
      if IsBook(child) && child.id == Some(key) {
        return true, children[..i] + children[i + 1..];
      }
      i := i + 1;
    }
    return false, children;
  }

  /** How many children are books with the given id. */
  function MatchCount(children: seq<Node>, key: string): nat {
    if |children| == 0 then 0
    else MatchCount(children[..|children| - 1], key) + (if Matches(children[|children| - 1], key) then 1 else 0)
  }

  lemma {:induction false} MatchCountOfConcat(a: seq<Node>, b: seq<Node>, key: string)
    ensures MatchCount(a + b, key) == MatchCount(a, key) + MatchCount(b, key)
    decreases |b|
  {
    if |b| == 0 {
      assert a + b == a;
    } else {
      var b' := b[..|b| - 1];
      assert (a + b)[..|a + b| - 1] == a + b';
      MatchCountOfConcat(a, b', key);
    }
  }

  /**
   Deleting removes exactly one book with the key, so later books that
   share the id survive: the number of matches drops by one exactly when
   a book was deleted, and stays put otherwise.
   */
  lemma DeleteRemovesOneMatch(children: seq<Node>, key: string)
    ensures DeleteFirst(children, key).0 ==> MatchCount(DeleteFirst(children, key).1, key) == MatchCount(children, key) - 1
    ensures !DeleteFirst(children, key).0 ==> MatchCount(DeleteFirst(children, key).1, key) == MatchCount(children, key)
  {
    var i := FirstMatchIndex(children, key);
    if i < |children| {
      var after := children[..i] + children[i + 1..];
      assert children == children[..i] + [children[i]] + children[i + 1..];
      MatchCountOfConcat(children[..i] + [children[i]], children[i + 1..], key);
      MatchCountOfConcat(children[..i], [children[i]], key);
      MatchCountOfConcat(children[..i], children[i + 1..], key);
      assert [children[i]][..0] == [];
    }
  }

  /**
   Only a book carrying the key can disappear: every other child (a
   non-book element, a book without an id, a book with another id) occurs
   as often afterwards as before, and the one node removed matches the key.
   */
  lemma DeleteKeepsOtherChildren(children: seq<Node>, key: string, n: Node)
    requires !Matches(n, key)
    ensures multiset(DeleteFirst(children, key).1)[n] == multiset(children)[n]
    ensures |DeleteFirst(children, key).1| == |children| - (if HasMatch(children, key) then 1 else 0)
  {
    var i := FirstMatchIndex(children, key);
    if i < |children| {
      assert children == children[..i] + [children[i]] + children[i + 1..];
      assert multiset(children) == multiset(children[..i]) + multiset{children[i]} + multiset(children[i + 1..]);
      assert children[i] != n;
    }
  }

  /**
   Deleting by the id just appended undoes the append when no earlier book
   carried that id.
   */
  lemma DeleteUndoesAppend(children: seq<Node>, bookId: PyValue, title: string, author: string, year: PyValue)
    requires !HasMatch(children, Str(bookId))
    ensures DeleteFirst(AppendBook(children, bookId, title, author, year), Str(bookId)) == (true, children)
  {
    var r := AppendBook(children, bookId, title, author, year);
    assert forall k :: 0 <= k < |children| ==> r[k] == children[k];
    assert FirstMatchIndex(r, Str(bookId)) == |children|;
    assert r[..|children|] == children;
    assert r[|children| + 1..] == [];
    assert r[..|children|] + r[|children| + 1..] == children;
  }

  /** A match inside a prefix is found before anything appended after it. */
  lemma FirstMatchIndexOfConcat(a: seq<Node>, b: seq<Node>, key: string)
    requires HasMatch(a, key)
    ensures FirstMatchIndex(a + b, key) == FirstMatchIndex(a, key)
  {
    var i := FirstMatchIndex(a, key);
    assert (a + b)[i] == a[i];
  }

  /** A match inside a prefix is deleted without touching what follows it. */
  lemma DeleteFirstOfConcat(a: seq<Node>, b: seq<Node>, key: string)
    requires HasMatch(a, key)
    ensures DeleteFirst(a + b, key) == (true, DeleteFirst(a, key).1 + b)
  {
    FirstMatchIndexOfConcat(a, b, key);
    var i := FirstMatchIndex(a, key);
    var ab := a + b;
    assert ab[..i] == a[..i];
    assert ab[i + 1..] == a[i + 1..] + b;
    assert ab[..i] + ab[i + 1..] == (a[..i] + a[i + 1..]) + b;
  }

  /**
   With duplicates the first book in document order wins: when an earlier
   book already has the id, deleting by it after an append removes that
   earlier book and keeps the newly appended one, still last.
   */
  lemma DeleteAfterAppendKeepsNewBook(children: seq<Node>, bookId: PyValue, title: string, author: string, year: PyValue)
    requires HasMatch(children, Str(bookId))
    ensures DeleteFirst(AppendBook(children, bookId, title, author, year), Str(bookId))
         == (true, DeleteFirst(children, Str(bookId)).1 + [NewBook(bookId, title, author, year)])
  {
    var book := NewBook(bookId, title, author, year);
    assert AppendBook(children, bookId, title, author, year) == children + [book];
    DeleteFirstOfConcat(children, [book], Str(bookId));
  }

  /**
   An integer key is never equal to a zero-padded id such as "03", so such
   a book survives every integer-keyed delete.
   */
  lemma IntKeyKeepsZeroPaddedIds(children: seq<Node>, n: int, k: nat)
    requires k < |children| && IsBook(children[k])
    requires children[k].id.Some? && |children[k].id.value| >= 2 && children[k].id.value[0] == '0'
    ensures !Matches(children[k], Str(PyInt(n)))
    ensures multiset(DeleteFirst(children, Str(PyInt(n))).1)[children[k]] == multiset(children)[children[k]]
  {
    ZeroPaddedIsNoIntStr(children[k].id.value, n);
    DeleteKeepsOtherChildren(children, Str(PyInt(n)), children[k]);
  }
}
