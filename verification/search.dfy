/** Book search: a book is found when the query occurs, ignoring ASCII case,
    in its title, author, ISBN or category. */
module Search {

  import opened Wrappers
  import opened Records
  import Text

  /** `column ILIKE '%query%'` with the query taken literally: the query,
      case-folded, is a substring of the case-folded column. */
  predicate ILikeSubstring(column: string, query: string)
  {
    Text.Contains(Text.Lower(column), Text.Lower(query))
  }

  /** The search condition for one book. A category that is NULL matches nothing. */
  predicate Matches(b: Book, query: string)
  {
    || ILikeSubstring(b.title, query)
    || ILikeSubstring(b.author, query)
    || ILikeSubstring(b.isbn, query)
    || (b.category.Some? && ILikeSubstring(b.category.value, query))
  }

  /** The stored books the search returns, keyed by their ids. */
  function SearchBooks(books: map<BookId, Book>, query: string): (found: map<BookId, Book>)
    ensures forall id :: id in found <==> id in books && Matches(books[id], query)
    ensures forall id :: id in found ==> found[id] == books[id]
  {
    map id | id in books && Matches(books[id], query) :: books[id]
  }

  /** The empty query finds every book, since every ISBN contains the empty string. */
  lemma EmptyQueryFindsAll(books: map<BookId, Book>)
    ensures SearchBooks(books, "") == books
  {
    forall id | id in books ensures Matches(books[id], "") {
      assert Text.Lower("") == "";
      assert ILikeSubstring(books[id].isbn, "");
    }
  }

  /** Two queries that differ only in the case of ASCII letters find the same books. */
  lemma CaseInsensitive(books: map<BookId, Book>, q1: string, q2: string)
    requires |q1| == |q2|
    requires forall i :: 0 <= i < |q1| ==> Text.LowerChar(q1[i]) == Text.LowerChar(q2[i])
    ensures SearchBooks(books, q1) == SearchBooks(books, q2)
  {
    assert Text.Lower(q1) == Text.Lower(q2);
  }

  /** A query that occurs in the author column finds the book, whatever
      its other columns hold and whatever the case of the query. */
  lemma AuthorSubstringFinds(b: Book, pre: string, q: string, post: string)
    requires Text.Lower(b.author) == pre + Text.Lower(q) + post
    ensures Matches(b, q)
  {
    var s := Text.Lower(b.author);
    assert Text.OccursAt(s, Text.Lower(q), |pre|) by {
      assert s[|pre|..|pre| + |Text.Lower(q)|] == Text.Lower(q);
    }
  }
}
