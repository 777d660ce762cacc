# Library loans, search and ISBN lookup in Dafny

This project models the core of a small library-management service: a REST
backend over tables of books, members and loan transactions. Four parts are
modelled:

- **The loan workflow** (`loans.dfy`). Issuing a book checks that a copy is
  available. It takes one copy off the book's `available_copies` and records
  a loan with status Issued. Returning a loan marks it Returned with today's
  date and puts one copy back. A late return is fined 5 currency units for
  each day past the due date. The due-date sweep sends one reminder for
  each loan due today and reports how many loans it matched. The store is a
  `Library` object. Issue and return update its maps of books and loans in
  place. The sweep changes nothing in the store.
- **Book search** (`search.dfy`). A book is found when the query, ignoring
  ASCII case, is a substring of its title, author, ISBN or category.
- **ISBN metadata lookup** (`isbn_lookup.dfy`). Google Books is asked first
  and Open Library second. Each catalogue's reply is reshaped into one
  common record. When neither has the book, the answer is "Book not found".
- **String helpers** (`text.dfy`). These are the Python and SQL string
  operations the service relies on: `sep.join`, `s.split(sep)`, `s.split()`
  on whitespace, ASCII case folding and substring search.

Conventions:

- Dates are whole day numbers.
- The clock is a `today` parameter.
- The catalogue replies are input records; no request is made.
- The mail relay is a list of the mails handed to it.
- Errors are `Result` values. Each error kind's `Detail()` gives the reply
  body the service sends: "Book unavailable", "Transaction not found", "Book
  not found", or "Internal Server Error" for an uncaught exception.

The model keeps these gaps of the source:

- A loan can be returned twice. Each return puts a copy back.
- `available_copies` may rise above `total_copies`.
- The sweep does not look at a loan's status.
- Nothing holds `available_copies` between 0 and the total. The model proves
  only that issue and return never take a non-negative count below zero.

Loans are numbered 1, 2, 3, … by a counter and never deleted, as the table's
row ids are. The model's sweep visits due loans in ascending id order.

Issue does not check that the member exists. So the sweep can meet a due
loan whose member has no row. The source then raises an AttributeError while
reading the member's e-mail address, and the service answers HTTP 500. The
model stops the sweep there with `MemberMissing`; the reminders for earlier
loans have already been sent.

## Model

| member | source | states |
|---|---|---|
| `Loans.Library.Issue` | Backend/main.py:46-55 | Refused with "Book unavailable", and nothing changes, exactly when the book is absent or has no copy available. Otherwise that book has one copy fewer and a count that is still at least 0. One new loan is added under a fresh id, holding the payload's member, book and dates, status Issued, no return date and fine 0. No other book or loan changes, and the store's invariant is kept. |
| `Loans.Library.Return` | Backend/main.py:59-70 | Refused with "Transaction not found", and nothing changes, exactly when no loan has the id. Otherwise the loan gets return date `today`, status Returned and the fine `FineOnReturn` gives. Its book has exactly one more copy, with no cap and no status check. Nothing else changes, and the invariant and non-negative copy counts are kept. |
| `Loans.ReturnTwice` | Backend/main.py:59-70 | Returning the same loan twice succeeds both times. The book gains two copies, and a book that was at or one below its total ends above it. The fine is recomputed from the second date. |
| `Loans.FineOnReturn` | Backend/main.py:66-68 | A late return (`due < today`) is fined a positive multiple of 5, equal to 5 times the days late. Otherwise the prior fine stays. The fine is never negative when the prior fine was not. |
| `Loans.FineExamples` | Backend/main.py:66-68 | Due three days ago gives 15. Returning on the due date leaves the prior fine. |
| `Loans.FineGrowsByRate` | Backend/main.py:68 | Each further day late adds exactly 5 to the fine. |
| `Loans.Reminder` | Backend/main.py:130-134 | The reminder is addressed to the member's e-mail. Its text contains the member's first name and the book's title. |
| `Loans.DueIds` | Backend/main.py:128 | Selects exactly the loans below the id bound whose due date is `today`, whatever their status, in strictly ascending id order. |
| `Loans.DueCountMatches` | Backend/main.py:128-135 | The number of loans the sweep selects equals the number of stored loans due today. |
| `Loans.DueIgnoresAllButDueDate` | Backend/main.py:128 | Changing any loan's status, return date or fine does not change which loans the sweep selects. |
| `Loans.Library.NotifyDue` | Backend/main.py:126-135 | Sends one reminder per selected loan, in order, each to that loan's member and naming its book. Reports the number of selected loans. It stops at the first selected loan whose member has no row, and has then sent exactly the reminders for the loans before it. |
| `Search.SearchBooks` | Backend/main.py:35-42 | A stored book is returned, unchanged, exactly when the query matches its title, author, ISBN or non-null category, ignoring case. |
| `Search.EmptyQueryFindsAll` | Backend/main.py:35-41 | The empty query returns every book. |
| `Search.CaseInsensitive` | Backend/main.py:37-40 | Two queries that differ only in the case of ASCII letters return the same books. |
| `Search.AuthorSubstringFinds` | Backend/main.py:38 | A query that occurs, ignoring case, in a book's author finds that book. |
| `Text.Lower` | Backend/main.py:37-40 | Case folding keeps the length and folds each character on its own, A-Z to a-z. |
| `Text.FindFirst` | Backend/main.py:37-40 | Returns the leftmost index where the pattern occurs, or none exactly when it occurs nowhere. |
| `Text.Contains` | Backend/main.py:37-40 | Substring holds exactly when the pattern occurs at some index. The empty pattern occurs in every string. |
| `Text.FirstPiece` | Backend/main.py:86 | `s.split(c)[0]` is the prefix of `s` before the first `c`, or all of `s` when it has none. |
| `Text.LastPiece` | Backend/main.py:104 | `s.split(c)[-1]` is the suffix of `s` after the last `c`, or all of `s` when it has none. |
| `Text.Tokens` | Backend/main.py:100 | `s.split()` gives non-empty words without whitespace. It gives no words exactly when `s` is blank. |
| `Text.TokensAppendWord` | Backend/main.py:100 | The words of `pre + " " + w` are those of `pre` followed by `w`. |
| `Text.LastTokenIsLastWord` | Backend/main.py:100 | For a string that is not blank, the last element of `s.split()` is the last word of `s`: a non-empty run of non-whitespace characters, with only whitespace after it, that starts `s` or follows whitespace. |
| `Text.LastToken` | Backend/main.py:100 | `s.split()[-1]` of a string that is not blank is its last word. |
| `Text.LastWordUnique` | Backend/main.py:100 | A string has only one last word, and it ends at only one index. |
| `Text.LastWordOfParts` | Backend/main.py:100 | In `pre + sp + y + trail`, with `y` a word, `sp` and `trail` whitespace and `sp` non-empty unless `pre` is empty, the last word is `y`. |
| `Text.Split` | Backend/main.py:86 | `s.split(sep)` always gives at least one piece. What the pieces are is stated by `Text.FirstPiece`, `Text.LastPiece`, `Text.SplitJoinRoundTrip` and `Text.JoinSplitRoundTrip`. |
| `Text.Join` | Backend/main.py:84 | `sep.join(xs)` of no strings is empty. Otherwise it starts with the first string, and with two or more strings that is followed by `sep`. The inverse with `Text.Split` is `Text.JoinSplitRoundTrip`. |
| `Text.SplitJoinRoundTrip` | Backend/main.py:86 | Joining the pieces of `s.split(sep)` with `sep` gives `s` back, for every `s` and non-empty `sep`. |
| `Text.JoinSplitRoundTrip` | Backend/main.py:84 | Splitting `", ".join(xs)` on ", " gives back `xs` when `xs` is non-empty and no element contains ", ". |
| `IsbnLookup.Lookup` | Backend/main.py:77-106 | With a Google volume, the answer is the record built from the first volume. Otherwise, when Open Library answers 200, the answer is exactly what `FromOpenLibrary` makes of its edition, a malformed one included. "Book not found" comes exactly when neither applies. Every record carries the asked ISBN. |
| `IsbnLookup.GoogleFirst` | Backend/main.py:78-79 | When Google answers 200 with a volume, the answer is that volume's record, whatever Open Library would reply. |
| `IsbnLookup.FromGoogle` | Backend/main.py:80-91 | The author is the authors joined with ", ". The year is the prefix of `publishedDate` before its first "-", and contains no "-". |
| `IsbnLookup.GoogleYear` | Backend/main.py:86 | The year of the date `y-rest` is `y`. |
| `IsbnLookup.GoogleAuthorsRoundTrip` | Backend/main.py:84 | The joined author column splits back into Google's author list. |
| `IsbnLookup.CoverUrl` | Backend/main.py:102 | The cover address is the fixed Open Library prefix, then the ISBN, then "-M.jpg". |
| `IsbnLookup.FromOpenLibrary` | Backend/main.py:94-105 | Fails exactly when the publisher list is present but empty, the publication date is blank, or the language list is present but empty. Otherwise the record has the joined author names and the synthesised cover address. Its year is the last word of the publication date: a non-empty run of non-whitespace characters, with only whitespace after it, that starts the date or follows whitespace. The publisher is the first listed publisher, or "" with no list. The description is the notes. The language is the text after the last "/" of the first language key, or "" with no list, so it contains no "/". |
| `IsbnLookup.OpenLibraryYear` | Backend/main.py:100 | The year of the date `pre + sp + y + trail` is `y`. Here `y` is a word, `sp` and `trail` are whitespace, and `sp` is non-empty unless `pre` is empty. So "May 2001", "2001", "2001 " and "May\t2001" all give "2001". |
| `IsbnLookup.OpenLibraryLanguage` | Backend/main.py:104 | The language of first key `path/code` is `code`. |
| `IsbnLookup.OpenLibraryDefaults` | Backend/main.py:99-104 | With no publisher list and no language list, the publisher and the language are both the empty string. |

## Left out

- HTTP routing, dependency injection and the mapping of errors to status codes. Errors are `Result` values.
- Database sessions, commits and row-id generation. The store is maps in one object, and loan ids come from a counter.
- `add_book`, and member creation (done outside this service). The books and members the store starts with are constructor arguments.
- Concurrency. Two concurrent issues of the last copy could both succeed in the source. The model is sequential.
- The clock. `return_book` reads today's date three times, and the model reads it once.
- SQL `ILIKE` wildcards. A `%` or `_` in the query is taken literally.
- Case folding beyond ASCII.
- Whitespace beyond ASCII in `str.split()`.
- The HTTP requests to Google Books and Open Library, and JSON decoding. The replies are given records.
- JSON shapes. The model reads Open Library authors as names and languages as key strings. A JSON `null` where a list or string is read, and a missing `volumeInfo` or author `name`, are not modelled.
- E-mail delivery. The reminders handed to the relay are the method's output. A relay failure, which aborts the sweep in the source, is not modelled.
- The floating-point type of `fine_amount`. The code only ever stores whole multiples of 5 or 0.
- The review table and the dashboard front end. They have no behaviour in this core.
- The order of search results. The source returns a list in database order. The model returns the matching books as a map keyed by id.
- The order of the due-date sweep. The source's query has no ORDER BY, so due loans come in whatever order the database returns them. The model visits them in ascending id order. That order decides which reminders have been sent when the sweep stops at a missing member.
- The member foreign key. The store is taken not to enforce it, so issuing a loan to an unknown member succeeds. With an enforcing store, that insert would fail at commit, and the copy decrement would roll back with it.
- Text.Tokens: its contract states only the shape of the words: each is non-empty and free of whitespace, and there are none exactly when the string is blank. Which words come out is stated by `Text.TokensAppendWord` and `Text.LastTokenIsLastWord`.
- No invariant states `0 <= available_copies <= total_copies`. The source does not keep that bound: `add_book` stores any counts, and a return is not capped (see `Loans.ReturnTwice`). What is proved is that issue and return keep a non-negative count non-negative.
