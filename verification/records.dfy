/** The rows of the library's tables and the issue payload. Dates are day
    numbers; a nullable column is an Option. */
module Records {

  import opened Wrappers

  type BookId = int
  type MemberId = int
  type TxnId = int

  /** A calendar date as a count of days, so that `a - b` is the number of
      days from `b` to `a`. */
  type Date = int

  /** A row of the `books` table. */
  datatype Book = Book(
    book_id: BookId,
    isbn: string,
    title: string,
    author: string,
    publisher: Option<string>,
    publication_year: Option<int>,
    category: Option<string>,
    description: Option<string>,
    cover_image_url: Option<string>,
    page_count: Option<int>,
    language: Option<string>,
    total_copies: int,
    available_copies: int,
    shelf_location: Option<string>)

  /** A row of the `members` table. */
  datatype Member = Member(
    member_id: MemberId,
    membership_number: string,
    first_name: string,
    last_name: string,
    email: string,
    phone: Option<string>,
    address: Option<string>,
    join_date: Option<Date>,
    membership_type: string,
    status: string)

  /** The two values the service ever writes into a loan's status column. */
  datatype LoanStatus = Issued | Returned

  /** A row of the `transactions` table: one loan of one book to one member.
      The fine is a whole number of currency units. */
  datatype Transaction = Transaction(
    transaction_id: TxnId,
    member_id: MemberId,
    book_id: BookId,
    issue_date: Date,
    due_date: Date,
    return_date: Option<Date>,
    fine_amount: int,
    status: LoanStatus)

  /** The body of an issue request. */
  datatype IssueRequest = IssueRequest(
    member_id: MemberId,
    book_id: BookId,
    issue_date: Date,
    due_date: Date)
}
