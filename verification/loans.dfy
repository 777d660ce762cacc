/** The loan workflow: issuing a copy of a book to a member, taking it back
    with a flat fine for every day past the due date, and the sweep that
    reminds members whose loans fall due today. The store of books, members
    and loans is a `Library` object whose maps the operations update in place. */
module Loans {

  import opened Wrappers
  import opened Records
  import Text

  /** Currency units charged for each day a book is returned late. */
  const FineRatePerDay: int := 5

  /** The service's refusals. The first two are its HTTP 400 and 404 replies.
      The third stands for the AttributeError the reminder sweep raises when
      it reads the e-mail address of a due loan's member that has no row;
      the service answers that with a bare HTTP 500. */
  datatype LoanError = BookUnavailable | TransactionNotFound | MemberMissing(txn: TxnId)
  {
    function Detail(): string
    {
      match this
      case BookUnavailable => "Book unavailable"
      case TransactionNotFound => "Transaction not found"
      case MemberMissing(_) => "Internal Server Error"
    }
  }

  // ---------------------------------------------------------------------
  // Fines

  /** The fine a loan carries after it is returned on `today`: the rate times
      the days past `due` when it is late, otherwise the fine it carried
      before. The return date on record plays no part. */
  function FineOnReturn(prior: int, due: Date, today: Date): (f: int)
    ensures prior >= 0 ==> f >= 0
    ensures due < today ==> f > 0 && f % FineRatePerDay == 0 && f / FineRatePerDay == today - due
    ensures today <= due ==> f == prior
  {
    if due < today then (today - due) * FineRatePerDay else prior
  }

  /** Three days late costs 15; returning on the due date costs nothing more. */
  lemma FineExamples(prior: int, due: Date)
    ensures FineOnReturn(0, due, due + 3) == 15
    ensures FineOnReturn(prior, due, due) == prior
  {
  }

  /** Each further day of lateness adds exactly one day's rate. */
  lemma FineGrowsByRate(prior: int, due: Date, t1: Date, t2: Date)
    requires due < t1 <= t2
    ensures FineOnReturn(prior, due, t2) - FineOnReturn(prior, due, t1) == FineRatePerDay * (t2 - t1)
  {
  }

  // ---------------------------------------------------------------------
  // Reminders

  /** One message handed to the mail relay. */
  datatype Mail = Mail(to: string, subject: string, body: string)

  /** The reminder for a loan of book `b` to member `m`. */
  function Reminder(m: Member, b: Book): (mail: Mail)
    ensures mail.to == m.email
    ensures Text.Contains(mail.body, m.first_name) && Text.Contains(mail.body, b.title)
  {
    var lead := "Dear " + m.first_name + ", your book '";
    var body := lead + b.title + "' is due today.";
    assert Text.OccursAt(body, m.first_name, 5) by {
      assert body[5..5 + |m.first_name|] == m.first_name;
    }
    assert Text.OccursAt(body, b.title, |lead|) by {
      assert body[|lead|..|lead| + |b.title|] == b.title;
    }
    Mail(m.email, "Book Due Reminder", body)
  }

  /** The loans with an id below `n` that fall due on `today`, whatever
      their status, in ascending id order. */
  function DueIds(txns: map<TxnId, Transaction>, today: Date, n: TxnId): (ids: seq<TxnId>)
    ensures forall x :: x in ids <==> 1 <= x < n && x in txns && txns[x].due_date == today
    ensures forall i, j :: 0 <= i < j < |ids| ==> ids[i] < ids[j]
    decreases n
  {
    if n <= 1 then []
    else
      var before := DueIds(txns, today, n - 1);
      if n - 1 in txns && txns[n - 1].due_date == today then
        assert forall i :: 0 <= i < |before| ==> before[i] in before;
        before + [n - 1]
      else
        before
  }

  /** The set of loans due on `today`. */
  function DueSet(txns: map<TxnId, Transaction>, today: Date): set<TxnId>
  {
    set x | x in txns && txns[x].due_date == today
  }

  /** A strictly ascending sequence has as many elements as its set. */
  lemma {:induction false} AscendingCard(s: seq<int>)
    requires forall i, j :: 0 <= i < j < |s| ==> s[i] < s[j]
    ensures |set x | x in s| == |s|
  {
    if s != [] {
      var init := s[..|s| - 1];
      AscendingCard(init);
      assert (set x | x in s) == (set x | x in init) + {s[|s| - 1]};
      assert s[|s| - 1] !in init by {
        forall i | 0 <= i < |init| ensures init[i] != s[|s| - 1] {
          assert init[i] == s[i];
        }
      }
    }
  }

  /** When every loan id is below `n`, the sweep counts exactly the loans
      due on `today`. */
  lemma DueCountMatches(txns: map<TxnId, Transaction>, today: Date, n: TxnId)
    requires forall x :: x in txns ==> 1 <= x < n
    ensures |DueIds(txns, today, n)| == |DueSet(txns, today)|
  {
    var ids := DueIds(txns, today, n);
    AscendingCard(ids);
    assert (set x | x in ids) == DueSet(txns, today);
  }

  /** Which loans are due depends on their due dates alone: changing a
      loan's status, return date or fine leaves the selection as it was. */
  lemma {:induction false} DueIgnoresAllButDueDate(txns: map<TxnId, Transaction>, txns': map<TxnId, Transaction>, today: Date, n: TxnId)
    requires txns.Keys == txns'.Keys
    requires forall x :: x in txns ==> txns[x].due_date == txns'[x].due_date
    ensures DueIds(txns, today, n) == DueIds(txns', today, n)
    decreases n
  {
    if n > 1 {
      DueIgnoresAllButDueDate(txns, txns', today, n - 1);
    }
  }

  // ---------------------------------------------------------------------
  // The store

  /** What every stored loan satisfies: it is filed under its own id, it
      names a stored book, its fine is not negative, and it has a return
      date exactly when it has been returned. */
  predicate LoanRecordOk(t: Transaction, id: TxnId, books: map<BookId, Book>)
  {
    && t.transaction_id == id
    && t.book_id in books
    && t.fine_amount >= 0
    && (t.status == Issued <==> t.return_date.None?)
  }

  class Library {
    var books: map<BookId, Book>
    var members: map<MemberId, Member>
    var transactions: map<TxnId, Transaction>
    /** The id the next loan is given: loans are numbered 1, 2, 3, ... and never deleted. */
    var nextTxnId: TxnId

    ghost predicate Valid()
      reads this
    {
      && nextTxnId >= 1
      && (forall id :: id in books ==> books[id].book_id == id)
      && (forall id :: id in members ==> members[id].member_id == id)
      && (forall id :: id in transactions <==> 1 <= id < nextTxnId)
      && (forall id :: id in transactions ==> LoanRecordOk(transactions[id], id, books))
    }

    /** No book shows a negative number of available copies. */
    predicate CopiesNonNegative()
      reads this
    {
      forall id :: id in books ==> books[id].available_copies >= 0
    }

    constructor (books: map<BookId, Book>, members: map<MemberId, Member>)
      requires forall id :: id in books ==> books[id].book_id == id
      requires forall id :: id in members ==> members[id].member_id == id
      ensures Valid()
      ensures this.books == books && this.members == members
      ensures transactions == map[] && nextTxnId == 1
    {
      this.books := books;
      this.members := members;
      transactions := map[];
      nextTxnId := 1;
    }

    /** Lends one copy of the requested book: refused when the book is not
        stored or has no copy left, otherwise one copy fewer is available
        and a new loan in status Issued is recorded. The member id is not
        checked. */
    method Issue(p: IssueRequest) returns (r: Result<Transaction, LoanError>)
      requires Valid()
      modifies this
      ensures Valid()
      ensures r.Failure? <==> p.book_id !in old(books) || old(books)[p.book_id].available_copies <= 0
      ensures r.Failure? ==> r.error == BookUnavailable
      ensures r.Failure? ==> books == old(books) && transactions == old(transactions) && nextTxnId == old(nextTxnId)
      ensures r.Success? ==>
        var b := old(books)[p.book_id];
        && r.value == Transaction(old(nextTxnId), p.member_id, p.book_id, p.issue_date, p.due_date, None, 0, Issued)
        && r.value.transaction_id !in old(transactions)
        && books == old(books)[p.book_id := b.(available_copies := b.available_copies - 1)]
        && books[p.book_id].available_copies >= 0
        && transactions == old(transactions)[r.value.transaction_id := r.value]
        && nextTxnId == old(nextTxnId) + 1
      ensures members == old(members)
      ensures old(CopiesNonNegative()) ==> CopiesNonNegative()
    {
      if p.book_id !in books || books[p.book_id].available_copies <= 0 {
        return Failure(BookUnavailable);
      }
      var b := books[p.book_id];
      books := books[p.book_id := b.(available_copies := b.available_copies - 1)];
      var txn := Transaction(nextTxnId, p.member_id, p.book_id, p.issue_date, p.due_date, None, 0, Issued);
      transactions := transactions[txn.transaction_id := txn];
      nextTxnId := nextTxnId + 1;
      r := Success(txn);
    }

    /** Takes a loan back on `today`: refused when no loan has that id,
        otherwise the loan is marked Returned with today's date, its book
        gets one copy back and a late loan is fined. Nothing stops a loan
        from being returned twice, and the copy count is not held to the
        book's total. */
    method Return(id: TxnId, today: Date) returns (r: Result<Transaction, LoanError>)
      requires Valid()
      modifies this
      ensures Valid()
      ensures r.Failure? <==> id !in old(transactions)
      ensures r.Failure? ==> r.error == TransactionNotFound
      ensures r.Failure? ==> books == old(books) && transactions == old(transactions)
      ensures r.Success? ==>
        var t := old(transactions)[id];
        var b := old(books)[t.book_id];
        && r.value == t.(return_date := Some(today), status := Returned,
                         fine_amount := FineOnReturn(t.fine_amount, t.due_date, today))
        && transactions == old(transactions)[id := r.value]
        && books == old(books)[t.book_id := b.(available_copies := b.available_copies + 1)]
      ensures members == old(members) && nextTxnId == old(nextTxnId)
      ensures old(CopiesNonNegative()) ==> CopiesNonNegative()
    {
      if id !in transactions {
        return Failure(TransactionNotFound);
      }
      var t := transactions[id];
      var b := books[t.book_id];
      t := t.(return_date := Some(today), status := Returned);
      books := books[t.book_id := b.(available_copies := b.available_copies + 1)];
      if t.due_date < today {
        t := t.(fine_amount := (today - t.due_date) * FineRatePerDay);
      }
      transactions := transactions[id := t];
      r := Success(t);
    }

    /** Sends one reminder for each loan due on `today`, in id order, and
        reports how many loans were due. A due loan whose member has no row
        stops the sweep there, after the reminders before it were sent. */
    method NotifyDue(today: Date) returns (r: Result<nat, LoanError>, sent: seq<Mail>)
      requires Valid()
      ensures var due := DueIds(transactions, today, nextTxnId);
        && |sent| <= |due|
        && (forall k :: 0 <= k < |sent| ==>
              && transactions[due[k]].member_id in members
              && sent[k] == Reminder(members[transactions[due[k]].member_id], books[transactions[due[k]].book_id]))
        && (r.Success? <==> |sent| == |due|)
        && (r.Success? ==> r.value == |due|)
        && (r.Failure? ==> r.error == MemberMissing(due[|sent|])
                           && transactions[due[|sent|]].member_id !in members)
    {
      var due := DueIds(transactions, today, nextTxnId);
      sent := [];
      var k := 0;
      while k < |due|
        invariant 0 <= k <= |due| && |sent| == k
        invariant forall j :: 0 <= j < k ==>
          && transactions[due[j]].member_id in members
          && sent[j] == Reminder(members[transactions[due[j]].member_id], books[transactions[due[j]].book_id])
      {
        var t := transactions[due[k]];
        if t.member_id !in members {
          return Failure(MemberMissing(due[k])), sent;
        }
        sent := sent + [Reminder(members[t.member_id], books[t.book_id])];
        k := k + 1;
      }
      r := Success(|due|);
    }
  }

  /** Returning the same loan twice is accepted both times: two copies go
      back on the shelf, so a book whose count was at its total ends above
      it, and the second return's fine is worked out afresh from its own date. */
  method ReturnTwice(lib: Library, id: TxnId, first: Date, second: Date)
      returns (r1: Result<Transaction, LoanError>, r2: Result<Transaction, LoanError>)
    requires lib.Valid() && id in lib.transactions
    modifies lib
    ensures lib.Valid()
    ensures r1.Success? && r2.Success?
    ensures id in lib.transactions && old(lib.transactions[id]).book_id in lib.books
    ensures var t := old(lib.transactions[id]);
      && lib.books[t.book_id].available_copies == old(lib.books[t.book_id].available_copies) + 2
      && (old(lib.books[t.book_id].available_copies) >= old(lib.books[t.book_id].total_copies) - 1 ==>
            lib.books[t.book_id].available_copies > lib.books[t.book_id].total_copies)
      && lib.transactions[id].fine_amount
           == FineOnReturn(FineOnReturn(t.fine_amount, t.due_date, first), t.due_date, second)
      && lib.transactions[id].return_date == Some(second)
  {
    r1 := lib.Return(id, first);
    r2 := lib.Return(id, second);
  }
}
