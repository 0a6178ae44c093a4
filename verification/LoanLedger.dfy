/**
 * The loan ledger behind the loan controller: a store of book copy counts
 * and loan records, borrowed from by `createLoan` and given back to by
 * `returnBook`. The database is a pair of maps; the clock is the
 * millisecond timestamp `now`; the id a new loan document receives is
 * drawn from a counter kept with the store. A count is a JavaScript number,
 * modelled as an exact real: the schema does not require whole numbers.
 */
module LoanLedger {
  import opened Wrappers
  import BookSchema

  type BookId = nat
  type UserId = nat
  type LoanId = nat

  /** Fourteen days in milliseconds: the due date of a new loan. */
  const LoanPeriodMs: int := 14 * 24 * 60 * 60 * 1000

  datatype Loan = Loan(book: BookId, user: UserId, loanDate: int, returnDate: int, returned: bool)

  /**
   * The failures the handlers answer with: 404 for a missing book or loan,
   * 400 for no stock or a second return, 500 when saving the book is
   * refused by its `min: 0` validator (`BookSchema.MeetsMinimum`).
   */
  datatype LoanError = BookNotFound | OutOfStock | LoanNotFound | AlreadyReturned | BookSaveRejected

  /** The two collections, as maps from id to `copiesAvailable` and to loan. */
  datatype Store = Store(books: map<BookId, real>, loans: map<LoanId, Loan>, nextLoanId: LoanId)

  /** The store after a request, and what the request answered. */
  datatype Step<T> = Step(store: Store, result: Result<T, LoanError>)

  /** The id the next loan receives is not in use. */
  ghost predicate IdsFresh(s: Store)
  {
    forall id :: id in s.loans ==> id < s.nextLoanId
  }

  /** No book has a negative number of copies. */
  ghost predicate CountsNonNegative(s: Store)
  {
    forall b :: b in s.books ==> BookSchema.MeetsMinimum(s.books[b])
  }

  ghost predicate Valid(s: Store)
  {
    IdsFresh(s) && CountsNonNegative(s)
  }

  /**
   * `createLoan`: look the book up, check its stock, take a copy, record
   * the loan. A count strictly between 0 and 1 passes the stock check, but
   * the decremented count is refused by the validator when the book is
   * saved, before any loan is recorded, so nothing changes.
   */
  function Borrow(s: Store, bookId: BookId, user: UserId, now: int): (r: Step<LoanId>)
    ensures bookId !in s.books ==> r == Step(s, Failure(BookNotFound))
    ensures bookId in s.books && s.books[bookId] <= 0.0 ==> r == Step(s, Failure(OutOfStock))
    ensures bookId in s.books && 0.0 < s.books[bookId] < 1.0 ==> r == Step(s, Failure(BookSaveRejected))
    ensures r.result.Success? <==> bookId in s.books && s.books[bookId] >= 1.0
    ensures r.result.Success? ==>
      var id := r.result.value;
      && r.store.books.Keys == s.books.Keys
      && r.store.books[bookId] == s.books[bookId] - 1.0
      && (forall b :: b in s.books && b != bookId ==> r.store.books[b] == s.books[b])
      && r.store.loans.Keys == s.loans.Keys + {id}
      && r.store.loans[id] == Loan(bookId, user, now, now + LoanPeriodMs, false)
      && (forall l :: l in s.loans && l != id ==> r.store.loans[l] == s.loans[l])
      && (IdsFresh(s) ==> id !in s.loans && IdsFresh(r.store))
  {
    if bookId !in s.books then Step(s, Failure(BookNotFound))
    else if s.books[bookId] <= 0.0 then Step(s, Failure(OutOfStock))
    else if !BookSchema.MeetsMinimum(s.books[bookId] - 1.0) then Step(s, Failure(BookSaveRejected))
    else
      var id := s.nextLoanId;
      var loan := Loan(bookId, user, now, now + LoanPeriodMs, false);
      Step(Store(s.books[bookId := s.books[bookId] - 1.0], s.loans[id := loan], id + 1), Success(id))
  }

  /**
   * `returnBook`: look the loan up, refuse a second return, mark it
   * returned, then put the copy back if the book still exists. The book is
   * saved after the loan, so when its validator refuses the new count the
   * loan stays returned and the count stays as it was.
   */
  function Return(s: Store, loanId: LoanId): (r: Step<()>)
    ensures loanId !in s.loans ==> r == Step(s, Failure(LoanNotFound))
    ensures loanId in s.loans && s.loans[loanId].returned ==> r == Step(s, Failure(AlreadyReturned))
    ensures loanId in s.loans && !s.loans[loanId].returned ==>
      var loan := s.loans[loanId];
      && r.store.nextLoanId == s.nextLoanId
      && r.store.loans.Keys == s.loans.Keys
      && r.store.loans[loanId] == loan.(returned := true)
      && (forall l :: l in s.loans && l != loanId ==> r.store.loans[l] == s.loans[l])
      && (loan.book !in s.books ==> r.store.books == s.books && r.result.Success?)
      && (loan.book in s.books && BookSchema.MeetsMinimum(s.books[loan.book] + 1.0) ==>
            && r.result.Success?
            && r.store.books.Keys == s.books.Keys
            && r.store.books[loan.book] == s.books[loan.book] + 1.0
            && (forall b :: b in s.books && b != loan.book ==> r.store.books[b] == s.books[b]))
      && (loan.book in s.books && !BookSchema.MeetsMinimum(s.books[loan.book] + 1.0) ==>
            r.store.books == s.books && r.result == Failure(BookSaveRejected))
  {
    if loanId !in s.loans then Step(s, Failure(LoanNotFound))
    else if s.loans[loanId].returned then Step(s, Failure(AlreadyReturned))
    else
      var loan := s.loans[loanId];
      var loans := s.loans[loanId := loan.(returned := true)];
      if loan.book !in s.books then Step(Store(s.books, loans, s.nextLoanId), Success(()))
      else if !BookSchema.MeetsMinimum(s.books[loan.book] + 1.0) then Step(Store(s.books, loans, s.nextLoanId), Failure(BookSaveRejected))
      else Step(Store(s.books[loan.book := s.books[loan.book] + 1.0], loans, s.nextLoanId), Success(()))
  }

  /** A request to the ledger. */
  datatype Request = BorrowRequest(bookId: BookId, user: UserId, now: int) | ReturnRequest(loanId: LoanId)

  function Apply(s: Store, req: Request): Store
  {
    match req
    case BorrowRequest(b, u, now) => Borrow(s, b, u, now).store
    case ReturnRequest(l) => Return(s, l).store
  }

  /** The store after a sequence of requests handled one after the other. */
  function Run(s: Store, reqs: seq<Request>): Store
    decreases |reqs|
  {
    if reqs == [] then s else Run(Apply(s, reqs[0]), reqs[1..])
  }

  /** One request keeps the counts non-negative and the next id fresh. */
  lemma ApplyPreservesValid(s: Store, req: Request)
    requires Valid(s)
    ensures Valid(Apply(s, req))
  {
  }

  /** Starting from non-negative counts, no sequence of requests makes one negative. */
  lemma {:induction false} RunPreservesValid(s: Store, reqs: seq<Request>)
    requires Valid(s)
    ensures Valid(Run(s, reqs))
    decreases |reqs|
  {
    if reqs != [] {
      ApplyPreservesValid(s, reqs[0]);
      RunPreservesValid(Apply(s, reqs[0]), reqs[1..]);
    }
  }

  /** In a valid store a return is never refused by the book validator. */
  lemma ReturnNeverRejectedWhenValid(s: Store, loanId: LoanId)
    requires CountsNonNegative(s)
    ensures Return(s, loanId).result != Failure(BookSaveRejected)
  {
  }

  /**
   * Loans are never deleted, and a returned loan never changes again:
   * in particular it never reverts to not returned.
   */
  lemma {:induction false} RunKeepsReturnedLoans(s: Store, reqs: seq<Request>, id: LoanId)
    requires IdsFresh(s)
    requires id in s.loans && s.loans[id].returned
    ensures id in Run(s, reqs).loans && Run(s, reqs).loans[id] == s.loans[id]
    decreases |reqs|
  {
    if reqs != [] {
      var next := Apply(s, reqs[0]);
      assert IdsFresh(next) && id in next.loans && next.loans[id] == s.loans[id];
      RunKeepsReturnedLoans(next, reqs[1..], id);
    }
  }

  /**
   * Borrowing a book and returning that loan puts back the count the book
   * had, and leaves the loan recorded as returned.
   */
  lemma BorrowThenReturn(s: Store, bookId: BookId, user: UserId, now: int)
    requires Valid(s)
    requires bookId in s.books && s.books[bookId] >= 1.0
    ensures
      var borrowed := Borrow(s, bookId, user, now);
      var id := borrowed.result.value;
      var back := Return(borrowed.store, id);
      && back.result == Success(())
      && back.store.books == s.books
      && back.store.loans == s.loans[id := Loan(bookId, user, now, now + LoanPeriodMs, true)]
  {
  }

  /** The book and loan collections, updated in place by the two handlers. */
  class Library {
    var books: map<BookId, real>
    var loans: map<LoanId, Loan>
    var nextLoanId: LoanId

    function State(): Store
      reads this
    {
      Store(books, loans, nextLoanId)
    }

    constructor (initialBooks: map<BookId, real>)
      ensures State() == Store(initialBooks, map[], 0)
      ensures CountsNonNegative(Store(initialBooks, map[], 0)) ==> Valid(State())
    {
      books := initialBooks;
      loans := map[];
      nextLoanId := 0;
    }

    /** `createLoan`: the book lookup comes before the stock check. */
    method CreateLoan(bookId: BookId, user: UserId, now: int) returns (r: Result<LoanId, LoanError>)
      modifies this
      ensures Step(State(), r) == Borrow(old(State()), bookId, user, now)
      ensures old(Valid(State())) ==> Valid(State())
    {
      if bookId !in books {
        return Failure(BookNotFound);
      }
      var copies := books[bookId];
      if copies <= 0.0 {
        return Failure(OutOfStock);
      }
      if !BookSchema.MeetsMinimum(copies - 1.0) {
        return Failure(BookSaveRejected);
      }
      books := books[bookId := copies - 1.0];
      var id := nextLoanId;
      nextLoanId := nextLoanId + 1;
      loans := loans[id := Loan(bookId, user, now, now + LoanPeriodMs, false)];
      r := Success(id);
    }

    /** `returnBook`: the loan is saved as returned before the book is touched. */
    method ReturnBook(loanId: LoanId) returns (r: Result<(), LoanError>)
      modifies this
      ensures Step(State(), r) == Return(old(State()), loanId)
      ensures old(Valid(State())) ==> Valid(State())
    {
      if loanId !in loans {
        return Failure(LoanNotFound);
      }
      var loan := loans[loanId];
      if loan.returned {
        return Failure(AlreadyReturned);
      }
      loans := loans[loanId := loan.(returned := true)];
      if loan.book in books {
        var copies := books[loan.book] + 1.0;
        if !BookSchema.MeetsMinimum(copies) {
          return Failure(BookSaveRejected);
        }
        books := books[loan.book := copies];
      }
      r := Success(());
    }
  }
}
