/**
 Book management and the rental lifecycle: creating, updating, deleting and
 listing books, renting and returning a book (which also flips its
 availability flag), and the overdue sweep over all rentals.
 */
module BookService {
  import opened Entities
  import Repositories

  /** Days a rental may last before it counts as overdue. */
  const RentalPeriodDays: int := 14

  /** The rental's due date (its date plus the rental period) lies before `today`. */
  predicate IsPastDue(r: Rental, today: int) {
    today > r.rentalDate + RentalPeriodDays
  }

  function GetAllBooks(s: Store): (r: seq<Repositories.Entry<Book>>)
    ensures Repositories.ListsExactly(r, s.books)
  {
    Repositories.FindAll(s.books, s.nextBookId)
  }

  /** Stores a new, available book under a fresh key; the author must exist. */
  function AddBook(s: Store, title: string, isbn: string, publicationYear: int, authorId: nat): (r: Result<Created>)
    ensures authorId !in s.authors <==> r == Err(AuthorNotFound)
    ensures r.Ok? <==> authorId in s.authors
    ensures r.Ok? ==> AddsOne(s.books, r.value.store.books, r.value.id, Book(title, isbn, publicationYear, authorId, true))
    ensures r.Ok? ==> r.value.id == s.nextBookId && r.value.store.nextBookId == s.nextBookId + 1
    ensures r.Ok? ==> r.value.store.nextAuthorId == s.nextAuthorId && r.value.store.nextRentalId == s.nextRentalId
    ensures r.Ok? ==> r.value.store.authors == s.authors && r.value.store.rentals == s.rentals
  {
    if authorId !in s.authors then Err(AuthorNotFound)
    else
      var id := s.nextBookId;
      var book := Book(title, isbn, publicationYear, authorId, true);
      Ok(Created(s.(books := s.books[id := book], nextBookId := id + 1), id))
  }

  /** Overwrites title, ISBN, year and author of an existing book, keeping its
      key and availability. The book is looked up before the author. */
  function UpdateBook(s: Store, id: nat, title: string, isbn: string, publicationYear: int, authorId: nat): (r: Result<Store>)
    ensures id !in s.books ==> r == Err(BookNotFound)
    ensures id in s.books && authorId !in s.authors ==> r == Err(AuthorNotFound)
    ensures r.Ok? <==> id in s.books && authorId in s.authors
    ensures r.Ok? ==> SameCounters(s, r.value)
    ensures r.Ok? ==> ReplacesOne(s.books, r.value.books, id, Book(title, isbn, publicationYear, authorId, s.books[id].available))
    ensures r.Ok? ==> r.value.authors == s.authors && r.value.rentals == s.rentals
  {
    if id !in s.books then Err(BookNotFound)
    else if authorId !in s.authors then Err(AuthorNotFound)
    else
      var book := s.books[id].(title := title, isbn := isbn, publicationYear := publicationYear, authorId := authorId);
      Ok(s.(books := s.books[id := book]))
  }

  /** Removes the book; its rentals, open or not, keep the dangling key. */
  function DeleteBook(s: Store, id: nat): (r: Result<Store>)
    ensures id !in s.books <==> r == Err(BookNotFound)
    ensures r.Ok? <==> id in s.books
    ensures r.Ok? ==> SameCounters(s, r.value)
    ensures r.Ok? ==> RemovesOne(s.books, r.value.books, id)
    ensures r.Ok? ==> r.value.authors == s.authors && r.value.rentals == s.rentals
  {
    if id !in s.books then Err(BookNotFound)
    else Ok(s.(books := s.books - {id}))
  }

  /** The books of an existing author, each once, by ascending key. */
  function GetBooksByAuthor(s: Store, authorId: nat): (r: Result<seq<Repositories.Entry<Book>>>)
    ensures authorId !in s.authors <==> r == Err(AuthorNotFound)
    ensures r.Ok? <==> authorId in s.authors
    ensures r.Ok? ==> forall i :: 0 <= i < |r.value| ==>
      r.value[i].id in s.books && r.value[i].record == s.books[r.value[i].id] && r.value[i].record.authorId == authorId
    ensures r.Ok? ==> forall id :: id in s.books && s.books[id].authorId == authorId ==> Repositories.Listed(r.value, id)
    ensures r.Ok? ==> Repositories.Ascending(r.value)
  {
    if authorId !in s.authors then Err(AuthorNotFound)
    else Ok(Repositories.FindBooks(s, Repositories.WrittenBy(authorId)))
  }

  /** Exactly the books whose availability flag is set. */
  function GetBooksAvailableForRent(s: Store): (r: seq<Repositories.Entry<Book>>)
    ensures forall i :: 0 <= i < |r| ==> r[i].id in s.books && r[i].record == s.books[r[i].id] && r[i].record.available
    ensures forall id :: id in s.books && s.books[id].available ==> Repositories.Listed(r, id)
    ensures Repositories.Ascending(r)
  {
    Repositories.FindBooks(s, Repositories.AvailableIs(true))
  }

  /** Exactly the books whose availability flag is clear. */
  function GetBooksCurrentlyRented(s: Store): (r: seq<Repositories.Entry<Book>>)
    ensures forall i :: 0 <= i < |r| ==> r[i].id in s.books && r[i].record == s.books[r[i].id] && !r[i].record.available
    ensures forall id :: id in s.books && !s.books[id].available ==> Repositories.Listed(r, id)
    ensures Repositories.Ascending(r)
  {
    Repositories.FindBooks(s, Repositories.AvailableIs(false))
  }

  /** Opens a rental of an available book dated `today` under the next rental
      key and marks the book unavailable; nothing else changes. */
  function RentBook(s: Store, bookId: nat, renterName: string, today: int): (r: Result<Store>)
    ensures bookId !in s.books ==> r == Err(BookNotFound)
    ensures bookId in s.books && !s.books[bookId].available ==> r == Err(AlreadyRented)
    ensures r.Ok? <==> bookId in s.books && s.books[bookId].available
    ensures r.Ok? ==> AddsOne(s.rentals, r.value.rentals, s.nextRentalId, Rental(bookId, renterName, today, None, false))
    ensures r.Ok? ==> r.value.nextRentalId == s.nextRentalId + 1
    ensures r.Ok? ==> r.value.nextAuthorId == s.nextAuthorId && r.value.nextBookId == s.nextBookId
    ensures r.Ok? ==> ReplacesOne(s.books, r.value.books, bookId, s.books[bookId].(available := false))
    ensures r.Ok? ==> r.value.authors == s.authors
  {
    if bookId !in s.books then Err(BookNotFound)
    else
      var book := s.books[bookId];
      if !book.available then Err(AlreadyRented)
      else
        var id := s.nextRentalId;
        var rental := Rental(bookId, renterName, today, None, false);
        Ok(s.(rentals := s.rentals[id := rental], nextRentalId := id + 1,
              books := s.books[bookId := book.(available := false)]))
  }

  /** Closes the open rental of the book with the least key, dating its return
      `today`, and marks the book available again; nothing else changes. */
  function ReturnBook(s: Store, bookId: nat, today: int): (r: Result<Store>)
    ensures bookId !in s.books ==> r == Err(BookNotFound)
    ensures bookId in s.books && !HasOpenRental(s, bookId) ==> r == Err(RentalNotFound)
    ensures r.Ok? <==> bookId in s.books && HasOpenRental(s, bookId)
    ensures r.Ok? ==> SameCounters(s, r.value)
    ensures r.Ok? ==> exists id ::
      (Repositories.IsFirstOpen(s, bookId, id)
       && ReplacesOne(s.rentals, r.value.rentals, id, s.rentals[id].(returnDate := Some(today))))
    ensures r.Ok? ==> ReplacesOne(s.books, r.value.books, bookId, s.books[bookId].(available := true))
    ensures r.Ok? ==> r.value.authors == s.authors
  {
    if bookId !in s.books then Err(BookNotFound)
    else
      match Repositories.FindFirstOpenRental(s, bookId)
      case None => Err(RentalNotFound)
      case Some(id) =>
        var rental := s.rentals[id].(returnDate := Some(today));
        Ok(s.(rentals := s.rentals[id := rental],
              books := s.books[bookId := s.books[bookId].(available := true)]))
  }

  /** The sweep's effect on one rental: flag it once it is past due. */
  function Mark(r: Rental, today: int): Rental {
    if IsPastDue(r, today) then r.(overdue := true) else r
  }

  /** `r'` differs from `r` at most in its overdue flag. */
  predicate SameButOverdue(r: Rental, r': Rental) {
    && r'.bookId == r.bookId
    && r'.renterName == r.renterName
    && r'.rentalDate == r.rentalDate
    && r'.returnDate == r.returnDate
  }

  /** The overdue sweep: every rental past its due date gets its overdue flag
      set, returned or not; no flag is ever cleared and nothing else changes. */
  function CheckForOverdueRentals(s: Store, today: int): (r: Store)
    ensures r.rentals.Keys == s.rentals.Keys
    ensures forall id :: id in s.rentals ==>
      r.rentals[id].overdue == (s.rentals[id].overdue || IsPastDue(s.rentals[id], today))
    ensures forall id :: id in s.rentals ==> SameButOverdue(s.rentals[id], r.rentals[id])
    ensures r.authors == s.authors && r.books == s.books
    ensures SameCounters(s, r)
  {
    s.(rentals := map id | id in s.rentals :: Mark(s.rentals[id], today))
  }

  /** The sweep as the service runs it: one pass over `findAll`, saving each
      rental found past due. It ends in the state the sweep describes. */
  method SweepRentals(s: Store, today: int) returns (r: Store)
    ensures r == CheckForOverdueRentals(s, today)
  {
    var all := Repositories.FindAll(s.rentals, s.nextRentalId);
    var rentals: map<nat, Rental> := s.rentals;
    ghost var done: set<nat> := {};
    var i := 0;
    while i < |all|
      invariant 0 <= i <= |all|
      invariant SweptSoFar(s, today, rentals, done)
      invariant forall j :: 0 <= j < i ==> all[j].id in done
    {
      var entry := all[i];
      SweepStep(s, today, rentals, done, entry.id);
      if IsPastDue(entry.record, today) {
        rentals := rentals[entry.id := entry.record.(overdue := true)];
      }
      done := done + {entry.id};
      i := i + 1;
    }
    VisitedAll(all, s.rentals, done);
    SweptEverything(s, today, rentals, done);
    r := s.(rentals := rentals);
  }

  /** The loop state of the sweep: the rentals under keys in `done` have been
      marked, all others are as stored. */
  ghost predicate SweptSoFar(s: Store, today: int, rentals: map<nat, Rental>, done: set<nat>) {
    && rentals.Keys == s.rentals.Keys
    && forall id :: id in rentals ==>
         rentals[id] == if id in done then Mark(s.rentals[id], today) else s.rentals[id]
  }

  /** Visiting one more stored rental extends the swept set by its key. */
  lemma SweepStep(s: Store, today: int, rentals: map<nat, Rental>, done: set<nat>, id: nat)
    requires SweptSoFar(s, today, rentals, done)
    requires id in s.rentals
    ensures var rental := s.rentals[id];
      SweptSoFar(s, today, if IsPastDue(rental, today) then rentals[id := rental.(overdue := true)] else rentals, done + {id})
  {
  }

  /** A listing of every rental visits every stored key. */
  lemma VisitedAll(all: seq<Repositories.Entry<Rental>>, rentals: map<nat, Rental>, done: set<nat>)
    requires Repositories.ListsExactly(all, rentals)
    requires forall j :: 0 <= j < |all| ==> all[j].id in done
    ensures forall id :: id in rentals ==> id in done
  {
    forall id | id in rentals
      ensures id in done
    {
      assert Repositories.Listed(all, id);
    }
  }

  /** Once every rental has been visited, the swept table is the sweep's. */
  lemma SweptEverything(s: Store, today: int, rentals: map<nat, Rental>, done: set<nat>)
    requires SweptSoFar(s, today, rentals, done)
    requires forall id :: id in s.rentals ==> id in done
    ensures s.(rentals := rentals) == CheckForOverdueRentals(s, today)
  {
    assert rentals == CheckForOverdueRentals(s, today).rentals;
  }

  /** Sweeping twice with the same date changes nothing the first sweep did not. */
  lemma SweepIdempotent(s: Store, today: int)
    ensures CheckForOverdueRentals(CheckForOverdueRentals(s, today), today) == CheckForOverdueRentals(s, today)
  {
    var once := CheckForOverdueRentals(s, today);
    var twice := CheckForOverdueRentals(once, today);
    assert twice.rentals == once.rentals;
  }

  /** A later sweep date flags at least the rentals an earlier one flags. */
  lemma SweepMonotoneInDate(s: Store, earlier: int, later: int, id: nat)
    requires earlier <= later
    requires id in s.rentals
    ensures CheckForOverdueRentals(s, earlier).rentals[id].overdue ==> CheckForOverdueRentals(s, later).rentals[id].overdue
  {
  }

  /** Updating a book just created keeps its key and its availability and
      stores the new fields verbatim. */
  lemma AddThenUpdate(s: Store, title: string, isbn: string, year: int, authorId: nat,
                      title': string, isbn': string, year': int, authorId': nat)
    requires AddBook(s, title, isbn, year, authorId).Ok?
    requires authorId' in s.authors
    ensures var c := AddBook(s, title, isbn, year, authorId).value;
      && UpdateBook(c.store, c.id, title', isbn', year', authorId').Ok?
      && UpdateBook(c.store, c.id, title', isbn', year', authorId').value.books[c.id] == Book(title', isbn', year', authorId', true)
  {
  }

  /** Deleting a book right after creating it restores the book table. */
  lemma AddThenDeleteBook(s: Store, title: string, isbn: string, year: int, authorId: nat)
    requires authorId in s.authors
    ensures var c := AddBook(s, title, isbn, year, authorId);
      && c.Ok?
      && DeleteBook(c.value.store, c.value.id).Ok?
      && DeleteBook(c.value.store, c.value.id).value.books == s.books
  {
    var c := AddBook(s, title, isbn, year, authorId).value;
    assert DeleteBook(c.store, c.id).value.books == s.books;
  }

  /** The two availability queries split the books: each stored book is listed
      by exactly one of them, according to its flag. */
  lemma AvailableAndRentedPartition(s: Store, id: nat)
    requires id in s.books
    ensures Repositories.Listed(GetBooksAvailableForRent(s), id) <==> s.books[id].available
    ensures Repositories.Listed(GetBooksCurrentlyRented(s), id) <==> !s.books[id].available
  {
    var available := GetBooksAvailableForRent(s);
    var rented := GetBooksCurrentlyRented(s);
    if Repositories.Listed(available, id) {
      var i :| 0 <= i < |available| && available[i].id == id;
    }
    if Repositories.Listed(rented, id) {
      var i :| 0 <= i < |rented| && rented[i].id == id;
    }
  }
}
