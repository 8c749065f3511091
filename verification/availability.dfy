/**
 The one cross-entity invariant of the store: a book's availability flag is a
 cache of "no open rental of this book exists". The book-management rent and
 return keep it; the direct rental endpoints break it.

 The flag alone is not an inductive invariant of returning a book: when a book
 has two open rentals, closing one of them makes it available while the other
 is still open. The invariant kept here therefore also says that a book has at
 most one open rental, and that rentals only name book keys already handed out
 (so a freshly created book has no rentals).
 */
module Availability {
  import opened Entities
  import Repositories
  import AuthorService
  import BookService
  import RentalService

  /** Every stored book is available exactly when it has no open rental. */
  ghost predicate FlagsMatchRentals(s: State) {
    forall b :: b in s.books ==> (s.books[b].available <==> !HasOpenRental(s, b))
  }

  /** No two distinct open rentals share a book. */
  ghost predicate AtMostOneOpen(s: State) {
    forall i, j ::
      i in s.rentals && j in s.rentals && i != j
      && s.rentals[i].returnDate.None? && s.rentals[j].returnDate.None?
      ==> s.rentals[i].bookId != s.rentals[j].bookId
  }

  /** Every rental names a book key the book table has already handed out. */
  ghost predicate RentalsNameIssuedBooks(s: State) {
    forall id :: id in s.rentals ==> s.rentals[id].bookId < s.nextBookId
  }

  ghost predicate Consistent(s: State) {
    FlagsMatchRentals(s) && AtMostOneOpen(s) && RentalsNameIssuedBooks(s)
  }

  lemma EmptyIsConsistent()
    ensures Consistent(EmptyStore)
  {
  }

  /** Renting through book management keeps flags and rentals in step, even
      without the other two conjuncts. */
  lemma RentBookKeepsFlags(s: Store, bookId: nat, renterName: string, today: int)
    requires FlagsMatchRentals(s)
    requires BookService.RentBook(s, bookId, renterName, today).Ok?
    ensures FlagsMatchRentals(BookService.RentBook(s, bookId, renterName, today).value)
  {
    var s' := BookService.RentBook(s, bookId, renterName, today).value;
    var id := s.nextRentalId;
    forall b | b in s'.books
      ensures s'.books[b].available <==> !HasOpenRental(s', b)
    {
      if b == bookId {
        assert OpenFor(s'.rentals[id], b);
      } else {
        OtherBooksKeepOpenRentals(s, s', id, b);
      }
    }
  }

  /** A change confined to the rental under key `id`, which belongs to another
      book before and after, does not change whether book `b` has an open rental. */
  lemma OtherBooksKeepOpenRentals(s: State, s': State, id: nat, b: nat)
    requires forall k :: k in s.rentals && k != id ==> k in s'.rentals && s'.rentals[k] == s.rentals[k]
    requires forall k :: k in s'.rentals && k != id ==> k in s.rentals
    requires id in s.rentals ==> s.rentals[id].bookId != b
    requires id in s'.rentals ==> s'.rentals[id].bookId != b
    ensures HasOpenRental(s', b) <==> HasOpenRental(s, b)
  {
    if HasOpenRental(s, b) {
      var k :| k in s.rentals && OpenFor(s.rentals[k], b);
      assert k in s'.rentals && OpenFor(s'.rentals[k], b);
    }
    if HasOpenRental(s', b) {
      var k :| k in s'.rentals && OpenFor(s'.rentals[k], b);
      assert k in s.rentals && OpenFor(s.rentals[k], b);
    }
  }

  lemma RentBookKeepsConsistent(s: Store, bookId: nat, renterName: string, today: int)
    requires Consistent(s)
    requires BookService.RentBook(s, bookId, renterName, today).Ok?
    ensures Consistent(BookService.RentBook(s, bookId, renterName, today).value)
  {
    var s' := BookService.RentBook(s, bookId, renterName, today).value;
    RentBookKeepsFlags(s, bookId, renterName, today);
    var id := s.nextRentalId;
    forall i, j | i in s'.rentals && j in s'.rentals && i != j
                  && s'.rentals[i].returnDate.None? && s'.rentals[j].returnDate.None?
      ensures s'.rentals[i].bookId != s'.rentals[j].bookId
    {
      if i == id {
        assert !OpenFor(s.rentals[j], bookId);
      } else if j == id {
        assert !OpenFor(s.rentals[i], bookId);
      }
    }
  }

  lemma ReturnBookKeepsConsistent(s: Store, bookId: nat, today: int)
    requires Consistent(s)
    requires BookService.ReturnBook(s, bookId, today).Ok?
    ensures Consistent(BookService.ReturnBook(s, bookId, today).value)
  {
    var s' := BookService.ReturnBook(s, bookId, today).value;
    var id :| Repositories.IsFirstOpen(s, bookId, id)
      && ReplacesOne(s.rentals, s'.rentals, id, s.rentals[id].(returnDate := Some(today)));
    forall b | b in s'.books
      ensures s'.books[b].available <==> !HasOpenRental(s', b)
    {
      if b == bookId {
        forall k | k in s'.rentals
          ensures !OpenFor(s'.rentals[k], b)
        {
          if k != id {
            assert s'.rentals[k] == s.rentals[k];
          }
        }
      } else {
        OtherBooksKeepOpenRentals(s, s', id, b);
      }
    }
  }

  /** Returning through book management needs the at-most-one-open-rental
      conjunct: with two open rentals of one book the flags stop matching. */
  lemma ReturnBookNeedsOneOpenRental()
    ensures var s := State(
        map[1 := Author("Tolkien", "")],
        map[1 := Book("The Hobbit", "", 1937, 1, false)],
        map[1 := Rental(1, "Alice", 1, None, false), 2 := Rental(1, "Bob", 1, None, false)],
        2, 2, 3);
      && Wf(s)
      && FlagsMatchRentals(s) && RentalsNameIssuedBooks(s) && !AtMostOneOpen(s)
      && BookService.ReturnBook(s, 1, 5).Ok?
      && !FlagsMatchRentals(BookService.ReturnBook(s, 1, 5).value)
  {
    var s: Store := State(
        map[1 := Author("Tolkien", "")],
        map[1 := Book("The Hobbit", "", 1937, 1, false)],
        map[1 := Rental(1, "Alice", 1, None, false), 2 := Rental(1, "Bob", 1, None, false)],
        2, 2, 3);
    assert OpenFor(s.rentals[1], 1);
    var s' := BookService.ReturnBook(s, 1, 5).value;
    assert s'.books[1].available;
    assert s'.rentals[2] == s.rentals[2];
    assert OpenFor(s'.rentals[2], 1);
  }

  lemma SweepKeepsConsistent(s: Store, today: int)
    requires Consistent(s)
    ensures Consistent(BookService.CheckForOverdueRentals(s, today))
  {
    var s' := BookService.CheckForOverdueRentals(s, today);
    forall b | b in s'.books
      ensures s'.books[b].available <==> !HasOpenRental(s', b)
    {
      if HasOpenRental(s, b) {
        var k :| k in s.rentals && OpenFor(s.rentals[k], b);
        assert OpenFor(s'.rentals[k], b);
      }
      if HasOpenRental(s', b) {
        var k :| k in s'.rentals && OpenFor(s'.rentals[k], b);
        assert OpenFor(s.rentals[k], b);
      }
    }
  }

  lemma AddBookKeepsConsistent(s: Store, title: string, isbn: string, year: int, authorId: nat)
    requires Consistent(s)
    requires BookService.AddBook(s, title, isbn, year, authorId).Ok?
    ensures Consistent(BookService.AddBook(s, title, isbn, year, authorId).value.store)
  {
    var c := BookService.AddBook(s, title, isbn, year, authorId).value;
    forall b | b in c.store.books
      ensures c.store.books[b].available <==> !HasOpenRental(c.store, b)
    {
      if b == c.id {
        forall k | k in c.store.rentals
          ensures !OpenFor(c.store.rentals[k], b)
        {
          assert c.store.rentals[k].bookId < s.nextBookId;
        }
      }
    }
  }

  lemma UpdateBookKeepsConsistent(s: Store, id: nat, title: string, isbn: string, year: int, authorId: nat)
    requires Consistent(s)
    requires BookService.UpdateBook(s, id, title, isbn, year, authorId).Ok?
    ensures Consistent(BookService.UpdateBook(s, id, title, isbn, year, authorId).value)
  {
  }

  lemma DeleteBookKeepsConsistent(s: Store, id: nat)
    requires Consistent(s)
    requires BookService.DeleteBook(s, id).Ok?
    ensures Consistent(BookService.DeleteBook(s, id).value)
  {
  }

  /** The author operations touch neither books nor rentals. */
  lemma AuthorOperationsKeepConsistent(s: Store, id: nat, name: string, biography: string)
    requires Consistent(s)
    ensures Consistent(AuthorService.AddAuthor(s, name, biography).store)
    ensures AuthorService.UpdateAuthor(s, id, name, biography).Ok? ==>
      Consistent(AuthorService.UpdateAuthor(s, id, name, biography).value)
    ensures AuthorService.DeleteAuthor(s, id).Ok? ==> Consistent(AuthorService.DeleteAuthor(s, id).value)
  {
  }

  /** Opening a rental of an available book through the direct endpoint
      leaves that book available with an open rental. */
  lemma DirectRentBreaksFlags(s: Store, bookId: nat, renterName: string, today: int)
    requires bookId in s.books && s.books[bookId].available
    ensures !FlagsMatchRentals(RentalService.RentBook(s, bookId, renterName, today).store)
  {
    var c := RentalService.RentBook(s, bookId, renterName, today);
    assert OpenFor(c.store.rentals[c.id], bookId);
  }

  /** In a consistent store, closing an open rental through the direct
      endpoint leaves its book unavailable with no open rental. */
  lemma DirectReturnBreaksFlags(s: Store, rentalId: nat, today: int)
    requires Consistent(s)
    requires rentalId in s.rentals && s.rentals[rentalId].returnDate.None?
    requires s.rentals[rentalId].bookId in s.books
    ensures RentalService.ReturnBook(s, rentalId, today).Ok?
    ensures !FlagsMatchRentals(RentalService.ReturnBook(s, rentalId, today).value)
  {
    var bookId := s.rentals[rentalId].bookId;
    assert OpenFor(s.rentals[rentalId], bookId);
    var s' := RentalService.ReturnBook(s, rentalId, today).value;
    forall k | k in s'.rentals
      ensures !OpenFor(s'.rentals[k], bookId)
    {
      if k != rentalId {
        assert s'.rentals[k] == s.rentals[k];
      }
    }
    assert !s'.books[bookId].available;
  }

  /** In a consistent store, renting through book management fails with
      AlreadyRented exactly when the book already has an open rental. */
  lemma AlreadyRentedIffOpen(s: Store, bookId: nat, renterName: string, today: int)
    requires Consistent(s)
    requires bookId in s.books
    ensures BookService.RentBook(s, bookId, renterName, today) == Err(AlreadyRented) <==> HasOpenRental(s, bookId)
  {
  }

  /** In a consistent store, the currently-rented listing names exactly the
      stored books that have an open rental. */
  lemma RentedListingMatchesOpenRentals(s: Store, id: nat)
    requires Consistent(s)
    requires id in s.books
    ensures Repositories.Listed(BookService.GetBooksCurrentlyRented(s), id) <==> HasOpenRental(s, id)
  {
    BookService.AvailableAndRentedPartition(s, id);
  }

  /** In a consistent store, returning a book just rented succeeds, closes the
      rental just opened, and restores the book table. */
  lemma RentThenReturn(s: Store, bookId: nat, renterName: string, today: int, later: int)
    requires Consistent(s)
    requires BookService.RentBook(s, bookId, renterName, today).Ok?
    ensures var rented := BookService.RentBook(s, bookId, renterName, today).value;
      var id := s.nextRentalId;
      && BookService.ReturnBook(rented, bookId, later).Ok?
      && BookService.ReturnBook(rented, bookId, later).value.books == s.books
      && ReplacesOne(rented.rentals, BookService.ReturnBook(rented, bookId, later).value.rentals,
                     id, Rental(bookId, renterName, today, Some(later), false))
  {
    var rented := BookService.RentBook(s, bookId, renterName, today).value;
    var id := s.nextRentalId;
    assert OpenFor(rented.rentals[id], bookId);
    var returned := BookService.ReturnBook(rented, bookId, later).value;
    var k :| Repositories.IsFirstOpen(rented, bookId, k)
      && ReplacesOne(rented.rentals, returned.rentals, k, rented.rentals[k].(returnDate := Some(later)));
    assert !HasOpenRental(s, bookId);
    assert k == id;
    assert returned.books == s.books;
  }
}
