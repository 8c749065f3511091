/**
 End-to-end runs of the services on concrete stores: the rent/return cycle of a
 single book, deleting an author a book still names, and the sweep flagging a
 rental that was already returned.
 */
module Scenarios {
  import opened Entities
  import AuthorService
  import BookService
  import RentalService

  /** Create an author and a book, rent it, fail to rent it again, return it,
      fail to return it again. Days are numbered from 100. */
  lemma RentReturnCycle()
    ensures var a := AuthorService.AddAuthor(EmptyStore, "Tolkien", "");
      var b := BookService.AddBook(a.store, "The Hobbit", "", 1937, a.id);
      && a.id == 1
      && b.Ok? && b.value.id == 1 && b.value.store.books[1].available
      && var rented := BookService.RentBook(b.value.store, 1, "Alice", 100);
      && rented.Ok? && !rented.value.books[1].available
      && BookService.RentBook(rented.value, 1, "Bob", 101) == Err(AlreadyRented)
      && var returned := BookService.ReturnBook(rented.value, 1, 110);
      && returned.Ok? && returned.value.books[1].available
      && returned.value.rentals[1].returnDate == Some(110)
      && BookService.ReturnBook(returned.value, 1, 111) == Err(RentalNotFound)
  {
    var a := AuthorService.AddAuthor(EmptyStore, "Tolkien", "");
    var b := BookService.AddBook(a.store, "The Hobbit", "", 1937, a.id);
    var rented := BookService.RentBook(b.value.store, 1, "Alice", 100);
    assert OpenFor(rented.value.rentals[1], 1);
    var returned := BookService.ReturnBook(rented.value, 1, 110);
    assert returned.value.rentals.Keys == {1};
    assert !HasOpenRental(returned.value, 1);
  }

  /** Deleting an author that a book still names succeeds and leaves the book
      pointing at the deleted key. */
  lemma DeleteReferencedAuthor()
    ensures var a := AuthorService.AddAuthor(EmptyStore, "Tolkien", "");
      var b := BookService.AddBook(a.store, "The Hobbit", "", 1937, a.id);
      && b.Ok?
      && var d := AuthorService.DeleteAuthor(b.value.store, a.id);
      && d.Ok? && a.id !in d.value.authors
      && b.value.id in d.value.books && d.value.books[b.value.id].authorId == a.id
  {
  }

  /** A rental returned on time is still flagged by a sweep run after its due date. */
  lemma SweepFlagsReturnedRental()
    ensures var a := AuthorService.AddAuthor(EmptyStore, "Tolkien", "");
      var b := BookService.AddBook(a.store, "The Hobbit", "", 1937, a.id);
      && b.Ok?
      && var rented := BookService.RentBook(b.value.store, 1, "Alice", 100);
      && rented.Ok?
      && var returned := BookService.ReturnBook(rented.value, 1, 105);
      && returned.Ok?
      && var swept := BookService.CheckForOverdueRentals(returned.value, 115);
      && swept.rentals[1].returnDate == Some(105) && swept.rentals[1].overdue
  {
    var a := AuthorService.AddAuthor(EmptyStore, "Tolkien", "");
    var b := BookService.AddBook(a.store, "The Hobbit", "", 1937, a.id);
    var rented := BookService.RentBook(b.value.store, 1, "Alice", 100);
    assert OpenFor(rented.value.rentals[1], 1);
    var returned := BookService.ReturnBook(rented.value, 1, 105);
    assert returned.value.rentals.Keys == {1};
  }

  /** The direct endpoint rents the same book twice: two open rentals, and the
      book still shown as available. */
  lemma DirectRentTwice()
    ensures var a := AuthorService.AddAuthor(EmptyStore, "Tolkien", "");
      var b := BookService.AddBook(a.store, "The Hobbit", "", 1937, a.id);
      && b.Ok?
      && var first := RentalService.RentBook(b.value.store, 1, "Alice", 100);
      && var second := RentalService.RentBook(first.store, 1, "Bob", 101);
      && first.id != second.id
      && OpenFor(second.store.rentals[first.id], 1) && OpenFor(second.store.rentals[second.id], 1)
      && second.store.books[1].available
  {
  }
}
