/**
 The direct rental endpoints: a second way to open and close rentals that never
 looks at, or changes, the availability flag of the book.
 */
module RentalService {
  import opened Entities
  import Repositories

  /** Every stored rental once, all fields copied verbatim. */
  function GetAllRentals(s: Store): (r: seq<Repositories.Entry<Rental>>)
    ensures Repositories.ListsExactly(r, s.rentals)
  {
    Repositories.FindAll(s.rentals, s.nextRentalId)
  }

  /** Opens a rental of `bookId` dated `today` under a fresh key. The book is
      neither looked up nor marked unavailable. */
  function RentBook(s: Store, bookId: nat, renterName: string, today: int): (r: Created)
    ensures AddsOne(s.rentals, r.store.rentals, r.id, Rental(bookId, renterName, today, None, false))
    ensures r.id == s.nextRentalId && r.store.nextRentalId == s.nextRentalId + 1
    ensures r.store.nextAuthorId == s.nextAuthorId && r.store.nextBookId == s.nextBookId
    ensures r.store.books == s.books && r.store.authors == s.authors
  {
    var id := s.nextRentalId;
    var rental := Rental(bookId, renterName, today, None, false);
    Created(s.(rentals := s.rentals[id := rental], nextRentalId := id + 1), id)
  }

  /** Stamps `today` as the return date of the rental, whether or not it was
      already returned. The book's availability is left alone. */
  function ReturnBook(s: Store, rentalId: nat, today: int): (r: Result<Store>)
    ensures rentalId !in s.rentals <==> r == Err(RentalNotFound)
    ensures r.Ok? <==> rentalId in s.rentals
    ensures r.Ok? ==> SameCounters(s, r.value)
    ensures r.Ok? ==> ReplacesOne(s.rentals, r.value.rentals, rentalId, s.rentals[rentalId].(returnDate := Some(today)))
    ensures r.Ok? ==> r.value.books == s.books && r.value.authors == s.authors
  {
    if rentalId !in s.rentals then Err(RentalNotFound)
    else Ok(s.(rentals := s.rentals[rentalId := s.rentals[rentalId].(returnDate := Some(today))]))
  }
}
