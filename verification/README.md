# Book rental: a Dafny model of the rental lifecycle

This project models the service layer of a library book-rental service. The
service keeps three tables: authors, books and rentals. Each record lives under
a key handed out by its table's identity column. On top of these tables sit
three services:

- **Author management** lists, creates, updates and deletes authors.
- **Book management** creates, updates, deletes and lists books. It also rents
  and returns a book, which changes both a rental and the book's availability
  flag. Its overdue sweep flags every rental whose rental date is more than 14
  days before today, returned or not.
- **The rental endpoints** open and close rentals directly. They never look at
  the book's availability flag.

The store is an immutable value: `Entities.State` is three finite maps plus the
next key of each identity column. `Entities.Store` is the subset of states
whose keys all lie between 1 and their column's next key (exclusive), which is
what identity columns starting at 1 guarantee. Every operation that stores no
new record keeps all three next keys; a creation advances only its own column's
next key. So no key is ever handed out twice. Each service operation is a pure function from a store to a
`Result`. The result is either the new store (or the listing) or one of the
errors `AuthorNotFound`, `BookNotFound`, `RentalNotFound` or
`AlreadyRented`. A failed operation produces no new store, so it changes
nothing. The current date is an explicit day number `today`. "Due date is
before today" becomes `today > rentalDate + 14`.

Modules: `Entities` (records, store, frame predicates), `Repositories` (the
`findAll` scan and the derived queries), `AuthorService`, `BookService`,
`RentalService`, `Availability` (the cross-entity invariant) and `Scenarios`
(concrete end-to-end runs).

The invariant "a book is available exactly when it has no open rental"
(`Availability.FlagsMatchRentals`) is kept by book management's rent.
Book management's return does not keep it on its own. If a book has two open
rentals, closing the first makes the book available while the second is still
open; `Availability.ReturnBookNeedsOneOpenRental` exhibits such a store. The
invariant proved preserved, `Availability.Consistent`, adds two conjuncts: at
most one open rental per book, and rentals name only book keys already handed
out. The direct rental endpoints can break it: renting an available stored
book, or returning an open rental of a stored book, leaves the flag wrong
(`Availability.DirectRentBreaksFlags`, `Availability.DirectReturnBreaksFlags`).

## Model

| member | source | states |
|---|---|---|
| Repositories.FindAll | book-rental/src/main/java/com/library/bookrental/services/BookService.java:37-40 | `findAll` lists every record of a table exactly once, verbatim, by ascending key |
| Repositories.FindBooks | book-rental/src/main/java/com/library/bookrental/repositories/BookRepository.java:11-15 | the derived book queries return exactly the stored books with the given availability or author, each once |
| Repositories.FirstOpenFrom | book-rental/src/main/java/com/library/bookrental/repositories/RentalRepository.java:9 | the search finds an open rental of the book in a key range when one exists, and then the one with the least key |
| Repositories.FindFirstOpenRental | book-rental/src/main/java/com/library/bookrental/repositories/RentalRepository.java:9 | `findFirstByBookBookIdAndReturnDateIsNull` is empty exactly when the book has no open rental; otherwise it names an open rental of that book with the least key |
| AuthorService.GetAllAuthors | book-rental/src/main/java/com/library/bookrental/services/AuthorService.java:20-25 | one entry per stored author, with key, name and biography copied verbatim |
| AuthorService.AddAuthor | book-rental/src/main/java/com/library/bookrental/services/AuthorService.java:27-38 | a new author with exactly the given name and biography under the author column's next key, which then advances while the book and rental columns' next keys stay put; existing authors, books and rentals unchanged |
| AuthorService.UpdateAuthor | book-rental/src/main/java/com/library/bookrental/services/AuthorService.java:40-55 | fails with AuthorNotFound exactly when the key is absent and succeeds exactly when it is present; then only that author's name and biography change, under the same key, and no column's next key moves |
| AuthorService.DeleteAuthor | book-rental/src/main/java/com/library/bookrental/services/AuthorService.java:57-69 | fails with AuthorNotFound exactly when the key is absent and succeeds exactly when it is present; then removes exactly that author, leaves books naming it untouched, and no column's next key moves |
| AuthorService.AddThenDeleteAuthor | book-rental/src/main/java/com/library/bookrental/services/AuthorService.java:27-69 | deleting an author right after creating it succeeds and restores the author table |
| BookService.GetAllBooks | book-rental/src/main/java/com/library/bookrental/services/BookService.java:37-40 | one entry per stored book, copied verbatim |
| BookService.AddBook | book-rental/src/main/java/com/library/bookrental/services/BookService.java:42-55 | fails with AuthorNotFound exactly when the author is absent and succeeds exactly when it is present; then adds one available book with the given fields under the book column's next key, which then advances, and changes nothing else, the other columns' next keys included |
| BookService.UpdateBook | book-rental/src/main/java/com/library/bookrental/services/BookService.java:57-76 | BookNotFound for an absent book, checked first; then AuthorNotFound for an absent author; otherwise the book keeps key and availability and gets exactly the new title, ISBN, year and author, and no column's next key moves |
| BookService.DeleteBook | book-rental/src/main/java/com/library/bookrental/services/BookService.java:78-85 | fails with BookNotFound exactly when absent and succeeds exactly when present; then removes exactly that book, keeps its rentals, and no column's next key moves |
| BookService.GetBooksByAuthor | book-rental/src/main/java/com/library/bookrental/services/BookService.java:87-93 | fails with AuthorNotFound exactly when the author is absent and succeeds exactly when it is present; then lists exactly the books naming that author, each once |
| BookService.GetBooksAvailableForRent | book-rental/src/main/java/com/library/bookrental/services/BookService.java:95-98 | lists exactly the books whose availability flag is set, each once |
| BookService.GetBooksCurrentlyRented | book-rental/src/main/java/com/library/bookrental/services/BookService.java:100-103 | lists exactly the books whose availability flag is clear, each once |
| BookService.RentBook | book-rental/src/main/java/com/library/bookrental/services/BookService.java:105-122 | BookNotFound for an absent book; AlreadyRented for an unavailable one; otherwise exactly one new rental (this book, this renter, dated today, not returned, not overdue) under the rental column's next key, which then advances, and the book becomes unavailable with its other fields unchanged; authors and the other columns' next keys unchanged |
| BookService.ReturnBook | book-rental/src/main/java/com/library/bookrental/services/BookService.java:124-136 | BookNotFound for an absent book; RentalNotFound when it has no open rental; otherwise the first open rental of the book gets return date today, the book becomes available, and nothing else changes, the three columns' next keys included |
| BookService.CheckForOverdueRentals | book-rental/src/main/java/com/library/bookrental/services/BookService.java:138-153 | a rental's overdue flag afterwards is set iff it was set or today is after rental date plus 14 days, whether returned or not (the 14 days are `BookService.RentalPeriodDays`, the named constant at BookService.java line 26, and the test is `BookService.IsPastDue`); no other field, table or next key changes |
| BookService.SweepRentals | book-rental/src/main/java/com/library/bookrental/services/BookService.java:138-153 | the loop over `findAll` that saves each past-due rental ends in exactly the state the sweep describes |
| BookService.SweepIdempotent | book-rental/src/main/java/com/library/bookrental/services/BookService.java:138-153 | sweeping twice with the same date gives the same store as sweeping once |
| BookService.SweepMonotoneInDate | book-rental/src/main/java/com/library/bookrental/services/BookService.java:143-146 | a rental flagged by a sweep on some date is flagged by a sweep on any later date |
| BookService.AddThenUpdate | book-rental/src/main/java/com/library/bookrental/services/BookService.java:42-76 | updating a book just created succeeds when the new author exists, keeps the book's key and availability, and stores the new fields verbatim |
| BookService.AddThenDeleteBook | book-rental/src/main/java/com/library/bookrental/services/BookService.java:42-85 | deleting a book right after creating it succeeds and restores the book table |
| BookService.AvailableAndRentedPartition | book-rental/src/main/java/com/library/bookrental/services/BookService.java:95-103 | every stored book is listed as available for rent exactly when its flag is set, and as currently rented exactly when it is clear |
| RentalService.GetAllRentals | book-rental/src/main/java/com/library/bookrental/services/RentalService.java:25-29 | one entry per stored rental, all fields copied verbatim |
| RentalService.RentBook | book-rental/src/main/java/com/library/bookrental/services/RentalService.java:31-44 | exactly one new rental under the rental column's next key, which then advances while the author and book columns' next keys stay put, with the given book and renter, dated today, not returned, not overdue; books (availability included) and authors unchanged |
| RentalService.ReturnBook | book-rental/src/main/java/com/library/bookrental/services/RentalService.java:46-62 | fails with RentalNotFound exactly when the key is absent and succeeds exactly when it is present; then that rental alone gets return date today, even if it was already returned; books, authors and every column's next key unchanged |
| Availability.RentBookKeepsFlags | book-rental/src/main/java/com/library/bookrental/services/BookService.java:105-122 | if every book is available exactly when it has no open rental, this still holds after a successful book-management rent |
| Availability.RentBookKeepsConsistent | book-rental/src/main/java/com/library/bookrental/services/BookService.java:105-122 | a successful book-management rent keeps flags matching rentals, at most one open rental per book, and rentals naming issued book keys |
| Availability.AlreadyRentedIffOpen | book-rental/src/main/java/com/library/bookrental/services/BookService.java:105-111 | in a consistent store, renting an existing book fails with AlreadyRented exactly when it has an open rental |
| Availability.RentedListingMatchesOpenRentals | book-rental/src/main/java/com/library/bookrental/services/BookService.java:100-103 | in a consistent store, the currently-rented listing names exactly the books with an open rental |
| Availability.ReturnBookKeepsConsistent | book-rental/src/main/java/com/library/bookrental/services/BookService.java:124-136 | a successful book-management return keeps the same three-part invariant |
| Availability.ReturnBookNeedsOneOpenRental | book-rental/src/main/java/com/library/bookrental/services/BookService.java:124-136 | a store where flags match rentals but a book has two open rentals, on which a successful return leaves the book available with an open rental |
| Availability.RentThenReturn | book-rental/src/main/java/com/library/bookrental/services/BookService.java:105-136 | in a consistent store, returning a book just rented succeeds, closes exactly the rental just opened with the return date, and restores the book table |
| Availability.SweepKeepsConsistent | book-rental/src/main/java/com/library/bookrental/services/BookService.java:138-153 | the overdue sweep keeps the invariant |
| Availability.AddBookKeepsConsistent | book-rental/src/main/java/com/library/bookrental/services/BookService.java:42-55 | creating a book keeps the invariant: the fresh book has no rentals |
| Availability.UpdateBookKeepsConsistent | book-rental/src/main/java/com/library/bookrental/services/BookService.java:57-76 | updating a book keeps the invariant |
| Availability.DeleteBookKeepsConsistent | book-rental/src/main/java/com/library/bookrental/services/BookService.java:78-85 | deleting a book keeps the invariant |
| Availability.AuthorOperationsKeepConsistent | book-rental/src/main/java/com/library/bookrental/services/AuthorService.java:27-69 | creating, updating and deleting authors keep the invariant |
| Availability.DirectRentBreaksFlags | book-rental/src/main/java/com/library/bookrental/services/RentalService.java:31-44 | for every store in which the book is stored and available, a direct rental of it leaves the book available with an open rental |
| Availability.DirectReturnBreaksFlags | book-rental/src/main/java/com/library/bookrental/services/RentalService.java:46-62 | for every consistent store and every open rental whose book is stored, a direct return of it succeeds and leaves the book unavailable with no open rental |
| Scenarios.RentReturnCycle | book-rental/src/main/java/com/library/bookrental/services/BookService.java:105-136 | create author and book; rent succeeds and clears the flag; a second rent fails with AlreadyRented; return succeeds and sets the flag; a second return fails with RentalNotFound |
| Scenarios.DeleteReferencedAuthor | book-rental/src/main/java/com/library/bookrental/services/AuthorService.java:57-69 | deleting an author a book still names succeeds and the book keeps the dangling author key |
| Scenarios.SweepFlagsReturnedRental | book-rental/src/main/java/com/library/bookrental/services/BookService.java:138-153 | a rental returned within the period is still flagged overdue by a sweep after its due date |
| Scenarios.DirectRentTwice | book-rental/src/main/java/com/library/bookrental/services/RentalService.java:31-44 | the direct endpoint opens two rentals of one book while the book stays available |

## Left out

- HTTP controllers, API documentation, logging and the DTO classes. A listed record is an `Entry(id, record)`. For a rental, the entry carries the book's key, not a copy of the book.
- Persistence mechanics. The tables are finite maps, and identity keys come from per-table counters. Foreign-key constraints the database might enforce on delete are not modelled. So deleting an author or book always succeeds and leaves dangling keys, as the service code itself does.
- The JPA cascade settings on a rental's book. The direct rental endpoint is modelled as storing the given book key only. A null book, or a DTO book without a key, is not modelled.
- `LocalDate.now()`: the date is the `today` parameter (a day number). Calendar arithmetic reduces to adding 14 days.
- Atomicity and concurrency. Rent and return write two rows without a transaction in the source. Each operation here is one atomic transition.
- Keys are `nat`, and each identity column hands out 1 first. A key of 0 or below can never be found in the source either.
- Generic failures the source only logs and rethrows, such as storage exceptions. The one generic failure with a domain meaning, renting an unavailable book, is `AlreadyRented`.
- Repositories.FindFirstOpenRental: the source leaves the order of "first" unspecified. The model picks the open rental with the least key.
- Repositories.FindAll: the source leaves listing order to the storage engine. The model lists by ascending key.
- `models/Author.java` is not part of this model. The author record's fields are taken from `AuthorDTO`.
