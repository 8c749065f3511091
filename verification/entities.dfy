/**
 The records of the book-rental store (authors, books, rentals) and the store
 itself: three finite maps keyed by generated identity keys, together with the
 next key each identity column will hand out.
 */
module Entities {

  datatype Option<+T> = None | Some(value: T)

  /** The failures the services raise. `AlreadyRented` is the generic runtime
      failure of renting a book that is not available. */
  datatype Error = AuthorNotFound | BookNotFound | RentalNotFound | AlreadyRented

  datatype Result<+T> = Ok(value: T) | Err(error: Error)

  datatype Author = Author(name: string, biography: string)

  /** `authorId` is the key of the referenced author; nothing keeps it pointing
      at a stored author once that author is deleted. A new book is available. */
  datatype Book = Book(title: string, isbn: string, publicationYear: int, authorId: nat, available: bool)

  /** Dates are day numbers. `returnDate == None` means the rental is open.
      A new rental is not overdue. */
  datatype Rental = Rental(bookId: nat, renterName: string, rentalDate: int, returnDate: Option<int>, overdue: bool)

  datatype State = State(
    authors: map<nat, Author>,
    books: map<nat, Book>,
    rentals: map<nat, Rental>,
    nextAuthorId: nat,
    nextBookId: nat,
    nextRentalId: nat)

  predicate KeysBelow<V>(m: map<nat, V>, bound: nat) {
    forall id :: id in m ==> id < bound
  }

  /** The keys of `m` are among those an identity column starting at 1 has
      handed out before reaching `next`. */
  predicate KeysIssued<V>(m: map<nat, V>, next: nat) {
    1 <= next && forall id :: id in m ==> 1 <= id < next
  }

  /** Every stored key was handed out by its identity column, so the next key
      of each column is fresh. */
  predicate Wf(s: State) {
    && KeysIssued(s.authors, s.nextAuthorId)
    && KeysIssued(s.books, s.nextBookId)
    && KeysIssued(s.rentals, s.nextRentalId)
  }

  type Store = s: State | Wf(s) witness State(map[], map[], map[], 1, 1, 1)

  /** The empty store; each identity column hands out 1 first. */
  const EmptyStore: Store := State(map[], map[], map[], 1, 1, 1)

  /** `s'` has the same next key in every identity column as `s`. */
  predicate SameCounters(s: State, s': State) {
    s'.nextAuthorId == s.nextAuthorId && s'.nextBookId == s.nextBookId && s'.nextRentalId == s.nextRentalId
  }

  /** A store after an insertion, with the key the new record was saved under. */
  datatype Created = Created(store: Store, id: nat)

  /** An open rental of book `bookId`. */
  predicate OpenFor(r: Rental, bookId: nat) {
    r.bookId == bookId && r.returnDate.None?
  }

  ghost predicate HasOpenRental(s: State, bookId: nat) {
    exists id :: id in s.rentals && OpenFor(s.rentals[id], bookId)
  }

  // Frame conditions on one map of the store.

  /** `m'` is `m` with exactly one new entry `id -> v` under a key `m` did not use. */
  ghost predicate AddsOne<V>(m: map<nat, V>, m': map<nat, V>, id: nat, v: V) {
    && id !in m
    && m'.Keys == m.Keys + {id}
    && id in m' && m'[id] == v
    && forall k :: k in m ==> k in m' && m'[k] == m[k]
  }

  /** `m'` is `m` with the entry under the existing key `id` replaced by `v`. */
  ghost predicate ReplacesOne<V>(m: map<nat, V>, m': map<nat, V>, id: nat, v: V) {
    && id in m
    && m'.Keys == m.Keys
    && id in m' && m'[id] == v
    && forall k :: k in m && k != id ==> k in m' && m'[k] == m[k]
  }

  /** `m'` is `m` without the existing key `id`, every other entry kept. */
  ghost predicate RemovesOne<V>(m: map<nat, V>, m': map<nat, V>, id: nat) {
    && id in m
    && m'.Keys == m.Keys - {id}
    && forall k :: k in m' ==> k in m && m'[k] == m[k]
  }
}
