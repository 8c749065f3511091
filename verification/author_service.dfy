/**
 Author management: list, create, update and delete authors. Deleting an
 author does not look at the books that still name it.
 */
module AuthorService {
  import opened Entities
  import Repositories

  /** Every stored author once, with key, name and biography copied verbatim. */
  function GetAllAuthors(s: Store): (r: seq<Repositories.Entry<Author>>)
    ensures Repositories.ListsExactly(r, s.authors)
  {
    Repositories.FindAll(s.authors, s.nextAuthorId)
  }

  /** Stores a new author under a fresh key and reports that key. */
  function AddAuthor(s: Store, name: string, biography: string): (r: Created)
    ensures AddsOne(s.authors, r.store.authors, r.id, Author(name, biography))
    ensures r.id == s.nextAuthorId && r.store.nextAuthorId == s.nextAuthorId + 1
    ensures r.store.nextBookId == s.nextBookId && r.store.nextRentalId == s.nextRentalId
    ensures r.store.books == s.books && r.store.rentals == s.rentals
  {
    var id := s.nextAuthorId;
    Created(s.(authors := s.authors[id := Author(name, biography)], nextAuthorId := id + 1), id)
  }

  function UpdateAuthor(s: Store, id: nat, name: string, biography: string): (r: Result<Store>)
    ensures id !in s.authors <==> r == Err(AuthorNotFound)
    ensures r.Ok? <==> id in s.authors
    ensures r.Ok? ==> SameCounters(s, r.value)
    ensures r.Ok? ==> ReplacesOne(s.authors, r.value.authors, id, Author(name, biography))
    ensures r.Ok? ==> r.value.books == s.books && r.value.rentals == s.rentals
  {
    if id !in s.authors then Err(AuthorNotFound)
    else Ok(s.(authors := s.authors[id := Author(name, biography)]))
  }

  /** Removes the author; books that name it keep the now dangling key. */
  function DeleteAuthor(s: Store, id: nat): (r: Result<Store>)
    ensures id !in s.authors <==> r == Err(AuthorNotFound)
    ensures r.Ok? <==> id in s.authors
    ensures r.Ok? ==> SameCounters(s, r.value)
    ensures r.Ok? ==> RemovesOne(s.authors, r.value.authors, id)
    ensures r.Ok? ==> r.value.books == s.books && r.value.rentals == s.rentals
  {
    if id !in s.authors then Err(AuthorNotFound)
    else Ok(s.(authors := s.authors - {id}))
  }

  /** Deleting an author right after creating it restores the author table. */
  lemma AddThenDeleteAuthor(s: Store, name: string, biography: string)
    ensures var c := AddAuthor(s, name, biography);
      && DeleteAuthor(c.store, c.id).Ok?
      && DeleteAuthor(c.store, c.id).value.authors == s.authors
  {
    var c := AddAuthor(s, name, biography);
    assert DeleteAuthor(c.store, c.id).value.authors == s.authors;
  }
}
