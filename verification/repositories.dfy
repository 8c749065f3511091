/**
 The repository queries the services rely on: `findAll`, the derived book
 queries (`findByAvailableTrue`, `findByAvailableFalse`, `findByAuthor`) and the
 derived rental query `findFirstByBookBookIdAndReturnDateIsNull`. A listing is
 produced in ascending key order, the order of a primary-key scan.
 */
module Repositories {
  import opened Entities

  /** One listed record together with its key (the shape of the DTOs). */
  datatype Entry<V> = Entry(id: nat, record: V)

  ghost predicate Listed<V>(r: seq<Entry<V>>, id: nat) {
    exists i :: 0 <= i < |r| && r[i].id == id
  }

  ghost predicate Ascending<V>(r: seq<Entry<V>>) {
    forall i, j :: 0 <= i < j < |r| ==> r[i].id < r[j].id
  }

  /** `r` lists every entry of `m` exactly once, copied verbatim, by ascending key. */
  ghost predicate ListsExactly<V>(r: seq<Entry<V>>, m: map<nat, V>) {
    && (forall i :: 0 <= i < |r| ==> r[i].id in m && r[i].record == m[r[i].id])
    && (forall id :: id in m ==> Listed(r, id))
    && Ascending(r)
  }

  /** The entries of `m` whose keys lie in `[lo, hi)`, by ascending key. */
  function ScanFrom<V>(m: map<nat, V>, lo: nat, hi: nat): (r: seq<Entry<V>>)
    ensures forall i :: 0 <= i < |r| ==> lo <= r[i].id < hi && r[i].id in m && r[i].record == m[r[i].id]
    ensures forall id :: lo <= id < hi && id in m ==> Listed(r, id)
    ensures Ascending(r)
    decreases hi - lo
  {
    if lo >= hi then []
    else
      var rest := ScanFrom(m, lo + 1, hi);
      if lo in m then
        PrependKeepsListed(Entry(lo, m[lo]), rest, lo + 1, hi);
        [Entry(lo, m[lo])] + rest
      else
        rest
  }

  /** Putting an entry with a smaller key in front of an ascending listing of
      the keys in `[lo, hi)` keeps it ascending and keeps every listed key. */
  lemma PrependKeepsListed<V>(e: Entry<V>, rest: seq<Entry<V>>, lo: nat, hi: nat)
    requires e.id < lo
    requires forall i :: 0 <= i < |rest| ==> lo <= rest[i].id < hi
    requires Ascending(rest)
    ensures Ascending([e] + rest)
    ensures Listed([e] + rest, e.id)
    ensures forall id :: Listed(rest, id) ==> Listed([e] + rest, id)
  {
    var r := [e] + rest;
    assert r[0].id == e.id;
    forall id | Listed(rest, id)
      ensures Listed(r, id)
    {
      var i :| 0 <= i < |rest| && rest[i].id == id;
      assert r[i + 1].id == id;
    }
  }

  /** `findAll`: every record of a table whose keys are all below `hi`. */
  function FindAll<V>(m: map<nat, V>, hi: nat): (r: seq<Entry<V>>)
    requires KeysBelow(m, hi)
    ensures ListsExactly(r, m)
  {
    ScanFrom(m, 0, hi)
  }

  /** The condition of a derived book query. */
  datatype BookQuery = AvailableIs(flag: bool) | WrittenBy(authorId: nat)

  predicate Matches(b: Book, q: BookQuery) {
    match q
    case AvailableIs(flag) => b.available == flag
    case WrittenBy(authorId) => b.authorId == authorId
  }

  /** `findByAvailableTrue`, `findByAvailableFalse` and `findByAuthor`: exactly
      the stored books satisfying `q`, each once, by ascending key. */
  function FindBooks(s: Store, q: BookQuery): (r: seq<Entry<Book>>)
    ensures forall i :: 0 <= i < |r| ==> r[i].id in s.books && r[i].record == s.books[r[i].id] && Matches(r[i].record, q)
    ensures forall id :: id in s.books && Matches(s.books[id], q) ==> Listed(r, id)
    ensures Ascending(r)
  {
    FindAll(map id | id in s.books && Matches(s.books[id], q) :: s.books[id], s.nextBookId)
  }

  /** The least key in `[lo, hi)` of an open rental of `bookId`, if any. */
  function FirstOpenFrom(rentals: map<nat, Rental>, bookId: nat, lo: nat, hi: nat): (r: Option<nat>)
    ensures r.Some? ==> lo <= r.value < hi && r.value in rentals && OpenFor(rentals[r.value], bookId)
    ensures r.Some? ==> forall k :: lo <= k < r.value && k in rentals ==> !OpenFor(rentals[k], bookId)
    ensures r.None? ==> forall k :: lo <= k < hi && k in rentals ==> !OpenFor(rentals[k], bookId)
    decreases hi - lo
  {
    if lo >= hi then None
    else if lo in rentals && OpenFor(rentals[lo], bookId) then Some(lo)
    else FirstOpenFrom(rentals, bookId, lo + 1, hi)
  }

  /** The open rental of `bookId` with the least key: the only rental whose
      key is below every other open rental of that book. */
  ghost predicate IsFirstOpen(s: State, bookId: nat, id: nat) {
    && id in s.rentals
    && OpenFor(s.rentals[id], bookId)
    && forall k :: k in s.rentals && OpenFor(s.rentals[k], bookId) ==> id <= k
  }

  /** `findFirstByBookBookIdAndReturnDateIsNull`: some open rental of the book
      exactly when one exists, and then the one with the least key. */
  function FindFirstOpenRental(s: Store, bookId: nat): (r: Option<nat>)
    ensures r.None? <==> !HasOpenRental(s, bookId)
    ensures r.Some? ==> IsFirstOpen(s, bookId, r.value)
  {
    FirstOpenFrom(s.rentals, bookId, 0, s.nextRentalId)
  }
}
