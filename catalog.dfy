/** The book catalog: lookup by id, whole-record replacement, removal, and the
    per-book effect of lending a copy out and taking it back. */
module Catalog {
  import opened Types
  import opened Seqs

  predicate HasBook(books: seq<Book>, id: Id) {
    exists i :: 0 <= i < |books| && books[i].id == id
  }

  predicate UniqueBookIds(books: seq<Book>) {
    forall i, j :: 0 <= i < j < |books| ==> books[i].id != books[j].id
  }

  /** The position of the first book with identifier `id`. */
  function BookIndex(books: seq<Book>, id: Id): (r: Option<nat>)
    ensures r.None? <==> !HasBook(books, id)
    ensures r.Some? ==> r.value < |books| && books[r.value].id == id
    ensures r.Some? ==> forall j :: 0 <= j < r.value ==> books[j].id != id
  {
    FirstIndex(books, (b: Book) => b.id == id)
  }

  /** With unique identifiers, the lookup finds each entry at its own position. */
  lemma BookIndexAt(books: seq<Book>, k: nat)
    requires UniqueBookIds(books) && k < |books|
    ensures BookIndex(books, books[k].id) == Some(k)
    ensures FindBook(books, books[k].id) == Some(books[k])
  {
    var r := BookIndex(books, books[k].id);
    assert r.Some?;
    assert r.value <= k;
  }

  /** The first book with identifier `id`, as `books.find` returns it. */
  function FindBook(books: seq<Book>, id: Id): (r: Option<Book>)
    ensures r.None? <==> !HasBook(books, id)
    ensures r.Some? ==> r.value in books && r.value.id == id
  {
    match BookIndex(books, id)
    case None => None
    case Some(k) => Some(books[k])
  }

  /** Every book whose identifier is `id` replaced by `updated`; the others kept. */
  function ReplaceBook(books: seq<Book>, id: Id, updated: Book): (r: seq<Book>)
    ensures |r| == |books|
    ensures forall i :: 0 <= i < |books| && books[i].id != id ==> r[i] == books[i]
    ensures forall i :: 0 <= i < |books| && books[i].id == id ==> r[i] == updated
    ensures !HasBook(books, id) ==> r == books
  {
    seq(|books|, i requires 0 <= i < |books| => if books[i].id == id then updated else books[i])
  }

  /** The catalog without the books whose identifier is `id`, in the same order. */
  function RemoveBook(books: seq<Book>, id: Id): (r: seq<Book>)
    ensures forall b :: b in r <==> b in books && b.id != id
    ensures |r| <= |books|
    ensures !HasBook(books, id) ==> r == books
  {
    Filter(books, (b: Book) => b.id != id)
  }

  lemma {:induction false} RemoveBookDropsOne(books: seq<Book>, id: Id)
    requires UniqueBookIds(books) && HasBook(books, id)
    ensures |RemoveBook(books, id)| == |books| - 1
  {
    if books[0].id == id {
      assert !HasBook(books[1..], id) by {
        forall i | 0 <= i < |books| - 1 ensures books[1..][i].id != id {
          assert books[i + 1].id != books[0].id;
        }
      }
    } else {
      var i :| 0 <= i < |books| && books[i].id == id;
      assert books[1..][i - 1].id == id;
      RemoveBookDropsOne(books[1..], id);
    }
  }

  /** With unique identifiers, deleting a present id cuts exactly that entry
      out of the catalog and keeps the others in their order. */
  lemma RemoveBookSplices(books: seq<Book>, id: Id)
    requires UniqueBookIds(books) && HasBook(books, id)
    ensures var k := BookIndex(books, id).value;
      RemoveBook(books, id) == books[..k] + books[k + 1..]
  {
    var k := BookIndex(books, id).value;
    assert forall i :: 0 <= i < |books| && i != k ==> books[i].id != books[k].id;
    FilterDropsOne(books, (b: Book) => b.id != id, k);
  }

  /** A new catalog entry: always marked available, whatever its quantity. */
  function NewBook(id: Id, details: BookDetails, quantity: int, borrowedBy: seq<UserId>): (b: Book)
    ensures b.id == id && b.details == details && b.available
    ensures b.quantity == quantity && b.borrowedBy == borrowedBy
  {
    Book(id, details, true, quantity, borrowedBy)
  }

  /** `s` with every occurrence of `x` filtered out. */
  function Without(s: seq<UserId>, x: UserId): (r: seq<UserId>)
    ensures x !in r
    ensures x !in s ==> r == s
  {
    Filter(s, (y: UserId) => y != x)
  }

  /** Filtering out `x` keeps every copy of every other borrower. */
  lemma WithoutKeepsOthers(s: seq<UserId>, x: UserId, y: UserId)
    requires y != x
    ensures multiset(Without(s, x))[y] == multiset(s)[y]
  {
    FilterMultiset(s, (u: UserId) => u != x, y);
  }

  /** Lending to `x` and then filtering `x` out gives back the list without `x`. */
  lemma WithoutAppended(s: seq<UserId>, x: UserId)
    ensures Without(s + [x], x) == Without(s, x)
  {
    FilterAppend(s, x, (u: UserId) => u != x);
  }

  /** The catalog entry after one copy is lent to `studentId`. */
  function LentCopy(b: Book, studentId: UserId): (r: Book)
    ensures r.id == b.id && r.details == b.details
    ensures r.quantity == b.quantity - 1
    ensures r.available <==> r.quantity > 0
    ensures r.borrowedBy == b.borrowedBy + [studentId]
  {
    b.(quantity := b.quantity - 1, available := b.quantity > 1, borrowedBy := b.borrowedBy + [studentId])
  }

  /** The catalog entry after `studentId` returns a copy: every occurrence of the
      student leaves the borrower list, and the book is marked available. */
  function ReturnedCopy(b: Book, studentId: UserId): (r: Book)
    ensures r.id == b.id && r.details == b.details
    ensures r.quantity == b.quantity + 1 && r.available
    ensures studentId !in r.borrowedBy
    ensures r.borrowedBy == Without(b.borrowedBy, studentId)
  {
    b.(quantity := b.quantity + 1, available := true, borrowedBy := Without(b.borrowedBy, studentId))
  }
}
